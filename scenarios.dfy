module Scenarios {
  import opened PyStr
  import opened CodeBlocks
  import opened BlockChecker

  /** A small Markdown file: a python block that is re-opened by an
      indented "```python3" line and closed by a "```js" fence. */
  const Sample: seq<string> := ["```python\n", "x = 1\n", "  ```python3\n", "import autogen_core\n", "```js\n"]

  lemma SampleOpeners()
    ensures IsOpener(Sample[0]) && IsOpener(Sample[2])
  {
    assert Strip(Sample[0]) == "```python";
    assert Strip(Sample[2]) == "```python3";
  }

  lemma SampleContent()
    ensures !IsFence(Sample[1]) && !IsFence(Sample[3])
  {
    assert Strip(Sample[1]) == "x = 1";
    assert Strip(Sample[3]) == "import autogen_core";
  }

  lemma SampleCloser()
    ensures IsFence(Sample[4]) && !IsOpener(Sample[4])
  {
    assert Strip(Sample[4]) == "```js";
  }

  /** Five lines shaped opener, content, opener, content, closing fence
      give exactly one block: the first opener's content is discarded and
      the block starts on line 4, the line after the second opener. */
  lemma ReopenedAndClosedByAnyFence(lines: seq<string>)
    requires |lines| == 5
    requires IsOpener(lines[0]) && !IsFence(lines[1])
    requires IsOpener(lines[2]) && !IsFence(lines[3])
    requires IsFence(lines[4]) && !IsOpener(lines[4])
    ensures PythonBlocks(lines) == [CodeBlock(lines[3], 4)]
  {
    assert IsBlockAt(lines, 2, 4);
    ReopenDiscardsPending(lines, 0, 2, 4);
    OneLineBlock(lines, 2);
  }

  /** An opener directly followed by one content line and a fence holds
      just that line, starting on the line after the opener. */
  lemma OneLineBlock(lines: seq<string>, j: nat)
    requires j + 2 < |lines|
    ensures BlockBetween(lines, j, j + 2) == CodeBlock(lines[j + 1], j + 2)
  {
    assert lines[j + 1..j + 2] == [lines[j + 1]];
  }

  /** The sample has that shape, so its one block is the line that
      imports `autogen_core`, with its newline. */
  lemma SampleBlocks()
    ensures PythonBlocks(Sample) == [CodeBlock("import autogen_core\n", 4)]
  {
    SampleOpeners();
    SampleContent();
    SampleCloser();
    ReopenedAndClosedByAnyFence(Sample);
  }

  /** The sample's block names a watched module, so it is handed to
      pyright. */
  lemma SampleBlockIsChecked()
    ensures !Ignored("import autogen_core\n")
  {
    var text := "import autogen_core\n";
    assert OccursAt(text, "autogen_core", 7);
    ContainsIffOccurs(text, "autogen_core");
  }

  /** The sample file, under the path `docs/index.md`. */
  const SampleFiles: seq<MarkdownFile> := [MarkdownFile("docs/index.md", Sample)]

  lemma SampleBlockTexts()
    ensures CheckedTexts(PythonBlocks(Sample)) == ["import autogen_core\n"]
  {
    var block := CodeBlock("import autogen_core\n", 4);
    SampleBlocks();
    SampleBlockIsChecked();
    assert [block][..0] == [];
  }

  lemma SampleTexts(pyright: string -> PyrightRun)
    ensures AllCheckedTexts(SampleFiles) == ["import autogen_core\n"]
    ensures FilesWithErrors(SampleFiles, pyright) ==
            if Fails(pyright("import autogen_core\n")) then ["docs/index.md"] else []
  {
    var block := CodeBlock("import autogen_core\n", 4);
    SampleBlockTexts();
    SampleBlocks();
    SampleBlockIsChecked();
    assert [block][..0] == [];
    assert SampleFiles[..0] == [];
    assert SampleFiles[0].lines == Sample;
  }

  /** A run over the sample file alone: when pyright rejects the block
      (any non-zero exit code), the file is reported; when it accepts it,
      the run passes; when it is missing, the run stops with that error. */
  lemma SampleRun(pyright: string -> PyrightRun)
    ensures Fails(pyright("import autogen_core\n")) ==> Outcome(SampleFiles, pyright) == SyntaxErrors(["docs/index.md"])
    ensures pyright("import autogen_core\n") == Exited(0) ==> Outcome(SampleFiles, pyright) == Passed
    ensures pyright("import autogen_core\n") == NotInstalled ==> Outcome(SampleFiles, pyright) == PyrightMissing
  {
    SampleTexts(pyright);
    var texts := ["import autogen_core\n"];
    assert MissingFor(texts, pyright) <==> pyright(texts[0]).NotInstalled?;
  }

  /** A python opener inside a block of another language still opens a
      python block: the scan keeps no state for other languages. Five lines
      shaped fence, opener, content, fence, fence give one block, the
      content line, starting on line 3. */
  lemma OpenerInsideOtherBlock(lines: seq<string>)
    requires |lines| == 5
    requires IsFence(lines[0]) && !IsOpener(lines[0])
    requires IsOpener(lines[1]) && !IsFence(lines[2])
    requires IsFence(lines[3]) && !IsOpener(lines[3])
    requires IsFence(lines[4]) && !IsOpener(lines[4])
    ensures PythonBlocks(lines) == [CodeBlock(lines[2], 3)]
  {
    FirstFourLines(lines);
    BlocksUpToStep(lines, 4);
    BlocksUpToStep(lines, 5);
  }

  lemma FirstFourLines(lines: seq<string>)
    requires 4 <= |lines|
    requires IsOpener(lines[1]) && !IsFence(lines[2])
    requires IsFence(lines[3]) && !IsOpener(lines[3])
    ensures BlocksUpTo(lines, 4) == [CodeBlock(lines[2], 3)]
  {
    assert IsBlockAt(lines, 1, 3);
    ExactlyOneBlock(lines, 1, 3);
    BlocksUpToStep(lines, 1);
    OneLineBlock(lines, 1);
  }

  /** A "````markdown" block that shows a python block as an example. */
  const Nested: seq<string> := ["````markdown\n", "```python\n", "x = 1\n", "```\n", "````\n"]

  lemma NestedOuterFences()
    ensures IsFence(Nested[0]) && !IsOpener(Nested[0])
    ensures IsFence(Nested[4]) && !IsOpener(Nested[4])
  {
    assert Strip(Nested[0]) == "````markdown";
    assert Strip(Nested[0])[3] != PythonFence[3];
    assert Strip(Nested[4]) == "````";
  }

  lemma NestedInnerLines()
    ensures IsOpener(Nested[1]) && !IsFence(Nested[2])
    ensures IsFence(Nested[3]) && !IsOpener(Nested[3])
  {
    assert Strip(Nested[1]) == "```python";
    assert Strip(Nested[2]) == "x = 1";
    assert Strip(Nested[3]) == "```";
  }

  /** The example inside the markdown block is extracted as python code. */
  lemma NestedExampleExtracted()
    ensures PythonBlocks(Nested) == [CodeBlock("x = 1\n", 3)]
  {
    NestedOuterFences();
    NestedInnerLines();
    OpenerInsideOtherBlock(Nested);
  }
}
