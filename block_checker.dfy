/**
 The checking pass of the Markdown code-block checker (`check_code_blocks`):
 for each file in order, extract its python blocks, hand every block that
 mentions a watched module to the pyright type checker, and collect the
 files with at least one failing block.

 Reading the files is not modelled: each file comes with its lines already
 read. Pyright is an oracle, a function from the text fed to its standard
 input to what running it gives: an exit code, or the executable not being
 found.
 */
module BlockChecker {
  import opened PyStr
  import opened CodeBlocks

  /** The watched module names (line 13). `Ignored` writes them out, and
      `IgnoredIffNoModuleOccurs` proves it tests exactly these names. */
  const ModulesToCheck: seq<string> := ["autogen_agentchat", "autogen_core", "autogen_ext"]

  /** A Markdown file, as a path and the lines `readlines` gave for it
      (each line still carries its newline). */
  datatype MarkdownFile = MarkdownFile(path: string, lines: seq<string>)

  /** One run of `pyright -`: it exited with a return code, or it could not
      be started because the executable is missing. */
  datatype PyrightRun = Exited(returnCode: int) | NotInstalled

  /** How `check_code_blocks` ends: normally, with the "syntax errors"
      `RuntimeError` listing the failing files, or with the "pyright
      missing" `RuntimeError`. */
  datatype RunOutcome = Passed | SyntaxErrors(files: seq<string>) | PyrightMissing

  /** Line 48: the block is skipped when none of the watched modules occurs
      in it (the three names of `ModulesToCheck`, written out). */
  predicate Ignored(text: string)
  {
    && !Contains(text, "autogen_agentchat")
    && !Contains(text, "autogen_core")
    && !Contains(text, "autogen_ext")
  }

  /** Pyright reported errors for a text. */
  predicate Fails(run: PyrightRun) {
    run.Exited? && run.returnCode != 0
  }

  /** The texts of `blocks` that are handed to pyright, in order. */
  ghost function CheckedTexts(blocks: seq<CodeBlock>): seq<string> {
    if |blocks| == 0 then []
    else
      var last := blocks[|blocks| - 1];
      CheckedTexts(blocks[..|blocks| - 1]) + if Ignored(last.text) then [] else [last.text]
  }

  /** The texts handed to pyright over all files, in order, if nothing
      aborts the run. */
  ghost function AllCheckedTexts(files: seq<MarkdownFile>): seq<string> {
    if |files| == 0 then []
    else AllCheckedTexts(files[..|files| - 1]) + CheckedTexts(PythonBlocks(files[|files| - 1].lines))
  }

  /** Some block of `blocks` is checked and fails. */
  ghost predicate AnyBlockFails(blocks: seq<CodeBlock>, pyright: string -> PyrightRun) {
    if |blocks| == 0 then false
    else
      var last := blocks[|blocks| - 1];
      AnyBlockFails(blocks[..|blocks| - 1], pyright) || (!Ignored(last.text) && Fails(pyright(last.text)))
  }

  /** The file ends the scan with `had_errors` set. */
  ghost predicate FileHasErrors(file: MarkdownFile, pyright: string -> PyrightRun) {
    AnyBlockFails(PythonBlocks(file.lines), pyright)
  }

  /** `files_with_errors`: the paths of the files with a failing block. */
  ghost function FilesWithErrors(files: seq<MarkdownFile>, pyright: string -> PyrightRun): seq<string> {
    if |files| == 0 then []
    else
      var last := files[|files| - 1];
      FilesWithErrors(files[..|files| - 1], pyright) + if FileHasErrors(last, pyright) then [last.path] else []
  }

  /** Pyright is found missing for one of `texts`. */
  ghost predicate MissingFor(texts: seq<string>, pyright: string -> PyrightRun) {
    exists k :: 0 <= k < |texts| && pyright(texts[k]).NotInstalled?
  }

  /** The texts pyright is actually run on: those of `texts` up to and
      including the first one for which it is missing. */
  ghost function RunUntilMissing(texts: seq<string>, pyright: string -> PyrightRun): (r: seq<string>)
    ensures |r| <= |texts| && r == texts[..|r|]
    ensures forall k :: 0 <= k < |r| - 1 ==> !pyright(r[k]).NotInstalled?
    ensures MissingFor(texts, pyright) <==> |r| > 0 && pyright(r[|r| - 1]).NotInstalled?
    ensures !MissingFor(texts, pyright) ==> r == texts
  {
    if |texts| == 0 then []
    else if pyright(texts[0]).NotInstalled? then [texts[0]]
    else
      var rest := RunUntilMissing(texts[1..], pyright);
      assert MissingFor(texts, pyright) <==> MissingFor(texts[1..], pyright) by {
        if MissingFor(texts, pyright) {
          var k :| 0 <= k < |texts| && pyright(texts[k]).NotInstalled?;
          assert texts[1..][k - 1] == texts[k];
        }
        if MissingFor(texts[1..], pyright) {
          var k :| 0 <= k < |texts[1..]| && pyright(texts[1..][k]).NotInstalled?;
          assert texts[k + 1] == texts[1..][k];
        }
      }
      [texts[0]] + rest
  }

  /** How the run ends. */
  ghost function Outcome(files: seq<MarkdownFile>, pyright: string -> PyrightRun): RunOutcome {
    if MissingFor(AllCheckedTexts(files), pyright) then PyrightMissing
    else if FilesWithErrors(files, pyright) != [] then SyntaxErrors(FilesWithErrors(files, pyright))
    else Passed
  }

  /** `check_code_blocks` (lines 38-75), returning how it ends and the texts
      it ran pyright on, in order. */
  method CheckCodeBlocks(files: seq<MarkdownFile>, pyright: string -> PyrightRun)
    returns (outcome: RunOutcome, invoked: seq<string>)
    ensures outcome == Outcome(files, pyright)
    ensures invoked == RunUntilMissing(AllCheckedTexts(files), pyright)
  {
    var filesWithErrors: seq<string> := [];
    invoked := [];
    for fi := 0 to |files|
      invariant filesWithErrors == FilesWithErrors(files[..fi], pyright)
      invariant invoked == AllCheckedTexts(files[..fi])
      invariant !MissingFor(invoked, pyright)
    {
      var codeBlocks := ExtractPythonCodeBlocks(files[fi].lines);
      var hadErrors := false;
      ghost var before := invoked;
      for bi := 0 to |codeBlocks|
        invariant invoked == before + CheckedTexts(codeBlocks[..bi])
        invariant !MissingFor(invoked, pyright)
        invariant hadErrors == AnyBlockFails(codeBlocks[..bi], pyright)
      {
        var block := codeBlocks[bi];
        NextBlockTexts(codeBlocks, bi);
        NextBlockFails(codeBlocks, bi, pyright);
        if Ignored(block.text) {
          continue;
        }
        var pre := invoked;
        invoked := invoked + [block.text];
        AppendAssoc(before, CheckedTexts(codeBlocks[..bi]), [block.text]);
        match pyright(block.text)
        case NotInstalled =>
          AbortedRun(files, fi, codeBlocks, bi, pyright, pre);
          outcome := PyrightMissing;
          return;
        case Exited(code) =>
          if code != 0 {
            hadErrors := true;
          }
      }
      assert codeBlocks[..|codeBlocks|] == codeBlocks;
      NextFile(files, fi, codeBlocks, pyright);
      if hadErrors {
        filesWithErrors := filesWithErrors + [files[fi].path];
      }
    }
    assert files[..|files|] == files;
    if |filesWithErrors| > 0 {
      outcome := SyntaxErrors(filesWithErrors);
    } else {
      outcome := Passed;
    }
  }

  // ---------------------------------------------------------------------
  // One step of the checking pass, seen from the specification

  lemma AppendAssoc(a: seq<string>, b: seq<string>, c: seq<string>)
    ensures (a + b) + c == a + (b + c)
  {
  }

  lemma NextBlockTexts(blocks: seq<CodeBlock>, bi: int)
    requires 0 <= bi < |blocks|
    ensures CheckedTexts(blocks[..bi + 1]) ==
            CheckedTexts(blocks[..bi]) + if Ignored(blocks[bi].text) then [] else [blocks[bi].text]
  {
    assert blocks[..bi + 1][..bi] == blocks[..bi];
  }

  lemma NextBlockFails(blocks: seq<CodeBlock>, bi: int, pyright: string -> PyrightRun)
    requires 0 <= bi < |blocks|
    ensures AnyBlockFails(blocks[..bi + 1], pyright) ==
            AnyBlockFails(blocks[..bi], pyright) || (!Ignored(blocks[bi].text) && Fails(pyright(blocks[bi].text)))
  {
    assert blocks[..bi + 1][..bi] == blocks[..bi];
  }

  lemma NextFile(files: seq<MarkdownFile>, fi: int, blocks: seq<CodeBlock>, pyright: string -> PyrightRun)
    requires 0 <= fi < |files| && blocks == PythonBlocks(files[fi].lines)
    ensures AllCheckedTexts(files[..fi + 1]) == AllCheckedTexts(files[..fi]) + CheckedTexts(blocks)
    ensures FilesWithErrors(files[..fi + 1], pyright) ==
            FilesWithErrors(files[..fi], pyright) + if AnyBlockFails(blocks, pyright) then [files[fi].path] else []
  {
    assert files[..fi + 1][..fi] == files[..fi];
  }

  /** `p` is an initial part of `s`. */
  predicate IsPrefix(p: seq<string>, s: seq<string>) {
    |p| <= |s| && s[..|p|] == p
  }

  lemma PrefixTrans(a: seq<string>, b: seq<string>, c: seq<string>)
    requires IsPrefix(a, b) && IsPrefix(b, c)
    ensures IsPrefix(a, c)
  {
    assert c[..|a|] == b[..|a|];
  }

  lemma PrefixExtend(before: seq<string>, c: seq<string>, t: string, x: seq<string>, whole: seq<string>)
    requires x == c + [t] && IsPrefix(x, whole)
    ensures IsPrefix((before + c) + [t], before + whole)
  {
    assert (before + whole)[..|before| + |c| + 1] == before + whole[..|c| + 1];
  }

  lemma PrefixSplit(a: seq<string>, t: string, c: seq<string>)
    requires IsPrefix(a + [t], c)
    ensures |a| < |c| && c[..|a|] == a && c[|a|] == t
  {
    assert c[..|a|] == (a + [t])[..|a|];
    assert c[|a|] == (a + [t])[|a|];
  }

  /** The blocks of a shorter list give a prefix of its checked texts. */
  lemma {:induction false} CheckedTextsPrefix(blocks: seq<CodeBlock>, m: nat)
    requires m <= |blocks|
    ensures IsPrefix(CheckedTexts(blocks[..m]), CheckedTexts(blocks))
    decreases |blocks|
  {
    if m < |blocks| {
      var shorter := blocks[..|blocks| - 1];
      assert shorter[..m] == blocks[..m];
      CheckedTextsPrefix(shorter, m);
    } else {
      assert blocks[..m] == blocks;
    }
  }

  /** The files of a shorter list give a prefix of the checked texts. */
  lemma {:induction false} AllCheckedTextsPrefix(files: seq<MarkdownFile>, m: nat)
    requires m <= |files|
    ensures IsPrefix(AllCheckedTexts(files[..m]), AllCheckedTexts(files))
    decreases |files|
  {
    if m < |files| {
      var shorter := files[..|files| - 1];
      assert shorter[..m] == files[..m];
      AllCheckedTextsPrefix(shorter, m);
    } else {
      assert files[..m] == files;
    }
  }

  /** A relevant block's text, after the texts checked before it in its
      file, extends the texts checked so far. */
  lemma BlockStartsFile(blocks: seq<CodeBlock>, bi: int, before: seq<string>, pre: seq<string>)
    requires 0 <= bi < |blocks| && !Ignored(blocks[bi].text)
    requires pre == before + CheckedTexts(blocks[..bi])
    ensures IsPrefix(pre + [blocks[bi].text], before + CheckedTexts(blocks))
  {
    NextBlockTexts(blocks, bi);
    CheckedTextsPrefix(blocks, bi + 1);
    PrefixExtend(before, CheckedTexts(blocks[..bi]), blocks[bi].text, CheckedTexts(blocks[..bi + 1]), CheckedTexts(blocks));
  }

  /** The texts checked before a block of file `fi`, then that block's
      text, begin the texts of the whole run. */
  lemma BlockStartsRun(files: seq<MarkdownFile>, fi: int, blocks: seq<CodeBlock>, bi: int,
                       pre: seq<string>)
    requires 0 <= fi < |files| && blocks == PythonBlocks(files[fi].lines)
    requires 0 <= bi < |blocks| && !Ignored(blocks[bi].text)
    requires pre == AllCheckedTexts(files[..fi]) + CheckedTexts(blocks[..bi])
    ensures IsPrefix(pre + [blocks[bi].text], AllCheckedTexts(files))
  {
    var before := AllCheckedTexts(files[..fi]);
    BlockStartsFile(blocks, bi, before, pre);
    NextFile(files, fi, blocks, t => NotInstalled);
    AllCheckedTextsPrefix(files, fi + 1);
    PrefixTrans(pre + [blocks[bi].text], before + CheckedTexts(blocks), AllCheckedTexts(files));
  }

  /** "Pyright missing" ends the run at once: when the `k`-th text is the
      first one for which pyright cannot be started, it is the last one
      pyright is run on. */
  lemma {:induction false} RunStopsAt(texts: seq<string>, k: int, pyright: string -> PyrightRun)
    requires 0 <= k < |texts| && pyright(texts[k]).NotInstalled?
    requires forall j :: 0 <= j < k ==> !pyright(texts[j]).NotInstalled?
    ensures RunUntilMissing(texts, pyright) == texts[..k + 1]
    ensures MissingFor(texts, pyright)
    decreases k
  {
    if k > 0 {
      var rest := texts[1..];
      RunStopsAt(rest, k - 1, pyright);
      assert texts[..k + 1] == [texts[0]] + rest[..k];
    }
  }

  lemma RunStopsAfter(texts: seq<string>, pre: seq<string>, t: string, pyright: string -> PyrightRun)
    requires IsPrefix(pre + [t], texts) && !MissingFor(pre, pyright) && pyright(t).NotInstalled?
    ensures RunUntilMissing(texts, pyright) == pre + [t]
    ensures MissingFor(texts, pyright)
  {
    PrefixSplit(pre, t, texts);
    assert forall j :: 0 <= j < |pre| ==> texts[j] == pre[j];
    RunStopsAt(texts, |pre|, pyright);
  }

  /** The abort of lines 67-69, seen from the whole run. */
  lemma AbortedRun(files: seq<MarkdownFile>, fi: int, blocks: seq<CodeBlock>, bi: int,
                   pyright: string -> PyrightRun, pre: seq<string>)
    requires 0 <= fi < |files| && blocks == PythonBlocks(files[fi].lines)
    requires 0 <= bi < |blocks| && !Ignored(blocks[bi].text)
    requires pyright(blocks[bi].text).NotInstalled?
    requires pre == AllCheckedTexts(files[..fi]) + CheckedTexts(blocks[..bi])
    requires !MissingFor(pre, pyright)
    ensures pre + [blocks[bi].text] == RunUntilMissing(AllCheckedTexts(files), pyright)
    ensures Outcome(files, pyright) == PyrightMissing
  {
    BlockStartsRun(files, fi, blocks, bi, pre);
    RunStopsAfter(AllCheckedTexts(files), pre, blocks[bi].text, pyright);
  }

  // ---------------------------------------------------------------------
  // What the checking pass promises

  /** Line 48 both ways: a block is skipped exactly when no name of
      `ModulesToCheck` (line 13) occurs anywhere in its text. */
  lemma IgnoredIffNoModuleOccurs(text: string)
    ensures Ignored(text) <==> forall k, i :: 0 <= k < |ModulesToCheck| ==> !OccursAt(text, ModulesToCheck[k], i)
  {
    ContainsIffOccurs(text, "autogen_agentchat");
    ContainsIffOccurs(text, "autogen_core");
    ContainsIffOccurs(text, "autogen_ext");
    assert ModulesToCheck[0] == "autogen_agentchat";
    assert ModulesToCheck[1] == "autogen_core";
    assert ModulesToCheck[2] == "autogen_ext";
  }

  /** The checked texts of a file are exactly the texts of its relevant
      blocks. */
  lemma {:induction false} CheckedTextsMembership(blocks: seq<CodeBlock>, t: string)
    ensures t in CheckedTexts(blocks) <==> exists b :: b in blocks && b.text == t && !Ignored(t)
    decreases |blocks|
  {
    if |blocks| > 0 {
      var shorter := blocks[..|blocks| - 1];
      var last := blocks[|blocks| - 1];
      CheckedTextsMembership(shorter, t);
      assert blocks == shorter + [last];
      if exists b :: b in blocks && b.text == t && !Ignored(t) {
        var b :| b in blocks && b.text == t && !Ignored(t);
        if b != last {
          assert b in shorter;
        }
      }
    }
  }

  /** `t` is the text of a relevant python block of `file`. */
  ghost predicate FromRelevantBlock(file: MarkdownFile, t: string) {
    exists b :: b in PythonBlocks(file.lines) && b.text == t && !Ignored(t)
  }

  lemma {:induction false} CheckedTextComesFromFile(files: seq<MarkdownFile>, t: string)
    requires t in AllCheckedTexts(files)
    ensures exists i :: 0 <= i < |files| && FromRelevantBlock(files[i], t)
    decreases |files|
  {
    var n := |files| - 1;
    var shorter := files[..n];
    if t in AllCheckedTexts(shorter) {
      CheckedTextComesFromFile(shorter, t);
      var i :| 0 <= i < n && FromRelevantBlock(shorter[i], t);
      assert shorter[i] == files[i];
    } else {
      CheckedTextsMembership(PythonBlocks(files[n].lines), t);
      assert FromRelevantBlock(files[n], t);
    }
  }

  lemma {:induction false} FileTextIsChecked(files: seq<MarkdownFile>, i: int, t: string)
    requires 0 <= i < |files| && FromRelevantBlock(files[i], t)
    ensures t in AllCheckedTexts(files)
    decreases |files|
  {
    var n := |files| - 1;
    var shorter := files[..n];
    if i < n {
      assert shorter[i] == files[i];
      FileTextIsChecked(shorter, i, t);
    } else {
      CheckedTextsMembership(PythonBlocks(files[n].lines), t);
    }
  }

  /** The texts the run would check are exactly the texts of the relevant
      blocks of the input files. */
  lemma AllCheckedTextsMembership(files: seq<MarkdownFile>, t: string)
    ensures t in AllCheckedTexts(files) <==> exists i :: 0 <= i < |files| && FromRelevantBlock(files[i], t)
  {
    if t in AllCheckedTexts(files) {
      CheckedTextComesFromFile(files, t);
    }
    if exists i :: 0 <= i < |files| && FromRelevantBlock(files[i], t) {
      var i :| 0 <= i < |files| && FromRelevantBlock(files[i], t);
      FileTextIsChecked(files, i, t);
    }
  }

  lemma RunIsPartOfTexts(texts: seq<string>, pyright: string -> PyrightRun, t: string)
    requires t in RunUntilMissing(texts, pyright)
    ensures t in texts
  {
    var r := RunUntilMissing(texts, pyright);
    var k :| 0 <= k < |r| && r[k] == t;
    assert texts[k] == t;
  }

  /** Pyright only ever sees the text of a relevant block of an input file. */
  lemma InvokedTextsAreRelevant(files: seq<MarkdownFile>, pyright: string -> PyrightRun, t: string)
    requires t in RunUntilMissing(AllCheckedTexts(files), pyright)
    ensures exists i :: 0 <= i < |files| && FromRelevantBlock(files[i], t)
  {
    RunIsPartOfTexts(AllCheckedTexts(files), pyright, t);
    CheckedTextComesFromFile(files, t);
  }

  /** `had_errors` ends set exactly when some relevant block fails. */
  lemma {:induction false} AnyBlockFailsIff(blocks: seq<CodeBlock>, pyright: string -> PyrightRun)
    ensures AnyBlockFails(blocks, pyright) <==> exists b :: b in blocks && !Ignored(b.text) && Fails(pyright(b.text))
    decreases |blocks|
  {
    if |blocks| > 0 {
      var shorter := blocks[..|blocks| - 1];
      var last := blocks[|blocks| - 1];
      AnyBlockFailsIff(shorter, pyright);
      assert blocks == shorter + [last];
      if exists b :: b in blocks && !Ignored(b.text) && Fails(pyright(b.text)) {
        var b :| b in blocks && !Ignored(b.text) && Fails(pyright(b.text));
        if b != last {
          assert b in shorter;
        }
      }
    }
  }

  /** The positions, in input order, of the files that end with
      `had_errors` set. */
  ghost function FailingFileIndices(files: seq<MarkdownFile>, pyright: string -> PyrightRun): seq<int> {
    if |files| == 0 then []
    else
      var n := |files| - 1;
      FailingFileIndices(files[..n], pyright) + if FileHasErrors(files[n], pyright) then [n] else []
  }

  /** The failing positions are ascending and are exactly the files with a
      failing relevant block. */
  lemma {:induction false} FailingFileIndicesExact(files: seq<MarkdownFile>, pyright: string -> PyrightRun)
    ensures var idx := FailingFileIndices(files, pyright);
      && (forall k :: 0 <= k < |idx| ==> 0 <= idx[k] < |files|)
      && (forall k, l :: 0 <= k < l < |idx| ==> idx[k] < idx[l])
      && (forall i :: 0 <= i < |files| ==> (i in idx <==> FileHasErrors(files[i], pyright)))
    decreases |files|
  {
    if |files| > 0 {
      var n := |files| - 1;
      var shorter := files[..n];
      FailingFileIndicesExact(shorter, pyright);
      forall i | 0 <= i < n
        ensures files[i] == shorter[i]
      {
      }
    }
  }

  /** `files_with_errors` lists the paths of the failing files, one entry
      per failing file, in input order. */
  lemma {:induction false} FilesWithErrorsArePaths(files: seq<MarkdownFile>, pyright: string -> PyrightRun)
    ensures var r := FilesWithErrors(files, pyright);
      var idx := FailingFileIndices(files, pyright);
      && |r| == |idx|
      && forall k :: 0 <= k < |idx| ==> 0 <= idx[k] < |files| && r[k] == files[idx[k]].path
    decreases |files|
  {
    if |files| > 0 {
      var n := |files| - 1;
      var shorter := files[..n];
      FilesWithErrorsArePaths(shorter, pyright);
      FailingFileIndicesExact(shorter, pyright);
      forall i | 0 <= i < n
        ensures files[i] == shorter[i]
      {
      }
    }
  }

  lemma {:induction false} AnyBlockFailsIffCheckedFails(blocks: seq<CodeBlock>, pyright: string -> PyrightRun)
    ensures AnyBlockFails(blocks, pyright) <==> exists t :: t in CheckedTexts(blocks) && Fails(pyright(t))
    decreases |blocks|
  {
    if |blocks| > 0 {
      AnyBlockFailsIffCheckedFails(blocks[..|blocks| - 1], pyright);
    }
  }

  /** No file is listed exactly when pyright fails on none of the texts
      it is given. */
  lemma {:induction false} NoErrorsIffNoFailingText(files: seq<MarkdownFile>, pyright: string -> PyrightRun)
    ensures FilesWithErrors(files, pyright) == [] <==>
            forall t :: t in AllCheckedTexts(files) ==> !Fails(pyright(t))
    decreases |files|
  {
    if |files| > 0 {
      var n := |files| - 1;
      NoErrorsIffNoFailingText(files[..n], pyright);
      AnyBlockFailsIffCheckedFails(PythonBlocks(files[n].lines), pyright);
    }
  }

  /** Pyright is missing for one of `texts` exactly when one of them makes
      it report so. */
  lemma MissingForIffSomeText(texts: seq<string>, pyright: string -> PyrightRun)
    ensures MissingFor(texts, pyright) <==> exists t :: t in texts && pyright(t).NotInstalled?
  {
    if exists t :: t in texts && pyright(t).NotInstalled? {
      var t :| t in texts && pyright(t).NotInstalled?;
      var k :| 0 <= k < |texts| && texts[k] == t;
    }
  }

  /** The run passes (lines 74-75 raise nothing) exactly when pyright
      exits with 0 on the text of every relevant block of every file. */
  lemma PassedIff(files: seq<MarkdownFile>, pyright: string -> PyrightRun)
    ensures Outcome(files, pyright) == Passed <==>
            forall i, t :: 0 <= i < |files| && FromRelevantBlock(files[i], t) ==> pyright(t) == Exited(0)
  {
    var all := AllCheckedTexts(files);
    NoErrorsIffNoFailingText(files, pyright);
    MissingForIffSomeText(all, pyright);
    forall t
      ensures t in all <==> exists i :: 0 <= i < |files| && FromRelevantBlock(files[i], t)
    {
      AllCheckedTextsMembership(files, t);
    }
  }
}
