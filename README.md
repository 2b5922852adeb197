# Markdown code-block checker, modelled in Dafny

This project models `python/check_md_code_blocks.py`, a small documentation
tool. It reads Markdown files and extracts every fenced block opened by a
"```python" line. It hands each block that mentions one of the watched
modules (`autogen_agentchat`, `autogen_core`, `autogen_ext`) to the pyright
type checker. It fails if pyright rejects any block, and it aborts if pyright
is not installed.

The model has three modules:

- `PyStr` (`py_str.dfy`): the Python string built-ins the tool uses.
  These are `str.strip()`, `str.startswith`, the substring test `p in s`
  and `"\n".join(...)`.
- `CodeBlocks` (`code_blocks.dfy`): the extractor `extract_python_code_blocks`.
  - The extractor is the method `ExtractPythonCodeBlocks`, with the same
    flag, accumulator and result list as the Python loop, and the same
    start-line formula `i - len(current_block) + 1`.
  - Its specification `PythonBlocks` does not replay the scan. A line closes
    a block when it is a fence that does not open one and the last fence
    before it is a "```python" opener. The block then holds the lines
    between that opener and the closing line.
  - The loop invariant ties the flag and the accumulator to that definition.
- `BlockChecker` (`block_checker.dfy`): `check_code_blocks`, as the method
  `CheckCodeBlocks`.
  - Pyright is a parameter: a function from the text fed to its standard
    input to either its exit code or "not installed" (`FileNotFoundError`).
  - The method returns how the run ends (passed, the syntax-errors
    `RuntimeError` with `files_with_errors`, or the pyright-missing
    `RuntimeError`). It also returns the texts pyright was run on, in order.
  - It is proved equal to the specification functions `Outcome` and
    `RunUntilMissing(AllCheckedTexts(...))`.
- `Scenarios` (`scenarios.dfy`): two worked examples.
  - A python block is re-opened by an indented "```python3" line and closed
    by a "```js" fence. The lemmas give the run's outcome when pyright
    exits with any non-zero code, when it exits with 0 and when it is
    missing.
  - A "````markdown" block shows a python block as an example. That inner
    block is extracted.

Three details of the code are easy to misread, and the model follows the code
in all three:

- The start line is `i - len(current_block) + 1` (line 30), the 1-based
  number of the first content line, and not `i - len(current_block)`.
- A line inside a block is not always accumulated: a second "```python"
  line inside a block starts the block afresh (lines 25-27) and discards
  what was accumulated.
- Only "```python" openers open a block (line 25). A fence of another
  language (for example "```js", a bare "```" or "````markdown") opens
  nothing; it can only close a python block that is already open (lines
  28-30). So a "```python" line inside such a block still opens a python
  block, and that block is extracted and checked. The file
  "````markdown", "```python", "x = 1", "```", "````" gives one block,
  "x = 1" starting on line 3 (`Scenarios.NestedExampleExtracted`).

## Model

| member | source | states |
|---|---|---|
| PyStr.Strip | python/check_md_code_blocks.py:25 | `line.strip()` is never longer than the line; `StripIsTrimmedSlice` states what it is |
| PyStr.LStripDropsLeadingSpace | python/check_md_code_blocks.py:25 | the left half of `strip()`: what is dropped is all whitespace, and what is kept is the rest of the line, not starting with whitespace |
| PyStr.RStripDropsTrailingSpace | python/check_md_code_blocks.py:25 | the right half of `strip()`: what is dropped is all whitespace, and what is kept is the start of the line, not ending with whitespace |
| PyStr.StripIsTrimmedSlice | python/check_md_code_blocks.py:25 | `line.strip()` is the slice of the line left once whitespace is dropped on both sides: it neither starts nor ends with whitespace, and only whitespace surrounds it |
| PyStr.StartsWith | python/check_md_code_blocks.py:25 | `s.startswith(p)`: the first `len(p)` characters of `s` are `p` |
| PyStr.StripStartsWithIff | python/check_md_code_blocks.py:25-28 | for a prefix that neither starts nor ends with whitespace, `line.strip().startswith(p)` holds exactly when the line is some whitespace, then `p`, then anything |
| PyStr.Contains | python/check_md_code_blocks.py:48 | `p in s`: true only when `p` fits in `s`, and true whenever `s` starts with `p` |
| PyStr.ContainsIffOccurs | python/check_md_code_blocks.py:48 | `module in code_block` holds exactly when the module name occurs in the text at some position |
| PyStr.Join | python/check_md_code_blocks.py:30 | `"\n".join(xs)` starts with the first string and ends with the last |
| PyStr.JoinLength | python/check_md_code_blocks.py:30 | the joined text holds every character of the lines plus exactly one newline between each two |
| PyStr.JoinSnoc | python/check_md_code_blocks.py:30-32 | joining one more accumulated line appends a newline and that line |
| CodeBlocks.IsOpener | python/check_md_code_blocks.py:25 | the test of line 25; every opener is also a fence, which is why line 25 is tested before line 28 |
| CodeBlocks.IsFence | python/check_md_code_blocks.py:28 | the fence test of line 28: the stripped line starts with "```" |
| CodeBlocks.OpenerShape | python/check_md_code_blocks.py:25 | a line opens a block exactly when it is some whitespace, then "```python", then anything |
| CodeBlocks.FenceShape | python/check_md_code_blocks.py:28 | a line is a fence exactly when it is some whitespace, then "```", then anything |
| CodeBlocks.ExtractPythonCodeBlocks | python/check_md_code_blocks.py:20-34 | the scan returns exactly `PythonBlocks(lines)`: a block per closing fence whose last preceding fence is an opener, holding the lines in between, joined with newlines |
| CodeBlocks.OpenerStep | python/check_md_code_blocks.py:25-27 | an opener adds no block and leaves a block open with nothing read |
| CodeBlocks.CloserStep | python/check_md_code_blocks.py:28-30 | a non-opening fence read while a block is open adds the lines read since the opener, joined, starting on line `i - len(current_block) + 1`, and closes the block |
| CodeBlocks.PendingIsBlock | python/check_md_code_blocks.py:30 | the start line `i - len(current_block) + 1` is the 1-based number of the line after the opener |
| CodeBlocks.ContentStep | python/check_md_code_blocks.py:31-32 | a line that is not a fence, read while a block is open, adds no block and keeps the block open |
| CodeBlocks.OutsideStep | python/check_md_code_blocks.py:24-32 | a line that does not open, read while no block is open, adds no block and opens none |
| CodeBlocks.ClosingFenceMatchesOpener | python/check_md_code_blocks.py:25-30 | lines `j` and `c` delimit a block (opener, no fence between, non-opening fence) exactly when line `c` closes a block and `j` is the last fence before it |
| CodeBlocks.NoCloseNoBlock | python/check_md_code_blocks.py:28-30 | lines that close nothing add no block |
| CodeBlocks.BlocksUpToGrows | python/check_md_code_blocks.py:30 | blocks are only appended: those found in a shorter prefix come first, unchanged |
| CodeBlocks.NoOpenerNoBlocks | python/check_md_code_blocks.py:24-34 | with no "```python" line nothing is extracted |
| CodeBlocks.ExactlyOneBlock | python/check_md_code_blocks.py:25-32 | an opener at `j`, fence-free lines, then a fence at `c` that does not open add exactly one block: the lines `j+1..c-1` joined, starting at 1-based line `j+2` |
| CodeBlocks.ReopenDiscardsPending | python/check_md_code_blocks.py:25-27 | a second opener inside an open block discards the lines read so far; the next closing fence yields only the lines after the second opener |
| CodeBlocks.UnterminatedBlockDropped | python/check_md_code_blocks.py:24-34 | an opener with no fence after it up to the end of the file yields no block, and the scan ends with the block still open |
| CodeBlocks.EveryBlockIsDelimited | python/check_md_code_blocks.py:24-32 | every extracted block comes from an opener and a closing fence with no fence between, holds exactly the lines between them and starts on the line after the opener |
| CodeBlocks.EveryDelimitedBlockExtracted | python/check_md_code_blocks.py:24-32 | every opener/closing-fence pair with no fence between yields its block |
| CodeBlocks.ContentReadInsideBlock | python/check_md_code_blocks.py:28-32 | every content line and the closing fence of a block are read while that block is open, so lines read outside a block are never accumulated |
| CodeBlocks.LastFenceOnPrefix | python/check_md_code_blocks.py:24-28 | which fence was seen last after `n` lines depends only on those `n` lines |
| CodeBlocks.BlocksUpToOnPrefix | python/check_md_code_blocks.py:24-32 | the blocks found in the first `n` lines depend only on those lines |
| CodeBlocks.PrefixExtractsPrefix | python/check_md_code_blocks.py:24-34 | extracting from the first `n` lines of a file gives the first blocks of the whole file |
| CodeBlocks.LastStartBound | python/check_md_code_blocks.py:25-30 | the last block found starts at line `2*count` or later, and no later than one past the last fence (no later than the last fence while a block is open) |
| CodeBlocks.StartLinesIncrease | python/check_md_code_blocks.py:25-30 | each block starts at least two lines after the previous one |
| CodeBlocks.StartLinesInRange | python/check_md_code_blocks.py:30 | every start line is between 2 and the number of lines read |
| CodeBlocks.StartLinesOrdered | python/check_md_code_blocks.py:24-34 | for a whole file: start lines are in range and increase by at least 2, so there is at most one block per two lines |
| BlockChecker.RunUntilMissing | python/check_md_code_blocks.py:52-69 | pyright is run on a prefix of the relevant texts, none of which but the last found it missing; the prefix is all of them unless pyright is missing for one |
| BlockChecker.CheckCodeBlocks | python/check_md_code_blocks.py:38-75 | the run ends as `Outcome` says (missing pyright first, then the failing files, else passed), and pyright is run on exactly `RunUntilMissing` of the relevant texts, in order |
| BlockChecker.CheckedTextsPrefix | python/check_md_code_blocks.py:44-55 | the texts checked for the first blocks of a file begin the texts checked for the whole file |
| BlockChecker.AllCheckedTextsPrefix | python/check_md_code_blocks.py:40-55 | the texts checked for the first files begin the texts checked for all files |
| BlockChecker.RunStopsAt | python/check_md_code_blocks.py:67-69 | when the `k`-th text is the first for which pyright is missing, the run stops right after it and the run is reported as pyright missing |
| BlockChecker.AbortedRun | python/check_md_code_blocks.py:67-69 | a `FileNotFoundError` on some block ends the whole run at that block, whatever the later files hold |
| BlockChecker.Ignored | python/check_md_code_blocks.py:48 | the skip test of line 48 over the three names of line 13: none of them is in the block's text |
| BlockChecker.Fails | python/check_md_code_blocks.py:56 | pyright reports errors for a block when it ran and its return code is not 0 |
| BlockChecker.IgnoredIffNoModuleOccurs | python/check_md_code_blocks.py:48-50 | a block is skipped exactly when none of the names of `MODULES_TO_CHECK` (line 13) occurs anywhere in its text |
| BlockChecker.CheckedTextsMembership | python/check_md_code_blocks.py:44-55 | the texts checked for a file are exactly the texts of its blocks that are not skipped |
| BlockChecker.CheckedTextComesFromFile | python/check_md_code_blocks.py:40-55 | every text the run would check is the text of a relevant block of some input file |
| BlockChecker.FileTextIsChecked | python/check_md_code_blocks.py:40-55 | the text of every relevant block of every input file is among the texts the run would check |
| BlockChecker.AllCheckedTextsMembership | python/check_md_code_blocks.py:40-55 | both directions: a text is checked exactly when it is the text of a relevant block of an input file |
| BlockChecker.RunIsPartOfTexts | python/check_md_code_blocks.py:52-69 | pyright is only run on texts from the list it is given |
| BlockChecker.InvokedTextsAreRelevant | python/check_md_code_blocks.py:48-55 | pyright only ever sees the text of a relevant block of an input file |
| BlockChecker.AnyBlockFailsIff | python/check_md_code_blocks.py:42-64 | `had_errors` ends set exactly when some block that is not skipped makes pyright exit non-zero |
| BlockChecker.AnyBlockFailsIffCheckedFails | python/check_md_code_blocks.py:42-64 | `had_errors` ends set exactly when pyright exits non-zero on one of the file's checked texts |
| BlockChecker.FailingFileIndicesExact | python/check_md_code_blocks.py:40-72 | the failing positions are in range, strictly ascending, and are exactly the files that end with `had_errors` set |
| BlockChecker.FilesWithErrorsArePaths | python/check_md_code_blocks.py:71-72 | `files_with_errors` has one entry per failing file, in input order: the file's path |
| BlockChecker.NoErrorsIffNoFailingText | python/check_md_code_blocks.py:71-75 | `files_with_errors` is empty exactly when pyright exits with 0 on every checked text (or reports it missing) |
| BlockChecker.MissingForIffSomeText | python/check_md_code_blocks.py:67-69 | pyright is found missing for the list exactly when some text in it makes pyright report so |
| BlockChecker.PassedIff | python/check_md_code_blocks.py:40-75 | the run raises nothing exactly when pyright exits with 0 on the text of every relevant block of every file |
| Scenarios.SampleOpeners | python/check_md_code_blocks.py:25 | "```python\n" and "  ```python3\n" both open a block |
| Scenarios.SampleContent | python/check_md_code_blocks.py:28 | ordinary code lines are not fences |
| Scenarios.SampleCloser | python/check_md_code_blocks.py:28 | "```js\n" is a fence that closes a python block without opening one |
| Scenarios.ReopenedAndClosedByAnyFence | python/check_md_code_blocks.py:24-34 | five lines shaped opener, content, opener, content, fence give one block: the second content line, starting on line 4 |
| Scenarios.OneLineBlock | python/check_md_code_blocks.py:30 | an opener, one content line and a fence give that line, starting on the line after the opener |
| Scenarios.SampleBlocks | python/check_md_code_blocks.py:20-34 | the sample file gives the single block `("import autogen_core\n", 4)` |
| Scenarios.SampleBlockIsChecked | python/check_md_code_blocks.py:48 | that block mentions `autogen_core`, so it is not skipped |
| Scenarios.SampleBlockTexts | python/check_md_code_blocks.py:44-55 | the sample file hands exactly that text to pyright |
| Scenarios.SampleTexts | python/check_md_code_blocks.py:40-72 | for the sample file, the checked texts are that one text, and `files_with_errors` lists the file exactly when pyright rejects it |
| Scenarios.SampleRun | python/check_md_code_blocks.py:40-75 | the run over the sample file reports the file when pyright exits with any non-zero code, passes when it exits with 0, and aborts when pyright is missing |
| Scenarios.OpenerInsideOtherBlock | python/check_md_code_blocks.py:24-34 | five lines shaped fence, opener, content, fence, fence give one block: the content line, starting on line 3; the first fence opens nothing |
| Scenarios.FirstFourLines | python/check_md_code_blocks.py:24-32 | whatever the first line, an opener, a content line and a closing fence (one that does not open) on lines 2-4 give that content line as the only block so far |
| Scenarios.NestedOuterFences | python/check_md_code_blocks.py:25-28 | "````markdown" and "````" are fences that open no python block |
| Scenarios.NestedInnerLines | python/check_md_code_blocks.py:25-28 | inside it, "```python" opens, "x = 1" is content and "```" is a closing fence |
| Scenarios.NestedExampleExtracted | python/check_md_code_blocks.py:20-34 | the python example inside the markdown block is extracted: one block, "x = 1\n", starting on line 3 |

## Left out

- Reading the files (lines 17-18): each file is given as a path and the lines `readlines()` returns, with their newlines kept. UTF-8 decoding and I/O errors are not modelled.
- Running pyright (lines 53-55) is a parameter of the model: a function from the text on its standard input to an exit code or "not installed". Its standard output is not modelled.
- Pyright is assumed to always return. The code sets no timeout, so a pyright that hangs would hang the run; the model has no such case.
- `subprocess.run` can raise exceptions other than `FileNotFoundError` (for example `PermissionError`). These end the run with an uncaught exception, and the model does not represent them.
- Syntax highlighting with pygments (line 58) only formats a log message and is not modelled.
- Logging (lines 9-11, 46, 49, 57-68) is not modelled. The label built at line 45 is only used in log messages.
- The command-line entry point (lines 77-81, argparse) is not modelled. `CheckCodeBlocks` takes the list of files it would be given.
- The two `RuntimeError`s (lines 69 and 75) are the outcomes `PyrightMissing` and `SyntaxErrors(files)`. The exact message texts are not modelled.
- PyStr.Strip: its own contract only bounds the length. What it returns is stated by `StripIsTrimmedSlice` and the two half lemmas. Those facts stay out of the function's contract, so they are not unfolded at every fence test.
- PyStr.IsSpace: `str.strip()` is modelled for ASCII whitespace only (TAB, LF, VT, FF, CR, the separators FS, GS, RS, US, and SPACE). Non-ASCII whitespace such as NO-BREAK SPACE is not treated as whitespace.
