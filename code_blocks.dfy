/**
 The block extractor of the Markdown code-block checker
 (`extract_python_code_blocks`): a two-state scan over the lines of a
 Markdown file that collects the fenced blocks opened by a "```python" line.

 The scan is the method `ExtractPythonCodeBlocks`. It is specified by
 `BlocksUpTo`, which does not replay the scan: it decides, for each line on
 its own, whether that line closes a block, by looking back to the last fence
 line before it. The lemmas below state what the extractor promises in terms
 of line indices.

 The fences are only the ones this extractor recognises: an opener is any line
 whose stripped form starts with "```python" (so "```python3" opens too), a
 fence is any line whose stripped form starts with "```" (so "```js" closes a
 python block). Fence lengths are not matched and "~~~" fences are ordinary
 lines.
 */
module CodeBlocks {
  import opened PyStr

  /** An extracted block: its text and the 1-based number of its first
      content line. */
  datatype CodeBlock = CodeBlock(text: string, startLine: int)

  const Fence: string := "```"
  const PythonFence: string := "```python"

  /** A line that closes whatever python block is open (line 28). */
  predicate IsFence(line: string)
  {
    StartsWith(Strip(line), Fence)
  }

  /** A line that opens a python block (line 25). Every opener is also a
      fence, which is why line 25 is tested before line 28. */
  predicate IsOpener(line: string)
    ensures IsOpener(line) ==> IsFence(line)
  {
    var s := Strip(line);
    assert StartsWith(s, PythonFence) ==> s[..|Fence|] == s[..|PythonFence|][..|Fence|];
    StartsWith(s, PythonFence)
  }

  /** A fence is some whitespace, then "```", then anything. */
  lemma FenceShape(line: string)
    ensures IsFence(line) <==> exists i :: OccursAt(line, Fence, i) && AllSpace(line[..i])
  {
    StripStartsWithIff(line, Fence);
  }

  /** An opener is some whitespace, then "```python", then anything. */
  lemma OpenerShape(line: string)
    ensures IsOpener(line) <==> exists i :: OccursAt(line, PythonFence, i) && AllSpace(line[..i])
  {
    StripStartsWithIff(line, PythonFence);
  }

  /** The index of the last fence line among the first `n` lines, or -1. */
  ghost function LastFence(lines: seq<string>, n: nat): (r: int)
    requires n <= |lines|
    ensures -1 <= r < n
    ensures r >= 0 ==> IsFence(lines[r])
    ensures forall k :: r < k < n ==> !IsFence(lines[k])
  {
    if n == 0 then -1
    else if IsFence(lines[n - 1]) then n - 1
    else LastFence(lines, n - 1)
  }

  /** After the first `n` lines a python block is open: the last fence among
      them is an opener. */
  ghost predicate OpenAfter(lines: seq<string>, n: nat)
    requires n <= |lines|
  {
    var f := LastFence(lines, n);
    f >= 0 && IsOpener(lines[f])
  }

  /** Line `c` closes a python block. */
  ghost predicate ClosesAt(lines: seq<string>, c: nat)
    requires c < |lines|
  {
    IsFence(lines[c]) && !IsOpener(lines[c]) && OpenAfter(lines, c)
  }

  /** The block whose opener is line `j` and whose closing fence is line `c`:
      the content lines in between, joined, and the 1-based number of the
      first of them. */
  ghost function BlockBetween(lines: seq<string>, j: int, c: int): CodeBlock
    requires 0 <= j < c <= |lines|
  {
    CodeBlock(Join(lines[j + 1..c]), j + 2)
  }

  /** The blocks closed within the first `n` lines, in the order of their
      closing fences. */
  ghost function BlocksUpTo(lines: seq<string>, n: nat): seq<CodeBlock>
    requires n <= |lines|
  {
    if n == 0 then []
    else
      BlocksUpTo(lines, n - 1) +
      if ClosesAt(lines, n - 1) then [BlockBetween(lines, LastFence(lines, n - 1), n - 1)] else []
  }

  /** What the extractor returns for a whole file. */
  ghost function PythonBlocks(lines: seq<string>): seq<CodeBlock> {
    BlocksUpTo(lines, |lines|)
  }

  /** Lines `j` and `c` delimit a python block: `j` opens, `c` is a fence
      that does not open, and no line strictly between them is a fence. */
  ghost predicate IsBlockAt(lines: seq<string>, j: int, c: int) {
    && 0 <= j < c < |lines|
    && IsOpener(lines[j])
    && IsFence(lines[c]) && !IsOpener(lines[c])
    && forall k :: j < k < c ==> !IsFence(lines[k])
  }

  /** The scan of lines 20-34: one flag, one accumulator, one result list. */
  method ExtractPythonCodeBlocks(lines: seq<string>) returns (codeBlocks: seq<CodeBlock>)
    ensures codeBlocks == PythonBlocks(lines)
  {
    codeBlocks := [];
    var inCodeBlock := false;
    var currentBlock: seq<string> := [];
    for i := 0 to |lines|
      invariant codeBlocks == BlocksUpTo(lines, i)
      invariant inCodeBlock == OpenAfter(lines, i)
      invariant inCodeBlock ==> currentBlock == lines[LastFence(lines, i) + 1..i]
    {
      var line := lines[i];
      if IsOpener(line) {
        OpenerStep(lines, i);
        inCodeBlock := true;
        currentBlock := [];
      } else if IsFence(line) && inCodeBlock {
        CloserStep(lines, i, currentBlock);
        inCodeBlock := false;
        codeBlocks := codeBlocks + [CodeBlock(Join(currentBlock), i - |currentBlock| + 1)];
      } else if inCodeBlock {
        ContentStep(lines, i);
        currentBlock := currentBlock + [line];
      } else {
        OutsideStep(lines, i);
      }
    }
  }

  /** Line `i` opens a block: nothing is added and the block is open with
      nothing read yet. */
  lemma OpenerStep(lines: seq<string>, i: nat)
    requires i < |lines| && IsOpener(lines[i])
    ensures BlocksUpTo(lines, i + 1) == BlocksUpTo(lines, i)
    ensures OpenAfter(lines, i + 1) && LastFence(lines, i + 1) == i
  {
  }

  /** Line `i` closes the open block, whose lines read so far are `pending`:
      the block added is those lines joined, starting on line
      `i - |pending| + 1`, and none is open. */
  lemma CloserStep(lines: seq<string>, i: nat, pending: seq<string>)
    requires i < |lines| && IsFence(lines[i]) && !IsOpener(lines[i]) && OpenAfter(lines, i)
    requires pending == lines[LastFence(lines, i) + 1..i]
    ensures BlocksUpTo(lines, i + 1) == BlocksUpTo(lines, i) + [CodeBlock(Join(pending), i - |pending| + 1)]
    ensures !OpenAfter(lines, i + 1)
  {
    assert ClosesAt(lines, i);
    PendingIsBlock(lines, LastFence(lines, i), i, pending);
  }

  /** The lines read since opener `j` make up the block `j..c`: the start
      line `c - |pending| + 1` of the scan is line `j + 2`. */
  lemma PendingIsBlock(lines: seq<string>, j: int, c: int, pending: seq<string>)
    requires 0 <= j < c <= |lines| && pending == lines[j + 1..c]
    ensures BlockBetween(lines, j, c) == CodeBlock(Join(pending), c - |pending| + 1)
  {
    assert |pending| == c - j - 1;
  }

  /** Line `i` is read inside an open block and is not a fence. */
  lemma ContentStep(lines: seq<string>, i: nat)
    requires i < |lines| && !IsFence(lines[i]) && OpenAfter(lines, i)
    ensures BlocksUpTo(lines, i + 1) == BlocksUpTo(lines, i)
    ensures OpenAfter(lines, i + 1) && LastFence(lines, i + 1) == LastFence(lines, i)
  {
  }

  /** Line `i` is read with no block open and does not open one. */
  lemma OutsideStep(lines: seq<string>, i: nat)
    requires i < |lines| && !IsOpener(lines[i]) && !OpenAfter(lines, i)
    ensures BlocksUpTo(lines, i + 1) == BlocksUpTo(lines, i)
    ensures !OpenAfter(lines, i + 1)
  {
  }

  // ---------------------------------------------------------------------
  // Properties of the extractor

  /** The closing fence `c` belongs to opener `j` exactly when `j` is the
      last fence before `c`: a second opener restarts the block, any other
      fence ends it. */
  lemma ClosingFenceMatchesOpener(lines: seq<string>, j: int, c: int)
    requires 0 <= j < c < |lines|
    ensures IsBlockAt(lines, j, c) <==> ClosesAt(lines, c) && LastFence(lines, c) == j
  {
  }

  /** Lines that close nothing add no block. */
  lemma {:induction false} NoCloseNoBlock(lines: seq<string>, m: nat, n: nat)
    requires m <= n <= |lines|
    requires forall k :: m <= k < n ==> !ClosesAt(lines, k)
    ensures BlocksUpTo(lines, n) == BlocksUpTo(lines, m)
    decreases n
  {
    if n > m {
      NoCloseNoBlock(lines, m, n - 1);
    }
  }

  /** The blocks found in a shorter prefix come first, unchanged. */
  lemma {:induction false} BlocksUpToGrows(lines: seq<string>, m: nat, n: nat)
    requires m <= n <= |lines|
    ensures |BlocksUpTo(lines, m)| <= |BlocksUpTo(lines, n)|
    ensures BlocksUpTo(lines, n)[..|BlocksUpTo(lines, m)|] == BlocksUpTo(lines, m)
    decreases n
  {
    if n > m {
      BlocksUpToGrows(lines, m, n - 1);
    }
  }

  /** With no "```python" line, nothing is extracted. */
  lemma {:induction false} NoOpenerNoBlocks(lines: seq<string>, n: nat)
    requires n <= |lines|
    requires forall k :: 0 <= k < n ==> !IsOpener(lines[k])
    ensures BlocksUpTo(lines, n) == []
    decreases n
  {
    if n > 0 {
      NoOpenerNoBlocks(lines, n - 1);
    }
  }

  /** An opener at `j`, fence-free content and a closing fence at `c` yield
      exactly one more block: the content lines joined, starting at line
      j + 2 (the 1-based number of line j + 1). */
  lemma ExactlyOneBlock(lines: seq<string>, j: int, c: int)
    requires IsBlockAt(lines, j, c)
    ensures BlocksUpTo(lines, c + 1) == BlocksUpTo(lines, j) + [BlockBetween(lines, j, c)]
  {
    NoCloseNoBlock(lines, j, c);
    ClosingFenceMatchesOpener(lines, j, c);
  }

  /** A second opener at `r` inside a block opened at `j` restarts it: the
      lines read in between are discarded, and the next closing fence `c`
      yields only the lines after `r`. */
  lemma ReopenDiscardsPending(lines: seq<string>, j: int, r: int, c: int)
    requires IsBlockAt(lines, r, c) && 0 <= j < r && IsOpener(lines[j])
    requires forall k :: j < k < r ==> !IsFence(lines[k])
    ensures BlocksUpTo(lines, c + 1) == BlocksUpTo(lines, j) + [BlockBetween(lines, r, c)]
  {
    NoCloseNoBlock(lines, j, r);
    ExactlyOneBlock(lines, r, c);
  }

  /** An opener followed by no fence up to the end of the file yields
      nothing: the pending block is dropped and the block stays open. */
  lemma UnterminatedBlockDropped(lines: seq<string>, j: int)
    requires 0 <= j < |lines| && IsOpener(lines[j])
    requires forall k :: j < k < |lines| ==> !IsFence(lines[k])
    ensures PythonBlocks(lines) == BlocksUpTo(lines, j)
    ensures OpenAfter(lines, |lines|)
  {
    NoCloseNoBlock(lines, j, |lines|);
  }

  /** Every extracted block is delimited by an opener and a fence, holds
      exactly the lines between them, none of them a fence, and starts on the
      1-based line after the opener. */
  lemma {:induction false} EveryBlockIsDelimited(lines: seq<string>, n: nat, b: CodeBlock)
    requires n <= |lines|
    requires b in BlocksUpTo(lines, n)
    ensures exists j, c :: c < n && IsBlockAt(lines, j, c) && b == BlockBetween(lines, j, c)
    decreases n
  {
    if b in BlocksUpTo(lines, n - 1) {
      EveryBlockIsDelimited(lines, n - 1, b);
    } else {
      var c := n - 1;
      var j := LastFence(lines, c);
      ClosingFenceMatchesOpener(lines, j, c);
      assert IsBlockAt(lines, j, c);
    }
  }

  /** Every delimited python block is extracted. */
  lemma EveryDelimitedBlockExtracted(lines: seq<string>, n: nat, j: int, c: int)
    requires IsBlockAt(lines, j, c) && c < n <= |lines|
    ensures BlockBetween(lines, j, c) in BlocksUpTo(lines, n)
  {
    ExactlyOneBlock(lines, j, c);
    BlocksUpToGrows(lines, c + 1, n);
    var short := BlocksUpTo(lines, c + 1);
    assert short[|short| - 1] == BlockBetween(lines, j, c);
    assert BlocksUpTo(lines, n)[|short| - 1] == short[|short| - 1];
  }

  /** The content lines and the closing fence of a block are all read while
      the block is open; lines read outside a python block are never
      accumulated. */
  lemma {:induction false} ContentReadInsideBlock(lines: seq<string>, j: int, c: int, k: int)
    requires IsBlockAt(lines, j, c) && j < k <= c
    ensures OpenAfter(lines, k) && LastFence(lines, k) == j
    decreases k
  {
    if k > j + 1 {
      ContentReadInsideBlock(lines, j, c, k - 1);
    } else {
    }
  }

  /** The extractor's view of the first `n` lines depends on nothing else. */
  lemma {:induction false} LastFenceOnPrefix(a: seq<string>, b: seq<string>, n: nat)
    requires n <= |a| && n <= |b| && a[..n] == b[..n]
    ensures LastFence(a, n) == LastFence(b, n)
    decreases n
  {
    if n > 0 {
      assert a[n - 1] == a[..n][n - 1] == b[..n][n - 1] == b[n - 1];
      assert a[..n - 1] == a[..n][..n - 1];
      assert b[..n - 1] == b[..n][..n - 1];
      LastFenceOnPrefix(a, b, n - 1);
    }
  }

  lemma {:induction false} BlocksUpToOnPrefix(a: seq<string>, b: seq<string>, n: nat)
    requires n <= |a| && n <= |b| && a[..n] == b[..n]
    ensures BlocksUpTo(a, n) == BlocksUpTo(b, n)
    decreases n
  {
    if n > 0 {
      assert a[..n - 1] == a[..n][..n - 1];
      assert b[..n - 1] == b[..n][..n - 1];
      BlocksUpToOnPrefix(a, b, n - 1);
      LastFenceOnPrefix(a, b, n - 1);
      var f := LastFence(a, n - 1);
      assert a[n - 1] == a[..n][n - 1] == b[..n][n - 1] == b[n - 1];
      if f >= 0 {
        assert a[f] == a[..n][f] == b[..n][f] == b[f];
        assert a[f + 1..n - 1] == a[..n][f + 1..n - 1] == b[..n][f + 1..n - 1] == b[f + 1..n - 1];
      }
    }
  }

  /** Extracting from the first `n` lines of a file gives the first blocks
      of the whole file: the result grows line by line and never changes a
      block once it is found. */
  lemma PrefixExtractsPrefix(lines: seq<string>, n: nat)
    requires n <= |lines|
    ensures PythonBlocks(lines[..n]) == BlocksUpTo(lines, n)
    ensures |PythonBlocks(lines[..n])| <= |PythonBlocks(lines)|
    ensures PythonBlocks(lines)[..|PythonBlocks(lines[..n])|] == PythonBlocks(lines[..n])
  {
    BlocksUpToOnPrefix(lines[..n], lines, n);
    BlocksUpToGrows(lines, n, |lines|);
  }

  /** One step of `BlocksUpTo` and `LastFence`. */
  lemma BlocksUpToStep(lines: seq<string>, n: nat)
    requires 0 < n <= |lines|
    ensures ClosesAt(lines, n - 1) ==>
      && BlocksUpTo(lines, n) == BlocksUpTo(lines, n - 1) + [BlockBetween(lines, LastFence(lines, n - 1), n - 1)]
      && LastFence(lines, n) == n - 1 && !OpenAfter(lines, n)
    ensures !ClosesAt(lines, n - 1) ==> BlocksUpTo(lines, n) == BlocksUpTo(lines, n - 1)
    ensures IsFence(lines[n - 1]) ==> LastFence(lines, n) == n - 1
    ensures !IsFence(lines[n - 1]) ==> LastFence(lines, n) == LastFence(lines, n - 1)
  {
  }

  /** The last block found so far starts at least two lines per block in,
      and no later than the line after the last fence (no later than the
      last fence itself while a block is open). */
  lemma {:induction false} LastStartBound(lines: seq<string>, n: nat)
    requires n <= |lines|
    ensures var bs := BlocksUpTo(lines, n);
      |bs| > 0 ==>
        && 2 * |bs| <= bs[|bs| - 1].startLine
        && bs[|bs| - 1].startLine <= LastFence(lines, n) + if OpenAfter(lines, n) then 0 else 1
    decreases n
  {
    if n > 0 {
      LastStartBound(lines, n - 1);
      BlocksUpToStep(lines, n);
    }
  }

  /** Each block starts at least two lines after the one before it. */
  lemma {:induction false} StartLinesIncrease(lines: seq<string>, n: nat)
    requires n <= |lines|
    ensures var bs := BlocksUpTo(lines, n);
      forall k :: 0 < k < |bs| ==> bs[k - 1].startLine + 2 <= bs[k].startLine
    decreases n
  {
    if n > 0 {
      StartLinesIncrease(lines, n - 1);
      LastStartBound(lines, n - 1);
      BlocksUpToStep(lines, n);
    }
  }

  /** Every block found in the first `n` lines starts on a line from 2 to `n`. */
  lemma {:induction false} StartLinesInRange(lines: seq<string>, n: nat)
    requires n <= |lines|
    ensures var bs := BlocksUpTo(lines, n);
      forall k :: 0 <= k < |bs| ==> 2 <= bs[k].startLine <= n
    decreases n
  {
    if n > 0 {
      StartLinesInRange(lines, n - 1);
      BlocksUpToStep(lines, n);
    }
  }

  /** Start lines are at least 2, at most the number of lines, and grow by at
      least 2 from one block to the next; hence at most one block per two
      lines. */
  lemma StartLinesOrdered(lines: seq<string>)
    ensures var bs := PythonBlocks(lines);
      && (forall k :: 0 <= k < |bs| ==> 2 <= bs[k].startLine <= |lines|)
      && (forall k :: 0 < k < |bs| ==> bs[k - 1].startLine + 2 <= bs[k].startLine)
      && 2 * |bs| <= |lines|
  {
    StartLinesInRange(lines, |lines|);
    StartLinesIncrease(lines, |lines|);
    LastStartBound(lines, |lines|);
  }
}
