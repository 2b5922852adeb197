/**
 The handful of Python string built-ins that the Markdown code-block checker
 relies on: `str.strip()`, `str.startswith`, the substring test `p in s` and
 `"\n".join(...)`. Strings are sequences of characters; whitespace is the
 ASCII part of what Python's `str.isspace` accepts.
 */
module PyStr {

  /** Python's `str.isspace` restricted to ASCII: TAB, LF, VT, FF, CR,
      the four separators FS, GS, RS, US, and SPACE. */
  predicate IsSpace(c: char) {
    (9 <= c as int <= 13) || (28 <= c as int <= 32)
  }

  /** Every character of `s` is whitespace. */
  predicate AllSpace(s: string) {
    forall k :: 0 <= k < |s| ==> IsSpace(s[k])
  }

  /** `p` occurs in `s` starting at index `i`. */
  predicate OccursAt(s: string, p: string, i: int) {
    0 <= i && i + |p| <= |s| && s[i..i + |p|] == p
  }

  /** `s.lstrip()`: drops the leading whitespace. */
  function LStrip(s: string): string {
    if |s| > 0 && IsSpace(s[0]) then LStrip(s[1..]) else s
  }

  /** `s.rstrip()`: drops the trailing whitespace. */
  function RStrip(s: string): string {
    if |s| > 0 && IsSpace(s[|s| - 1]) then RStrip(s[..|s| - 1]) else s
  }

  /** `s.strip()`: no longer than `s`, and neither starts nor ends with
      whitespace. */
  function Strip(s: string): (r: string)
    ensures |r| <= |s|
  {
    LStripDropsLeadingSpace(s);
    RStripDropsTrailingSpace(LStrip(s));
    RStrip(LStrip(s))
  }

  lemma {:induction false} LStripDropsLeadingSpace(s: string)
    ensures var r := LStrip(s);
      && |r| <= |s| && r == s[|s| - |r|..]
      && AllSpace(s[..|s| - |r|])
      && (r == [] || !IsSpace(r[0]))
    decreases |s|
  {
    if |s| > 0 && IsSpace(s[0]) {
      LStripDropsLeadingSpace(s[1..]);
      var r := LStrip(s);
      var head := s[..|s| - |r|];
      forall k | 0 <= k < |head| ensures IsSpace(head[k]) {
        if k > 0 {
          assert head[k] == s[1..][..|s| - 1 - |r|][k - 1];
        }
      }
    }
  }

  lemma {:induction false} RStripDropsTrailingSpace(s: string)
    ensures var r := RStrip(s);
      && |r| <= |s| && r == s[..|r|]
      && AllSpace(s[|r|..])
      && (r == [] || !IsSpace(r[|r| - 1]))
    decreases |s|
  {
    if |s| > 0 && IsSpace(s[|s| - 1]) {
      var t := s[..|s| - 1];
      RStripDropsTrailingSpace(t);
      var r := RStrip(s);
      assert r == t[..|r|];
      var tail := s[|r|..];
      forall k | 0 <= k < |tail| ensures IsSpace(tail[k]) {
        if k < |tail| - 1 {
          assert tail[k] == t[|r|..][k];
        }
      }
    }
  }

  /** What `s.strip()` returns is the slice of `s` left once the
      whitespace on both sides is dropped: it neither starts nor ends with
      whitespace, and only whitespace surrounds it. */
  lemma StripIsTrimmedSlice(s: string)
    ensures var r := Strip(s);
      && (r == [] || (!IsSpace(r[0]) && !IsSpace(r[|r| - 1])))
      && exists i :: OccursAt(s, r, i) && AllSpace(s[..i]) && AllSpace(s[i + |r|..])
  {
    var l := LStrip(s);
    var r := RStrip(l);
    LStripDropsLeadingSpace(s);
    RStripDropsTrailingSpace(l);
    var i := |s| - |l|;
    assert OccursAt(s, r, i) by {
      assert l == s[i..];
      assert r == l[..|r|];
    }
    var tail := s[i + |r|..];
    assert AllSpace(tail) by {
      forall k | 0 <= k < |tail| ensures IsSpace(tail[k]) {
        assert tail[k] == l[|r|..][k];
      }
    }
    if r != [] {
      assert r[0] == l[0];
    }
  }

  /** `s.startswith(p)`. */
  predicate StartsWith(s: string, p: string) {
    |p| <= |s| && s[..|p|] == p
  }

  /** When `p` neither starts nor ends with whitespace, `s.strip()` starts
      with `p` exactly when `s` is some whitespace, then `p`, then anything. */
  lemma StripStartsWithIff(s: string, p: string)
    requires |p| > 0 && !IsSpace(p[0]) && !IsSpace(p[|p| - 1])
    ensures StartsWith(Strip(s), p) <==> exists i :: OccursAt(s, p, i) && AllSpace(s[..i])
  {
    if StartsWith(Strip(s), p) {
      StrippedPrefixOccurs(s, p);
    }
    if exists i :: OccursAt(s, p, i) && AllSpace(s[..i]) {
      var i :| OccursAt(s, p, i) && AllSpace(s[..i]);
      OccurringPrefixSurvivesStrip(s, p, i);
    }
  }

  lemma StrippedPrefixOccurs(s: string, p: string)
    requires StartsWith(Strip(s), p)
    ensures var i := |s| - |LStrip(s)|; OccursAt(s, p, i) && AllSpace(s[..i])
  {
    LStripDropsLeadingSpace(s);
    RStripDropsTrailingSpace(LStrip(s));
    PrefixOfTrimmed(s, LStrip(s), Strip(s), p);
  }

  lemma PrefixOfTrimmed(s: string, l: string, r: string, p: string)
    requires |l| <= |s| && l == s[|s| - |l|..]
    requires |r| <= |l| && r == l[..|r|]
    requires StartsWith(r, p)
    ensures OccursAt(s, p, |s| - |l|)
  {
    assert l[..|p|] == r[..|p|];
  }

  lemma OccurringPrefixSurvivesStrip(s: string, p: string, i: int)
    requires |p| > 0 && !IsSpace(p[0]) && !IsSpace(p[|p| - 1])
    requires OccursAt(s, p, i) && AllSpace(s[..i])
    ensures StartsWith(Strip(s), p)
  {
    var l := LStrip(s);
    LStripDropsLeadingSpace(s);
    assert s[i] == p[0];
    assert |s| - |l| == i;
    assert l[..|p|] == s[i..i + |p|];
    var r := RStrip(l);
    RStripDropsTrailingSpace(l);
    assert |r| >= |p|;
    assert r[..|p|] == l[..|p|];
  }

  /** `p in s` on two strings. */
  function Contains(s: string, p: string): bool
    ensures Contains(s, p) ==> |p| <= |s|
    ensures StartsWith(s, p) ==> Contains(s, p)
    decreases |s|
  {
    if |s| < |p| then false
    else if s[..|p|] == p then true
    else Contains(s[1..], p)
  }

  /** `p in s` holds exactly when `p` occurs in `s` at some position. */
  lemma {:induction false} ContainsIffOccurs(s: string, p: string)
    ensures Contains(s, p) <==> exists i :: OccursAt(s, p, i)
    decreases |s|
  {
    if |s| < |p| {
    } else if s[..|p|] == p {
      assert OccursAt(s, p, 0);
    } else {
      ContainsIffOccurs(s[1..], p);
      if Contains(s, p) {
        var i :| OccursAt(s[1..], p, i);
        assert s[1..][i..i + |p|] == s[i + 1..i + 1 + |p|];
        assert OccursAt(s, p, i + 1);
      }
      if exists i :: OccursAt(s, p, i) {
        var i :| OccursAt(s, p, i);
        assert i != 0;
        assert s[1..][i - 1..i - 1 + |p|] == s[i..i + |p|];
        assert OccursAt(s[1..], p, i - 1);
      }
    }
  }

  /** `"\n".join(xs)`: the strings of `xs`, in order, with one newline
      between each two of them. */
  function Join(xs: seq<string>): (r: string)
    ensures |xs| > 0 ==> StartsWith(r, xs[0])
    ensures |xs| > 0 ==> |xs[|xs| - 1]| <= |r| && r[|r| - |xs[|xs| - 1]|..] == xs[|xs| - 1]
  {
    if |xs| == 0 then ""
    else if |xs| == 1 then xs[0]
    else
      var rest := Join(xs[1..]);
      var r := xs[0] + "\n" + rest;
      assert r[..|xs[0]|] == xs[0];
      assert r[|r| - |rest|..] == rest;
      r
  }

  /** The total length of the strings of `xs`. */
  function SumLengths(xs: seq<string>): nat {
    if |xs| == 0 then 0 else |xs[0]| + SumLengths(xs[1..])
  }

  /** The joined string holds every character of `xs` and exactly one
      newline between each two strings. */
  lemma {:induction false} JoinLength(xs: seq<string>)
    requires |xs| > 0
    ensures |Join(xs)| == SumLengths(xs) + |xs| - 1
  {
    if |xs| > 1 {
      JoinLength(xs[1..]);
    }
  }

  /** Joining one more string appends a newline and that string. */
  lemma {:induction false} JoinSnoc(xs: seq<string>, x: string)
    requires |xs| > 0
    ensures Join(xs + [x]) == Join(xs) + "\n" + x
  {
    var ys := xs + [x];
    assert ys[0] == xs[0] && ys[1..] == xs[1..] + [x];
    if |xs| == 1 {
      assert ys[1..] == [x];
    } else {
      JoinSnoc(xs[1..], x);
    }
  }
}
