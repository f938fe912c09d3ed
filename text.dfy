/**
 * String helpers shared by the model: the whitespace class, prefix and
 * suffix tests, stripping, line splitting and joining, and a left-to-right
 * literal replace-all. Line breaks are the single character '\n'; the
 * whitespace class is the six ASCII whitespace characters.
 */
module Text {

  /**
   * The whitespace class used for Python's `\s` and `str.isspace`: the
   * space and the five controls from tab to carriage return.
   */
  predicate IsSpace(c: char) {
    c == ' ' || c == '\t' || c == '\n' || c == '\r' || c == '\U{B}' || c == '\U{C}'
  }

  predicate AllSpace(s: string) {
    forall i :: 0 <= i < |s| ==> IsSpace(s[i])
  }

  predicate StartsWith(s: string, p: string) {
    |p| <= |s| && s[..|p|] == p
  }

  predicate EndsWith(s: string, p: string) {
    |p| <= |s| && s[|s| - |p|..] == p
  }

  /** Python's `str.lstrip()`: drops the maximal whitespace prefix. */
  function LStrip(s: string): string {
    if s != "" && IsSpace(s[0]) then LStrip(s[1..]) else s
  }

  /** Python's `str.rstrip()`: drops the maximal whitespace suffix. */
  function RStrip(s: string): string {
    if s != "" && IsSpace(s[|s| - 1]) then RStrip(s[..|s| - 1]) else s
  }

  /** `lstrip()` leaves a suffix that does not start with whitespace, and only whitespace went. */
  lemma {:induction false} LStripFacts(s: string)
    ensures |LStrip(s)| <= |s| && LStrip(s) == s[|s| - |LStrip(s)|..]
    ensures LStrip(s) == "" || !IsSpace(LStrip(s)[0])
    ensures AllSpace(s[..|s| - |LStrip(s)|])
  {
    if s != "" && IsSpace(s[0]) {
      LStripFacts(s[1..]);
      var r := LStrip(s[1..]);
      assert s[..|s| - |r|] == [s[0]] + s[1..][..|s| - 1 - |r|];
    }
  }

  /** `rstrip()` leaves a prefix that does not end with whitespace, and only whitespace went. */
  lemma {:induction false} RStripFacts(s: string)
    ensures |RStrip(s)| <= |s| && RStrip(s) == s[..|RStrip(s)|]
    ensures RStrip(s) == "" || !IsSpace(RStrip(s)[|RStrip(s)| - 1])
    ensures AllSpace(s[|RStrip(s)|..])
  {
    if s != "" && IsSpace(s[|s| - 1]) {
      var t := s[..|s| - 1];
      RStripFacts(t);
      var r := RStrip(t);
      assert s[|r|..] == t[|r|..] + [s[|s| - 1]];
    }
  }

  /** Python's `str.strip()`. */
  function Strip(s: string): string {
    RStrip(LStrip(s))
  }

  /** The three facts in LStrip's contract determine its result. */
  lemma {:induction false} LStripUnique(s: string, p: string, r: string)
    requires s == p + r && AllSpace(p)
    requires r == "" || !IsSpace(r[0])
    ensures LStrip(s) == r
  {
    if p != "" {
      assert s[0] == p[0];
      assert s[1..] == p[1..] + r;
      LStripUnique(s[1..], p[1..], r);
    }
  }

  /** The three facts in RStrip's contract determine its result. */
  lemma {:induction false} RStripUnique(s: string, r: string, q: string)
    requires s == r + q && AllSpace(q)
    requires r == "" || !IsSpace(r[|r| - 1])
    ensures RStrip(s) == r
  {
    if q != "" {
      assert s[|s| - 1] == q[|q| - 1];
      assert s[..|s| - 1] == r + q[..|q| - 1];
      RStripUnique(s[..|s| - 1], r, q[..|q| - 1]);
    }
  }

  lemma LStripIdempotent(s: string)
    ensures LStrip(LStrip(s)) == LStrip(s)
  {
    LStripFacts(s);
    LStripUnique(LStrip(s), "", LStrip(s));
  }

  lemma {:induction false} LStripSpacePrefix(p: string, s: string)
    requires AllSpace(p)
    ensures LStrip(p + s) == LStrip(s)
  {
    if p != "" {
      assert (p + s)[0] == p[0];
      assert (p + s)[1..] == p[1..] + s;
      LStripSpacePrefix(p[1..], s);
    } else {
      assert p + s == s;
    }
  }

  /** Stripping the right end of a string that starts with a non-space keeps that start. */
  lemma LStripOfRStrip(s: string)
    requires s == "" || !IsSpace(s[0])
    ensures LStrip(RStrip(s)) == RStrip(s)
  {
    var r := RStrip(s);
    RStripFacts(s);
    if r != "" {
      assert r[0] == s[0];
    }
    LStripUnique(r, "", r);
  }

  lemma RStripIdempotent(s: string)
    ensures RStrip(RStrip(s)) == RStrip(s)
  {
    RStripFacts(s);
    RStripUnique(RStrip(s), RStrip(s), "");
  }

  /** `strip()` is idempotent. */
  lemma StripIdempotent(s: string)
    ensures Strip(Strip(s)) == Strip(s)
  {
    var l := LStrip(s);
    LStripFacts(s);
    LStripOfRStrip(l);
    RStripIdempotent(l);
  }

  /** Adding whitespace in front of a string does not change what `strip()` gives. */
  lemma StripSpacePrefix(p: string, s: string)
    requires AllSpace(p)
    ensures Strip(p + LStrip(s)) == Strip(s)
  {
    LStripSpacePrefix(p, LStrip(s));
    LStripIdempotent(s);
  }

  /** A string that neither starts nor ends with whitespace is its own strip. */
  lemma StripNoSpaceEnds(s: string)
    requires s != "" && !IsSpace(s[0]) && !IsSpace(s[|s| - 1])
    ensures LStrip(s) == s && RStrip(s) == s && Strip(s) == s
  {
  }

  /** Concatenation of a sequence of strings. */
  function Concat(ss: seq<string>): string {
    if ss == [] then "" else ss[0] + Concat(ss[1..])
  }

  lemma ConcatAppend(a: seq<string>, b: seq<string>)
    ensures Concat(a + b) == Concat(a) + Concat(b)
  {
    if a != [] {
      assert (a + b)[0] == a[0];
      assert (a + b)[1..] == a[1..] + b;
      ConcatAppend(a[1..], b);
    } else {
      assert a + b == b;
    }
  }

  lemma ConcatSnoc(a: seq<string>, s: string)
    ensures Concat(a + [s]) == Concat(a) + s
  {
    ConcatAppend(a, [s]);
  }

  /** Python's `sep.join(ss)`. */
  function Join(ss: seq<string>, sep: string): string {
    if ss == [] then "" else if |ss| == 1 then ss[0] else ss[0] + sep + Join(ss[1..], sep)
  }

  /** A string whose last character is a line break. */
  predicate EndsLine(l: string) {
    l != "" && l[|l| - 1] == '\n'
  }

  /** A line as `splitlines(keepends=True)` yields it: non-empty, with '\n' at most as its last character. */
  predicate IsLine(l: string) {
    l != "" && '\n' !in l[..|l| - 1]
  }

  /** Length of the first line of `s`, its '\n' included. */
  function LineLength(s: string): (n: nat)
    ensures n <= |s|
    ensures s != "" ==> 1 <= n && '\n' !in s[..n - 1]
    ensures n < |s| ==> s[n - 1] == '\n'
  {
    if s == "" then 0
    else if s[0] == '\n' then 1
    else
      var n := 1 + LineLength(s[1..]);
      assert n == 1 || s[..n - 1] == [s[0]] + s[1..][..n - 2];
      n
  }

  /** Python's `s.splitlines(keepends=True)` with '\n' as the only line break. */
  function SplitLinesKeepEnds(s: string): (r: seq<string>)
    ensures Concat(r) == s
    ensures forall i :: 0 <= i < |r| ==> IsLine(r[i])
    ensures forall i :: 0 <= i < |r| - 1 ==> EndsLine(r[i])
    ensures (r == []) == (s == "")
    decreases |s|
  {
    if s == "" then []
    else
      var n := LineLength(s);
      assert s == s[..n] + s[n..];
      [s[..n]] + SplitLinesKeepEnds(s[n..])
  }

  /** The line without its terminating '\n'. */
  function StripNewline(l: string): (r: string)
    ensures EndsWith(l, "\n") ==> l == r + "\n"
    ensures !EndsWith(l, "\n") ==> r == l
    ensures EndsLine(l) ==> l == r + "\n"
    ensures !EndsLine(l) ==> r == l
  {
    if l != "" && l[|l| - 1] == '\n' then l[..|l| - 1] else l
  }

  /** Every line without its terminating '\n'. */
  function StripNewlines(ls: seq<string>): (r: seq<string>)
    ensures |r| == |ls|
    ensures forall i :: 0 <= i < |ls| ==> r[i] == StripNewline(ls[i])
  {
    seq(|ls|, i requires 0 <= i < |ls| => StripNewline(ls[i]))
  }

  /** Python's `s.splitlines()` with '\n' as the only line break. */
  function SplitLines(s: string): (r: seq<string>)
    ensures |r| == |SplitLinesKeepEnds(s)|
    ensures forall i :: 0 <= i < |r| ==> '\n' !in r[i]
  {
    var ls := SplitLinesKeepEnds(s);
    forall i | 0 <= i < |ls| ensures '\n' !in StripNewline(ls[i]) {
      StripLineNoBreak(ls[i]);
    }
    StripNewlines(ls)
  }

  lemma StripLineNoBreak(l: string)
    requires IsLine(l)
    ensures '\n' !in StripNewline(l)
  {
    if !EndsLine(l) {
      assert l == l[..|l| - 1] + [l[|l| - 1]];
    }
  }

  /** Joining two non-empty lists is joining each and putting the separator between. */
  lemma {:induction false} JoinAppend(a: seq<string>, b: seq<string>, sep: string)
    requires a != [] && b != []
    ensures Join(a + b, sep) == Join(a, sep) + sep + Join(b, sep)
  {
    assert (a + b)[0] == a[0];
    if |a| == 1 {
      assert (a + b)[1..] == b;
    } else {
      assert (a + b)[1..] == a[1..] + b;
      JoinAppend(a[1..], b, sep);
    }
  }

  /** A join starts with the first piece. */
  lemma JoinStartsWith(ss: seq<string>, sep: string)
    requires ss != []
    ensures StartsWith(Join(ss, sep), ss[0])
  {
  }

  /** A join ends with the last piece. */
  lemma {:induction false} JoinEndsWith(ss: seq<string>, sep: string)
    requires ss != []
    ensures EndsWith(Join(ss, sep), ss[|ss| - 1])
  {
    if |ss| > 1 {
      JoinEndsWith(ss[1..], sep);
    }
  }

  /**
   * Lines that all end with '\n' except possibly the last are their
   * contents joined with "\n", plus the last line's '\n' if it has one.
   */
  lemma {:induction false} ConcatAsJoin(ls: seq<string>)
    requires ls != []
    requires forall k :: 0 <= k < |ls| - 1 ==> EndsLine(ls[k])
    ensures Concat(ls) == Join(StripNewlines(ls), "\n") + (if EndsLine(ls[|ls| - 1]) then "\n" else "")
  {
    var ns := StripNewlines(ls);
    if |ls| > 1 {
      ConcatAsJoin(ls[1..]);
      assert ns[1..] == StripNewlines(ls[1..]);
      assert ls[0] == ns[0] + "\n";
    }
  }

  /** The facts in LineLength's contract determine its result. */
  lemma {:induction false} LineLengthUnique(s: string, n: nat)
    requires 1 <= n <= |s| && '\n' !in s[..n - 1]
    requires n == |s| || s[n - 1] == '\n'
    ensures LineLength(s) == n
  {
    if n > 1 {
      assert s[0] == s[..n - 1][0];
      assert s[1..][..n - 2] == s[..n - 1][1..];
      LineLengthUnique(s[1..], n - 1);
    }
  }

  /** Splitting a concatenation of complete lines gives those lines back. */
  lemma {:induction false} SplitConcatLines(ls: seq<string>)
    requires forall i :: 0 <= i < |ls| ==> IsLine(ls[i]) && EndsLine(ls[i])
    ensures SplitLinesKeepEnds(Concat(ls)) == ls
  {
    if ls != [] {
      var s := Concat(ls);
      var l := ls[0];
      assert s == l + Concat(ls[1..]);
      assert s[..|l|] == l;
      assert s[..|l| - 1] == l[..|l| - 1];
      LineLengthUnique(s, |l|);
      assert s[|l|..] == Concat(ls[1..]);
      SplitConcatLines(ls[1..]);
    }
  }

  /** A line that does not end with '\n' is the whole of the text it is split from. */
  lemma SplitSingleLine(l: string)
    requires l != "" && '\n' !in l
    ensures SplitLinesKeepEnds(l) == [l]
  {
    assert l == l[..|l| - 1] + [l[|l| - 1]];
    LineLengthUnique(l, |l|);
    assert l[..|l|] == l && l[|l|..] == "";
    assert SplitLinesKeepEnds("") == [];
  }

  /** A first line without '\n', then a line break, then the rest. */
  lemma SplitLinesCons(l: string, rest: string)
    requires '\n' !in l
    ensures SplitLinesKeepEnds(l + "\n" + rest) == [l + "\n"] + SplitLinesKeepEnds(rest)
  {
    var s := l + "\n" + rest;
    var h := l + "\n";
    assert s[..|h|] == h;
    assert s[..|h| - 1] == l;
    LineLengthUnique(s, |h|);
    assert s[|h|..] == rest;
  }

  /**
   * Joining lines that contain no '\n' with "\n" and splitting again gives
   * the lines back, unless the last one is empty: `splitlines` never yields
   * a final empty line.
   */
  lemma {:induction false} SplitLinesOfJoin(ls: seq<string>)
    requires forall i :: 0 <= i < |ls| ==> '\n' !in ls[i]
    requires ls == [] || ls[|ls| - 1] != ""
    ensures SplitLines(Join(ls, "\n")) == ls
  {
    if |ls| == 1 {
      SplitLinesSingle(ls[0]);
    } else if |ls| > 1 {
      var rest := Join(ls[1..], "\n");
      SplitLinesOfJoin(ls[1..]);
      SplitLinesCons(ls[0], rest);
      StripNewlinesCons(ls[0] + "\n", SplitLinesKeepEnds(rest));
      assert StripNewline(ls[0] + "\n") == ls[0];
      assert ls == [ls[0]] + ls[1..];
    }
  }

  lemma SplitLinesSingle(l: string)
    requires l != "" && '\n' !in l
    ensures SplitLines(l) == [l]
  {
    SplitSingleLine(l);
    assert StripNewlines([l]) == [StripNewline(l)];
  }

  lemma StripNewlinesHead(ls: seq<string>)
    requires ls != []
    ensures StripNewlines(ls) == [StripNewline(ls[0])] + StripNewlines(ls[1..])
  {
    assert forall i :: 0 < i < |ls| ==> ls[1..][i - 1] == ls[i];
  }

  lemma StripNewlinesCons(l: string, ls: seq<string>)
    ensures StripNewlines([l] + ls) == [StripNewline(l)] + StripNewlines(ls)
  {
    assert forall i :: 0 < i <= |ls| ==> ([l] + ls)[i] == ls[i - 1];
  }

  /** `s` contains `p` at position `i`. */
  predicate OccursAt(s: string, p: string, i: int) {
    0 <= i && i + |p| <= |s| && s[i..i + |p|] == p
  }

  predicate Contains(s: string, p: string) {
    exists i :: 0 <= i <= |s| && OccursAt(s, p, i)
  }

  /**
   * Python's `re.sub(pat, rep, s)` for a pattern without metacharacters:
   * scans left to right and replaces each non-overlapping occurrence.
   */
  function ReplaceAll(s: string, pat: string, rep: string): (r: string)
    requires pat != ""
    decreases |s|
  {
    if |s| < |pat| then s
    else if s[..|pat|] == pat then rep + ReplaceAll(s[|pat|..], pat, rep)
    else [s[0]] + ReplaceAll(s[1..], pat, rep)
  }

  /** Text that does not contain the pattern is left unchanged. */
  lemma {:induction false} ReplaceAllAbsent(s: string, pat: string, rep: string)
    requires pat != ""
    requires !Contains(s, pat)
    ensures ReplaceAll(s, pat, rep) == s
  {
    if |s| >= |pat| {
      assert !OccursAt(s, pat, 0);
      assert s[..|pat|] != pat;
      forall i | OccursAt(s[1..], pat, i) ensures false {
        assert s[1..][i..i + |pat|] == s[i + 1..i + 1 + |pat|];
        assert OccursAt(s, pat, i + 1);
      }
      ReplaceAllAbsent(s[1..], pat, rep);
    }
  }

  /** A character that cannot start the pattern is copied. */
  lemma ReplaceAllSkip(c: char, rest: string, pat: string, rep: string)
    requires pat != "" && c != pat[0]
    ensures ReplaceAll([c] + rest, pat, rep) == [c] + ReplaceAll(rest, pat, rep)
  {
    var s := [c] + rest;
    assert s[1..] == rest;
    if |s| >= |pat| {
      assert s[..|pat|][0] == c;
    }
  }

  /** Text shorter than the pattern is copied. */
  lemma ReplaceAllShort(s: string, pat: string, rep: string)
    requires pat != "" && |s| < |pat|
    ensures ReplaceAll(s, pat, rep) == s
  {
  }

  /** Text that lacks one of the pattern's characters is copied. */
  lemma {:induction false} ReplaceAllWithout(s: string, pat: string, rep: string, c: char)
    requires pat != "" && c in pat && c !in s
    ensures ReplaceAll(s, pat, rep) == s
    decreases |s|
  {
    if |s| >= |pat| {
      assert c !in s[..|pat|];
      ReplaceAllWithout(s[1..], pat, rep, c);
    }
  }

  /** Number of occurrences that `ReplaceAll` replaces. */
  function CountReplaced(s: string, pat: string): nat
    requires pat != ""
    decreases |s|
  {
    if |s| < |pat| then 0
    else if s[..|pat|] == pat then 1 + CountReplaced(s[|pat|..], pat)
    else CountReplaced(s[1..], pat)
  }

  /** Each replaced occurrence changes the length by |rep| - |pat|, and nothing else does. */
  lemma {:induction false} ReplaceAllLength(s: string, pat: string, rep: string)
    requires pat != ""
    ensures |ReplaceAll(s, pat, rep)| == |s| + CountReplaced(s, pat) * (|rep| - |pat|)
    decreases |s|
  {
    if |s| >= |pat| {
      if s[..|pat|] == pat {
        ReplaceAllLength(s[|pat|..], pat, rep);
        MulSucc(CountReplaced(s[|pat|..], pat), |rep| - |pat|);
      } else {
        ReplaceAllLength(s[1..], pat, rep);
      }
    }
  }

  lemma MulSucc(c: int, d: int)
    ensures (1 + c) * d == d + c * d
  {
  }

  /** Replacing a pattern by itself changes nothing. */
  lemma {:induction false} ReplaceAllSelf(s: string, pat: string)
    requires pat != ""
    ensures ReplaceAll(s, pat, pat) == s
    decreases |s|
  {
    if |s| >= |pat| {
      if s[..|pat|] == pat {
        ReplaceAllSelf(s[|pat|..], pat);
        assert s == pat + s[|pat|..];
      } else {
        ReplaceAllSelf(s[1..], pat);
        assert s == [s[0]] + s[1..];
      }
    }
  }

  // Left-to-right replacement leaves no occurrence behind when the pattern's
  // last character occurs in the pattern and the replacement only at their ends.

  /** The pattern's last character, which occurs nowhere else in it. */
  predicate EndMarked(pat: string) {
    |pat| >= 2 && pat[|pat| - 1] !in pat[..|pat| - 1]
  }

  /** What replacement makes of a segment `a`, free of the end marker, followed by the marker. */
  function SegmentImage(a: string, pat: string, rep: string): string
    requires EndMarked(pat)
  {
    var q := pat[..|pat| - 1];
    if EndsWith(a, q) then a[..|a| - |q|] + rep else a + [pat[|pat| - 1]]
  }

  /** Dropping the first character of a segment drops it from the segment's image. */
  lemma SegmentImageCons(a: string, pat: string, rep: string)
    requires EndMarked(pat) && a != "" && a != pat[..|pat| - 1]
    ensures SegmentImage(a, pat, rep) == [a[0]] + SegmentImage(a[1..], pat, rep)
  {
    var q := pat[..|pat| - 1];
    var t := a[1..];
    assert a == [a[0]] + t;
    if |a| > |q| {
      assert t[|t| - |q|..] == a[|a| - |q|..];
      if EndsWith(a, q) {
        assert a[..|a| - |q|] == [a[0]] + t[..|t| - |q|];
      }
    } else {
      assert !EndsWith(a, q) && !EndsWith(t, q);
    }
  }

  /** A segment other than the pattern's own prefix does not start a match. */
  lemma SegmentStartNoMatch(a: string, b: string, pat: string)
    requires EndMarked(pat) && pat[|pat| - 1] !in a && a != pat[..|pat| - 1]
    requires |a + [pat[|pat| - 1]] + b| >= |pat|
    ensures (a + [pat[|pat| - 1]] + b)[..|pat|] != pat
  {
    var c := pat[|pat| - 1];
    var q := pat[..|pat| - 1];
    var s := a + [c] + b;
    if |a| < |q| {
      assert s[|a|] == c && pat[|a|] == q[|a|];
    } else if |a| > |q| {
      assert s[|q|] == a[|q|] && pat[|q|] == c;
    } else {
      assert s[..|q|] == a && pat[..|q|] == q;
    }
  }

  /** ReplaceAll works segment by segment, each ending at the pattern's last character. */
  lemma {:induction false} ReplaceAllSegment(a: string, b: string, pat: string, rep: string)
    requires EndMarked(pat) && pat[|pat| - 1] !in a
    ensures ReplaceAll(a + [pat[|pat| - 1]] + b, pat, rep) == SegmentImage(a, pat, rep) + ReplaceAll(b, pat, rep)
    decreases |a|
  {
    var c := pat[|pat| - 1];
    var q := pat[..|pat| - 1];
    var s := a + [c] + b;
    assert pat == q + [c];
    if a == q {
      assert s[..|pat|] == pat && s[|pat|..] == b;
      assert EndsWith(a, q) && a[..|a| - |q|] == "";
    } else if |s| < |pat| {
      assert !EndsWith(a, q);
      ReplaceAllShort(b, pat, rep);
    } else {
      SegmentStartNoMatch(a, b, pat);
      if a == "" {
        assert s == [c] + b && s[1..] == b;
        assert !EndsWith(a, q);
      } else {
        assert s[1..] == a[1..] + [c] + b;
        ReplaceAllSegment(a[1..], b, pat, rep);
        SegmentImageCons(a, pat, rep);
      }
    }
  }

  /** The first position of a character that occurs. */
  lemma {:induction false} FirstIndexOf(s: string, c: char) returns (k: nat)
    requires c in s
    ensures k < |s| && s[k] == c && c !in s[..k]
  {
    if s[0] == c {
      k := 0;
    } else {
      assert c in s[1..];
      var k' := FirstIndexOf(s[1..], c);
      k := k' + 1;
      assert s[..k] == [s[0]] + s[1..][..k'];
    }
  }

  /**
   * Text whose end-marked pieces never end with the pattern: a segment
   * holding the marker only at its end, then text without the pattern.
   */
  lemma NoOccurrenceAfterSegment(f: string, r: string, pat: string)
    requires EndMarked(pat)
    requires f != "" && f[|f| - 1] == pat[|pat| - 1] && pat[|pat| - 1] !in f[..|f| - 1]
    requires !EndsWith(f, pat) && !Contains(r, pat)
    ensures !Contains(f + r, pat)
  {
    var c := pat[|pat| - 1];
    var t := f + r;
    forall i | 0 <= i <= |t| ensures !OccursAt(t, pat, i) {
      if i + |pat| <= |t| {
        var e := i + |pat| - 1;
        var w := t[i..i + |pat|];
        if i >= |f| {
          assert w == r[i - |f|..i - |f| + |pat|];
          assert !OccursAt(r, pat, i - |f|);
        } else if e == |f| - 1 {
          assert w == f[|f| - |pat|..];
        } else if e > |f| - 1 {
          var L := |f| - 1;
          assert w[L - i] == c;
          assert pat[L - i] == pat[..|pat| - 1][L - i];
        } else {
          assert w[|pat| - 1] == f[e] == f[..|f| - 1][e];
        }
      }
    }
  }

  /** The image of a segment holds the marker only at its end and never ends with the pattern. */
  lemma SegmentImageFacts(a: string, pat: string, rep: string)
    requires EndMarked(pat) && pat[|pat| - 1] !in a
    requires rep != "" && rep[|rep| - 1] == pat[|pat| - 1] && pat[|pat| - 1] !in rep[..|rep| - 1]
    requires !EndsWith(pat, rep) && !EndsWith(rep, pat)
    ensures var f := SegmentImage(a, pat, rep);
      f != "" && f[|f| - 1] == pat[|pat| - 1] && pat[|pat| - 1] !in f[..|f| - 1] && !EndsWith(f, pat)
  {
    var c := pat[|pat| - 1];
    var q := pat[..|pat| - 1];
    var f := SegmentImage(a, pat, rep);
    assert pat == q + [c];
    if EndsWith(a, q) {
      var p := a[..|a| - |q|];
      assert f == p + rep;
      assert f[..|f| - 1] == p + rep[..|rep| - 1];
      if |rep| >= |pat| {
        assert f[|f| - |pat|..] == rep[|rep| - |pat|..];
      } else if |f| >= |pat| {
        assert f[|f| - |pat|..][|pat| - |rep|..] == rep;
        assert pat[|pat| - |rep|..] != rep;
      }
    } else {
      assert f == a + [c] && f[..|f| - 1] == a;
      if |f| >= |pat| {
        var w := a[|a| - |q|..];
        assert f[|f| - |pat|..] == w + [c];
        assert w != q;
        assert (w + [c])[..|q|] == w;
      }
    }
  }

  /** Replacing every occurrence leaves none, under the conditions on the end marker. */
  lemma {:induction false} ReplaceAllComplete(s: string, pat: string, rep: string)
    requires EndMarked(pat)
    requires rep != "" && rep[|rep| - 1] == pat[|pat| - 1] && pat[|pat| - 1] !in rep[..|rep| - 1]
    requires !EndsWith(pat, rep) && !EndsWith(rep, pat)
    ensures !Contains(ReplaceAll(s, pat, rep), pat)
    decreases |s|
  {
    var c := pat[|pat| - 1];
    if c !in s {
      ReplaceAllWithout(s, pat, rep, c);
      forall i | 0 <= i <= |s| ensures !OccursAt(s, pat, i) {
        if 0 <= i && i + |pat| <= |s| {
          assert s[i..i + |pat|][|pat| - 1] == s[i + |pat| - 1];
        }
      }
    } else {
      var k := FirstIndexOf(s, c);
      var a, b := s[..k], s[k + 1..];
      assert s == a + [c] + b;
      ReplaceAllSegment(a, b, pat, rep);
      ReplaceAllComplete(b, pat, rep);
      SegmentImageFacts(a, pat, rep);
      NoOccurrenceAfterSegment(SegmentImage(a, pat, rep), ReplaceAll(b, pat, rep), pat);
    }
  }
}
