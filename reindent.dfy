/**
 * The reindent pass at the end of `translate_file` in
 * generate-victoria3-l10n.py: blank and comment lines pass through, the
 * first line that looks like a header is emitted stripped at column 0, and
 * every other line is emitted with exactly two leading spaces.
 */
module Reindent {
  import opened Text

  /** A blank (whitespace-only) line or a `#` comment line: emitted unchanged. */
  predicate PassesThrough(line: string) {
    var stripped := Strip(line);
    stripped == "" || StartsWith(stripped, "#")
  }

  /**
   * `re.compile(r"l_[^:]+:").match(s)`: `l_`, at least one character other
   * than a colon, then a colon; anything may follow.
   */
  predicate HeaderLike(s: string) {
    |s| >= 4 && s[0] == 'l' && s[1] == '_' && s[2] != ':' && ':' in s[3..]
  }

  /** A line that the pass treats as the header if no header was seen yet. */
  predicate IsHeaderLine(line: string) {
    !PassesThrough(line) && HeaderLike(Strip(line))
  }

  /** Index of the first header line, or |lines| when there is none. */
  function FirstHeader(lines: seq<string>): (h: nat)
    ensures h <= |lines|
    ensures h < |lines| ==> IsHeaderLine(lines[h])
    ensures forall j :: 0 <= j < h ==> !IsHeaderLine(lines[j])
  {
    if lines == [] then 0
    else if IsHeaderLine(lines[0]) then 0
    else
      var h := 1 + FirstHeader(lines[1..]);
      assert forall j :: 1 <= j < |lines| ==> lines[1..][j - 1] == lines[j];
      h
  }

  /** What the pass emits for one line, given whether it is the header line. */
  function ReindentLine(line: string, isHeader: bool): string {
    if PassesThrough(line) then line
    else if isHeader then Strip(line)
    else "  " + LStrip(line)
  }

  /** The output of the pass, line by line. */
  function Reindented(lines: seq<string>): (r: seq<string>)
    ensures |r| == |lines|
  {
    seq(|lines|, i requires 0 <= i < |lines| => ReindentLine(lines[i], i == FirstHeader(lines)))
  }

  /** A structural line starts at column 0 only if it is the first header line. */
  predicate AtColumnZero(line: string) {
    line != "" && !IsSpace(line[0])
  }

  /**
   * The loop of lines 130-139: one output line per input line, with a flag
   * that records whether the header was already emitted.
   */
  method Reindent(lines: seq<string>) returns (output: seq<string>)
    ensures output == Reindented(lines)
    ensures |output| == |lines|
    ensures forall i :: 0 <= i < |lines| && PassesThrough(lines[i]) ==> output[i] == lines[i]
    ensures FirstHeader(lines) < |lines| ==> output[FirstHeader(lines)] == Strip(lines[FirstHeader(lines)])
    ensures forall i :: 0 <= i < |lines| && !PassesThrough(lines[i]) && i != FirstHeader(lines) ==>
              output[i] == "  " + LStrip(lines[i])
    ensures forall i :: 0 <= i < |lines| && !PassesThrough(lines[i]) ==>
              (AtColumnZero(output[i]) <==> i == FirstHeader(lines))
  {
    output := [];
    var headerFound := false;
    for i := 0 to |lines|
      invariant |output| == i
      invariant headerFound == (FirstHeader(lines) < i)
      invariant forall j :: 0 <= j < i ==> output[j] == ReindentLine(lines[j], j == FirstHeader(lines))
    {
      var line := lines[i];
      var stripped := Strip(line);
      if stripped == "" || StartsWith(stripped, "#") {
        output := output + [line];
      } else if !headerFound && HeaderLike(stripped) {
        output := output + [Strip(line)];
        headerFound := true;
      } else {
        output := output + ["  " + LStrip(line)];
      }
    }
    forall i | 0 <= i < |lines| && !PassesThrough(lines[i])
      ensures AtColumnZero(output[i]) <==> i == FirstHeader(lines)
    {
      StripStartsWithNonSpace(lines[i]);
    }
  }

  lemma StripStartsWithNonSpace(s: string)
    ensures Strip(s) == "" || !IsSpace(Strip(s)[0])
  {
    LStripFacts(s);
    RStripFacts(LStrip(s));
  }

  /** The pass keeps what each line strips to, so it keeps every classification. */
  lemma ReindentLineKeepsStrip(line: string, isHeader: bool)
    ensures Strip(ReindentLine(line, isHeader)) == Strip(line)
  {
    if !PassesThrough(line) {
      if isHeader {
        StripIdempotent(line);
      } else {
        StripSpacePrefix("  ", line);
      }
    }
  }

  /** Lines with the same header classification have the same first header. */
  lemma {:induction false} FirstHeaderSame(a: seq<string>, b: seq<string>)
    requires |a| == |b|
    requires forall i :: 0 <= i < |a| ==> IsHeaderLine(a[i]) == IsHeaderLine(b[i])
    ensures FirstHeader(a) == FirstHeader(b)
  {
    if a != [] && !IsHeaderLine(a[0]) {
      FirstHeaderSame(a[1..], b[1..]);
    }
  }

  /** Reindenting twice gives the same lines as reindenting once. */
  lemma ReindentIdempotent(lines: seq<string>)
    ensures Reindented(Reindented(lines)) == Reindented(lines)
  {
    var out := Reindented(lines);
    var h := FirstHeader(lines);
    forall i | 0 <= i < |lines|
      ensures Strip(out[i]) == Strip(lines[i])
      ensures IsHeaderLine(out[i]) == IsHeaderLine(lines[i])
    {
      ReindentLineKeepsStrip(lines[i], i == h);
    }
    FirstHeaderSame(out, lines);
    forall i | 0 <= i < |lines| ensures ReindentLine(out[i], i == h) == out[i] {
      var l := lines[i];
      if !PassesThrough(l) {
        if i == h {
          StripIdempotent(l);
        } else {
          LStripSpacePrefix("  ", LStrip(l));
          LStripIdempotent(l);
        }
      }
    }
  }

  /** The first `k` output lines depend only on the first `k` input lines. */
  lemma ReindentPrefix(lines: seq<string>, k: nat)
    requires k <= |lines|
    ensures Reindented(lines[..k]) == Reindented(lines)[..k]
  {
    var h := FirstHeader(lines);
    var hk := FirstHeader(lines[..k]);
    assert hk == if h < k then h else k by {
      FirstHeaderPrefix(lines, k);
    }
  }

  lemma {:induction false} FirstHeaderPrefix(lines: seq<string>, k: nat)
    requires k <= |lines|
    ensures FirstHeader(lines[..k]) == if FirstHeader(lines) < k then FirstHeader(lines) else k
  {
    if k > 0 && !IsHeaderLine(lines[0]) {
      assert lines[..k][1..] == lines[1..][..k - 1];
      FirstHeaderPrefix(lines[1..], k - 1);
    }
  }

  /** The header pattern also matches entry lines: only the flag keeps them indented. */
  lemma EntryLineLooksLikeHeader()
    ensures HeaderLike("l_czech:1 \"x\"")
    ensures Reindented(["  l_czech:1 \"x\""]) == ["l_czech:1 \"x\""]
  {
    var l := "  l_czech:1 \"x\"";
    assert ':' == "l_czech:1 \"x\""[3..][4];
    assert LStrip(l) == "l_czech:1 \"x\"" by {
      LStripUnique(l, "  ", "l_czech:1 \"x\"");
    }
    assert RStrip("l_czech:1 \"x\"") == "l_czech:1 \"x\"" by {
      RStripUnique("l_czech:1 \"x\"", "l_czech:1 \"x\"", "");
    }
    assert IsHeaderLine(l);
  }
}
