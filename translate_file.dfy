/**
 * The text pipeline of `translate_file` in generate-victoria3-l10n.py: the
 * `l_english:` header rewrite, chunking, one call of the translation service
 * per chunk with the `translate_chunk` strip and the ```yaml fence removal,
 * the "\n" join of the translated chunks and the reindent pass.
 * The translation service is a function parameter; reading the file is left
 * to the caller, who passes its text.
 */
module TranslateFile {
  import opened Text
  import opened Chunker
  import opened Reindent

  /** The header prefix the source text carries. */
  const EnglishHeader: string := "l_english:"

  /** The header prefix of the target language. */
  function TargetHeader(lang: string): string {
    "l_" + lang + ":"
  }

  /** Line 111: every `l_english:` in the text becomes `l_<lang>:`. */
  function RewriteHeader(text: string, lang: string): string {
    ReplaceAll(text, EnglishHeader, TargetHeader(lang))
  }

  /** Text that does not mention `l_english:` is left alone. */
  lemma RewriteHeaderAbsent(text: string, lang: string)
    requires !Contains(text, EnglishHeader)
    ensures RewriteHeader(text, lang) == text
  {
    ReplaceAllAbsent(text, EnglishHeader, TargetHeader(lang));
  }

  /** A file that starts with the English header starts with the target header afterwards. */
  lemma RewriteHeaderAtStart(rest: string, lang: string)
    ensures RewriteHeader(EnglishHeader + rest, lang) == TargetHeader(lang) + RewriteHeader(rest, lang)
  {
    assert (EnglishHeader + rest)[..|EnglishHeader|] == EnglishHeader;
    assert (EnglishHeader + rest)[|EnglishHeader|..] == rest;
  }

  /** Translating into English itself changes nothing. */
  lemma RewriteHeaderEnglish(text: string)
    ensures RewriteHeader(text, "english") == text
  {
    assert TargetHeader("english") == EnglishHeader;
    ReplaceAllSelf(text, EnglishHeader);
  }

  /** Each occurrence of `l_english:` grows the text by |lang| - 7 characters, and nothing else changes its length. */
  lemma RewriteHeaderLength(text: string, lang: string)
    ensures |RewriteHeader(text, lang)| == |text| + CountReplaced(text, EnglishHeader) * (|lang| - 7)
  {
    ReplaceAllLength(text, EnglishHeader, TargetHeader(lang));
  }

  /**
   * After the rewrite no `l_english:` is left, provided the target header
   * cannot itself spell one: the language has no colon and its header does
   * not contain `l_english:`.
   */
  lemma RewriteHeaderComplete(text: string, lang: string)
    requires ':' !in lang && !Contains(TargetHeader(lang), EnglishHeader)
    ensures !Contains(RewriteHeader(text, lang), EnglishHeader)
  {
    var pat, rep := EnglishHeader, TargetHeader(lang);
    assert pat[..|pat| - 1] == "l_english";
    assert EndMarked(pat);
    assert rep[..|rep| - 1] == "l_" + lang;
    assert !OccursAt(rep, pat, 0) && !OccursAt(rep, pat, |rep| - |pat|);
    if |rep| == |pat| {
      assert rep[..|pat|] == rep;
    } else if |rep| < |pat| {
      var j := |pat| - |rep|;
      assert pat[j] != 'l' || pat[j + 1] != '_';
      assert pat[j..][0] == pat[j] && pat[j..][1] == pat[j + 1];
    }
    assert !EndsWith(pat, rep);
    if |rep| >= |pat| {
      assert rep[|rep| - |pat|..] == rep[|rep| - |pat|..|rep| - |pat| + |pat|];
    }
    assert !EndsWith(rep, pat);
    ReplaceAllComplete(text, pat, rep);
  }

  /**
   * Python's `s[start:-dropEnd]` for a positive `dropEnd`: both ends are
   * clamped to the string, and a crossing range is empty.
   */
  function SliceInner(s: string, start: nat, dropEnd: nat): (r: string)
    requires dropEnd > 0
    ensures start + dropEnd <= |s| ==> r == s[start..|s| - dropEnd]
    ensures start + dropEnd > |s| ==> r == ""
  {
    var hi := if dropEnd <= |s| then |s| - dropEnd else 0;
    var lo := if start <= |s| then start else |s|;
    if lo <= hi then s[lo..hi] else ""
  }

  const FenceOpen: string := "```yaml"
  const FenceClose: string := "```"

  /** A reply wrapped in a ```yaml fence. */
  predicate Fenced(reply: string) {
    StartsWith(reply, FenceOpen) && EndsWith(reply, FenceClose)
  }

  /** Lines 119-120: a fenced reply loses the first 7 and the last 3 characters and is stripped. */
  function StripFence(reply: string): (r: string)
    ensures !Fenced(reply) ==> r == reply
  {
    if Fenced(reply) then Strip(SliceInner(reply, |FenceOpen|, |FenceClose|)) else reply
  }

  /** The opening and the closing fence cannot overlap: a fenced reply has at least 10 characters. */
  lemma FencedLength(reply: string)
    requires Fenced(reply)
    ensures |reply| >= 10
    ensures StripFence(reply) == Strip(reply[7..|reply| - 3])
  {
    var j := |reply| - 3;
    assert reply[j] == FenceClose[0] == '`';
    assert forall k :: 0 <= k < 7 ==> reply[k] == FenceOpen[k];
    assert forall k :: 3 <= k < 7 ==> FenceOpen[k] != '`';
  }

  /** Wrapping a body in a ```yaml fence and removing the fence gives the stripped body. */
  lemma StripFenceOfFenced(body: string)
    ensures StripFence(FenceOpen + body + FenceClose) == Strip(body)
  {
    var reply := FenceOpen + body + FenceClose;
    assert reply[..7] == FenceOpen;
    assert reply[|reply| - 3..] == FenceClose;
    FencedLength(reply);
    assert reply[7..|reply| - 3] == body;
  }

  /** What the pipeline keeps of a chunk: the service's reply, stripped (line 95), with the fence removed. */
  function TranslateChunk(service: string -> string, chunk: string): string {
    StripFence(Strip(service(chunk)))
  }

  /** Lines 125-140: split into lines, reindent, and join with "\n". */
  function Finalize(text: string): string {
    Join(Reindented(SplitLines(text)), "\n")
  }

  /** The result of `translate_file` for a file with the given text. */
  function TranslatedFile(text: string, lang: string, maxTokens: int, cost: string -> nat, service: string -> string): string {
    var chunks := Chunks(RewriteHeader(text, lang), maxTokens, cost);
    var translated := seq(|chunks|, i requires 0 <= i < |chunks| => TranslateChunk(service, chunks[i]));
    Finalize(Join(translated, "\n"))
  }

  /** Lines 109-140 as the loops the source runs. */
  method TranslateFile(text: string, lang: string, maxTokens: int, cost: string -> nat, service: string -> string)
    returns (result: string)
    ensures result == TranslatedFile(text, lang, maxTokens, cost, service)
  {
    var rewritten := RewriteHeader(text, lang);
    var chunks := ChunkTextByLines(rewritten, maxTokens, cost);
    var translated: seq<string> := [];
    for i := 0 to |chunks|
      invariant |translated| == i
      invariant forall j :: 0 <= j < i ==> translated[j] == TranslateChunk(service, chunks[j])
    {
      var reply := Strip(service(chunks[i]));
      if StartsWith(reply, FenceOpen) && EndsWith(reply, FenceClose) {
        reply := Strip(SliceInner(reply, 7, 3));
      }
      assert reply == TranslateChunk(service, chunks[i]);
      translated := translated + [reply];
    }
    assert translated == seq(|chunks|, i requires 0 <= i < |chunks| => TranslateChunk(service, chunks[i]));
    var finalText := Join(translated, "\n");
    var outputLines := Reindent.Reindent(SplitLines(finalText));
    result := Join(outputLines, "\n");
    assert result == Finalize(finalText);
  }

  /** A reindented line contains no line break when the input line has none. */
  lemma ReindentLineNoBreak(line: string, isHeader: bool)
    requires '\n' !in line
    ensures '\n' !in ReindentLine(line, isHeader)
  {
    LStripFacts(line);
    RStripFacts(LStrip(line));
  }

  /** A reindented line is empty only if the input line is. */
  lemma ReindentLineNonEmpty(line: string, isHeader: bool)
    requires line != ""
    ensures ReindentLine(line, isHeader) != ""
  {
  }

  /** Reindenting keeps lines free of line breaks and keeps a non-empty last line non-empty. */
  lemma ReindentedLines(ls: seq<string>)
    requires forall i :: 0 <= i < |ls| ==> '\n' !in ls[i]
    requires ls == [] || ls[|ls| - 1] != ""
    ensures forall i :: 0 <= i < |ls| ==> '\n' !in Reindented(ls)[i]
    ensures ls == [] || Reindented(ls)[|ls| - 1] != ""
  {
    var h := FirstHeader(ls);
    forall i | 0 <= i < |ls| ensures '\n' !in Reindented(ls)[i] {
      ReindentLineNoBreak(ls[i], i == h);
    }
    if ls != [] {
      ReindentLineNonEmpty(ls[|ls| - 1], |ls| - 1 == h);
    }
  }

  /** Splitting the output of Finalize again gives back the reindented lines, unless the last line is empty. */
  lemma FinalizeLines(text: string)
    requires SplitLines(text) == [] || SplitLines(text)[|SplitLines(text)| - 1] != ""
    ensures SplitLines(Finalize(text)) == Reindented(SplitLines(text))
  {
    var ls := SplitLines(text);
    ReindentedLines(ls);
    SplitLinesOfJoin(Reindented(ls));
  }

  /** Finalizing a finalized text changes nothing, when the last line is not empty. */
  lemma FinalizeIdempotent(text: string)
    requires SplitLines(text) == [] || SplitLines(text)[|SplitLines(text)| - 1] != ""
    ensures Finalize(Finalize(text)) == Finalize(text)
  {
    FinalizeLines(text);
    ReindentIdempotent(SplitLines(text));
  }

  lemma SplitLinesTrailingEmpty()
    ensures SplitLines("x\n\n") == ["x", ""]
  {
    KeepEndsTrailingEmpty();
    var ls := ["x\n", "\n"];
    assert SplitLines("x\n\n") == StripNewlines(ls);
    assert StripNewline("x\n") == "x" && StripNewline("\n") == "";
    var r := StripNewlines(ls);
    assert |r| == 2 && r[0] == "x" && r[1] == "";
  }

  lemma KeepEndsTrailingEmpty()
    ensures SplitLinesKeepEnds("x\n\n") == ["x\n", "\n"]
  {
    SplitLinesCons("x", "\n");
    assert "x" + "\n" + "\n" == "x\n\n" && "x" + "\n" == "x\n";
    NewlineOnly();
  }

  lemma NewlineOnly()
    ensures SplitLinesKeepEnds("\n") == ["\n"]
  {
    SplitLinesCons("", "");
    assert "" + "\n" + "" == "\n";
    assert SplitLinesKeepEnds("") == [];
  }

  lemma ReindentedTrailingEmpty()
    ensures Reindented(["x", ""]) == ["  x", ""]
  {
    StripNoSpaceEnds("x");
    assert !HeaderLike("x");
    assert Strip("") == "";
    assert ["x", ""][1..] == [""] && [""][1..] == [];
    assert FirstHeader(["x", ""]) == 2;
    assert ReindentLine("x", false) == "  x" && ReindentLine("", false) == "";
  }

  lemma SplitLinesIndented()
    ensures SplitLines("  x\n") == ["  x"]
  {
    SplitLinesCons("  x", "");
    assert "  x" + "\n" + "" == "  x\n";
    assert SplitLinesKeepEnds("") == [];
  }

  lemma ReindentedIndented()
    ensures Reindented(["  x"]) == ["  x"]
  {
    LStripUnique("  x", "  ", "x");
    StripNoSpaceEnds("x");
    assert !HeaderLike("x");
    assert ReindentLine("  x", false) == "  x";
    assert FirstHeader(["  x"]) == 1;
  }

  /**
   * With a trailing empty line the finalized text ends with "\n", which the
   * next split drops, so finalizing twice differs from finalizing once.
   */
  lemma FinalizeDropsTrailingEmptyLine()
    ensures Finalize("x\n\n") == "  x\n"
    ensures Finalize("  x\n") == "  x"
  {
    FinalizeTrailingEmpty();
    FinalizeIndented();
  }

  lemma FinalizeTrailingEmpty()
    ensures Finalize("x\n\n") == "  x\n"
  {
    SplitLinesTrailingEmpty();
    ReindentedTrailingEmpty();
    var ls := ["  x", ""];
    assert Finalize("x\n\n") == Join(ls, "\n");
    assert ls[1..] == [""] && Join([""], "\n") == "";
    assert Join(ls, "\n") == "  x" + "\n" + "";
    assert "  x" + "\n" + "" == "  x\n";
  }

  lemma FinalizeIndented()
    ensures Finalize("  x\n") == "  x"
  {
    SplitLinesIndented();
    ReindentedIndented();
  }

  /**
   * A line (without its '\n') that the strips of the pipeline cannot damage:
   * not blank, no trailing whitespace, no backtick after the indentation,
   * and no indentation before a comment.
   */
  predicate CleanLine(l: string) {
    l != "" && !IsSpace(l[|l| - 1]) &&
    var s := LStrip(l);
    s != "" && s[0] != '`' && (s[0] == '#' ==> s == l)
  }

  predicate CleanText(text: string) {
    forall i :: 0 <= i < |SplitLines(text)| ==> CleanLine(SplitLines(text)[i])
  }

  /** What strip leaves of a clean line: its left strip, which is non-empty, and the line itself for a comment. */
  lemma CleanLineStrip(l: string)
    requires CleanLine(l)
    ensures LStrip(l) != "" && !IsSpace(LStrip(l)[0]) && !IsSpace(LStrip(l)[|LStrip(l)| - 1])
    ensures Strip(l) == LStrip(l)
    ensures PassesThrough(l) ==> LStrip(l) == l
  {
    LStripFacts(l);
    var s := LStrip(l);
    assert s[|s| - 1] == l[|l| - 1];
    RStripUnique(s, s, "");
  }

  /** Lines ending with '\n' except the last, each clean once its '\n' is removed. */
  predicate GoodLines(ls: seq<string>) {
    (forall k :: 0 <= k < |ls| - 1 ==> EndsLine(ls[k])) &&
    (forall k :: 0 <= k < |ls| ==> CleanLine(StripNewline(ls[k])))
  }

  lemma GoodLinesSplit(a: seq<string>, b: seq<string>)
    requires GoodLines(a + b)
    ensures GoodLines(a) && GoodLines(b)
  {
    forall k | 0 <= k < |a| ensures (a + b)[k] == a[k] {}
    forall k | 0 <= k < |b| ensures (a + b)[|a| + k] == b[k] {}
  }

  /** The contents of a chunk's lines with the first one left-stripped. */
  function Trimmed(g: seq<string>): (r: seq<string>)
    ensures |r| == |g|
  {
    if g == [] then [] else [LStrip(StripNewline(g[0]))] + StripNewlines(g[1..])
  }

  /** The trimmed contents of each chunk. */
  function TrimmedEach(gs: seq<seq<string>>): (r: seq<seq<string>>)
    ensures |r| == |gs|
    ensures forall i :: 0 <= i < |gs| ==> r[i] == Trimmed(gs[i])
  {
    seq(|gs|, i requires 0 <= i < |gs| => Trimmed(gs[i]))
  }

  /** The trimmed contents of all chunks, laid end to end. */
  function TrimmedAll(gs: seq<seq<string>>): seq<string> {
    Flatten(TrimmedEach(gs))
  }

  /** Each list of lines joined with "\n". */
  function JoinEach(tss: seq<seq<string>>): (r: seq<string>)
    ensures |r| == |tss|
    ensures forall i :: 0 <= i < |tss| ==> r[i] == Join(tss[i], "\n")
  {
    seq(|tss|, i requires 0 <= i < |tss| => Join(tss[i], "\n"))
  }

  /** Joining joined non-empty lists is joining all their elements. */
  lemma {:induction false} JoinOfJoins(tss: seq<seq<string>>)
    requires forall i :: 0 <= i < |tss| ==> tss[i] != []
    ensures Join(JoinEach(tss), "\n") == Join(Flatten(tss), "\n")
    ensures tss != [] ==> Flatten(tss) != []
  {
    if |tss| > 1 {
      JoinOfJoins(tss[1..]);
      assert JoinEach(tss)[1..] == JoinEach(tss[1..]);
      JoinAppend(tss[0], Flatten(tss[1..]), "\n");
    } else if |tss| == 1 {
      assert tss[1..] == [];
      assert Flatten(tss) == tss[0] + [] == tss[0];
      assert JoinEach(tss) == [Join(tss[0], "\n")];
    }
  }

  /** Every chunk of a good list of lines is good. */
  lemma {:induction false} GoodGroups(gs: seq<seq<string>>)
    requires GoodLines(Flatten(gs))
    ensures forall i :: 0 <= i < |gs| ==> GoodLines(gs[i])
  {
    if gs != [] {
      GoodLinesSplit(gs[0], Flatten(gs[1..]));
      GoodGroups(gs[1..]);
      forall i | 1 <= i < |gs| ensures GoodLines(gs[i]) {
        assert gs[i] == gs[1..][i - 1];
      }
    }
  }

  /** A first line without '\n' in front of lines that end with '\n' except the last. */
  lemma {:induction false} ConcatAsJoinCons(s0: string, nl0: string, rest: seq<string>)
    requires s0 != "" && s0[|s0| - 1] != '\n'
    requires nl0 == "\n" || (nl0 == "" && rest == [])
    requires forall k :: 0 <= k < |rest| - 1 ==> EndsLine(rest[k])
    ensures Concat([s0 + nl0] + rest) ==
            Join([s0] + StripNewlines(rest), "\n") + (if rest == [] then nl0 else if EndsLine(rest[|rest| - 1]) then "\n" else "")
  {
    var h := [s0 + nl0] + rest;
    forall k | 0 <= k < |h| - 1 ensures EndsLine(h[k]) {
      if k > 0 {
        assert h[k] == rest[k - 1];
      }
    }
    ConcatAsJoin(h);
    assert StripNewline(s0 + nl0) == s0;
    StripNewlinesCons(s0 + nl0, rest);
  }

  /** A join whose last piece ends with a non-space character loses only a final '\n' to rstrip. */
  lemma JoinRStrip(t: seq<string>, nl: string)
    requires t != [] && NoTrailingSpace(t[|t| - 1])
    requires nl == "" || nl == "\n"
    ensures RStrip(Join(t, "\n") + nl) == Join(t, "\n")
  {
    JoinEndsWith(t, "\n");
    var j := Join(t, "\n");
    var last := t[|t| - 1];
    assert j[|j| - 1] == last[|last| - 1];
    RStripUnique(j + nl, j, nl);
  }

  /** A line's contents are not empty and do not end with whitespace. */
  predicate NoTrailingSpace(l: string) {
    l != "" && !IsSpace(l[|l| - 1])
  }

  /** Stripping a chunk of good lines removes the first line's indentation and the final '\n', and nothing else. */
  lemma {:induction false} StripChunk(g: seq<string>)
    requires g != [] && GoodLines(g)
    ensures Strip(Concat(g)) == Join(Trimmed(g), "\n")
  {
    CleanLineStrip(StripNewline(g[0]));
    CleanLineStrip(StripNewline(g[|g| - 1]));
    StripLines(g, StripNewline(g[0]), LStrip(StripNewline(g[0])));
    assert Trimmed(g) == [LStrip(StripNewline(g[0]))] + StripNewlines(g[1..]);
  }

  /** Left-stripping a chunk whose first line is not blank only strips that line. */
  lemma LStripHead(g: seq<string>, c0: string, s0: string, nl0: string)
    requires g != [] && c0 == StripNewline(g[0]) && s0 == LStrip(c0)
    requires s0 != "" && !IsSpace(s0[0])
    requires nl0 == if EndsLine(g[0]) then "\n" else ""
    ensures LStrip(Concat(g)) == Concat([s0 + nl0] + g[1..])
  {
    var h := [s0 + nl0] + g[1..];
    assert g[0] == c0 + nl0;
    LStripFacts(c0);
    var p := c0[..|c0| - |s0|];
    assert c0 == c0[..|c0| - |s0|] + c0[|c0| - |s0|..];
    assert c0 == p + s0;
    assert h[1..] == g[1..];
    assert Concat(g) == g[0] + Concat(g[1..]);
    assert Concat(h) == (s0 + nl0) + Concat(g[1..]);
    assert Concat(g) == p + Concat(h);
    LStripUnique(Concat(g), p, Concat(h));
  }

  lemma {:induction false} StripLines(g: seq<string>, c0: string, s0: string)
    requires g != [] && (forall k :: 0 <= k < |g| - 1 ==> EndsLine(g[k]))
    requires c0 == StripNewline(g[0]) && s0 == LStrip(c0)
    requires s0 != "" && !IsSpace(s0[0]) && NoTrailingSpace(s0)
    requires NoTrailingSpace(StripNewline(g[|g| - 1]))
    ensures Strip(Concat(g)) == Join([s0] + StripNewlines(g[1..]), "\n")
  {
    var nl0 := if EndsLine(g[0]) then "\n" else "";
    LStripHead(g, c0, s0, nl0);
    var rest := g[1..];
    assert |g| > 1 ==> EndsLine(g[0]);
    assert forall k :: 0 <= k < |rest| - 1 ==> EndsLine(rest[k]) by {
      forall k | 0 <= k < |rest| - 1 ensures EndsLine(rest[k]) {
        assert rest[k] == g[k + 1];
      }
    }
    ConcatAsJoinCons(s0, nl0, rest);
    var t := [s0] + StripNewlines(rest);
    var nl := if rest == [] then nl0 else if EndsLine(rest[|rest| - 1]) then "\n" else "";
    assert t[|t| - 1] == if rest == [] then s0 else StripNewline(g[|g| - 1]);
    JoinRStrip(t, nl);
  }

  /** The chunks' replies, in order. */
  function Replies(service: string -> string, gs: seq<seq<string>>): (r: seq<string>)
    ensures |r| == |gs|
  {
    seq(|gs|, i requires 0 <= i < |gs| => TranslateChunk(service, Concat(gs[i])))
  }

  /** A service whose replies equal its input up to surrounding whitespace. */
  ghost predicate Echoes(service: string -> string) {
    forall c {:trigger service(c)} :: Strip(service(c)) == Strip(c)
  }

  /** An echoing service returns each chunk of good lines as its trimmed contents, unfenced. */
  lemma {:induction false} EchoReply(service: string -> string, g: seq<string>)
    requires Echoes(service)
    requires g != [] && GoodLines(g)
    ensures TranslateChunk(service, Concat(g)) == Join(Trimmed(g), "\n")
  {
    StripChunk(g);
    CleanLineStrip(StripNewline(g[0]));
    NotFencedJoin(Trimmed(g));
  }

  /** A join that does not start with a backtick is not fenced. */
  lemma NotFencedJoin(t: seq<string>)
    requires t != [] && t[0] != "" && t[0][0] != '`'
    ensures !Fenced(Join(t, "\n"))
  {
    JoinStartsWith(t, "\n");
    var j := Join(t, "\n");
    assert j[0] == t[0][0];
  }

  /** Joining the replies to all chunks joins the trimmed contents of all their lines. */
  lemma EchoReplies(service: string -> string, gs: seq<seq<string>>)
    requires Echoes(service)
    requires AllNonEmpty(gs) && GoodLines(Flatten(gs))
    ensures Join(Replies(service, gs), "\n") == Join(TrimmedAll(gs), "\n")
    ensures gs != [] ==> TrimmedAll(gs) != []
  {
    GoodGroups(gs);
    var tss := TrimmedEach(gs);
    forall i | 0 <= i < |gs| ensures Replies(service, gs)[i] == JoinEach(tss)[i] {
      EchoReply(service, gs[i]);
    }
    assert Replies(service, gs) == JoinEach(tss);
    JoinOfJoins(tss);
  }

  /** Two line lists that differ at most by the indentation of lines that do not pass through unchanged. */
  predicate SameUpToIndent(a: seq<string>, b: seq<string>) {
    |a| == |b| &&
    forall i :: 0 <= i < |a| ==> a[i] == b[i] || (a[i] == LStrip(b[i]) && !PassesThrough(b[i]))
  }

  lemma SameUpToIndentAppend(a1: seq<string>, b1: seq<string>, a2: seq<string>, b2: seq<string>)
    requires SameUpToIndent(a1, b1) && SameUpToIndent(a2, b2)
    ensures SameUpToIndent(a1 + a2, b1 + b2)
  {
    forall i | |a1| <= i < |a1| + |a2| ensures (a1 + a2)[i] == a2[i - |a1|] && (b1 + b2)[i] == b2[i - |a1|] {}
  }

  lemma StripNewlinesAppend(a: seq<string>, b: seq<string>)
    ensures StripNewlines(a + b) == StripNewlines(a) + StripNewlines(b)
  {
    forall i | |a| <= i < |a| + |b| ensures (a + b)[i] == b[i - |a|] {}
  }

  /** The trimmed contents of all chunks are the lines of the text, some of them left-stripped. */
  lemma {:induction false} TrimmedAllUpToIndent(gs: seq<seq<string>>)
    requires AllNonEmpty(gs) && GoodLines(Flatten(gs))
    ensures SameUpToIndent(TrimmedAll(gs), StripNewlines(Flatten(gs)))
  {
    if gs != [] {
      var g := gs[0];
      GoodLinesSplit(g, Flatten(gs[1..]));
      TrimmedAllUpToIndent(gs[1..]);
      StripNewlinesAppend(g, Flatten(gs[1..]));
      assert CleanLine(StripNewline(g[0]));
      TrimmedUpToIndent(g);
      assert TrimmedEach(gs)[1..] == TrimmedEach(gs[1..]);
      assert TrimmedAll(gs) == Trimmed(g) + TrimmedAll(gs[1..]);
      SameUpToIndentAppend(Trimmed(g), StripNewlines(g), TrimmedAll(gs[1..]), StripNewlines(Flatten(gs[1..])));
    }
  }

  /** One chunk's trimmed lines differ from its lines only in the first line's indentation. */
  lemma TrimmedUpToIndent(g: seq<string>)
    requires g != [] && CleanLine(StripNewline(g[0]))
    ensures SameUpToIndent(Trimmed(g), StripNewlines(g))
  {
    var c0 := StripNewline(g[0]);
    CleanLineStrip(c0);
    var rest := StripNewlines(g[1..]);
    assert Trimmed(g) == [LStrip(c0)] + rest;
    StripNewlinesHead(g);
  }

  /** Reindenting ignores indentation that the pass replaces anyway. */
  lemma ReindentUpToIndent(a: seq<string>, b: seq<string>)
    requires SameUpToIndent(a, b)
    ensures Reindented(a) == Reindented(b)
  {
    forall i | 0 <= i < |a| && a[i] != b[i] ensures Strip(a[i]) == Strip(b[i]) && LStrip(a[i]) == LStrip(b[i]) {
      LStripIdempotent(b[i]);
    }
    FirstHeaderSame(a, b);
  }

  /**
   * With a service that echoes its input, the whole of `translate_file` is
   * the header rewrite followed by the reindent pass: chunk boundaries, the
   * strip of each reply and the "\n" join leave no trace, whatever the
   * budget and the tokenizer, provided each line is clean.
   */
  lemma EchoPipeline(text: string, lang: string, maxTokens: int, cost: string -> nat, service: string -> string)
    requires Echoes(service)
    requires CleanText(RewriteHeader(text, lang))
    ensures TranslatedFile(text, lang, maxTokens, cost, service) == Finalize(RewriteHeader(text, lang))
  {
    var t := RewriteHeader(text, lang);
    var ls := SplitLinesKeepEnds(t);
    var gs := ChunkLines(t, maxTokens, cost);
    ChunksConcat(t, maxTokens, cost);
    PackNonEmpty(ls, maxTokens, cost, []);
    CleanTextGood(t);
    var chunks := Chunks(t, maxTokens, cost);
    var translated := seq(|chunks|, i requires 0 <= i < |chunks| => TranslateChunk(service, chunks[i]));
    assert translated == Replies(service, gs);
    EchoReplies(service, gs);
    TrimmedAllUpToIndent(gs);
    var tr := TrimmedAll(gs);
    var lines := SplitLines(t);
    TrimmedSplits(tr, lines);
    ReindentUpToIndent(tr, lines);
  }

  /** The lines of a clean text are good lines. */
  lemma CleanTextGood(t: string)
    requires CleanText(t)
    ensures GoodLines(SplitLinesKeepEnds(t))
  {
    var ls := SplitLinesKeepEnds(t);
    forall k | 0 <= k < |ls| ensures CleanLine(StripNewline(ls[k])) {
      assert SplitLines(t)[k] == StripNewline(ls[k]);
    }
  }

  /** Clean lines, each possibly left-stripped, are split back from their join. */
  lemma TrimmedSplits(tr: seq<string>, lines: seq<string>)
    requires SameUpToIndent(tr, lines)
    requires forall i :: 0 <= i < |lines| ==> CleanLine(lines[i]) && '\n' !in lines[i]
    ensures SplitLines(Join(tr, "\n")) == tr
  {
    forall i | 0 <= i < |tr| ensures '\n' !in tr[i] && tr[i] != "" {
      LStripFacts(lines[i]);
      CleanLineStrip(lines[i]);
    }
    SplitLinesOfJoin(tr);
  }

  /** A header line and one entry line, as in the smallest localisation file. */
  function TwoLineFile(header: string, key: string, v: string): string {
    header + ("\n " + (header + EntryTail(key, v)))
  }

  /** What follows the block name in an entry line. */
  function EntryTail(key: string, v: string): string {
    key + " \"" + v + "\"\n"
  }

  lemma RewriteTwoLineFile(lang: string, key: string, v: string)
    requires ':' !in key && ':' !in v
    ensures RewriteHeader(TwoLineFile(EnglishHeader, key, v), lang) == TwoLineFile(TargetHeader(lang), key, v)
  {
    var tail := EntryTail(key, v);
    RewriteEntryLine(lang, tail);
    RewriteHeaderAtStart("\n " + (EnglishHeader + tail), lang);
  }

  /** The second line: a line break, one space, the header, and text without a colon. */
  lemma RewriteEntryLine(lang: string, tail: string)
    requires ':' !in tail
    ensures RewriteHeader("\n " + (EnglishHeader + tail), lang) == "\n " + (TargetHeader(lang) + tail)
  {
    var pat, rep := EnglishHeader, TargetHeader(lang);
    assert ':' in pat;
    ReplaceAllWithout(tail, pat, rep, ':');
    RewriteHeaderAtStart(tail, lang);
    assert "\n " + (pat + tail) == ['\n'] + ([' '] + (pat + tail));
    ReplaceAllSkip('\n', [' '] + (pat + tail), pat, rep);
    ReplaceAllSkip(' ', pat + tail, pat, rep);
    assert ['\n'] + ([' '] + (rep + tail)) == "\n " + (rep + tail);
  }

  lemma SplitTwoLines(a: string, b: string)
    requires '\n' !in a && '\n' !in b
    ensures SplitLines(a + "\n" + b + "\n") == [a, b]
  {
    SplitLinesCons(a, b + "\n");
    SplitLinesCons(b, "");
    assert a + "\n" + (b + "\n") == a + "\n" + b + "\n";
    assert b + "\n" + "" == b + "\n";
    assert SplitLinesKeepEnds("") == [];
    assert SplitLinesKeepEnds(a + "\n" + b + "\n") == [a + "\n", b + "\n"];
    assert StripNewline(a + "\n") == a && StripNewline(b + "\n") == b;
  }

  /** A header line, then an entry line indented by one space. */
  lemma ReindentTwoLines(a: string, e: string)
    requires |a| >= 4 && a[0] == 'l' && a[1] == '_' && a[2] != ':' && a[|a| - 1] == ':'
    requires e != "" && e[0] == 'l' && e[|e| - 1] == '"'
    ensures Reindented([a, " " + e]) == [a, "  " + e]
  {
    assert ':' == a[3..][|a| - 4];
    StripNoSpaceEnds(a);
    LStripUnique(" " + e, " ", e);
    StripNoSpaceEnds(e);
    assert IsHeaderLine(a);
    assert FirstHeader([a, " " + e]) == 0;
    assert ReindentLine(" " + e, false) == "  " + e;
  }

  /**
   * The reference scenario: with a service that echoes its input, a
   * two-line English file becomes the target-language file with the header
   * at column 0 and the entry indented by two spaces, whatever the budget
   * and the tokenizer. The final "\n" of the input does not survive the join.
   */
  lemma Scenario(lang: string, key: string, v: string, maxTokens: int, cost: string -> nat, service: string -> string)
    requires Echoes(service)
    requires lang != "" && '\n' !in lang && ':' !in lang
    requires key != "" && key[0] != '`' && key[0] != '#' && !IsSpace(key[0]) && ':' !in key && '\n' !in key
    requires ':' !in v && '\n' !in v
    ensures TranslatedFile(TwoLineFile(EnglishHeader, key, v), lang, maxTokens, cost, service) ==
            TargetHeader(lang) + "\n  " + EntryText(TargetHeader(lang), key, v)
  {
    RewriteTwoLineFile(lang, key, v);
    FinalizeTwoLineFile(TargetHeader(lang), key, v);
    EchoPipeline(TwoLineFile(EnglishHeader, key, v), lang, maxTokens, cost, service);
  }

  /** The entry line of a two-line file without its indentation. */
  function EntryText(h: string, key: string, v: string): string {
    h + key + " \"" + v + "\""
  }

  /** The target-language two-line file is clean, and finalizing it indents the entry by two spaces. */
  lemma FinalizeTwoLineFile(h: string, key: string, v: string)
    requires |h| >= 4 && h[0] == 'l' && h[1] == '_' && h[2] != ':' && h[|h| - 1] == ':' && '\n' !in h
    requires key != "" && key[0] != '`' && key[0] != '#' && !IsSpace(key[0]) && '\n' !in key
    requires '\n' !in v
    ensures CleanText(TwoLineFile(h, key, v))
    ensures Finalize(TwoLineFile(h, key, v)) == h + "\n  " + EntryText(h, key, v)
  {
    var e := EntryText(h, key, v);
    TwoLineFileLines(h, key, v);
    CleanTwoLines(h, e);
    FinalizeTwoLines(h, e, TwoLineFile(h, key, v));
  }

  lemma FinalizeTwoLines(h: string, e: string, text: string)
    requires |h| >= 4 && h[0] == 'l' && h[1] == '_' && h[2] != ':' && h[|h| - 1] == ':' && '\n' !in h
    requires e != "" && e[0] == 'l' && e[|e| - 1] == '"'
    requires SplitLines(text) == [h, " " + e]
    ensures Finalize(text) == h + "\n  " + e
  {
    ReindentTwoLines(h, e);
    assert Join([h, "  " + e], "\n") == h + "\n" + ("  " + e);
  }

  lemma TwoLineFileLines(h: string, key: string, v: string)
    requires '\n' !in h && '\n' !in key && '\n' !in v
    ensures SplitLines(TwoLineFile(h, key, v)) == [h, " " + EntryText(h, key, v)]
  {
    var e := EntryText(h, key, v);
    assert TwoLineFile(h, key, v) == h + "\n" + (" " + e) + "\n";
    SplitTwoLines(h, " " + e);
  }

  lemma CleanTwoLines(h: string, e: string)
    requires |h| >= 4 && h[0] == 'l' && h[|h| - 1] == ':'
    requires e != "" && e[0] == 'l' && e[|e| - 1] == '"'
    ensures CleanLine(h) && CleanLine(" " + e)
  {
    StripNoSpaceEnds(h);
    LStripUnique(" " + e, " ", e);
  }

  /** The reference scenario itself: `l_english:` with one entry `l_english:1 "Hello"`, into Czech. */
  lemma CzechScenario(text: string, maxTokens: int, cost: string -> nat, service: string -> string)
    requires Echoes(service)
    requires text == "l_english:\n l_english:1 \"Hello\"\n"
    ensures TranslatedFile(text, "czech", maxTokens, cost, service) == "l_czech:\n  l_czech:1 \"Hello\""
  {
    CzechStrings();
    Scenario("czech", "1", "Hello", maxTokens, cost, service);
  }

  lemma CzechStrings()
    ensures TwoLineFile(EnglishHeader, "1", "Hello") == "l_english:\n l_english:1 \"Hello\"\n"
    ensures TargetHeader("czech") + "\n  " + EntryText(TargetHeader("czech"), "1", "Hello") == "l_czech:\n  l_czech:1 \"Hello\""
  {
  }

  /** The identity is an echoing service. */
  lemma IdentityEchoes()
    ensures Echoes(c => c)
  {
  }
}
