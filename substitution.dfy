/**
 * The rewrite of generate-victoria3-l10n.py line 230, which turns the
 * dumper's `l_czech:1: "Čeština"` into the Paradox `l_czech:1 "Čeština"`:
 * `re.sub` of the pattern `^(\s*l_[A-Za-z0-9_]+:\d):\s*` by its group and
 * one space, with `^` matching at the start of every line. The written
 * languages file is the dump of the registry after this rewrite.
 */
module Substitution {
  import opened Text
  import opened OrderedMap
  import opened ParadoxYaml

  /**
   * The pattern tried where `^` holds, as a scan from position `i`: `\s*`
   * first, then `l_` and the first identifier character. The result is the
   * end of the group and the end of the whole match.
   */
  function MatchSpace(s: string, i: nat): (r: Option<(nat, nat)>)
    requires i <= |s|
    ensures r.Some? ==> i < r.value.0 < r.value.1 <= |s|
    decreases |s| - i
  {
    if i < |s| && IsSpace(s[i]) then MatchSpace(s, i + 1)
    else if i + 2 < |s| && s[i] == 'l' && s[i + 1] == '_' && IsIdentChar(s[i + 2]) then MatchIdent(s, i + 3)
    else None
  }

  /** The rest of `[A-Za-z0-9_]+`, then `:\d` that closes the group, then `:`. */
  function MatchIdent(s: string, i: nat): (r: Option<(nat, nat)>)
    requires i <= |s|
    ensures r.Some? ==> i < r.value.0 < r.value.1 <= |s|
    decreases |s| - i
  {
    if i < |s| && IsIdentChar(s[i]) then MatchIdent(s, i + 1)
    else if i + 2 < |s| && s[i] == ':' && IsDigit(s[i + 1]) && s[i + 2] == ':' then Some((i + 2, TrailEnd(s, i + 3)))
    else None
  }

  /** The trailing `\s*`: the first position from `i` on that is not whitespace. */
  function TrailEnd(s: string, i: nat): (e: nat)
    requires i <= |s|
    ensures i <= e <= |s|
    decreases |s| - i
  {
    if i < |s| && IsSpace(s[i]) then TrailEnd(s, i + 1) else i
  }

  /** The pattern tried at the start of `s`. */
  function SubMatch(s: string): (r: Option<(nat, nat)>)
    ensures r.Some? ==> 0 < r.value.0 < r.value.1 <= |s|
  {
    MatchSpace(s, 0)
  }

  /**
   * `re.sub` from a position of the text on: `atStart` says whether `^`
   * holds there. A match is replaced by its group and one space and the scan
   * resumes after it; elsewhere one character is copied.
   */
  function SubstituteFrom(s: string, atStart: bool): string
    decreases |s|
  {
    if s == "" then ""
    else
      var m := if atStart then SubMatch(s) else None;
      if m.Some? then
        var (g, e) := m.value;
        s[..g] + " " + SubstituteFrom(s[e..], s[e - 1] == '\n')
      else [s[0]] + SubstituteFrom(s[1..], s[0] == '\n')
  }

  /** Line 230 over the whole dumped text. */
  function Substitute(text: string): string {
    SubstituteFrom(text, true)
  }

  /** Inside a line, away from its start, characters are copied. */
  lemma {:induction false} CopySegment(a: string, rest: string)
    requires '\n' !in a
    ensures SubstituteFrom(a + rest, false) == a + SubstituteFrom(rest, false)
  {
    if a != "" {
      assert (a + rest)[0] == a[0];
      assert (a + rest)[1..] == a[1..] + rest;
      CopySegment(a[1..], rest);
      assert a == [a[0]] + a[1..];
    } else {
      assert a + rest == rest;
    }
  }

  /** A line break is copied and `^` holds after it. */
  lemma CopyNewline(rest: string)
    ensures SubstituteFrom("\n" + rest, false) == "\n" + SubstituteFrom(rest, true)
  {
    assert ("\n" + rest)[1..] == rest;
  }

  /** The end of a line without a change: copied up to and including its line break. */
  lemma CopyLineEnd(a: string, rest: string)
    requires '\n' !in a
    ensures SubstituteFrom(a + "\n" + rest, false) == a + "\n" + SubstituteFrom(rest, true)
  {
    assert a + "\n" + rest == a + ("\n" + rest);
    CopySegment(a, "\n" + rest);
    CopyNewline(rest);
  }

  lemma NameChars(name: string)
    requires IsName(name)
    ensures forall i :: 0 <= i < |name| ==> IsIdentChar(name[i])
  {
    assert forall i :: 2 <= i < |name| ==> name[i] == name[2..][i - 2];
  }

  /** A line that does not start with a numbered key and a colon is kept, whatever it holds. */
  lemma SubEntriesStep(b: Block, rest: string)
    requires b != [] && IsNumberedKey(b[0].0) && '\n' !in b[0].1
    ensures SubstituteFrom(Concat(DumpEntries(b)) + rest, true)
         == "  " + b[0].0 + " \"" + Escape(b[0].1) + "\"\n" + SubstituteFrom(Concat(DumpEntries(b[1..])) + rest, true)
    ensures Concat(EntryLines(EscapeBlock(b)))
         == "  " + b[0].0 + " \"" + Escape(b[0].1) + "\"\n" + Concat(EntryLines(EscapeBlock(b[1..])))
  {
    EntriesHead(b, rest);
    SubEntryLine(b[0].0, Escape(b[0].1), Concat(DumpEntries(b[1..])) + rest);
  }

  lemma AssocRight(a: string, b: string, c: string)
    ensures a + (b + c) == a + b + c
  {
  }

  /** The first entry's lines, dumped and in the Paradox form, come first. */
  lemma EntriesHead(b: Block, rest: string)
    requires b != []
    ensures Concat(DumpEntries(b)) + rest
         == "  " + b[0].0 + ": \"" + Escape(b[0].1) + "\"\n" + (Concat(DumpEntries(b[1..])) + rest)
    ensures Concat(EntryLines(EscapeBlock(b)))
         == "  " + b[0].0 + " \"" + Escape(b[0].1) + "\"\n" + Concat(EntryLines(EscapeBlock(b[1..])))
  {
    assert DumpEntries(b)[1..] == DumpEntries(b[1..]);
    assert EntryLines(EscapeBlock(b))[1..] == EntryLines(EscapeBlock(b[1..]));
  }

  lemma KeepLine(c: char, a: string, rest: string)
    requires '\n' !in [c] + a && SubMatch([c] + a + "\n" + rest).None?
    ensures SubstituteFrom([c] + a + "\n" + rest, true) == [c] + a + "\n" + SubstituteFrom(rest, true)
  {
    var s := [c] + a + "\n" + rest;
    assert s[0] == c;
    assert s[1..] == a + "\n" + rest;
    CopyLineEnd(a, rest);
  }

  lemma {:induction false} MatchSpaceSkip(s: string, i: nat, j: nat)
    requires i <= j <= |s| && forall k :: i <= k < j ==> IsSpace(s[k])
    ensures MatchSpace(s, i) == MatchSpace(s, j)
    decreases j - i
  {
    if i < j {
      MatchSpaceSkip(s, i + 1, j);
    }
  }

  lemma {:induction false} MatchIdentSkip(s: string, i: nat, j: nat)
    requires i <= j <= |s| && forall k :: i <= k < j ==> IsIdentChar(s[k])
    ensures MatchIdent(s, i) == MatchIdent(s, j)
    decreases j - i
  {
    if i < j {
      MatchIdentSkip(s, i + 1, j);
    }
  }

  lemma {:induction false} TrailEndSkip(s: string, i: nat, j: nat)
    requires i <= j <= |s| && forall k :: i <= k < j ==> IsSpace(s[k])
    ensures TrailEnd(s, i) == TrailEnd(s, j)
    decreases j - i
  {
    if i < j {
      TrailEndSkip(s, i + 1, j);
    }
  }

  /** The trailing `\s*` takes all whitespace and stops at the first other character. */
  lemma {:induction false} TrailEndSound(s: string, i: nat)
    requires i <= |s|
    ensures forall k :: i <= k < TrailEnd(s, i) ==> IsSpace(s[k])
    ensures TrailEnd(s, i) < |s| ==> !IsSpace(s[TrailEnd(s, i)])
    decreases |s| - i
  {
    if i < |s| && IsSpace(s[i]) {
      TrailEndSound(s, i + 1);
    }
  }

  lemma SpaceSlice(s: string, i: nat, j: nat)
    requires i <= j <= |s|
    ensures (forall k :: i <= k < j ==> IsSpace(s[k])) <==> AllSpace(s[i..j])
  {
    assert forall k :: i <= k < j ==> s[k] == s[i..j][k - i];
  }

  /** The characters of a numbered key written out: `l_`, identifier characters, a colon, a digit. */
  predicate KeyAt(s: string, w: nat, g: nat) {
    w + 5 <= g <= |s| && s[w] == 'l' && s[w + 1] == '_'
    && (forall k :: w + 2 <= k < g - 2 ==> IsIdentChar(s[k]))
    && s[g - 2] == ':' && IsDigit(s[g - 1])
  }

  /** `KeyAt` says exactly that the slice is a numbered key. */
  lemma KeyAtIff(s: string, w: nat, g: nat)
    requires w <= g <= |s|
    ensures KeyAt(s, w, g) <==> IsNumberedKey(s[w..g])
  {
    var key := s[w..g];
    if g >= w + 5 {
      var name := key[..|key| - 2];
      assert name == s[w..g - 2];
      assert forall k :: w + 2 <= k < g - 2 ==> s[k] == name[2..][k - w - 2];
      assert key[|key| - 1] == s[g - 1] && key[|key| - 2] == s[g - 2];
    }
  }

  lemma {:induction false} MatchIdentSound(s: string, i: nat)
    requires i <= |s|
    ensures MatchIdent(s, i).Some? ==>
      && i + 2 <= MatchIdent(s, i).value.0 < |s|
      && s[MatchIdent(s, i).value.0] == ':' && s[MatchIdent(s, i).value.0 - 2] == ':'
      && IsDigit(s[MatchIdent(s, i).value.0 - 1])
      && (forall k :: i <= k < MatchIdent(s, i).value.0 - 2 ==> IsIdentChar(s[k]))
      && MatchIdent(s, i).value.1 == TrailEnd(s, MatchIdent(s, i).value.0 + 1)
    decreases |s| - i
  {
    if i < |s| && IsIdentChar(s[i]) {
      MatchIdentSound(s, i + 1);
    }
  }

  /**
   * The pattern matches where whitespace, a numbered key, a colon and
   * whitespace start the text: the group is the whitespace and the key, and
   * the match ends where the second run of whitespace does.
   */
  lemma SubMatchComplete(s: string, w: nat, g: nat, e: nat)
    requires w < g < e <= |s| && AllSpace(s[..w]) && IsNumberedKey(s[w..g]) && s[g] == ':'
    requires AllSpace(s[g + 1..e]) && (e < |s| ==> !IsSpace(s[e]))
    ensures SubMatch(s) == Some((g, e))
  {
    KeyAtIff(s, w, g);
    SpaceSlice(s, 0, w);
    MatchSpaceSkip(s, 0, w);
    MatchIdentSkip(s, w + 3, g - 2);
    SpaceSlice(s, g + 1, e);
    TrailEndSkip(s, g + 1, e);
  }

  /** The leading `\s*` is skipped first; the key must start right after it. */
  lemma SubMatchAfterSpace(s: string)
    ensures TrailEnd(s, 0) <= |s|
    ensures SubMatch(s)
         == var w := TrailEnd(s, 0);
            if w + 2 < |s| && s[w] == 'l' && s[w + 1] == '_' && IsIdentChar(s[w + 2]) then MatchIdent(s, w + 3) else None
  {
    var w := TrailEnd(s, 0);
    TrailEndSound(s, 0);
    MatchSpaceSkip(s, 0, w);
  }

  /**
   * What a match consists of: whitespace up to `TrailEnd(s, 0)`, a numbered
   * key up to the end of the group, a colon, and all whitespace after it.
   */
  lemma SubMatchSound(s: string, g: nat, e: nat)
    requires SubMatch(s) == Some((g, e))
    ensures TrailEnd(s, 0) < g && AllSpace(s[..TrailEnd(s, 0)]) && IsNumberedKey(s[TrailEnd(s, 0)..g])
    ensures g < e <= |s| && s[g] == ':' && AllSpace(s[g + 1..e]) && (e < |s| ==> !IsSpace(s[e]))
  {
    var w := TrailEnd(s, 0);
    SubMatchAfterSpace(s);
    MatchKeySound(s, w, g, e);
    TrailEndSound(s, 0);
    SpaceSlice(s, 0, w);
  }

  lemma MatchKeySound(s: string, w: nat, g: nat, e: nat)
    requires w + 3 <= |s| && s[w] == 'l' && s[w + 1] == '_' && IsIdentChar(s[w + 2])
    requires MatchIdent(s, w + 3) == Some((g, e))
    ensures w < g && IsNumberedKey(s[w..g]) && s[g] == ':'
    ensures g < e <= |s| && AllSpace(s[g + 1..e]) && (e < |s| ==> !IsSpace(s[e]))
  {
    MatchIdentSound(s, w + 3);
    assert KeyAt(s, w, g);
    KeyAtIff(s, w, g);
    TrailEndSound(s, g + 1);
    SpaceSlice(s, g + 1, e);
  }

  /** A header line has no digit after its colon, so it is kept as it is. */
  lemma SubHeaderLine(name: string, rest: string)
    requires IsName(name)
    ensures SubstituteFrom(name + ":\n" + rest, true) == name + ":\n" + SubstituteFrom(rest, true)
  {
    var s := name + ":\n" + rest;
    NameChars(name);
    assert forall k :: 0 <= k < |name| ==> s[k] == name[k];
    MatchIdentSkip(s, 3, |name|);
    assert SubMatch(s).None?;
    assert s == [name[0]] + (name[1..] + ":") + "\n" + rest;
    KeepLine(name[0], name[1..] + ":", rest);
  }

  /** One step of the scan where `^` holds and the pattern matches. */
  lemma SubStepSome(s: string, g: nat, e: nat)
    requires s != "" && SubMatch(s) == Some((g, e))
    ensures SubstituteFrom(s, true) == s[..g] + " " + SubstituteFrom(s[e..], s[e - 1] == '\n')
  {
  }

  /**
   * A line that starts with whitespace, a numbered key, a colon and one
   * space loses the colon and nothing else.
   */
  lemma SubKeyLine(ws: string, key: string, a: string, rest: string)
    requires AllSpace(ws) && IsNumberedKey(key)
    requires a != "" && !IsSpace(a[0]) && '\n' !in a
    ensures SubstituteFrom(ws + key + ": " + a + "\n" + rest, true) == ws + key + " " + a + "\n" + SubstituteFrom(rest, true)
  {
    var after := a + "\n" + rest;
    var s := ws + key + ": " + after;
    assert ws + key + ": " + a + "\n" + rest == s;
    var g := |ws| + |key|;
    assert s[..|ws|] == ws && s[|ws|..g] == key && s[g] == ':';
    assert s[g + 1..g + 2] == " " && s[g + 2..] == after;
    SubMatchComplete(s, |ws|, g, g + 2);
    SubStepSome(s, g, g + 2);
    assert s[..g] == ws + key;
    CopyLineEnd(a, rest);
  }

  /** The dumped entry line of a numbered key loses the colon after its key and nothing else. */
  lemma SubEntryLine(key: string, e: string, rest: string)
    requires IsNumberedKey(key) && '\n' !in e
    ensures SubstituteFrom("  " + key + ": \"" + e + "\"\n" + rest, true)
         == "  " + key + " \"" + e + "\"\n" + SubstituteFrom(rest, true)
  {
    var a := "\"" + e + "\"";
    SubKeyLine("  ", key, a, rest);
    assert "  " + key + ": \"" + e + "\"\n" + rest == "  " + key + ": " + a + "\n" + rest;
    assert "  " + key + " " + a + "\n" == "  " + key + " \"" + e + "\"\n";
  }

  /** The dump of an empty document is kept as it is. */
  lemma SubEmptyDocument()
    ensures Substitute("{}\n") == "{}\n"
  {
    var s := "{}\n";
    assert SubMatch(s).None?;
    assert s == ['{'] + "}" + "\n" + "";
    KeepLine('{', "}", "");
  }

  // The written languages file: the dump after the rewrite.

  /** Line 226 and line 230: the dump of the registry, rewritten to the Paradox form. */
  function Serialize(d: Document): string {
    Substitute(Dump(d))
  }

  predicate NumberedKeys(b: Block) {
    forall j :: 0 <= j < |b| ==> IsNumberedKey(b[j].0)
  }

  /**
   * The documents the file round trip covers: well formed, no empty block
   * (it would be dumped as `{}`), and every key with its digit (a key
   * without one keeps the dumper's colon).
   */
  predicate Serializable(d: Document) {
    WellFormed(d) && forall i :: 0 <= i < |d| ==> d[i].1 != [] && NumberedKeys(d[i].1)
  }

  /** A block with every value in its dumped, escaped form. */
  function EscapeBlock(b: Block): (r: Block)
    ensures |r| == |b|
    ensures forall i :: 0 <= i < |b| ==> r[i] == (b[i].0, Escape(b[i].1))
  {
    seq(|b|, i requires 0 <= i < |b| => (b[i].0, Escape(b[i].1)))
  }

  function EscapeValues(d: Document): (r: Document)
    ensures |r| == |d|
    ensures forall i :: 0 <= i < |d| ==> r[i] == (d[i].0, EscapeBlock(d[i].1))
  {
    seq(|d|, i requires 0 <= i < |d| => (d[i].0, EscapeBlock(d[i].1)))
  }

  /** The entry lines of a block of numbered keys, rewritten one after the other. */
  lemma {:induction false} SubEntries(b: Block, rest: string)
    requires NumberedKeys(b) && forall i :: 0 <= i < |b| ==> '\n' !in b[i].1
    ensures SubstituteFrom(Concat(DumpEntries(b)) + rest, true)
         == Concat(EntryLines(EscapeBlock(b))) + SubstituteFrom(rest, true)
    decreases |b|
  {
    if b == [] {
      assert Concat(DumpEntries(b)) + rest == rest;
      assert EntryLines(EscapeBlock(b)) == [];
    } else {
      var tail := b[1..];
      SubEntriesStep(b, rest);
      assert NumberedKeys(tail) && forall i :: 0 <= i < |tail| ==> '\n' !in tail[i].1 by {
        assert forall i :: 0 <= i < |tail| ==> tail[i] == b[i + 1];
      }
      SubEntries(tail, rest);
      var line := "  " + b[0].0 + " \"" + Escape(b[0].1) + "\"\n";
      AssocRight(line, Concat(EntryLines(EscapeBlock(tail))), SubstituteFrom(rest, true));
    }
  }

  /** A block that is not empty is rewritten to its Paradox lines. */
  lemma SubBlock(name: string, b: Block, rest: string)
    requires IsName(name) && b != [] && NumberedKeys(b) && forall i :: 0 <= i < |b| ==> '\n' !in b[i].1
    ensures SubstituteFrom(Concat(DumpBlock(name, b)) + rest, true)
         == Concat(BlockLines(name, EscapeBlock(b))) + SubstituteFrom(rest, true)
  {
    var entries := Concat(DumpEntries(b)) + rest;
    assert DumpBlock(name, b)[1..] == DumpEntries(b);
    assert Concat(DumpBlock(name, b)) + rest == name + ":\n" + entries;
    SubHeaderLine(name, entries);
    SubEntries(b, rest);
    assert BlockLines(name, EscapeBlock(b))[1..] == EntryLines(EscapeBlock(b));
  }

  /** The dump of a document, rewritten, is the Paradox text of its escaped values. */
  lemma {:induction false} SubDoc(d: Document)
    requires Serializable(d)
    ensures SubstituteFrom(Concat(DumpLines(d)), true) == ParadoxText(EscapeValues(d))
    decreases |d|
  {
    if d == [] {
      assert EscapeValues(d) == [];
    } else {
      var (name, b) := d[0];
      var tail := d[1..];
      assert Serializable(tail) by {
        assert forall i :: 0 <= i < |tail| ==> tail[i] == d[i + 1];
      }
      SubDoc(tail);
      ConcatAppend(DumpBlock(name, b), DumpLines(tail));
      SubBlock(name, b, Concat(DumpLines(tail)));
      var e := EscapeValues(d);
      assert e[0] == (name, EscapeBlock(b));
      assert e[1..] == EscapeValues(tail);
      ConcatAppend(BlockLines(name, EscapeBlock(b)), DocLines(EscapeValues(tail)));
    }
  }

  /** The written file is the Paradox text of the registry with its values escaped. */
  lemma SerializeText(d: Document)
    requires Serializable(d)
    ensures Serialize(d) == if d == [] then "{}\n" else ParadoxText(EscapeValues(d))
  {
    if d == [] {
      SubEmptyDocument();
    } else {
      SubDoc(d);
    }
  }

  lemma EscapeValuesWellFormed(d: Document)
    requires WellFormed(d)
    ensures WellFormed(EscapeValues(d))
  {
    var e := EscapeValues(d);
    forall i | 0 <= i < |d| ensures WellFormedBlock(e[i].1) {
      var b := d[i].1;
      assert WellFormedBlock(b);
      var eb := EscapeBlock(b);
      assert forall j :: 0 <= j < |b| ==> eb[j].0 == b[j].0;
    }
    assert forall i :: 0 <= i < |d| ==> e[i].0 == d[i].0;
  }

  /** The line `{}` is neither a header nor an entry. */
  lemma EmptyDumpSkipped()
    ensures Classify("{}\n") == Skip
  {
    var l := "{}";
    CleanLineOf("", l);
    assert "" + l + "\n" == "{}\n" && "" + l == l;
    assert LStrip(l) == l;
  }

  /** The empty registry is written as `{}`, which the parser skips. */
  lemma ParseEmptyDump()
    ensures Parse("{}\n") == [] && Parse([Bom] + "{}\n") == []
  {
    ParseEmptyDumpText();
    ParseBom("{}\n");
  }

  lemma ParseEmptyDumpText()
    ensures Parse("{}\n") == []
  {
    SplitLinesCons("{}", "");
    assert "{}" + "\n" + "" == "{}\n";
    EmptyDumpSkipped();
    assert Kinds(["{}\n"]) == [Skip];
    assert [Skip][1..] == [];
  }

  /**
   * Reading the written file back, with or without the byte order mark that
   * add_bom.py puts in front, gives the registry with its values escaped.
   */
  lemma SerializeRoundTrip(d: Document)
    requires Serializable(d)
    ensures Parse(Serialize(d)) == EscapeValues(d)
    ensures Parse([Bom] + Serialize(d)) == EscapeValues(d)
  {
    SerializeText(d);
    if d == [] {
      ParseEmptyDump();
      assert EscapeValues(d) == [];
    } else {
      EscapeValuesWellFormed(d);
      ParadoxRoundTrip(EscapeValues(d));
    }
  }

  /** Values without quotes or backslashes are not escaped. */
  predicate PlainValues(d: Document) {
    forall i, j :: 0 <= i < |d| && 0 <= j < |d[i].1| ==> '"' !in d[i].1[j].1 && '\\' !in d[i].1[j].1
  }

  lemma EscapeValuesPlain(d: Document)
    requires PlainValues(d)
    ensures EscapeValues(d) == d
  {
    forall i | 0 <= i < |d| ensures EscapeBlock(d[i].1) == d[i].1 {
      var b := d[i].1;
      forall j | 0 <= j < |b| ensures Escape(b[j].1) == b[j].1 {
        EscapePlain(b[j].1);
      }
    }
  }

  /** A registry with plain values is read back from the written file exactly. */
  lemma PlainRoundTrip(d: Document)
    requires Serializable(d) && PlainValues(d)
    ensures Parse(Serialize(d)) == d
    ensures Parse([Bom] + Serialize(d)) == d
  {
    SerializeRoundTrip(d);
    EscapeValuesPlain(d);
  }
}
