/**
 * The Paradox localisation "YAML" dialect of scripts/paradox_yaml_tools.py:
 * a one-pass line classifier that reads a file into an ordered dict of
 * blocks (`l_english:` headers), each an ordered dict of entries
 * (` l_english:1 "English"`), and the intended shape of the dumper that
 * writes such a dict back with plain keys and double-quoted values.
 *
 * The regex classes are approximated: `\s` is Text.IsSpace, `\d` is an
 * ASCII digit, and `[A-Za-z0-9_]` is IsIdentChar.
 */
module ParadoxYaml {
  import opened Text
  import opened OrderedMap

  /** One block: entry key to (raw, unescaped) value, in first-seen order. */
  type Block = Dict<string, string>

  /** The whole file: block name to block, in first-seen order. */
  type Document = Dict<string, Block>

  /** U+FEFF, the byte order mark as a decoded character. */
  const Bom: char := '\U{FEFF}'

  predicate IsIdentChar(c: char) {
    ('A' <= c <= 'Z') || ('a' <= c <= 'z') || ('0' <= c <= '9') || c == '_'
  }

  predicate IsDigit(c: char) {
    '0' <= c <= '9'
  }

  predicate AllIdent(s: string) {
    forall i :: 0 <= i < |s| ==> IsIdentChar(s[i])
  }

  /** `l_` and one or more identifier characters: what `(l_[A-Za-z0-9_]+)` captures. */
  predicate IsName(s: string) {
    |s| >= 3 && s[0] == 'l' && s[1] == '_' && AllIdent(s[2..])
  }

  /** A key with its language number: a name, a colon and one digit. */
  predicate IsNumberedKey(k: string) {
    |k| >= 2 && IsDigit(k[|k| - 1]) && k[|k| - 2] == ':' && IsName(k[..|k| - 2])
  }

  /** What `(l_[A-Za-z0-9_]+:\d?)` captures: a name, a colon, at most one digit. */
  predicate IsKey(k: string) {
    (|k| >= 1 && k[|k| - 1] == ':' && IsName(k[..|k| - 1])) || IsNumberedKey(k)
  }

  /** Length of the longest prefix made of identifier characters. */
  function IdentRun(s: string): (n: nat)
    ensures n <= |s| && AllIdent(s[..n])
    ensures n < |s| ==> !IsIdentChar(s[n])
  {
    if s != "" && IsIdentChar(s[0]) then
      var n := 1 + IdentRun(s[1..]);
      assert forall i :: 1 <= i < n ==> s[..n][i] == s[1..][..n - 1][i - 1];
      n
    else 0
  }

  lemma {:induction false} IdentRunUnique(s: string, n: nat)
    requires n <= |s| && AllIdent(s[..n])
    requires n < |s| ==> !IsIdentChar(s[n])
    ensures IdentRun(s) == n
  {
    if n > 0 {
      assert s[0] == s[..n][0];
      assert s[1..][..n - 1] == s[..n][1..];
      IdentRunUnique(s[1..], n - 1);
    }
  }

  /** Length of the name `l_[A-Za-z0-9_]+` at the start of `s`, or 0 when there is none. */
  function NameLength(s: string): (n: nat)
    ensures n <= |s|
    ensures n > 0 ==> IsName(s[..n]) && (n < |s| ==> !IsIdentChar(s[n]))
  {
    if |s| >= 3 && s[0] == 'l' && s[1] == '_' && IdentRun(s[2..]) > 0 then
      var n := 2 + IdentRun(s[2..]);
      assert s[..n][2..] == s[2..][..n - 2];
      n
    else 0
  }

  /** A name followed by a character that cannot continue it is the name found. */
  lemma NameLengthOf(name: string, rest: string)
    requires IsName(name)
    requires rest == "" || !IsIdentChar(rest[0])
    ensures NameLength(name + rest) == |name|
  {
    var s := name + rest;
    assert s[2..] == name[2..] + rest;
    assert s[2..][..|name| - 2] == name[2..];
    IdentRunUnique(s[2..], |name| - 2);
  }

  /** `header_regex.match(line)`: the captured name, if the line is a header. */
  function MatchHeader(line: string): (r: Option<string>)
    ensures r.Some? ==> IsName(r.value) && !AllSpace(line)
    ensures r.Some? ==> StartsWith(LStrip(line), r.value + ":") && AllSpace(LStrip(line)[|r.value| + 1..])
  {
    var s := LStrip(line);
    var n := NameLength(s);
    if n > 0 && n < |s| && s[n] == ':' && AllSpace(s[n + 1..]) then
      LStripFacts(line);
      assert line[|line| - |s|] == s[0] == 'l';
      assert s[..n + 1] == s[..n] + ":";
      Some(s[..n])
    else None
  }

  /** Length of the key `l_[A-Za-z0-9_]+:\d?` at the start of `s`, or 0 when there is none. */
  function KeyLength(s: string): (k: nat)
    ensures k <= |s|
    ensures k > 0 ==> IsKey(s[..k])
  {
    var n := NameLength(s);
    if n > 0 && n < |s| && s[n] == ':' then
      if n + 1 < |s| && IsDigit(s[n + 1]) then
        assert s[..n + 2][..n] == s[..n];
        n + 2
      else
        assert s[..n + 1][..n] == s[..n];
        n + 1
    else 0
  }

  /** `entry_regex.match(line)`: the key and the raw quoted value, if the line is an entry. */
  function MatchEntry(line: string): (r: Option<(string, string)>)
    ensures r.Some? ==> IsKey(r.value.0) && '\n' !in r.value.1 && !AllSpace(line)
    ensures r.Some? ==> IsSpace(line[0]) && StartsWith(LStrip(line), r.value.0)
  {
    if line == "" || !IsSpace(line[0]) then None
    else
      var r := MatchKeyed(LStrip(line));
      if r.Some? then
        LStripFacts(line);
        assert line[|line| - |LStrip(line)|] == LStrip(line)[0];
        r
      else None
  }

  /** The entry regex after the leading whitespace: the key, whitespace, the quoted value. */
  function MatchKeyed(s: string): (r: Option<(string, string)>)
    ensures r.Some? ==> IsKey(r.value.0) && '\n' !in r.value.1 && StartsWith(s, r.value.0) && s[0] == 'l'
  {
    var k := KeyLength(s);
    if k == 0 || k == |s| || !IsSpace(s[k]) then None
    else
      match MatchQuoted(LStrip(s[k..]))
      case Some(v) => Some((s[..k], v))
      case None => None
  }

  /**
   * `"(.*)"\s*$` on the rest of the line: the value runs from the first
   * quote to the last one that only whitespace follows.
   */
  function MatchQuoted(q: string): (r: Option<string>)
    ensures r.Some? ==> '\n' !in r.value
  {
    if q == "" || q[0] != '"' then None
    else
      var body := RStrip(q[1..]);
      if body == "" || body[|body| - 1] != '"' || '\n' in body[..|body| - 1] then None
      else Some(body[..|body| - 1])
  }

  /** Python's `s.lstrip(c)` for one character `c`. */
  function LStripChar(s: string, c: char): string {
    if s != "" && s[0] == c then LStripChar(s[1..], c) else s
  }

  /** Python's `s.rstrip(c)` for one character `c`. */
  function RStripChar(s: string, c: char): string {
    if s != "" && s[|s| - 1] == c then RStripChar(s[..|s| - 1], c) else s
  }

  /** The cleaning of line 102: leading byte order marks and trailing line breaks go. */
  function CleanLine(raw: string): string {
    RStripChar(LStripChar(raw, Bom), '\n')
  }

  /** Byte order marks before a line and its line break are what cleaning removes. */
  lemma {:induction false} LStripCharOf(p: string, l: string, c: char)
    requires forall i :: 0 <= i < |p| ==> p[i] == c
    requires l == "" || l[0] != c
    ensures LStripChar(p + l, c) == l
  {
    if p != "" {
      assert (p + l)[1..] == p[1..] + l;
      LStripCharOf(p[1..], l, c);
    } else {
      assert p + l == l;
    }
  }

  lemma CleanLineOf(p: string, l: string)
    requires forall i :: 0 <= i < |p| ==> p[i] == Bom
    requires l == "" || (l[0] != Bom && l[|l| - 1] != '\n')
    ensures CleanLine(p + l) == l
    ensures CleanLine(p + l + "\n") == l
  {
    LStripCharOf(p, l, Bom);
    assert p + l + "\n" == p + (l + "\n");
    assert (l + "\n")[0] != Bom;
    LStripCharOf(p, l + "\n", Bom);
    RStripNewlineOf(l);
  }

  lemma RStripNewlineOf(l: string)
    requires l == "" || l[|l| - 1] != '\n'
    ensures RStripChar(l, '\n') == l && RStripChar(l + "\n", '\n') == l
  {
    assert (l + "\n")[..|l|] == l;
  }

  /** What the loop body makes of one line. */
  datatype LineKind = Skip | Header(name: string) | Entry(key: string, value: string)

  /**
   * Lines 102-121 without the effect: a line that is blank once cleaned
   * (`line.strip()` is empty exactly when every character is whitespace) is
   * skipped, a header line names a block, an entry line carries a key and a
   * value, and any other line is skipped.
   */
  function Classify(raw: string): (k: LineKind)
    ensures k.Header? ==> IsName(k.name)
    ensures k.Entry? ==> IsKey(k.key) && '\n' !in k.value
  {
    var line := CleanLine(raw);
    if AllSpace(line) then Skip
    else
      match MatchHeader(line)
      case Some(name) => Header(name)
      case None =>
        match MatchEntry(line)
        case Some((key, value)) => Entry(key, value)
        case None => Skip
  }

  function Kinds(lines: seq<string>): (ks: seq<LineKind>)
    ensures |ks| == |lines|
    ensures forall i :: 0 <= i < |lines| ==> ks[i] == Classify(lines[i])
  {
    seq(|lines|, i requires 0 <= i < |lines| => Classify(lines[i]))
  }

  /** Blank lines, comments and lines of neither form. */
  predicate Ignored(raw: string) {
    Classify(raw) == Skip
  }

  /**
   * The parser's state between two lines: the current block, if a header
   * was seen, and the blocks read so far.
   */
  datatype State = State(current: Option<string>, blocks: Document)

  /** The current block is always one of the blocks. */
  predicate Inv(st: State) {
    st.current.Some? ==> HasKey(st.blocks, st.current.value)
  }

  /**
   * The effect of one line: a header becomes the current block and is set
   * to an empty dict; an entry is stored in the current block, and dropped
   * when no header was seen yet.
   */
  function Apply(st: State, k: LineKind): (r: State)
    requires Inv(st)
    ensures Inv(r)
  {
    match k
    case Skip => st
    case Header(name) => State(Some(name), Put(st.blocks, name, []))
    case Entry(key, value) =>
      if st.current.Some? then
        var h := st.current.value;
        var b := Get(st.blocks, h).value;
        PutKeys(st.blocks, h, Put(b, key, value));
        State(st.current, Put(st.blocks, h, Put(b, key, value)))
      else st
  }

  /** The loop over the remaining lines, once classified. */
  function Run(st: State, ks: seq<LineKind>): (r: State)
    requires Inv(st)
    ensures Inv(r)
    decreases |ks|
  {
    if ks == [] then st else Run(Apply(st, ks[0]), ks[1..])
  }

  const Start: State := State(None, [])

  /** `parse_paradox_yaml` over the lines of a file, as iterating over it yields them. */
  function ParseLines(lines: seq<string>): Document {
    Run(Start, Kinds(lines)).blocks
  }

  /** `parse_paradox_yaml` over the decoded text of a file. */
  function Parse(text: string): Document {
    ParseLines(SplitLinesKeepEnds(text))
  }

  /** The loop of lines 96-123, proved to compute ParseLines. */
  method ParseParadoxYaml(lines: seq<string>) returns (blocks: Document)
    ensures blocks == ParseLines(lines)
    ensures WellFormed(blocks)
  {
    blocks := [];
    var current: Option<string> := None;
    ghost var ks := Kinds(lines);
    for i := 0 to |lines|
      invariant Inv(State(current, blocks))
      invariant Run(State(current, blocks), ks[i..]) == Run(Start, ks)
    {
      assert ks[i..][1..] == ks[i + 1..];
      assert ks[i] == Classify(lines[i]);
      var line := CleanLine(lines[i]);
      if AllSpace(line) {
        continue;
      }
      var header := MatchHeader(line);
      if header.Some? {
        current := header;
        blocks := Put(blocks, header.value, []);
        continue;
      }
      var entry := MatchEntry(line);
      if entry.Some? && current.Some? {
        var (key, value) := entry.value;
        var b := Get(blocks, current.value).value;
        blocks := Put(blocks, current.value, Put(b, key, value));
      }
    }
    assert ks[|lines|..] == [];
    ParseLinesWellFormed(lines);
  }

  /** Keys distinct, every key of the entry form, no value spanning a line break. */
  predicate WellFormedBlock(b: Block) {
    UniqueKeys(b) && forall i :: 0 <= i < |b| ==> IsKey(b[i].0) && '\n' !in b[i].1
  }

  /** Block names distinct and of the header form, every block well formed. */
  predicate WellFormed(d: Document) {
    UniqueKeys(d) && forall i :: 0 <= i < |d| ==> IsName(d[i].0) && WellFormedBlock(d[i].1)
  }

  /** The facts Classify promises about one line. */
  predicate KindOk(k: LineKind) {
    (k.Header? ==> IsName(k.name)) && (k.Entry? ==> IsKey(k.key) && '\n' !in k.value)
  }

  lemma ApplyWellFormed(st: State, k: LineKind)
    requires Inv(st) && WellFormed(st.blocks) && KindOk(k)
    ensures WellFormed(Apply(st, k).blocks)
  {
    match k
    case Skip =>
    case Header(name) =>
      PutUnique(st.blocks, name, []);
    case Entry(key, value) =>
      if st.current.Some? {
        var h := st.current.value;
        var b := Get(st.blocks, h).value;
        PutUnique(b, key, value);
        PutUnique(st.blocks, h, Put(b, key, value));
      }
  }

  lemma {:induction false} RunWellFormed(st: State, ks: seq<LineKind>)
    requires Inv(st) && WellFormed(st.blocks)
    requires forall i :: 0 <= i < |ks| ==> KindOk(ks[i])
    ensures WellFormed(Run(st, ks).blocks)
    decreases |ks|
  {
    if ks != [] {
      ApplyWellFormed(st, ks[0]);
      assert forall i :: 0 <= i < |ks| - 1 ==> ks[1..][i] == ks[i + 1];
      RunWellFormed(Apply(st, ks[0]), ks[1..]);
    }
  }

  /** Whatever the input, the parser builds a well-formed document. */
  lemma ParseLinesWellFormed(lines: seq<string>)
    ensures WellFormed(ParseLines(lines))
  {
    RunWellFormed(Start, Kinds(lines));
  }

  /** Reading two runs of lines one after the other. */
  lemma {:induction false} RunAppend(st: State, a: seq<LineKind>, b: seq<LineKind>)
    requires Inv(st)
    ensures Run(st, a + b) == Run(Run(st, a), b)
    decreases |a|
  {
    if a == [] {
      assert a + b == b;
    } else {
      assert (a + b)[0] == a[0];
      assert (a + b)[1..] == a[1..] + b;
      RunAppend(Apply(st, a[0]), a[1..], b);
    }
  }

  lemma KindsAppend(a: seq<string>, b: seq<string>)
    ensures Kinds(a + b) == Kinds(a) + Kinds(b)
  {
  }

  /** Blank lines and lines of neither form can be removed without changing the result. */
  lemma DropIgnored(a: seq<string>, raw: string, b: seq<string>)
    requires Ignored(raw)
    ensures ParseLines(a + [raw] + b) == ParseLines(a + b)
  {
    KindsAppend(a + [raw], b);
    KindsAppend(a, [raw]);
    KindsAppend(a, b);
    assert Kinds([raw]) == [Skip];
    RunAppend(Start, Kinds(a) + [Skip], Kinds(b));
    RunAppend(Start, Kinds(a), [Skip]);
    RunAppend(Start, Kinds(a), Kinds(b));
    assert [Skip][1..] == [];
  }

  /** Without a header, entries are dropped silently and the state does not change. */
  lemma {:induction false} NoHeaderNoChange(d: Document, ks: seq<LineKind>)
    requires forall i :: 0 <= i < |ks| ==> !ks[i].Header?
    ensures Run(State(None, d), ks) == State(None, d)
    decreases |ks|
  {
    if ks != [] {
      assert forall i :: 0 <= i < |ks| - 1 ==> ks[1..][i] == ks[i + 1];
      NoHeaderNoChange(d, ks[1..]);
    }
  }

  /** Lines before the first header contribute nothing to the document. */
  lemma EntriesBeforeHeader(before: seq<string>, after: seq<string>)
    requires forall i :: 0 <= i < |before| ==> !Classify(before[i]).Header?
    ensures ParseLines(before + after) == Run(Start, Kinds(after)).blocks
  {
    KindsAppend(before, after);
    RunAppend(Start, Kinds(before), Kinds(after));
    NoHeaderNoChange([], Kinds(before));
  }

  /**
   * A header line makes its name current and sets that block to empty: a
   * new name is appended last, a repeated one keeps its position and loses
   * its entries, and every other block is untouched.
   */
  lemma HeaderStep(st: State, name: string)
    requires Inv(st)
    ensures Apply(st, Header(name)).current == Some(name)
    ensures Get(Apply(st, Header(name)).blocks, name) == Some([])
    ensures Keys(Apply(st, Header(name)).blocks)
         == if HasKey(st.blocks, name) then Keys(st.blocks) else Keys(st.blocks) + [name]
    ensures forall n :: n != name ==> Get(Apply(st, Header(name)).blocks, n) == Get(st.blocks, n)
  {
    PutGet(st.blocks, name, []);
    PutKeys(st.blocks, name, []);
    forall n | n != name ensures Get(Put(st.blocks, name, []), n) == Get(st.blocks, n) {
      PutGetOther(st.blocks, name, [], n);
    }
  }

  /**
   * An entry line under a header stores its value under its key in the
   * current block: a new key is appended last, a repeated key keeps its
   * first position and takes the later value; everything else is unchanged.
   */
  lemma EntryStep(st: State, key: string, value: string)
    requires Inv(st) && st.current.Some?
    ensures Apply(st, Entry(key, value)).current == st.current
    ensures Keys(Apply(st, Entry(key, value)).blocks) == Keys(st.blocks)
    ensures forall n :: n != st.current.value ==> Get(Apply(st, Entry(key, value)).blocks, n) == Get(st.blocks, n)
    ensures
      var b := Get(st.blocks, st.current.value).value;
      var b' := Get(Apply(st, Entry(key, value)).blocks, st.current.value).value;
      && Get(b', key) == Some(value)
      && Keys(b') == (if HasKey(b, key) then Keys(b) else Keys(b) + [key])
      && forall k :: k != key ==> Get(b', k) == Get(b, k)
  {
    var h := st.current.value;
    var b := Get(st.blocks, h).value;
    var nb := Put(b, key, value);
    PutGet(st.blocks, h, nb);
    PutKeys(st.blocks, h, nb);
    forall n | n != h ensures Get(Put(st.blocks, h, nb), n) == Get(st.blocks, n) {
      PutGetOther(st.blocks, h, nb, n);
    }
    PutGet(b, key, value);
    PutKeys(b, key, value);
    forall k | k != key ensures Get(nb, k) == Get(b, k) {
      PutGetOther(b, key, value, k);
    }
  }

  /** The header regex accepts a name between optional whitespace and a colon. */
  lemma MatchHeaderOf(ws: string, name: string, ws2: string)
    requires AllSpace(ws) && IsName(name) && AllSpace(ws2)
    ensures MatchHeader(ws + name + ":" + ws2) == Some(name)
  {
    var rest := name + ":" + ws2;
    assert ws + name + ":" + ws2 == ws + rest;
    LStripUnique(ws + rest, ws, rest);
    assert rest == name + (":" + ws2);
    NameLengthOf(name, ":" + ws2);
    assert rest[|name| + 1..] == ws2;
    assert rest[..|name|] == name;
  }

  /**
   * The entry regex accepts whitespace, a key, whitespace and a quoted
   * value, with only whitespace after the closing quote; the value is
   * everything between the first and the last quote.
   */
  lemma MatchEntryOf(ws: string, key: string, ws2: string, value: string, ws3: string)
    requires ws != "" && AllSpace(ws) && IsKey(key)
    requires ws2 != "" && AllSpace(ws2) && AllSpace(ws3) && '\n' !in value
    ensures MatchEntry(ws + key + ws2 + "\"" + value + "\"" + ws3) == Some((key, value))
  {
    var tail := "\"" + value + "\"" + ws3;
    var s := key + ws2 + tail;
    var line := ws + key + ws2 + "\"" + value + "\"" + ws3;
    calc {
      MatchEntry(line);
      { assert line == ws + s; assert s[0] == 'l'; LStripUnique(line, ws, s); }
      MatchKeyed(s);
      { MatchKeyedOf(key, ws2, tail); }
      if MatchQuoted(tail).Some? then Some((key, MatchQuoted(tail).value)) else None;
      { MatchQuotedOf(value, ws3); }
      Some((key, value));
    }
  }

  lemma MatchKeyedOf(key: string, ws2: string, tail: string)
    requires IsKey(key) && ws2 != "" && AllSpace(ws2) && tail != "" && tail[0] == '"'
    ensures MatchKeyed(key + ws2 + tail)
         == if MatchQuoted(tail).Some? then Some((key, MatchQuoted(tail).value)) else None
  {
    var s := key + ws2 + tail;
    assert s == key + (ws2 + tail);
    KeyInEntry(key, ws2 + tail);
    assert s[|key|..] == ws2 + tail && s[..|key|] == key;
    LStripUnique(ws2 + tail, ws2, tail);
  }

  lemma MatchQuotedOf(value: string, ws3: string)
    requires AllSpace(ws3) && '\n' !in value
    ensures MatchQuoted("\"" + value + "\"" + ws3) == Some(value)
  {
    var tail := "\"" + value + "\"" + ws3;
    assert tail[1..] == (value + "\"") + ws3;
    RStripUnique(tail[1..], value + "\"", ws3);
    assert (value + "\"")[..|value|] == value;
  }

  /** The key the entry regex finds is the whole key when whitespace follows it. */
  lemma KeyInEntry(key: string, rest: string)
    requires IsKey(key) && rest != "" && IsSpace(rest[0])
    ensures KeyLength(key + rest) == |key|
  {
    var s := key + rest;
    if IsNumberedKey(key) {
      var name := key[..|key| - 2];
      assert s == name + s[|name|..];
      NameLengthOf(name, s[|name|..]);
    } else {
      var name := key[..|key| - 1];
      assert s == name + s[|name|..];
      NameLengthOf(name, s[|name|..]);
    }
  }

  /** An entry line is never taken for a header. */
  lemma EntryNotHeader(ws: string, key: string, ws2: string, value: string, ws3: string)
    requires ws != "" && AllSpace(ws) && IsKey(key)
    requires ws2 != "" && AllSpace(ws2) && AllSpace(ws3)
    ensures MatchHeader(ws + key + ws2 + "\"" + value + "\"" + ws3).None?
  {
    var line := ws + key + ws2 + "\"" + value + "\"" + ws3;
    var rest := ws2 + ("\"" + value + "\"" + ws3);
    var s := key + rest;
    assert line == ws + s;
    assert s[0] == 'l';
    LStripUnique(line, ws, s);
    assert rest[|ws2|] == '"';
    KeyedNotHeader(key, rest, |ws2|);
  }

  /** After a key, a quote that is not at the end keeps a line from being a header. */
  lemma KeyedNotHeader(key: string, rest: string, q: nat)
    requires IsKey(key) && rest != "" && IsSpace(rest[0]) && q < |rest| && rest[q] == '"'
    ensures var s := key + rest; var n := NameLength(s);
      !(n > 0 && n < |s| && s[n] == ':' && AllSpace(s[n + 1..]))
  {
    var s := key + rest;
    var name := if IsNumberedKey(key) then key[..|key| - 2] else key[..|key| - 1];
    assert s == name + s[|name|..];
    NameLengthOf(name, s[|name|..]);
    var n := |name|;
    assert s[|key| + q] == '"';
    assert s[n + 1..][|key| + q - n - 1] == '"';
  }

  /** A byte order mark before the first line does not change what is read. */
  lemma ParseBom(text: string)
    ensures Parse([Bom] + text) == Parse(text)
  {
    if text == "" {
      assert [Bom] + text == [Bom];
      ParseBomOnly();
    } else {
      SplitLinesPrepend(Bom, text);
      var ls := SplitLinesKeepEnds(text);
      assert ls == [ls[0]] + ls[1..];
      KindsFirstBom(ls[0], ls[1..]);
    }
  }

  lemma ParseBomOnly()
    ensures Parse([Bom]) == Parse("")
  {
    var t := [Bom];
    assert LineLength(t) == 1;
    assert t[..1] == t && t[1..] == "";
    assert SplitLinesKeepEnds(t) == [t];
    assert LStripChar(t, Bom) == "";
    assert Kinds([t]) == [Skip];
    assert [Skip][1..] == [];
  }

  lemma KindsFirstBom(l: string, rest: seq<string>)
    ensures Kinds([[Bom] + l] + rest) == Kinds([l] + rest)
  {
    assert ([Bom] + l)[1..] == l;
    assert Classify([Bom] + l) == Classify(l);
  }

  /** The lines of a text with one more character in front of its first line. */
  lemma SplitLinesPrepend(c: char, s: string)
    requires c != '\n' && s != ""
    ensures SplitLinesKeepEnds([c] + s) == [[c] + SplitLinesKeepEnds(s)[0]] + SplitLinesKeepEnds(s)[1..]
  {
    var t := [c] + s;
    assert t[1..] == s;
    var n := LineLength(s);
    assert LineLength(t) == 1 + n;
    assert t[..1 + n] == [c] + s[..n];
    assert t[1 + n..] == s[n..];
  }

  // The Paradox text of a document, as the game's own files lay it out.

  /** A header line. */
  function HeaderLine(name: string): string {
    name + ":\n"
  }

  /** An entry line: indentation, key, one space, the value between quotes. */
  function EntryLine(key: string, value: string): string {
    "  " + key + " \"" + value + "\"\n"
  }

  function EntryLines(b: Block): (r: seq<string>)
    ensures |r| == |b|
  {
    seq(|b|, i requires 0 <= i < |b| => EntryLine(b[i].0, b[i].1))
  }

  function BlockLines(name: string, b: Block): seq<string> {
    [HeaderLine(name)] + EntryLines(b)
  }

  function DocLines(d: Document): seq<string> {
    if d == [] then [] else BlockLines(d[0].0, d[0].1) + DocLines(d[1..])
  }

  /** Every block as a header line followed by its entry lines, in order. */
  function ParadoxText(d: Document): string {
    Concat(DocLines(d))
  }

  /** Every line of the Paradox text is one complete line. */
  lemma {:induction false} DocLinesAreLines(d: Document)
    requires WellFormed(d)
    ensures forall i :: 0 <= i < |DocLines(d)| ==> IsLine(DocLines(d)[i]) && EndsLine(DocLines(d)[i])
  {
    if d != [] {
      var (name, b) := d[0];
      assert WellFormed(d[1..]) by {
        assert forall i :: 0 <= i < |d| - 1 ==> d[1..][i] == d[i + 1];
      }
      DocLinesAreLines(d[1..]);
      var hl := HeaderLine(name);
      assert hl[..|hl| - 1] == name + ":";
      assert forall i :: 0 <= i < |name| ==> IsIdentChar(name[i]) || name[i] == '_' || name[i] == 'l' by {
        assert forall i :: 2 <= i < |name| ==> name[i] == name[2..][i - 2];
      }
      forall i | 0 <= i < |b| ensures IsLine(EntryLine(b[i].0, b[i].1)) {
        var (k, v) := b[i];
        var l := EntryLine(k, v);
        assert l[..|l| - 1] == "  " + k + " \"" + v + "\"";
        KeyNoNewline(k);
      }
      var bl := BlockLines(name, b);
      assert forall i :: 0 <= i < |bl| ==> IsLine(bl[i]) && EndsLine(bl[i]);
    }
  }

  lemma KeyNoNewline(k: string)
    requires IsKey(k)
    ensures '\n' !in k
  {
    var n := if IsNumberedKey(k) then |k| - 2 else |k| - 1;
    assert forall i :: 2 <= i < n ==> k[i] == k[..n][2..][i - 2];
    assert forall i :: 0 <= i < |k| ==> k[i] != '\n';
  }

  /** An entry line of the Paradox text is classified as its key and value. */
  lemma ReadEntryLine(key: string, value: string)
    requires IsKey(key) && '\n' !in value
    ensures Classify(EntryLine(key, value)) == Entry(key, value)
  {
    var l := "  " + key + " \"" + value + "\"";
    assert EntryLine(key, value) == "" + l + "\n";
    assert l == "" + l;
    CleanLineOf("", l);
    assert l == "  " + key + " " + "\"" + value + "\"" + "";
    MatchEntryOf("  ", key, " ", value, "");
    EntryNotHeader("  ", key, " ", value, "");
  }

  /** A header line of the Paradox text is classified as its name. */
  lemma ReadHeaderLine(name: string)
    requires IsName(name)
    ensures Classify(HeaderLine(name)) == Header(name)
  {
    var l := name + ":";
    assert HeaderLine(name) == "" + l + "\n";
    assert l == "" + l;
    CleanLineOf("", l);
    assert l == "" + name + ":" + "";
    MatchHeaderOf("", name, "");
  }

  function EntryKinds(b: Block): (ks: seq<LineKind>)
    ensures |ks| == |b|
  {
    seq(|b|, i requires 0 <= i < |b| => Entry(b[i].0, b[i].1))
  }

  function DocKinds(d: Document): seq<LineKind> {
    if d == [] then [] else [Header(d[0].0)] + EntryKinds(d[0].1) + DocKinds(d[1..])
  }

  /** The lines of one block are classified as its header and its entries. */
  lemma KindsOfBlockLines(name: string, b: Block)
    requires IsName(name) && WellFormedBlock(b)
    ensures Kinds(BlockLines(name, b)) == [Header(name)] + EntryKinds(b)
  {
    KindsOfEntryLines(b);
    ReadHeaderLine(name);
    KindsAppend([HeaderLine(name)], EntryLines(b));
  }

  lemma KindsOfEntryLines(b: Block)
    requires WellFormedBlock(b)
    ensures Kinds(EntryLines(b)) == EntryKinds(b)
  {
    forall i | 0 <= i < |b| ensures Classify(EntryLines(b)[i]) == Entry(b[i].0, b[i].1) {
      ReadEntryLine(b[i].0, b[i].1);
    }
  }

  /** The lines of the Paradox text are classified as its headers and entries, in order. */
  lemma {:induction false} KindsOfDocLines(d: Document)
    requires WellFormed(d)
    ensures Kinds(DocLines(d)) == DocKinds(d)
  {
    if d != [] {
      var (name, b) := d[0];
      assert WellFormed(d[1..]) by {
        assert forall i :: 0 <= i < |d| - 1 ==> d[1..][i] == d[i + 1];
      }
      KindsOfDocLines(d[1..]);
      KindsOfBlockLines(name, b);
      KindsAppend(BlockLines(name, b), DocLines(d[1..]));
    }
  }

  /** Storing a new key in the last block, which is the current one. */
  lemma PutLast(pre: Document, name: string, acc: Block, k: string, v: string)
    requires !HasKey(pre, name) && !HasKey(acc, k)
    ensures Put(Put(pre, name, acc), name, Put(acc, k, v)) == Put(pre, name, acc + [(k, v)])
    ensures Get(Put(pre, name, acc), name) == Some(acc)
  {
    var d := Put(pre, name, acc);
    assert d == pre + [(name, acc)];
    PutGet(pre, name, acc);
    assert Index(d, name) == |pre| by {
      assert forall j :: 0 <= j < |pre| ==> Keys(pre)[j] == d[j].0;
    }
  }

  /**
   * Entries with new keys under the last block are appended to it in order:
   * after the first `n` entries of `b`, the rest bring the block to `b`.
   */
  lemma {:induction false} RunEntries(pre: Document, name: string, b: Block, n: nat)
    requires !HasKey(pre, name) && UniqueKeys(b) && n <= |b|
    ensures Run(State(Some(name), Put(pre, name, b[..n])), EntryKinds(b[n..]))
         == State(Some(name), Put(pre, name, b))
    decreases |b| - n
  {
    if n == |b| {
      assert b[..n] == b;
      assert b[n..] == [];
    } else {
      RunEntriesStep(pre, name, b, n);
      RunEntries(pre, name, b, n + 1);
    }
  }

  /** Entry `n` of `b` is appended to the first `n`. */
  lemma RunEntriesStep(pre: Document, name: string, b: Block, n: nat)
    requires !HasKey(pre, name) && UniqueKeys(b) && n < |b|
    ensures Run(State(Some(name), Put(pre, name, b[..n])), EntryKinds(b[n..]))
         == Run(State(Some(name), Put(pre, name, b[..n + 1])), EntryKinds(b[n + 1..]))
  {
    var (k, v) := b[n];
    var acc := b[..n];
    assert !HasKey(acc, k) by {
      forall j | 0 <= j < |acc| ensures Keys(acc)[j] != k {
        assert acc[j] == b[j];
      }
    }
    assert b[..n + 1] == acc + [(k, v)];
    var st := State(Some(name), Put(pre, name, acc));
    PutLast(pre, name, acc, k, v);
    assert Apply(st, Entry(k, v)) == State(Some(name), Put(pre, name, acc + [(k, v)]));
    var ks := EntryKinds(b[n..]);
    RunCons(st, ks);
    assert ks[0] == Entry(k, v);
    assert ks[1..] == EntryKinds(b[n + 1..]);
  }

  /** One step of the loop. */
  lemma RunCons(st: State, ks: seq<LineKind>)
    requires Inv(st) && ks != []
    ensures Run(st, ks) == Run(Apply(st, ks[0]), ks[1..])
  {
  }

  /** A block's header and entries, after other blocks, append that block. */
  lemma RunBlock(st: State, name: string, b: Block)
    requires Inv(st) && !HasKey(st.blocks, name) && UniqueKeys(b)
    ensures Run(st, [Header(name)] + EntryKinds(b)) == State(Some(name), st.blocks + [(name, b)])
  {
    assert ([Header(name)] + EntryKinds(b))[1..] == EntryKinds(b);
    assert b[..0] == [] && b[0..] == b;
    RunEntries(st.blocks, name, b, 0);
  }

  /** The headers and entries of a document, after other blocks, append the document. */
  lemma {:induction false} RunDoc(st: State, d: Document)
    requires Inv(st) && UniqueKeys(st.blocks + d)
    requires forall i :: 0 <= i < |d| ==> UniqueKeys(d[i].1)
    ensures Run(st, DocKinds(d)).blocks == st.blocks + d
    decreases |d|
  {
    if d == [] {
      assert st.blocks + d == st.blocks;
    } else {
      var name := d[0].0;
      var b := d[0].1;
      assert UniqueKeys(b);
      assert !HasKey(st.blocks, name) by {
        NotInPrefix(st.blocks, d);
      }
      var tail := d[1..];
      RunDocHead(st, d);
      var st1 := State(Some(name), st.blocks + [(name, b)]);
      AppendHead(st.blocks, d);
      assert forall i :: 0 <= i < |tail| ==> tail[i] == d[i + 1];
      RunDoc(st1, tail);
    }
  }

  lemma AppendHead<T>(a: seq<T>, d: seq<T>)
    requires d != []
    ensures a + [d[0]] + d[1..] == a + d
  {
    assert d == [d[0]] + d[1..];
  }

  /** The first block of a document is read first. */
  lemma RunDocHead(st: State, d: Document)
    requires Inv(st) && d != [] && !HasKey(st.blocks, d[0].0) && UniqueKeys(d[0].1)
    ensures Inv(State(Some(d[0].0), st.blocks + [d[0]]))
    ensures Run(st, DocKinds(d)) == Run(State(Some(d[0].0), st.blocks + [d[0]]), DocKinds(d[1..]))
  {
    var (name, b) := d[0];
    var head := [Header(name)] + EntryKinds(b);
    assert DocKinds(d) == head + DocKinds(d[1..]);
    RunBlock(st, name, b);
    RunAppend(st, head, DocKinds(d[1..]));
  }

  /** In a dict with distinct keys, a later key is not among the earlier ones. */
  lemma NotInPrefix<V>(pre: Dict<string, V>, d: Dict<string, V>)
    requires d != [] && UniqueKeys(pre + d)
    ensures !HasKey(pre, d[0].0)
  {
    var all := pre + d;
    assert all[|pre|] == d[0];
    forall j | 0 <= j < |pre| ensures Keys(pre)[j] != d[0].0 {
      assert all[j] == pre[j];
    }
  }

  /** The parser reads the Paradox text of any well-formed document back exactly. */
  lemma ParadoxRoundTrip(d: Document)
    requires WellFormed(d)
    ensures Parse(ParadoxText(d)) == d
    ensures Parse([Bom] + ParadoxText(d)) == d
  {
    DocLinesAreLines(d);
    SplitConcatLines(DocLines(d));
    KindsOfDocLines(d);
    assert [] + d == d;
    RunDoc(Start, d);
    ParseBom(ParadoxText(d));
  }

  // The intended output of `dump_keys_unquoted_values_quoted` (lines 6-58).

  /** YAML double-quoted style: a backslash before every quote and backslash. */
  function Escape(v: string): (r: string)
    ensures '\n' !in v ==> '\n' !in r
  {
    if v == "" then ""
    else if v[0] == '"' || v[0] == '\\' then ['\\', v[0]] + Escape(v[1..])
    else [v[0]] + Escape(v[1..])
  }

  /** Reading a double-quoted YAML scalar back: the inverse of Escape. */
  function Unescape(e: string): string {
    if e == "" then ""
    else if e[0] == '\\' && |e| >= 2 then [e[1]] + Unescape(e[2..])
    else [e[0]] + Unescape(e[1..])
  }

  lemma {:induction false} UnescapeEscape(v: string)
    ensures Unescape(Escape(v)) == v
  {
    if v != "" {
      UnescapeEscape(v[1..]);
      var e := Escape(v);
      if v[0] == '"' || v[0] == '\\' {
        assert e[2..] == Escape(v[1..]);
      } else {
        assert e[1..] == Escape(v[1..]);
      }
    }
  }

  /** A value without quotes or backslashes is written as it is. */
  lemma {:induction false} EscapePlain(v: string)
    requires '"' !in v && '\\' !in v
    ensures Escape(v) == v
  {
    if v != "" {
      EscapePlain(v[1..]);
    }
  }

  /** The dumped entry: two spaces of indentation, a plain key, a colon, the quoted value. */
  function DumpEntry(key: string, value: string): string {
    "  " + key + ": \"" + Escape(value) + "\"\n"
  }

  function DumpEntries(b: Block): (r: seq<string>)
    ensures |r| == |b|
  {
    seq(|b|, i requires 0 <= i < |b| => DumpEntry(b[i].0, b[i].1))
  }

  /** A nested mapping in block style, or `{}` when it is empty. */
  function DumpBlock(name: string, b: Block): seq<string> {
    if b == [] then [name + ": {}\n"] else [name + ":\n"] + DumpEntries(b)
  }

  function DumpLines(d: Document): seq<string> {
    if d == [] then [] else DumpBlock(d[0].0, d[0].1) + DumpLines(d[1..])
  }

  /** The whole dump, in insertion order; an empty document is `{}`. */
  function Dump(d: Document): string {
    if d == [] then "{}\n" else Concat(DumpLines(d))
  }
}
