/**
 * `update_languages_yml` and `get_native_language_name` in
 * generate-victoria3-l10n.py: the registry of languages.yml gains the
 * target language as an entry in every block and as a block of its own,
 * copied from `l_english`, and is written back in the Paradox form.
 * The translation service is a function parameter; the file reads and
 * writes, the copy of line 205 and the call of add_bom.py are left out.
 */
module Languages {
  import opened Text
  import opened OrderedMap
  import opened ParadoxYaml
  import opened Substitution
  import TranslateFile

  /** `f"l_{target_lang}"`: the block name of a language. */
  function LangName(lang: string): string {
    "l_" + lang
  }

  /** `f"{lang_key}:1"`: the key under which a block lists the language. */
  function LangEntry(lang: string): string {
    "l_" + lang + ":1"
  }

  const English: string := "l_english"

  /** A language code that gives a valid block name. */
  predicate IsLangCode(lang: string) {
    lang != "" && AllIdent(lang)
  }

  /** The names built from a language code have the forms the parser reads. */
  lemma LangNames(lang: string)
    requires IsLangCode(lang)
    ensures IsName(LangName(lang)) && IsNumberedKey(LangEntry(lang))
    ensures ':' !in LangName(lang) && LangName(lang) != LangEntry(lang)
  {
    var n := LangName(lang);
    assert n[2..] == lang;
    assert LangEntry(lang)[..|LangEntry(lang)| - 2] == n;
    assert forall i :: 2 <= i < |n| ==> n[i] == lang[i - 2];
  }

  // Lines 211-223: the registry update.

  /** Lines 214-216 for one block: the entry is added unless the bare block name is a key. */
  function AddEntry(b: Block, lang: string, native: string): Block {
    if HasKey(b, LangName(lang)) then b else Put(b, LangEntry(lang), native)
  }

  function AddToAll(d: Document, lang: string, native: string): (r: Document)
    ensures |r| == |d|
    ensures forall i :: 0 <= i < |d| ==> r[i] == (d[i].0, AddEntry(d[i].1, lang, native))
  {
    seq(|d|, i requires 0 <= i < |d| => (d[i].0, AddEntry(d[i].1, lang, native)))
  }

  /**
   * Lines 201-223 on the parsed registry: nothing changes when the block
   * of the language exists; otherwise every block gets the entry, and the
   * updated `l_english` block, when there is one, is copied to a new block.
   */
  function WithLanguage(d: Document, lang: string, native: string): Document {
    if HasKey(d, LangName(lang)) then d
    else
      var u := AddToAll(d, lang, native);
      if HasKey(u, English) then Put(u, LangName(lang), Get(u, English).value) else u
  }

  /** Updating the blocks keeps the block names and their order. */
  lemma AddToAllKeys(d: Document, lang: string, native: string)
    ensures Keys(AddToAll(d, lang, native)) == Keys(d)
    ensures forall n :: HasKey(AddToAll(d, lang, native), n) <==> HasKey(d, n)
  {
  }

  /**
   * The guard of line 215 tests the bare block name, which is never the key
   * of a parsed entry (every such key has a colon): the entry is always put.
   */
  lemma GuardNeverSkips(b: Block, lang: string, native: string)
    requires WellFormedBlock(b) && IsLangCode(lang)
    ensures !HasKey(b, LangName(lang))
    ensures AddEntry(b, lang, native) == Put(b, LangEntry(lang), native)
  {
    LangNames(lang);
    forall j | 0 <= j < |b| ensures Keys(b)[j] != LangName(lang) {
      var k := b[j].0;
      assert IsKey(k);
      assert k[|k| - 1] == ':' || k[|k| - 2] == ':';
    }
  }

  /**
   * What the update does to a well-formed registry without the language:
   * every block takes the entry (appended after its entries, or overwritten
   * in place, as `Put` says); the block names keep their order, and the new
   * block, when `l_english` exists, comes last as a copy of the updated
   * `l_english` block.
   */
  lemma WithLanguageBlocks(d: Document, lang: string, native: string)
    requires WellFormed(d) && IsLangCode(lang)
    ensures HasKey(d, LangName(lang)) ==> WithLanguage(d, lang, native) == d
    ensures !HasKey(d, LangName(lang)) ==>
      Keys(WithLanguage(d, lang, native)) == Keys(d) + (if HasKey(d, English) then [LangName(lang)] else [])
    ensures !HasKey(d, LangName(lang)) ==>
      forall i :: 0 <= i < |d| ==> WithLanguage(d, lang, native)[i] == (d[i].0, Put(d[i].1, LangEntry(lang), native))
    ensures !HasKey(d, LangName(lang)) && HasKey(d, English) ==>
      WithLanguage(d, lang, native)[|d|] == (LangName(lang), Put(Get(d, English).value, LangEntry(lang), native))
  {
    if !HasKey(d, LangName(lang)) {
      var u := AddToAll(d, lang, native);
      AddToAllKeys(d, lang, native);
      forall i | 0 <= i < |d| ensures u[i] == (d[i].0, Put(d[i].1, LangEntry(lang), native)) {
        GuardNeverSkips(d[i].1, lang, native);
      }
      if HasKey(d, English) {
        var j := Index(d, English);
        assert Index(u, English) == j by {
          assert forall l :: 0 <= l <= j ==> u[l].0 == d[l].0;
        }
        PutKeys(u, LangName(lang), Get(u, English).value);
      }
    }
  }

  /** After the update every block, the new one included, lists the language with its native name. */
  lemma WithLanguageEntry(d: Document, lang: string, native: string)
    requires WellFormed(d) && IsLangCode(lang) && !HasKey(d, LangName(lang))
    ensures forall i :: 0 <= i < |WithLanguage(d, lang, native)| ==>
      Get(WithLanguage(d, lang, native)[i].1, LangEntry(lang)) == Some(native)
    ensures forall i, k :: 0 <= i < |d| && k != LangEntry(lang) ==>
      Get(WithLanguage(d, lang, native)[i].1, k) == Get(d[i].1, k)
  {
    WithLanguageBlocks(d, lang, native);
    forall i | 0 <= i < |d| {
      PutLookups(d[i].1, LangEntry(lang), native);
    }
    if HasKey(d, English) {
      PutGet(Get(d, English).value, LangEntry(lang), native);
    }
  }

  /** `PutGet` and `PutGetOther` together, for every other key. */
  lemma PutLookups(b: Block, k: string, v: string)
    ensures Get(Put(b, k, v), k) == Some(v)
    ensures forall k' :: k' != k ==> Get(Put(b, k, v), k') == Get(b, k')
  {
    PutGet(b, k, v);
    forall k' | k' != k ensures Get(Put(b, k, v), k') == Get(b, k') {
      PutGetOther(b, k, v, k');
    }
  }

  /** The update keeps the registry well formed, and leaves no block empty. */
  lemma WithLanguageWellFormed(d: Document, lang: string, native: string)
    requires WellFormed(d) && IsLangCode(lang) && '\n' !in native
    ensures WellFormed(WithLanguage(d, lang, native))
    ensures !HasKey(d, LangName(lang)) ==>
      forall i :: 0 <= i < |WithLanguage(d, lang, native)| ==> WithLanguage(d, lang, native)[i].1 != []
  {
    if !HasKey(d, LangName(lang)) {
      var u := AddToAll(d, lang, native);
      AddToAllWellFormed(d, lang, native);
      AddToAllKeys(d, lang, native);
      if HasKey(u, English) {
        var e := Get(u, English).value;
        var j :| 0 <= j < |u| && u[j] == (English, e);
        LangNames(lang);
        PutWellFormed(u, LangName(lang), e);
      }
    }
  }

  /** Every block of a registry without the language gains the entry and stays well formed. */
  lemma AddToAllWellFormed(d: Document, lang: string, native: string)
    requires WellFormed(d) && IsLangCode(lang) && '\n' !in native
    ensures WellFormed(AddToAll(d, lang, native))
    ensures forall i :: 0 <= i < |d| ==> AddToAll(d, lang, native)[i].1 != []
  {
    var u := AddToAll(d, lang, native);
    forall i | 0 <= i < |d| ensures WellFormedBlock(u[i].1) && u[i].1 != [] {
      GuardNeverSkips(d[i].1, lang, native);
      PutBlockWellFormed(d[i].1, lang, native);
    }
    assert UniqueKeys(u) by {
      assert forall i :: 0 <= i < |d| ==> u[i].0 == d[i].0;
    }
  }

  /** Storing a well-formed block under a block name keeps the registry well formed. */
  lemma PutWellFormed(d: Document, name: string, b: Block)
    requires WellFormed(d) && IsName(name) && WellFormedBlock(b)
    ensures WellFormed(Put(d, name, b))
    ensures (forall i :: 0 <= i < |d| ==> d[i].1 != []) && b != [] ==>
      forall i :: 0 <= i < |Put(d, name, b)| ==> Put(d, name, b)[i].1 != []
  {
    PutUnique(d, name, b);
  }

  lemma PutBlockWellFormed(b: Block, lang: string, native: string)
    requires WellFormedBlock(b) && IsLangCode(lang) && '\n' !in native
    ensures WellFormedBlock(Put(b, LangEntry(lang), native)) && Put(b, LangEntry(lang), native) != []
  {
    LangNames(lang);
    PutUnique(b, LangEntry(lang), native);
  }

  /** Keys that carry their digit keep it, and the new entry has one. */
  lemma WithLanguageNumbered(d: Document, lang: string, native: string)
    requires WellFormed(d) && IsLangCode(lang) && '\n' !in native
    requires forall i :: 0 <= i < |d| ==> NumberedKeys(d[i].1)
    requires !HasKey(d, LangName(lang))
    ensures Serializable(WithLanguage(d, lang, native))
  {
    var r := WithLanguage(d, lang, native);
    WithLanguageWellFormed(d, lang, native);
    WithLanguageBlocks(d, lang, native);
    LangNames(lang);
    forall i | 0 <= i < |d| ensures NumberedKeys(r[i].1) {
      PutNumbered(d[i].1, LangEntry(lang), native);
    }
    if HasKey(d, English) {
      var e := Get(d, English).value;
      var j :| 0 <= j < |d| && d[j] == (English, e);
      PutNumbered(e, LangEntry(lang), native);
    }
  }

  lemma PutNumbered(b: Block, k: string, v: string)
    requires NumberedKeys(b) && IsNumberedKey(k)
    ensures NumberedKeys(Put(b, k, v))
  {
    var r := Put(b, k, v);
    forall j | 0 <= j < |r| ensures IsNumberedKey(r[j].0) {
      if j < |b| && (!HasKey(b, k) || j != Index(b, k)) {
        assert r[j] == b[j];
      }
    }
  }

  /** Adding a language a second time with the same name changes nothing. */
  lemma WithLanguageIdempotent(d: Document, lang: string, native: string)
    ensures WithLanguage(WithLanguage(d, lang, native), lang, native) == WithLanguage(d, lang, native)
  {
    var n := LangName(lang);
    if !HasKey(d, n) {
      var u := AddToAll(d, lang, native);
      AddToAllKeys(d, lang, native);
      if HasKey(u, English) {
        PutKeys(u, n, Get(u, English).value);
        assert Keys(Put(u, n, Get(u, English).value))[|u|] == n;
      } else {
        AddToAllKeys(u, lang, native);
        assert |LangEntry(lang)| == |n| + 2;
        forall i | 0 <= i < |u| ensures AddEntry(u[i].1, lang, native) == u[i].1 {
          var b := d[i].1;
          if !HasKey(b, n) {
            PutKeys(b, LangEntry(lang), native);
            assert n !in Keys(b) + [LangEntry(lang)];
            PutPut(b, LangEntry(lang), native);
          }
        }
      }
    }
  }

  /** The shape of a fresh registry that knows only English. */
  lemma EnglishOnly(ek: string, ev: string, lang: string, native: string)
    requires IsLangCode(lang) && IsNumberedKey(ek) && '\n' !in ev
    requires ek != LangEntry(lang) && LangName(lang) != English
    ensures WithLanguage([(English, [(ek, ev)])], lang, native)
         == [(English, [(ek, ev), (LangEntry(lang), native)]),
             (LangName(lang), [(ek, ev), (LangEntry(lang), native)])]
  {
    var b := [(ek, ev)];
    var d := [(English, b)];
    assert IsName(English) by {
      assert English[2..] == "english";
    }
    KeyNoNewline(ek);
    assert WellFormed(d);
    assert Keys(d) == [English];
    var b' := Put(b, LangEntry(lang), native);
    assert Keys(b) == [ek];
    assert b' == [(ek, ev), (LangEntry(lang), native)];
    WithLanguageBlocks(d, lang, native);
    assert Get(d, English) == Some(b) by {
      GetAt(d, 0);
    }
  }

  // Lines 143-153: the native name of the language.

  const NativePrefix: string := "native_language_name_"

  /** The line of line 149 that the service is asked to translate. */
  function NativeQuery(lang: string): string {
    NativePrefix + lang + CodeEnd + lang + "\""
  }

  predicate IsLower(c: char) {
    'a' <= c <= 'z'
  }

  /** The characters of a Paradox language code: lower-case letters, digits and `_`. */
  predicate IsCodeChar(c: char) {
    IsLower(c) || IsDigit(c) || c == '_'
  }

  /** Length of the longest prefix of characters of the class. */
  function ClassRun(s: string, cls: char -> bool): (n: nat)
    ensures n <= |s| && forall i :: 0 <= i < n ==> cls(s[i])
    ensures n < |s| ==> !cls(s[n])
  {
    if s != "" && cls(s[0]) then 1 + ClassRun(s[1..], cls) else 0
  }

  /** The text before the first line break. */
  function FirstLine(s: string): (r: string)
    ensures |r| <= |s| && r == s[..|r|] && '\n' !in r
    ensures |r| < |s| ==> s[|r|] == '\n'
  {
    if s == "" || s[0] == '\n' then "" else [s[0]] + FirstLine(s[1..])
  }

  /** Position of the last quote. */
  function LastQuote(s: string): (r: Option<nat>)
    ensures r.Some? ==> r.value < |s| && s[r.value] == '"' && forall k :: r.value < k < |s| ==> s[k] != '"'
    ensures r.None? ==> '"' !in s
  {
    if s == "" then None
    else if s[|s| - 1] == '"' then Some(|s| - 1)
    else
      var r := LastQuote(s[..|s| - 1]);
      assert forall k :: 0 <= k < |s| - 1 ==> s[..|s| - 1][k] == s[k];
      r
  }

  /**
   * `re.match(r"native_language_name_[c]+:1 \"(.*)\"", reply)` for a class
   * `c` of code characters, with the fallback of line 153: the prefix, one
   * or more code characters, `:1 "`, and the captured text up to the last
   * quote of the first line.
   */
  function ExtractName(reply: string, lang: string, cls: char -> bool): (r: string)
    ensures r == lang || '\n' !in r
  {
    if StartsWith(reply, NativePrefix) then ExtractCode(reply[|NativePrefix|..], lang, cls) else lang
  }

  /** The pattern after its fixed prefix: the code, then `:1 "` and the capture. */
  function ExtractCode(s: string, lang: string, cls: char -> bool): (r: string)
    ensures r == lang || '\n' !in r
  {
    var n := ClassRun(s, cls);
    if n > 0 && StartsWith(s[n..], CodeEnd) then ExtractQuoted(FirstLine(s[n + |CodeEnd|..]), lang) else lang
  }

  const CodeEnd: string := ":1 \""

  /** `(.*)\"` on one line: greedy, so up to the last quote. */
  function ExtractQuoted(line: string, lang: string): (r: string)
    requires '\n' !in line
    ensures r == lang || '\n' !in r
  {
    match LastQuote(line)
    case Some(j) => line[..j]
    case None => lang
  }

  /** Line 152 as written: the code must be lower-case letters only. */
  function ExtractNativeName(reply: string, lang: string): string {
    ExtractName(reply, lang, IsLower)
  }

  /** Line 152 as intended: any code that line 149 can have put in the query. */
  function ExtractNativeNameFixed(reply: string, lang: string): string {
    ExtractName(reply, lang, IsCodeChar)
  }

  /** A reply of the asked form gives back the quoted name, whatever follows on later lines. */
  lemma ExtractNameOf(code: string, name: string, tail: string, lang: string, cls: char -> bool)
    requires code != "" && (forall i :: 0 <= i < |code| ==> cls(code[i])) && !cls(':')
    requires '\n' !in name && '"' !in FirstLine(tail)
    ensures ExtractName(NativePrefix + code + CodeEnd + name + "\"" + tail, lang, cls) == name
  {
    var rest := name + "\"" + tail;
    var s := code + CodeEnd + rest;
    var line := name + "\"" + FirstLine(tail);
    calc {
      ExtractName(NativePrefix + code + CodeEnd + name + "\"" + tail, lang, cls);
      { assert NativePrefix + code + CodeEnd + name + "\"" + tail == NativePrefix + s;
        PrefixSlice(NativePrefix, s); }
      ExtractCode(s, lang, cls);
      { FirstLineOf(name + "\"", tail); ExtractCodeOf(code, rest, lang, cls); }
      ExtractQuoted(line, lang);
      { LastQuoteOf(name, FirstLine(tail)); assert line[..|name|] == name; }
      name;
    }
  }

  lemma PrefixSlice(p: string, s: string)
    ensures StartsWith(p + s, p) && (p + s)[|p|..] == s
  {
    assert (p + s)[..|p|] == p;
  }

  lemma ExtractCodeOf(code: string, rest: string, lang: string, cls: char -> bool)
    requires code != "" && (forall i :: 0 <= i < |code| ==> cls(code[i])) && !cls(':')
    requires '\n' !in FirstLine(rest)
    ensures ExtractCode(code + CodeEnd + rest, lang, cls) == ExtractQuoted(FirstLine(rest), lang)
  {
    var after := CodeEnd + rest;
    assert code + CodeEnd + rest == code + after;
    ClassRunOf(code, after, cls);
    PrefixSlice(code, after);
    PrefixSlice(CodeEnd, rest);
  }

  lemma {:induction false} ClassRunOf(a: string, rest: string, cls: char -> bool)
    requires (forall i :: 0 <= i < |a| ==> cls(a[i])) && (rest == "" || !cls(rest[0]))
    ensures ClassRun(a + rest, cls) == |a|
  {
    if a == "" {
      assert a + rest == rest;
    } else {
      assert (a + rest)[1..] == a[1..] + rest;
      ClassRunOf(a[1..], rest, cls);
    }
  }

  lemma {:induction false} FirstLineOf(a: string, rest: string)
    requires '\n' !in a
    ensures FirstLine(a + rest) == a + FirstLine(rest)
  {
    if a == "" {
      assert a + rest == rest;
    } else {
      assert (a + rest)[1..] == a[1..] + rest;
      FirstLineOf(a[1..], rest);
    }
  }

  lemma {:induction false} LastQuoteOf(name: string, rest: string)
    requires '"' !in rest
    ensures LastQuote(name + "\"" + rest) == Some(|name|)
    decreases |rest|
  {
    var s := name + "\"" + rest;
    if rest == "" {
      assert s[|s| - 1] == '"';
    } else {
      assert s[..|s| - 1] == name + "\"" + rest[..|rest| - 1];
      assert rest[|rest| - 1] != '"';
      LastQuoteOf(name, rest[..|rest| - 1]);
    }
  }

  /**
   * As written, a code with an underscore, such as `simp_chinese`, never
   * matches: whatever follows the underscore (the rest of the code, `:1 "`
   * and the name), the code itself is returned.
   */
  lemma NativeNameUnderscoreIgnored(a: string, rest: string, lang: string)
    requires forall i :: 0 <= i < |a| ==> IsLower(a[i])
    requires rest != "" && rest[0] == '_'
    ensures ExtractNativeName(NativePrefix + a + rest, lang) == lang
  {
    assert NativePrefix + a + rest == NativePrefix + (a + rest);
    PrefixSlice(NativePrefix, a + rest);
    ClassRunOf(a, rest, IsLower);
    PrefixSlice(a, rest);
  }

  /** The reply that names Simplified Chinese is ignored, as is any reply for `simp_chinese`. */
  lemma SimpChineseIgnored(rest: string, lang: string)
    ensures ExtractNativeName(NativePrefix + "simp" + "_chinese" + rest, lang) == lang
  {
    assert NativePrefix + "simp" + "_chinese" + rest == NativePrefix + "simp" + ("_chinese" + rest);
    NativeNameUnderscoreIgnored("simp", "_chinese" + rest, lang);
  }

  /** As intended, the reply to the query of any code gives back the quoted name. */
  lemma NativeNameFixedOf(code: string, name: string, tail: string, lang: string)
    requires code != "" && (forall i :: 0 <= i < |code| ==> IsCodeChar(code[i]))
    requires '\n' !in name && '"' !in FirstLine(tail)
    ensures ExtractNativeNameFixed(NativePrefix + code + CodeEnd + name + "\"" + tail, lang) == name
  {
    ExtractNameOf(code, name, tail, lang, IsCodeChar);
  }

  /** Lines 149-150 with the `.strip()` of line 95: the reply line 152 reads, with no fence removal. */
  function NativeReply(lang: string, service: string -> string): string {
    Strip(service(NativeQuery(lang)))
  }

  /** Lines 148-153 with line 152 as written. */
  function NativeLanguageNameAsWritten(lang: string, service: string -> string): (r: string)
    ensures r == lang || '\n' !in r
  {
    ExtractNativeName(NativeReply(lang, service), lang)
  }

  /** Lines 148-153 with the corrected pattern: ask the service, read its reply. */
  function NativeLanguageName(lang: string, service: string -> string): (r: string)
    ensures r == lang || '\n' !in r
  {
    ExtractNativeNameFixed(NativeReply(lang, service), lang)
  }

  /**
   * The reply's code, if it has the prefix, is a run of lower-case letters
   * not followed by a digit or `_`: the replies on which the two patterns
   * of line 152 see the same code.
   */
  predicate LowerCodeReply(reply: string) {
    StartsWith(reply, NativePrefix) ==>
      var s := reply[|NativePrefix|..];
      var n := ClassRun(s, IsLower);
      n == |s| || !IsCodeChar(s[n])
  }

  /** Line 152 as written and as corrected read such replies alike. */
  lemma ExtractNativeNameAgree(reply: string, lang: string)
    requires LowerCodeReply(reply)
    ensures ExtractNativeName(reply, lang) == ExtractNativeNameFixed(reply, lang)
  {
    if StartsWith(reply, NativePrefix) {
      var s := reply[|NativePrefix|..];
      var n := ClassRun(s, IsLower);
      assert s == s[..n] + s[n..];
      ClassRunOf(s[..n], s[n..], IsCodeChar);
    }
  }

  /** The corrected native name is the source's whenever the reply names a lower-case code. */
  lemma NativeLanguageNameAgree(lang: string, service: string -> string)
    requires LowerCodeReply(NativeReply(lang, service))
    ensures NativeLanguageName(lang, service) == NativeLanguageNameAsWritten(lang, service)
  {
    ExtractNativeNameAgree(NativeReply(lang, service), lang);
  }

  /** A reply still wrapped in a ```yaml fence does not match, and the code is kept. */
  lemma FencedReplyIgnored(lang: string, service: string -> string)
    requires StartsWith(NativeReply(lang, service), "```")
    ensures NativeLanguageName(lang, service) == lang
    ensures NativeLanguageNameAsWritten(lang, service) == lang
  {
    var r := NativeReply(lang, service);
    assert r[0] == '`' && NativePrefix[0] == 'n';
    assert !StartsWith(r, NativePrefix);
  }

  /** A service that echoes the query leaves the code as the native name. */
  lemma EchoNativeName(lang: string, service: string -> string)
    requires TranslateFile.Echoes(service)
    requires lang != "" && forall i :: 0 <= i < |lang| ==> IsCodeChar(lang[i])
    ensures NativeLanguageName(lang, service) == lang
  {
    var q := NativeQuery(lang);
    assert TranslateFile.Echoes(service);
    assert Strip(service(q)) == Strip(q);
    assert q[0] == 'n' && q[|q| - 1] == '"';
    StripNoSpaceEnds(q);
    assert FirstLine("") == "";
    assert q == NativePrefix + lang + CodeEnd + lang + "\"" + "";
    NativeNameFixedOf(lang, lang, "", lang);
  }

  // The registry as the source keeps it: one dict, updated in place.

  class Registry {
    /** `languages`: block name to block, in file order. */
    var blocks: Document

    /** Line 196: the registry read from the lines of languages.yml. */
    constructor (lines: seq<string>)
      ensures blocks == ParseLines(lines) && WellFormed(blocks)
    {
      var parsed := ParseParadoxYaml(lines);
      blocks := parsed;
    }

    /**
     * Lines 201-223: a language already present leaves the registry alone
     * and reports it; otherwise the service is asked for the native name,
     * every block gets the entry in place, and `l_english` is copied.
     */
    method AddLanguage(lang: string, service: string -> string) returns (added: bool)
      modifies this
      ensures added <==> !HasKey(old(blocks), LangName(lang))
      ensures blocks == WithLanguage(old(blocks), lang, NativeLanguageName(lang, service))
    {
      var langKey := "l_" + lang;
      if HasKey(blocks, langKey) {
        return false;
      }
      var native := NativeLanguageName(lang, service);
      ghost var d := blocks;
      for i := 0 to |blocks|
        invariant |blocks| == |d|
        invariant forall j :: 0 <= j < i ==> blocks[j] == (d[j].0, AddEntry(d[j].1, lang, native))
        invariant forall j :: i <= j < |blocks| ==> blocks[j] == d[j]
      {
        var (name, b) := blocks[i];
        if !HasKey(b, langKey) {
          blocks := blocks[i := (name, Put(b, langKey + ":1", native))];
        }
      }
      assert blocks == AddToAll(d, lang, native);
      AddToAllKeys(d, lang, native);
      if !HasKey(blocks, langKey) {
        if HasKey(blocks, English) {
          blocks := Put(blocks, langKey, Get(blocks, English).value);
        }
      }
      added := true;
    }
  }

  /**
   * `update_languages_yml` on the text of languages.yml: None when the
   * language is present (the file is copied as it is), otherwise the text
   * written (before add_bom.py puts the byte order mark in front).
   */
  function UpdateLanguages(input: string, lang: string, service: string -> string): Option<string> {
    var languages := Parse(input);
    if HasKey(languages, LangName(lang)) then None
    else Some(Serialize(WithLanguage(languages, lang, NativeLanguageName(lang, service))))
  }

  /** Lines 196-230 with the registry object. */
  method UpdateLanguagesYml(input: string, lang: string, service: string -> string) returns (output: Option<string>)
    ensures output == UpdateLanguages(input, lang, service)
  {
    var registry := new Registry(SplitLinesKeepEnds(input));
    var added := registry.AddLanguage(lang, service);
    if added {
      output := Some(Serialize(registry.blocks));
    } else {
      output := None;
    }
  }

  lemma GetEscape(b: Block, k: string)
    requires Get(b, k).Some?
    requires UniqueKeys(b)
    ensures Get(EscapeBlock(b), k) == Some(Escape(Get(b, k).value))
  {
    var i :| 0 <= i < |b| && b[i] == (k, Get(b, k).value);
    var e := EscapeBlock(b);
    assert e[i] == (k, Escape(b[i].1));
    assert UniqueKeys(e) by {
      assert forall j :: 0 <= j < |b| ==> e[j].0 == b[j].0;
    }
    GetAt(e, i);
  }

  /**
   * The languages file written for a new language reads back, with its
   * byte order mark, as the updated registry with its values escaped, and
   * every block of it lists the new language under `l_<lang>:1`.
   */
  lemma UpdateLanguagesReread(input: string, lang: string, service: string -> string)
    requires IsLangCode(lang)
    requires forall i :: 0 <= i < |Parse(input)| ==> NumberedKeys(Parse(input)[i].1)
    ensures UpdateLanguages(input, lang, service).Some? ==>
      Parse([Bom] + UpdateLanguages(input, lang, service).value)
      == EscapeValues(WithLanguage(Parse(input), lang, NativeLanguageName(lang, service)))
    ensures UpdateLanguages(input, lang, service).Some? ==>
      var reread := Parse([Bom] + UpdateLanguages(input, lang, service).value);
      forall i :: 0 <= i < |reread| ==>
        Get(reread[i].1, LangEntry(lang)) == Some(Escape(NativeLanguageName(lang, service)))
  {
    var d := Parse(input);
    if !HasKey(d, LangName(lang)) {
      var native := NativeLanguageName(lang, service);
      assert '\n' !in native by {
        if native == lang {
          assert forall i :: 0 <= i < |lang| ==> lang[i] != '\n';
        }
      }
      ParseLinesWellFormed(SplitLinesKeepEnds(input));
      var r := WithLanguage(d, lang, native);
      WithLanguageNumbered(d, lang, native);
      SerializeRoundTrip(r);
      WithLanguageEntry(d, lang, native);
      forall i | 0 <= i < |r| ensures Get(EscapeValues(r)[i].1, LangEntry(lang)) == Some(Escape(native)) {
        GetEscape(r[i].1, LangEntry(lang));
      }
    }
  }
}
