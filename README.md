# victoria3-translator in Dafny

This is a verified model of the deterministic core of victoria3-translator. That tool translates Victoria 3
localisation files, the Paradox "YAML" of `l_english:` blocks, into another language through a chat-completion
service. It then registers the new language in `localization/languages.yml`. The model covers four pieces:

- **The greedy line chunker** (`Chunker`). It implements `chunk_text_by_lines`: whole lines are packed into
  chunks under a token budget. The tokenizer is an arbitrary `cost: string -> nat`.
- **The text pipeline of `translate_file`** (`Reindent`, `TranslateFile`). It has these steps:
  - the `l_english:` → `l_<lang>:` rewrite;
  - one service call per chunk;
  - the strip of `translate_chunk`;
  - removal of a surrounding ```` ```yaml … ``` ```` fence;
  - the `"\n"` join;
  - the reindent pass, which keeps blank and comment lines, puts the first header-looking line at column 0 and
    indents every other line by two spaces.

  The translation service is a function parameter.
- **The Paradox registry** (`OrderedMap`, `ParadoxYaml`, `Substitution`, `Languages`). It consists of:
  - `parse_paradox_yaml` as a one-pass line classifier over an ordered dict of ordered dicts;
  - the intended output shape of the double-quoting dumper;
  - the line-230 `re.sub` that turns `l_x:1: "v"` into `l_x:1 "v"`;
  - the in-place update of `update_languages_yml`, as a `Registry` class whose `AddLanguage` method loops over the
    blocks;
  - the extraction of the native language name from the service's reply.

  A Python dict is a sequence of key/value pairs in insertion order. Assigning to a present key overwrites that
  pair in place; assigning to an absent key appends a new pair.
- **The byte order mark** (`AddBom`). It covers `add_bom_to_file` over the bytes of a file, and the `.yml` name
  filter of `process_directory`.

The main results are these:

- concatenating the chunks gives back the text;
- every chunk break was forced by the budget;
- reindenting is idempotent;
- an echoing service makes `translate_file` equal to its header rewrite followed by the reindent pass;
- parsing the Paradox text of a well-formed document gives back that document;
- parsing the dumped-and-substituted output gives back the document with its values escaped, with or without a
  byte order mark;
- the registry update adds `l_<lang>:1` to every block and copies the updated `l_english` block;
- adding a byte order mark is idempotent.

These approximations and differences from the source apply throughout:

- `'\n'` is the only line break.
- Whitespace (`\s`, `str.isspace`, `strip`) is space, tab, `\n`, `\r`, `\v` and `\f`.
- `\d` is an ASCII digit, and lower-casing is ASCII only.
- Where the prose description of the tool and the code disagree, the model follows the code. Three cases arise:
  - The finished file has no trailing line break, because `"\n".join` drops it.
  - The header is rewritten before chunking, at line 111.
  - Entry lines before any header are skipped silently, at line 116, rather than reported as errors.
- Two departures from the code are listed under "## Left out", each on a line headed by the member concerned:
  - The registry update uses the corrected pattern for line 152's native language name, from the finding below.
    The pattern as written is modelled beside it (`Languages.NativeLanguageName`).
  - The replacement `l_<lang>:` of line 111 is inserted literally, without the template escapes of `re.sub`
    (`TranslateFile.RewriteHeader`).

## Model

| member | source | states |
|---|---|---|
| Chunker.Pack | generate-victoria3-l10n.py:59-73 | the greedy packing as a recursion over the lines; no contract of its own. Its properties are proved by PackFlatten, PackNonEmpty, PackWithinBudget, PackBreaksForced and PackEndsOnLines, and stated for `Chunks` by the rows below |
| Chunker.Chunks | generate-victoria3-l10n.py:59-73 | the chunks of `chunk_text_by_lines` as a function; no contract of its own. ChunkTextByLines computes it, and ChunksConcat, ChunksNonEmpty, ChunksWithinBudget, ChunkBreaksForced and ChunksEndWithNewline state what it means |
| Chunker.ChunkTextByLines | generate-victoria3-l10n.py:55-73 | the loop returns the chunks of the greedy packing. Their concatenation is the input text. No chunk is empty. There are no chunks exactly when the text is empty. Every chunk but the last ends with a line break. |
| Chunker.ChunksConcat | generate-victoria3-l10n.py:59-73 | concatenating the chunks gives back the text exactly. The chunks' lines, in order, are the text's `splitlines(keepends=True)`. |
| Chunker.ChunksNonEmpty | generate-victoria3-l10n.py:66-72 | every chunk is a non-empty string, and the list is empty iff the text is empty |
| Chunker.ChunksWithinBudget | generate-victoria3-l10n.py:64-70 | every line after a chunk's first was added only because cost(chunk so far) + cost(line) ≤ max_tokens |
| Chunker.ChunkBreaksForced | generate-victoria3-l10n.py:66-68 | each chunk after the first starts with a line that does not fit after the previous chunk: cost(chunk i−1) + cost(first line of chunk i) > max_tokens |
| Chunker.ChunksEndWithNewline | generate-victoria3-l10n.py:59-72 | every chunk but the last ends on a line boundary |
| Chunker.OversizedLineAlone | generate-victoria3-l10n.py:64-70 | a line costing more than the budget can only be a chunk on its own: in a chunk of two or more lines every line costs at most max_tokens |
| Chunker.ChunkCostBounded | generate-victoria3-l10n.py:57-70 | for a subadditive cost, a chunk of two or more lines costs at most max_tokens (only a lone oversized line can exceed it) |
| Reindent.FirstHeader | generate-victoria3-l10n.py:128-137 | the index of the first line that is neither blank nor a comment and whose strip matches `l_[^:]+:`. No earlier line is such a line. It is the number of lines when there is none. |
| Reindent.Reindented | generate-victoria3-l10n.py:130-139 | the pass as a function of the line list: one line out per line in, each through ReindentLine with the first-header flag; only its length is a contract of its own. Reindent computes it, and ReindentIdempotent, ReindentPrefix and ReindentLineKeepsStrip state what it does |
| Reindent.Reindent | generate-victoria3-l10n.py:124-139 | the flag loop gives one output line per input line. Blank and comment lines are copied. The first header line becomes its strip. Every other line becomes two spaces plus its left strip. Among lines that are not copied, exactly the header ends up at column 0. |
| Reindent.ReindentLineKeepsStrip | generate-victoria3-l10n.py:131-139 | reindenting changes only a line's indentation and trailing whitespace: its strip is unchanged |
| Reindent.ReindentIdempotent | generate-victoria3-l10n.py:130-139 | on a list of lines, reindenting twice is reindenting once |
| Reindent.ReindentPrefix | generate-victoria3-l10n.py:130-139 | the pass works line by line: the output for a prefix of the input is the same prefix of the output |
| Reindent.EntryLineLooksLikeHeader | generate-victoria3-l10n.py:128-137 | the header pattern also matches an entry line such as `l_czech:1 "x"`, which is then put at column 0 when it comes first |
| TranslateFile.RewriteHeader | generate-victoria3-l10n.py:110-111 | the `re.sub` of `l_english:` by `l_<lang>:`; no contract of its own. RewriteHeaderAbsent, RewriteHeaderAtStart, RewriteHeaderEnglish, RewriteHeaderLength and RewriteHeaderComplete state what it does |
| TranslateFile.RewriteHeaderAbsent | generate-victoria3-l10n.py:110-111 | text without `l_english:` is left unchanged |
| TranslateFile.RewriteHeaderAtStart | generate-victoria3-l10n.py:111 | a leading `l_english:` becomes `l_<lang>:` and the rewrite goes on after it |
| TranslateFile.RewriteHeaderEnglish | generate-victoria3-l10n.py:110-111 | rewriting to `english` changes nothing |
| TranslateFile.RewriteHeaderLength | generate-victoria3-l10n.py:111 | the length changes by (|lang| − 7) for each occurrence replaced |
| TranslateFile.RewriteHeaderComplete | generate-victoria3-l10n.py:110-111 | when the language has no colon and `l_<lang>:` does not contain `l_english:`, no `l_english:` is left after the rewrite |
| TranslateFile.RewriteTwoLineFile | generate-victoria3-l10n.py:111 | the rewrite also reaches the `l_english:` inside an entry key, so header and key both change |
| TranslateFile.SliceInner | generate-victoria3-l10n.py:120 | Python's `s[start:-dropEnd]`: the inner slice, or empty when the string is too short |
| TranslateFile.StripFence | generate-victoria3-l10n.py:119-120 | a reply that does not both start with "```yaml" and end with "```" is returned untouched |
| TranslateFile.FencedLength | generate-victoria3-l10n.py:119-120 | a fenced reply is at least 10 characters long and loses exactly its first 7 and last 3 characters before the strip |
| TranslateFile.StripFenceOfFenced | generate-victoria3-l10n.py:119-120 | a body wrapped in the fence comes back stripped |
| TranslateFile.TranslateChunk | generate-victoria3-l10n.py:117-120 | one chunk's reply: the service's answer stripped (line 95), then unfenced; no contract of its own. EchoReply and EchoPipeline state what it gives for an echoing service |
| TranslateFile.Finalize | generate-victoria3-l10n.py:122-140 | the split, reindent and `"\n"` join after the chunks are joined; no contract of its own. FinalizeLines, FinalizeIdempotent and FinalizeDropsTrailingEmptyLine state what it does |
| TranslateFile.EchoReply | generate-victoria3-l10n.py:95-120 | when the service echoes its input up to surrounding whitespace, a chunk of clean lines comes back as its lines: the first line loses its indentation, the last line break goes, and there is no fence |
| TranslateFile.TranslatedFile | generate-victoria3-l10n.py:109-140 | the text `translate_file` returns: header rewrite, chunks, one reply per chunk, the `"\n"` join and Finalize; no contract of its own. TranslateFile computes it, and EchoPipeline, Scenario and CzechScenario state what it gives |
| TranslateFile.TranslateFile | generate-victoria3-l10n.py:109-140 | the loop over chunks and the final join compute the file's translated text |
| TranslateFile.FinalizeLines | generate-victoria3-l10n.py:122-140 | when the joined text does not end in an empty line, the lines of the finished text are the reindented lines of the joined text |
| TranslateFile.FinalizeIdempotent | generate-victoria3-l10n.py:124-140 | under the same condition, reindenting the finished text again changes nothing |
| TranslateFile.FinalizeDropsTrailingEmptyLine | generate-victoria3-l10n.py:125-140 | the re-split can drop a trailing empty line: `"x\n\n"` finishes as `"  x\n"`, which finishes as `"  x"` |
| TranslateFile.EchoPipeline | generate-victoria3-l10n.py:109-140 | with an echoing service and a rewritten text of clean lines, the translated file is the reindented header rewrite, whatever the budget and the cost |
| TranslateFile.Scenario | generate-victoria3-l10n.py:109-140 | a header line plus one entry line indented by one space comes out as `l_<lang>:` and the entry indented by two spaces, with both `l_english:` rewritten |
| TranslateFile.CzechScenario | generate-victoria3-l10n.py:109-140 | `"l_english:\n l_english:1 \"Hello\"\n"` translated to `czech` by an echoing service is `"l_czech:\n  l_czech:1 \"Hello\""` |
| TranslateFile.IdentityEchoes | generate-victoria3-l10n.py:117 | the identity service is an echoing service |
| OrderedMap.Put | scripts/paradox_yaml_tools.py:118 | `d[k] = v`: a present key keeps its position and takes the new value, and every other pair stays. An absent key is appended last. |
| OrderedMap.PutGet | scripts/paradox_yaml_tools.py:118 | after `d[k] = v`, `d[k]` is `v` |
| OrderedMap.PutGetOther | scripts/paradox_yaml_tools.py:118 | after `d[k] = v`, every other key looks up as before |
| OrderedMap.PutUnique | scripts/paradox_yaml_tools.py:118 | assignment keeps the keys distinct |
| OrderedMap.PutPut | generate-victoria3-l10n.py:216 | assigning the same value twice is assigning it once |
| ParadoxYaml.MatchHeader | scripts/paradox_yaml_tools.py:93 | a header match captures `l_` plus identifier characters. After left-stripping, the line is that name, a colon, and whitespace only. |
| ParadoxYaml.MatchHeaderOf | scripts/paradox_yaml_tools.py:93 | any whitespace, a name, a colon and whitespace is matched, with that name captured |
| ParadoxYaml.MatchEntry | scripts/paradox_yaml_tools.py:94 | an entry match needs leading whitespace, and its key has the form `l_<ident>:` with at most one digit. The captured value has no line break. |
| ParadoxYaml.MatchEntryOf | scripts/paradox_yaml_tools.py:94 | whitespace, a key, whitespace, then a quoted value and trailing whitespace are matched. The value is everything between the first quote and the last, inner quotes included, and is not unescaped. |
| ParadoxYaml.EntryNotHeader | scripts/paradox_yaml_tools.py:93-94 | an entry line never matches the header pattern |
| ParadoxYaml.CleanLineOf | scripts/paradox_yaml_tools.py:102 | leading byte order marks and the trailing line break are what cleaning removes |
| ParadoxYaml.Classify | scripts/paradox_yaml_tools.py:102-121 | a header line yields a valid block name, and an entry line yields a valid key and a value without line breaks |
| ParadoxYaml.ParseLines | scripts/paradox_yaml_tools.py:96-123 | the one-pass fold of `parse_paradox_yaml` over the classified lines; no contract of its own. ParseParadoxYaml computes it; ParseLinesWellFormed, DropIgnored, HeaderStep, EntryStep and ParadoxRoundTrip state what it means |
| ParadoxYaml.ParseParadoxYaml | scripts/paradox_yaml_tools.py:96-123 | the loop computes the one-pass fold over the classified lines. Its result has distinct, valid block names and well-formed blocks. |
| ParadoxYaml.ParseLinesWellFormed | scripts/paradox_yaml_tools.py:96-123 | every parse result has distinct header-form block names, and each block has distinct valid keys |
| ParadoxYaml.DropIgnored | scripts/paradox_yaml_tools.py:104-121 | a blank line or a line that matches neither pattern can be removed without changing the result |
| ParadoxYaml.NoHeaderNoChange | scripts/paradox_yaml_tools.py:116 | with no current block, entries change nothing |
| ParadoxYaml.EntriesBeforeHeader | scripts/paradox_yaml_tools.py:97-116 | the lines before the first header are dropped silently |
| ParadoxYaml.HeaderStep | scripts/paradox_yaml_tools.py:109-112 | a header makes its name current and sets it to an empty block. A repeated name keeps its position and loses its entries. A new name is appended. Other blocks are unchanged. |
| ParadoxYaml.EntryStep | scripts/paradox_yaml_tools.py:115-118 | an entry sets its key in the current block: a repeated key keeps its first position and takes the later value, and a new key is appended. Other keys and other blocks are unchanged. |
| ParadoxYaml.Parse | scripts/paradox_yaml_tools.py:96-123 | `parse_paradox_yaml` over a file's text: ParseLines over its lines with their breaks kept; no contract of its own. ParadoxRoundTrip, ParseBom and SerializeRoundTrip state what it reads |
| ParadoxYaml.ParseBom | scripts/paradox_yaml_tools.py:102 | a byte order mark in front of the file changes nothing |
| ParadoxYaml.ReadHeaderLine | scripts/paradox_yaml_tools.py:93 | `name:` on its own line reads as that header |
| ParadoxYaml.ReadEntryLine | scripts/paradox_yaml_tools.py:94 | `  key "value"` reads as that entry |
| ParadoxYaml.ParadoxRoundTrip | scripts/paradox_yaml_tools.py:75-123 | every well-formed document, written as header lines followed by indented entry lines, parses back to itself, with or without a leading byte order mark |
| ParadoxYaml.UnescapeEscape | scripts/paradox_yaml_tools.py:36-37 | the double-quoted escaping of `"` and `\` is undone by unescaping |
| ParadoxYaml.EscapePlain | scripts/paradox_yaml_tools.py:36-37 | a value without `"` or `\` is written as it is |
| ParadoxYaml.Escape | scripts/paradox_yaml_tools.py:33-37 | the double-quoted escaping of a value: it adds no line break. UnescapeEscape is its inverse |
| ParadoxYaml.Dump | scripts/paradox_yaml_tools.py:45-58 | the intended output of the dumper, `{}` for an empty document; otherwise, per block, a `name:` line followed by `  key: "value"` lines, or `name: {}` for an empty block; no contract of its own. SerializeText and SerializeRoundTrip state what it gives |
| Substitution.SubstituteFrom | generate-victoria3-l10n.py:230 | the left-to-right scan of the multiline `re.sub`, with a flag for being at a line start; no contract of its own. SubMatchComplete, SubMatchSound, SubKeyLine and SubHeaderLine state what it does |
| Substitution.Substitute | generate-victoria3-l10n.py:230 | the substitution from the start of the text; no contract of its own. SubEntryLine, SubEmptyDocument and SerializeText state what it gives |
| Substitution.SubMatchComplete | generate-victoria3-l10n.py:230 | at a line start, leading whitespace, a numbered key, a colon and whitespace up to a non-space are matched, and the match covers that whitespace |
| Substitution.SubMatchSound | generate-victoria3-l10n.py:230 | every match the scanner finds has that shape |
| Substitution.SubKeyLine | generate-victoria3-l10n.py:230 | `ws key: text` becomes `ws key text`, and the rest of the text is processed from a line start |
| Substitution.SubEntryLine | generate-victoria3-l10n.py:229-230 | a dumped entry line `  l_x:1: "v"` becomes `  l_x:1 "v"` |
| Substitution.SubHeaderLine | generate-victoria3-l10n.py:230 | a header line `l_x:` is left as it is |
| Substitution.SubEmptyDocument | generate-victoria3-l10n.py:230 | the dump `{}` of an empty registry is left as it is |
| Substitution.Serialize | generate-victoria3-l10n.py:226-230 | the dump followed by the substitution; no contract of its own. SerializeText and SerializeRoundTrip state what it gives and that it reads back |
| Substitution.SerializeText | generate-victoria3-l10n.py:226-230 | the dump followed by the substitution is the Paradox text of the document with its values escaped |
| Substitution.EscapeValuesWellFormed | scripts/paradox_yaml_tools.py:33-37 | escaping the values keeps a document well formed |
| Substitution.ParseEmptyDump | scripts/paradox_yaml_tools.py:104-121 | the `{}` dump reads back as an empty registry, with or without a byte order mark |
| Substitution.SerializeRoundTrip | generate-victoria3-l10n.py:226-230 | reading the written file back gives the document with its values escaped, with or without the byte order mark |
| Substitution.PlainRoundTrip | scripts/paradox_yaml_tools.py:45-58 | for values that need no escaping, reading the written file back gives the document itself |
| Languages.LangNames | generate-victoria3-l10n.py:202-216 | for a language code, `l_<lang>` is a block name and `l_<lang>:1` a numbered key, and the two differ |
| Languages.AddEntry | generate-victoria3-l10n.py:214-216 | one block's update: `l_<lang>:1` is set to the native name unless the bare `l_<lang>` is a key; no contract of its own. GuardNeverSkips, WithLanguageEntry and AddToAll state what it does |
| Languages.AddToAll | generate-victoria3-l10n.py:212-216 | every block, in order and under its name, gets the update of lines 214-216 |
| Languages.AddToAllKeys | generate-victoria3-l10n.py:212-216 | the update keeps the block names and their order |
| Languages.GuardNeverSkips | generate-victoria3-l10n.py:214-216 | the guard tests the bare `l_<lang>`, which is never a parsed key, so every block gets the entry |
| Languages.WithLanguage | generate-victoria3-l10n.py:201-223 | the update of the registry for a new language; no contract of its own. WithLanguageBlocks, WithLanguageEntry, WithLanguageWellFormed, WithLanguageNumbered and WithLanguageIdempotent state what it does |
| Languages.WithLanguageBlocks | generate-victoria3-l10n.py:201-223 | a present language leaves the registry unchanged. Otherwise every block gets `l_<lang>:1` set by dict assignment. When `l_english` is present, one new block `l_<lang>` is appended, copied from the updated `l_english` block. |
| Languages.WithLanguageEntry | generate-victoria3-l10n.py:212-223 | after the update every block maps `l_<lang>:1` to the native name, and every other key of the old blocks looks up as before |
| Languages.WithLanguageWellFormed | generate-victoria3-l10n.py:212-223 | the updated registry is still well formed, and no block is empty |
| Languages.WithLanguageNumbered | generate-victoria3-l10n.py:212-223 | when every parsed key carries a digit, the updated registry has the shape the dump-and-substitute round trip needs |
| Languages.WithLanguageIdempotent | generate-victoria3-l10n.py:201-223 | running the update a second time changes nothing |
| Languages.EnglishOnly | generate-victoria3-l10n.py:212-223 | a registry with only `l_english` gets the entry there and a second block holding the same entries |
| Languages.ExtractNativeName | generate-victoria3-l10n.py:152-153 | `re.match` of line 152 as written, with `[a-z]+` for the code, and the code as fallback; no contract of its own. ExtractNameOf, NativeNameUnderscoreIgnored and ExtractNativeNameAgree state what it does |
| Languages.ExtractNativeNameFixed | generate-victoria3-l10n.py:152-153 | the same match with the corrected class `[a-z0-9_]+`; no contract of its own. NativeNameFixedOf and ExtractNativeNameAgree state what it does |
| Languages.ExtractName | generate-victoria3-l10n.py:152-153 | the extracted name is the fallback code or has no line break |
| Languages.ExtractNameOf | generate-victoria3-l10n.py:152-153 | a reply `native_language_name_<code>:1 "<name>"` gives back the name, whose quote is the last one on the first line |
| Languages.NativeNameUnderscoreIgnored | generate-victoria3-l10n.py:152-153 | as written, a reply whose code has an `_` after its lower-case letters falls back to the code |
| Languages.SimpChineseIgnored | generate-victoria3-l10n.py:149-153 | as written, the reply for `simp_chinese` is ignored |
| Languages.NativeNameFixedOf | generate-victoria3-l10n.py:152-153 | with the corrected class `[a-z0-9_]+`, any code that line 149 can have put in the query gives back the name |
| Languages.NativeReply | generate-victoria3-l10n.py:148-150 | the service's answer to the query `native_language_name_<lang>:1 "<lang>"`, stripped as line 95 does and not unfenced; no contract of its own |
| Languages.NativeLanguageNameAsWritten | generate-victoria3-l10n.py:143-153 | with the reply stripped as line 95 does and line 152 as written, the native name is the language code or a string without line breaks |
| Languages.NativeLanguageName | generate-victoria3-l10n.py:143-153 | with the reply stripped as line 95 does and the corrected pattern of line 152, the native name is the language code or a string without line breaks |
| Languages.ExtractNativeNameAgree | generate-victoria3-l10n.py:152-153 | the pattern as written and the corrected one give the same name on every reply whose code, if it has the prefix, is lower-case letters not followed by a digit or `_` |
| Languages.NativeLanguageNameAgree | generate-victoria3-l10n.py:143-153 | on such replies the corrected native name is the source's |
| Languages.FencedReplyIgnored | generate-victoria3-l10n.py:149-153 | since line 95 only strips, a reply still wrapped in a ```` ``` ```` fence does not match either pattern, and the code is kept |
| Languages.EchoNativeName | generate-victoria3-l10n.py:148-153 | an echoing service gives back the code |
| Languages.UpdateLanguages | generate-victoria3-l10n.py:196-230 | `update_languages_yml` on the text of languages.yml: nothing for a present language, otherwise the serialized update; no contract of its own. UpdateLanguagesYml computes it, and UpdateLanguagesReread states that its output reads back as the update |
| Languages.Registry.constructor | generate-victoria3-l10n.py:196 | the registry starts as the parse of languages.yml and is well formed |
| Languages.Registry.AddLanguage | generate-victoria3-l10n.py:201-223 | answers whether the language was absent. The blocks become the update of the old blocks with the service's native name. |
| Languages.UpdateLanguagesYml | generate-victoria3-l10n.py:196-230 | parsing, updating the registry object and serializing gives nothing for a present language. Otherwise it gives the serialized update. |
| Languages.UpdateLanguagesReread | generate-victoria3-l10n.py:196-237 | for a language code, and when every key parsed from languages.yml carries a digit (`NumberedKeys`), the file written, once it has its byte order mark, reads back as the updated registry with escaped values. Every block of it maps `l_<lang>:1` to the escaped native name. |
| AddBom.AddBom | add_bom.py:8-17 | the result starts with EF BB BF. Content already starting with it is unchanged. Otherwise the result is the mark followed by the content, and dropping three bytes recovers the content. |
| AddBom.AddBomIdempotent | add_bom.py:12-15 | adding the mark twice gives the same bytes as adding it once |
| AddBom.Lower | add_bom.py:24 | `lower()` maps each character through ASCII lower-casing |
| AddBom.IsYmlFile | add_bom.py:24 | the `file.lower().endswith(".yml")` filter; no contract of its own. IsYmlFileIff and YmlExamples state what it accepts |
| AddBom.IsYmlFileIff | add_bom.py:24 | a file is picked exactly when its name ends in a dot and `y`, `m`, `l` in any case |
| AddBom.YmlExamples | add_bom.py:24 | `.YML` is picked, while `.yaml` and a bare `yml` are not |
| Text.SplitLinesKeepEnds | generate-victoria3-l10n.py:59 | `splitlines(keepends=True)`: the lines concatenate to the text. Each is non-empty with at most a final line break. All but the last end with one. There are none exactly for the empty text. |
| Text.SplitLinesOfJoin | generate-victoria3-l10n.py:122-125 | splitting a `"\n"` join of break-free lines, the last non-empty, gives the lines back |
| Text.ReplaceAllAbsent | generate-victoria3-l10n.py:111 | `re.sub` of a pattern that does not occur leaves the text unchanged |
| Text.ReplaceAll | generate-victoria3-l10n.py:111 | `re.sub` of a pattern without metacharacters, scanning left to right over non-overlapping occurrences; no contract of its own. ReplaceAllAbsent and ReplaceAllComplete state what it does |
| Text.ReplaceAllComplete | generate-victoria3-l10n.py:111 | when the pattern's last character occurs only at its end, and the replacement ends with that character and nowhere else, and neither ends with the other, no occurrence of the pattern is left |
| Text.StripIdempotent | generate-victoria3-l10n.py:131 | stripping twice is stripping once |

## Left out

- Reading and writing files, `os.walk`, the `cp` and `python3 add_bom.py` subprocesses, and the messages printed.
  These are I/O: texts and byte sequences are parameters and results.
- The chat-completion client, the API key check, the system prompt, model and temperature, and the tenacity
  retry. None of these is visible to a proof. The service is a `string -> string` parameter, and its reply is
  stripped as line 95 does.
- tiktoken. It is a foreign tokenizer, and it is modelled as an arbitrary `cost: string -> nat`.
- Command-line parsing, `main`, the mutated globals, the metadata file, `ensure_output_path` and
  `validate_yaml`. These are configuration, paths and file creation.
- PyYAML's emitter itself. A foreign library cannot be modelled, so only its intended output is modelled:
  - insertion order;
  - plain keys;
  - double-quoted values with only `"` and `\` escaped;
  - no line folding;
  - `{}` for an empty mapping.
- Substitution.SerializeRoundTrip: covers only documents whose blocks are non-empty and whose keys all carry a
  digit. PyYAML writes an empty block as `l_x: {}`, which the header pattern rejects. A key without a digit is
  not rewritten by line 230.
- Languages.NativeLanguageName: uses the corrected pattern `[a-z0-9_]+` of the finding on line 152, not the
  `[a-z]+` that line 152 has. Registry.AddLanguage, UpdateLanguages, UpdateLanguagesYml and UpdateLanguagesReread
  are therefore stated with the corrected name. The two names agree on every reply whose code is lower-case letters
  not followed by a digit or `_` (Languages.NativeLanguageNameAgree). Languages.NativeLanguageNameAsWritten is
  line 152 as written.
- Languages.UpdateLanguagesReread: requires every key parsed from languages.yml to carry a digit (`NumberedKeys`),
  because line 230 rewrites only numbered keys. A key without a digit keeps its `key: "v"` form, which the entry
  pattern does not read back.
- TranslateFile.RewriteHeader: inserts `"l_" + lang + ":"` literally. Line 111 passes it to `re.sub` as a
  replacement template, so in the source a backslash in the language code is processed: `\\` inserts one
  backslash, `\n` a line break, and an unknown letter escape or a group reference such as `\1` raises
  `re.error`. The model agrees with the source on every code without a backslash.
- TranslateFile.EchoPipeline: holds only for a rewritten text whose every line is clean. A clean line is
  non-empty, has no trailing whitespace, starts with no backquote, and is a comment only at column 0. Otherwise
  the strip at line 95 changes the text the service sees.
- Unicode and line breaks. Whitespace is only the six characters space, `\t`, `\n`, `\r`, `\v` and `\f`.
  Python's `\s`, `str.isspace` and `strip` also count `\x1c`-`\x1f` and the Unicode spaces. `\d` and
  `str.lower` are ASCII only. `'\n'` is the only line break. In the source two more mechanisms apply:
  - opening a file in text mode (universal newlines) turns `\r\n` and `\r` into `\n` before any line is seen;
  - `splitlines` at lines 59 and 125 also breaks at `\v`, `\f`, `\x1c`-`\x1e`, `\x85`, `\u2028` and `\u2029`.
    So `\v` and `\f` are whitespace inside a line in the model, but end a line for `splitlines` in the source.
- The isinstance checks at lines 198-199, 213 and 220. They always hold for what `parse_paradox_yaml` returns.
- The UTF-8 encoding between the text written at line 234 and the bytes that `add_bom.py` reads. The two halves
  are modelled on their own alphabets: characters, and the `byte` newtype.

## Findings

| source | as written | input that shows it | evidently intended | confidence | as-written member | corrected member |
|---|---|---|---|---|---|---|
| generate-victoria3-l10n.py:152 | `native_language_name_[a-z]+:1 "(.*)"` accepts only lower-case letters in the code, though line 149 puts the full code in the query | `simp_chinese` (or `braz_por`): the reply `native_language_name_simp_chinese:1 "简体中文"` does not match. The native name falls back to `simp_chinese`. | the class of the code's characters, `[a-z0-9_]+`, so the quoted name is captured | medium (not executed) | Languages.NativeNameUnderscoreIgnored | Languages.NativeNameFixedOf |
