# dayz-stringtable: the PO/POT engine and its commands in Dafny

This project models the core of the `dayz-stringtable` localisation tool.
The tool converts the DayZ `stringtable.csv` to gettext PO/POT files and
back, and it fills in translations by machine. The core modelled here is:

- **The PO document engine** (`internal/poutil/po.go`):
  - the `File`/`Entry` data model and its upsert and lookup API (`SetC`,
    `GetC`, `IsTranslatedC`, `GetEntry`, `SetHeader`, `GetHeader`);
  - the do-not-translate predicate;
  - the escape codec (`extractQuotedValue`, `writeQuotedString` and the
    header escaping);
  - the line-driven parser `ParseReader` with `parseHeader` and
    `parseHeaderLine`;
  - the serializer `MarshalText`;
  - the header lifecycle (`computeContentHash`, `UpdateBuildHeaders`).
- **The commands that transform documents**:
  - the machine-translation batching and language selection in
    `translate.go`;
  - the two passes of the cleaner in `clean.go`;
  - the counters of `stats.go`;
  - the POT regeneration in `pot.go`;
  - the PO-to-CSV merge in `make.go`;
  - the language helpers of `lang.go`.
- **The CSV duplicate-key validator**, shared by `csvutil/csv.go` and
  `utils/csv.go`.
- **The three language-code tables**: DeepL, Google and OpenAI.

Entries are values (`PoFile.Entry`), and a document is the class
`PoFile.File`. `File` has `headers`, `language` and `entries` fields that the
imperative operations update in place. Each imperative operation is a
`method` proved against a specification function:

- `ParseReader` computes `PoParse.Parse`, a left fold of one loop
  iteration (`Step`) over the lines.
- `MarshalText` produces `TextOf(MarshalLines(...))`.
- `UpdateBuildHeaders` produces `BuildHeaders`.
- `translatePO` computes `TranslateFrom`.

The properties the source promises are then proved about those functions.
The main ones are:

- **Round trip.** Parsing what `MarshalText` writes gives back the same
  headers, the same entries in the same order, and `Language` taken from the
  "Language" header. This holds for documents whose ids are non-empty, whose
  comments are one `#` line each that does not end in a carriage return, and
  whose header keys and values
  `parseHeaderLine` can split again (`PoRoundTrip.TextRoundTrip`).
- **No duplicates.** Upserting never creates a duplicate `(context, msgid)`
  pair.
- **Header lifecycle.** The date headers change only when the content
  fingerprint changes, so `UpdateBuildHeaders` is idempotent.
- **Translation batching.** It touches only translations of pending entries,
  in batches of at most `batch`, and calls the client ceil(n/batch) times.
- **Clean.** A second clean run is a no-op.
- **Make.** The merged CSV reads back as the rows it was built from, with a
  reader that treats each trailing comma as the end of a field.

Several quirks of the source are modelled as written:

- A `msgid ""` line re-enters header mode without flushing the current entry.
- An entry with an empty msgid is neither stored nor dropped on a blank line.
- Header escaping covers newline but not tab. Entry escaping covers tab and
  splits on newline.
- The cleaner's `context|msgid` key is ambiguous.
- The CSV validator reports the first occurrence of a duplicate one row too
  far.

## Model

| member | source | states |
|---|---|---|
| PoFile.File.constructor | internal/poutil/po.go:55-60 | NewFile: no headers, no language, no entries |
| PoFile.FindIndex | internal/poutil/po.go:66-72 | the scan stops at the first entry matching (context, msgid), or at the end when none matches |
| PoFile.File.SetC | internal/poutil/po.go:65-78 | the new entries are Upsert of the old ones; headers and language are unchanged |
| PoFile.UpsertExisting | internal/poutil/po.go:66-71 | when a match exists, only the first matching entry changes, only in its msgstr; its comments, its position and the entry count are kept |
| PoFile.UpsertNew | internal/poutil/po.go:73-77 | with no match, exactly one comment-less entry is appended at the end |
| PoFile.UpsertKeepsUnique | internal/poutil/po.go:65-78 | an upsert into a list without duplicate (context, msgid) pairs leaves none |
| PoFile.UpsertThenGet | internal/poutil/po.go:65-90 | GetC after SetC returns the msgstr just set |
| PoFile.UpsertKeepsOthers | internal/poutil/po.go:65-78 | an upsert leaves the lookup of every other (context, msgid) pair unchanged |
| PoFile.GetC | internal/poutil/po.go:82-90 | the msgstr of the first matching entry, or "" when no entry matches |
| PoFile.IsTranslatedCIff | internal/poutil/po.go:93-96 | translated iff the first matching entry exists and has a non-empty msgstr |
| PoFile.GetEntry | internal/poutil/po.go:100-107 | Some iff some entry matches, and then it is the first matching entry |
| PoFile.GetCViaGetEntry | internal/poutil/po.go:82-107 | GetC is the msgstr of GetEntry's entry, or "" for None |
| PoFile.NoTranslateCommentIff | internal/poutil/po.go:110-126 | a comment marks do-not-translate iff, once trimmed, it starts with `#` and contains "notranslate" (the `#,` branch adds nothing) |
| PoFile.File.SetHeader | internal/poutil/po.go:559-564 | headers become the old map with key set to value; entries and language are unchanged |
| PoFile.GetHeader | internal/poutil/po.go:567-569 | the stored value, or "" for a missing key |
| PoCodec.UnescapeChar | internal/poutil/po.go:344-359 | `\n \t \r` decode to control characters, `\\` and `\"` to themselves, and any other escape keeps its backslash |
| PoCodec.ExtractQuotedValue | internal/poutil/po.go:331-371 | "" when the line has no quote; otherwise the decoding of what follows the first quote |
| PoCodec.DecodeStopsAtQuote | internal/poutil/po.go:361-364 | after any text whose escapes are complete, decoding stops at the first unescaped quote and ignores the rest of the line |
| PoCodec.DecodeDropsDanglingBackslash | internal/poutil/po.go:361-362 | after any text whose escapes are complete, a backslash at the very end of the line is dropped |
| PoCodec.DecodeEscapeEntry | internal/poutil/po.go:520-531 | decoding inverts the entry escaping of `\\`, `"` and tab |
| PoCodec.DecodeEscapeHeader | internal/poutil/po.go:430-441 | decoding inverts the header escaping of `\\`, `"` and newline |
| PoCodec.EscapeEntryAppend | internal/poutil/po.go:520-531 | the entry escaping is character-wise: it distributes over concatenation |
| PoCodec.EscapeHeaderAppend | internal/poutil/po.go:430-441 | the header escaping is character-wise: it distributes over concatenation |
| PoCodec.EscapeEntryNoNewline | internal/poutil/po.go:520-531 | entry escaping introduces no newline |
| PoCodec.EscapeHeaderNoNewline | internal/poutil/po.go:430-441 | header escaping removes every newline |
| PoCodec.QuotedLinesShape | internal/poutil/po.go:504-556 | every line writeQuotedString emits is one quoted line without a newline |
| PoCodec.QuotedLinesRoundTrip | internal/poutil/po.go:504-556 | decoding the emitted lines one by one and concatenating gives back the string, newlines included |
| PoCodec.QuotedLinesFirst | internal/poutil/po.go:505-508 | the first emitted line is `""` exactly when the string is empty |
| PoCodec.WriteQuotedString | internal/poutil/po.go:504-556 | the builder gets the quoted lines joined by newlines |
| PoCodec.AppendEscapedEntry | internal/poutil/po.go:520-531 | the rune loop appends the entry escaping of the string |
| PoCodec.AppendEscapedHeader | internal/poutil/po.go:430-441 | the rune loop appends the header escaping of the string |
| PoParse.HeaderLineRoundTrip | internal/poutil/po.go:384-398 | parseHeaderLine on a `key: value\n` record stores exactly key to value |
| PoParse.ParseHeaderLine | internal/poutil/po.go:384-398 | the headers after one line are HeaderAfterLine of the old ones; nothing else changes |
| PoParse.ParseHeader | internal/poutil/po.go:375-380 | the buffer is split on literal `\n` and every piece is applied in order; nothing else changes |
| PoParse.ParseLine | internal/poutil/po.go:180-305 | one loop iteration updates the parser variables and the file exactly as Step does |
| PoParse.ParseReader | internal/poutil/po.go:167-327 | the document read is Parse of the lines: the loop, then the final save, the buffered header and Language |
| PoParse.RunFromAppend | internal/poutil/po.go:180-305 | reading a + b is reading b from the state reached after a |
| PoParse.ParsedIdsNonEmpty | internal/poutil/po.go:213-219 | no stored entry has an empty msgid |
| PoParse.LeadingCommentsIgnored | internal/poutil/po.go:185-188 | comments before the header leave the parser in its start state |
| PoParse.HeaderMsgidKeepsCurrent | internal/poutil/po.go:224-229 | a `msgid ""` line re-enters header mode and keeps the open entry, the stored entries and the pending comments |
| PoParse.BlankKeepsEmptyIdEntry | internal/poutil/po.go:213 | a blank line neither stores nor drops an open entry whose msgid is empty |
| PoRoundTrip.RunEntries | internal/poutil/po.go:470-498 | reading the serialized entries stores each of them in order, comments attached |
| PoRoundTrip.RunHeaderEntry | internal/poutil/po.go:405-469 | reading the header block rebuilds the header map |
| PoRoundTrip.MarshalParse | internal/poutil/po.go:401-500 | parsing the lines MarshalText writes gives the document back, with Language taken from the "Language" header |
| PoRoundTrip.TextRoundTrip | internal/poutil/po.go:401-500 | the same round trip through the text, split back into lines |
| PoRoundTrip.WriteThenRead | internal/poutil/po.go:167-500 | MarshalText followed by ParseReader yields the same headers and entries, with Language read from the "Language" header |
| PoMarshal.HeaderOrderExact | internal/poutil/po.go:409-467 | every header is written exactly once, standard headers first |
| PoMarshal.PresentKeysMembers | internal/poutil/po.go:423-424 | the standard block holds exactly the standard keys present in the map |
| PoMarshal.MarshalLinesText | internal/poutil/po.go:401-500 | the text is the empty header entry, then the standard headers in fixed order, then the other headers, a blank line and the entries |
| PoMarshal.EntryLinesText | internal/poutil/po.go:472-497 | an entry is its comments, msgctxt when the context is non-empty, msgid, msgstr and a blank line |
| PoMarshal.SplitLinesOfText | internal/poutil/po.go:401-500 | newline-free lines joined with newlines split back into themselves |
| PoMarshal.WriteListedHeaders | internal/poutil/po.go:422-445 | the standard-header loop writes the present standard headers in order and records exactly those as written |
| PoMarshal.MapKeys | internal/poutil/po.go:448 | a duplicate-free listing of the header keys, in an order the model leaves open |
| PoMarshal.UnwrittenMembers | internal/poutil/po.go:448-449 | the remaining-header loop skips exactly the keys already written |
| PoMarshal.WriteOtherHeaders | internal/poutil/po.go:448-467 | the remaining headers are appended in the listing order |
| PoMarshal.AppendEntry | internal/poutil/po.go:472-497 | one iteration of the entry loop appends the entry's text |
| PoMarshal.WriteEntries | internal/poutil/po.go:472-497 | the entry loop appends the text of every entry in order |
| PoMarshal.MarshalText | internal/poutil/po.go:401-500 | the text is TextOf(MarshalLines) for some listing order of the non-standard headers |
| PoHeaders.IgnoresExcluded | internal/poutil/po.go:582-594 | setting PO-Revision-Date, POT-Creation-Date or X-Content-Hash does not change the hash input |
| PoHeaders.ExchangeSort | internal/poutil/po.go:596-602 | the nested swap loops leave the keys sorted and a permutation of the input |
| PoHeaders.CompareSwap | internal/poutil/po.go:597-601 | one inner step keeps the prefix sorted and makes slot i the least seen so far |
| PoHeaders.HashedKeys | internal/poutil/po.go:589-594 | the collected keys are exactly the non-excluded header keys, each once |
| PoHeaders.SortedHashKeys | internal/poutil/po.go:589-602 | the sorted keys are the unique ascending listing, independent of map order |
| PoHeaders.ComputeContentHash | internal/poutil/po.go:574-628 | the digest of Language, the sorted non-excluded headers and every entry's fields and comments |
| PoHeaders.Changed | internal/poutil/po.go:649-658 | the content is unchanged iff the stored hash is non-empty and parses as hex to the new hash |
| PoHeaders.ChangedAfterWrite | internal/poutil/po.go:674 | a hash written as 16 hex digits reads back as unchanged |
| PoHeaders.Stamped | internal/poutil/po.go:638-645 | X-Generator is always set; Project-Id-Version only for a non-empty argument |
| PoHeaders.UpdateBuildHeaders | internal/poutil/po.go:634-676 | the headers become BuildHeaders of the old document; entries and language are unchanged |
| PoHeaders.StampsSet | internal/poutil/po.go:638-645 | X-Generator is "dayz-stringtable " + version, and Project-Id-Version is the argument or is kept |
| PoHeaders.RefreshedKeeps | internal/poutil/po.go:660-675 | the refresh touches no header outside the two dates and the hash |
| PoHeaders.UnchangedKeepsDates | internal/poutil/po.go:652-661 | with an equal stored hash, the dates and the hash header are left alone |
| PoHeaders.ChangedSetsDates | internal/poutil/po.go:661-675 | on change: PO-Revision-Date for a PO; POT-Creation-Date for a POT only without X-CSV-Hash; X-Content-Hash as 16 hex digits |
| PoHeaders.SameHashInput | internal/poutil/po.go:634-676 | the refresh leaves the hash input as it was after stamping |
| PoHeaders.UpdateIdempotent | internal/poutil/po.go:634-676 | a second UpdateBuildHeaders, at any later time, changes nothing |
| Hex.Hex16 | internal/poutil/po.go:674 | `%016x`: 16 lower-case hex digits |
| Hex.DigitsValue | internal/poutil/po.go:674 | the digits written denote the number modulo 16^width |
| Hex.ParseHex16 | internal/poutil/po.go:655 | `Sscanf("%x")` reads a formatted hash back as that hash |
| Hex.Hex16Injective | internal/poutil/po.go:674 | distinct hashes are written differently |
| Lang.DefaultLanguagesDistinct | internal/commands/lang.go:12-26 | 13 pairwise distinct names |
| Lang.ParseLanguages | internal/commands/lang.go:29-34 | "" gives the defaults; otherwise comma-free pieces that join back to the input, empty pieces kept |
| Lang.ExtractLanguageName | internal/commands/lang.go:38-40 | the base name without one trailing ".po", or the base name itself |
| Lang.LastElementAfterSlash | internal/commands/lang.go:39 | the base of dir/name is name |
| Lang.ExtractOfPoFile | internal/commands/lang.go:38-40 | dir/name.po gives name |
| Lang.ContainsLanguage | internal/commands/lang.go:43-50 | true iff the name is in the list, compared exactly |
| LangTables.DeeplTargetLang | internal/translate/deepl_langs.go:10-16 | Ok iff the lower-cased name is a table key, with its non-empty code; otherwise the "unsupported language" error |
| LangTables.GoogleTargetLang | internal/translate/google_langs.go:7-13 | the table code of the lower-cased name, or the name unchanged |
| LangTables.OpenAITargetLang | internal/translate/openai_langs.go:7-13 | the table name of the lower-cased name, or the name unchanged |
| LangTables.CaseInsensitive | internal/translate/deepl_langs.go:11 | names equal up to case resolve alike in all three tables |
| LangTables.TablesCoverDefaults | internal/translate/deepl_langs.go:18-32 | the three tables have the same keys, exactly the default languages |
| LangTables.DefaultsResolve | internal/translate/google_langs.go:16-30 | every default language resolves to its table entry in all three tables |
| LangTables.ChineseVariants | internal/translate/deepl_langs.go:28-29 | DeepL maps chinese and chinesesimp both to ZH; Google keeps zh and zh-CN apart; OpenAI says Simplified Chinese |
| LangTables.CapitalisedRussian | internal/translate/openai_langs.go:19 | "Russian" gives RU, ru and Russian |
| TranslateCmd.RequireCommon | internal/commands/translate.go:138-146 | Ok iff the settings exist and batch > 0, and then they are returned unchanged |
| TranslateCmd.PendingIndices | internal/commands/translate.go:218-227 | exactly the pending entries (empty msgstr, non-empty msgid, no marker), in document order |
| TranslateCmd.CollectPending | internal/commands/translate.go:218-227 | the collecting loop yields PendingIndices |
| TranslateCmd.ApplyEffect | internal/commands/translate.go:253-256 | out[idx] lands in pending[i+idx].msgstr, and nothing else changes |
| TranslateCmd.ApplyKeepsIds | internal/commands/translate.go:253-256 | applying a batch keeps every msgid |
| TranslateCmd.BatchEnd | internal/commands/translate.go:234-237 | a batch is non-empty, at most `batch` long, and full unless it is the last |
| TranslateCmd.BatchOf | internal/commands/translate.go:238-241 | the texts of a batch are its entries' msgids |
| TranslateCmd.TranslateFromEffect | internal/commands/translate.go:233-258 | the count covers exactly the applied batches; all pending entries on success; non-pending entries never change |
| TranslateCmd.OnlyTranslationsChange | internal/commands/translate.go:217-259 | no context, msgid or comment is ever modified |
| TranslateCmd.BatchApplied | internal/commands/translate.go:242-258 | a good response is applied by position, and translation goes on with the next batch |
| TranslateCmd.BatchFailed | internal/commands/translate.go:245-251 | a client error or a wrong-sized response leaves the batch untouched and stops with the count so far |
| TranslateCmd.BatchesIsCeilDiv | internal/commands/translate.go:233 | the number of batches over n entries is ceil(n/batch) |
| TranslateCmd.CallsShape | internal/commands/translate.go:233-252 | every call has 1..batch texts; on success the calls concatenate to the pending msgids and there are ceil(n/batch) of them |
| TranslateCmd.TranslateBatch | internal/commands/translate.go:234-258 | one loop iteration advances TranslateFrom by one batch, or stops exactly as it does |
| TranslateCmd.TranslatePO | internal/commands/translate.go:217-259 | the entries, the count and the failure are those of Translate on the old entries; headers are unchanged |
| TranslateCmd.CountPendingMatches | internal/commands/translate.go:262-277 | the count is the number of pending entries and chars the total rune length of their msgids |
| TranslateCmd.TrimmedParts | internal/commands/translate.go:333-338 | every kept part is non-empty, trimmed and the trim of some piece |
| TranslateCmd.NormalizeLangsNormal | internal/commands/translate.go:330-341 | no result is empty, untrimmed or contains a comma |
| TranslateCmd.NormalizeAppend | internal/commands/translate.go:330-341 | normalisation works item by item and keeps order |
| TranslateCmd.NormalizeIdempotent | internal/commands/translate.go:330-341 | normalising twice is normalising once |
| TranslateCmd.Present | internal/commands/translate.go:353-358 | the defaults present in the directory, in default order, each once |
| TranslateCmd.AllLanguagesOnce | internal/commands/translate.go:344-367 | without a filter, every language of the directory is listed exactly once |
| TranslateCmd.FilterExcluded | internal/commands/translate.go:370-383 | keeps exactly the languages not excluded |
| TranslateCmd.FilterAppend | internal/commands/translate.go:370-383 | the filter keeps relative order |
| TranslateCmd.FirstMissing | internal/commands/translate.go:318-322 | None iff every requested language has a file; otherwise the first requested language without one |
| TranslateCmd.SelectLangsSpec | internal/commands/translate.go:309-327 | error iff a requested language has no file; otherwise only present, non-excluded languages, and the requested order when there is a filter |
| CleanCmd.CheckOptions | internal/commands/clean.go:28-30 | an error iff remove-unused is set without an input |
| CleanCmd.RowKeysIff | internal/commands/clean.go:44-54 | a key is valid iff some data row with two columns gives row0\|row1 |
| CleanCmd.BuildValidKeys | internal/commands/clean.go:39-54 | fewer than two rows is an error; otherwise the keys of the data rows |
| CleanCmd.KeyAmbiguous | internal/commands/clean.go:52 | ("a\|b", "c") and ("a", "b\|c") give the same key |
| CleanCmd.ScanComments | internal/commands/clean.go:125-131 | finds a comment containing "notranslate" iff there is one |
| CleanCmd.Cleared | internal/commands/clean.go:119-136 | a copy loses its msgstr and is marked unless clear-only; context and msgid stay; other entries are unchanged |
| CleanCmd.ClearCopies | internal/commands/clean.go:117-138 | the first pass clears every copy and counts them; headers are unchanged |
| CleanCmd.CopyCountZero | internal/commands/clean.go:117-138 | nothing is counted iff no entry is a copy |
| CleanCmd.NoCopyNoChange | internal/commands/clean.go:117-138 | with no copies the first pass changes nothing |
| CleanCmd.MarkedIsNoTranslate | internal/commands/clean.go:132-135 | the prepended comment makes the entry do-not-translate |
| CleanCmd.Used | internal/commands/clean.go:141-152 | keeps exactly the entries whose key is valid, in order |
| CleanCmd.UsedAll | internal/commands/clean.go:141-152 | the filter keeps everything iff every key is valid |
| CleanCmd.UsedIdempotent | internal/commands/clean.go:141-152 | filtering twice is filtering once |
| CleanCmd.UsedDropsUnused | internal/commands/clean.go:141-152 | `removed` is the number of entries dropped |
| CleanCmd.DropUnused | internal/commands/clean.go:141-152 | the second pass replaces the entries with the used ones and counts the rest |
| CleanCmd.RunPasses | internal/commands/clean.go:117-152 | both passes, with their counters |
| CleanCmd.NothingCounted | internal/commands/clean.go:154-156 | zero counts mean the passes left the entries unchanged |
| CleanCmd.CleanPOFile | internal/commands/clean.go:105-172 | with zero counts the document is untouched; otherwise cleaned entries and rebuilt headers |
| CleanCmd.SecondRunNoOp | internal/commands/clean.go:154-156 | a second run counts nothing, so it rewrites nothing |
| CleanCmd.Listing | internal/commands/clean.go:184-186 | lists every language of the set once |
| CleanCmd.OrderLangs | internal/commands/clean.go:175-189 | the strictly sorted union of both maps' keys |
| Order.StrictlySortedUnique | internal/commands/clean.go:187 | a set has exactly one strictly sorted listing |
| StatsCmd.SelectLanguages | internal/commands/stats.go:101-114 | error iff a requested language is absent; otherwise the request unchanged; with none, every language once |
| StatsCmd.GetSortedLangs | internal/commands/stats.go:324-337 | the defaults present, in default order, then the others, each once |
| StatsCmd.ScanSound | internal/commands/stats.go:299-320 | a non-zero result is the line number of a msgctxt or quoted line holding the key |
| StatsCmd.ScanFindsDirect | internal/commands/stats.go:303-306 | a msgctxt line with `"key"` is found, at or before it |
| StatsCmd.FindMsgctxtLine | internal/commands/stats.go:284-321 | 0 or the 1-based number of a matching line, never after the first direct match |
| StatsCmd.CheckDone | internal/commands/stats.go:167-180 | translated iff GetC is non-empty, or clear-only is off and the entry carries the marker |
| StatsCmd.NoDocumentNothingDone | internal/commands/stats.go:168 | without a PO file no row is translated |
| StatsCmd.ClearOnlyCountsLess | internal/commands/stats.go:172-179 | clear-only never counts more rows as translated |
| StatsCmd.CleanedCopyIsDone | internal/commands/stats.go:172-179 | an entry the cleaner marked counts as translated |
| StatsCmd.CountRow | internal/commands/stats.go:158-198 | one row bumps Translated or Remaining, and adds an item only in verbose mode |
| StatsCmd.Untranslated | internal/commands/stats.go:186-197 | one item per remaining row, in row order, with Row = data index + 2 |
| StatsCmd.PendingRowsCount | internal/commands/stats.go:184-197 | there are as many items as remaining rows |
| StatsCmd.CountsAddUp | internal/commands/stats.go:157-199 | translated + remaining = rows with two columns, at most all rows |
| StatsCmd.StatsCount | internal/commands/stats.go:147-199 | Total = rows - 1; Translated + Remaining <= Total, equal when every row is wide; items only in verbose mode |
| StatsCmd.CalculateLangStats | internal/commands/stats.go:150-199 | the row loop computes StatsFor |
| StatsCmd.CalculateStats | internal/commands/stats.go:145-209 | one entry per selected language, each StatsFor that language |
| CsvLoad.ValidateRows | internal/csvutil/csv.go:30-43 | Ok with the rows unchanged iff data keys are distinct; otherwise the first clash, reported as (key, i+2, j+3) |
| CsvLoad.AdjacentDuplicateReport | internal/utils/csv.go:24-34 | two adjacent rows with key a are reported at rows 3 and 3 |
| PotCmd.CsvHashChanged | internal/commands/pot.go:70-79 | unchanged iff the existing POT has an X-CSV-Hash that parses as hex to the new hash |
| PotCmd.Finished | internal/commands/pot.go:84-91 | POT-Creation-Date is set when changed; X-CSV-Hash is always written last as 16 hex digits; the rest is kept |
| PotCmd.CopyHeaders | internal/commands/pot.go:54-58 | every header of the existing POT is copied into the new document |
| PotCmd.AddRows | internal/commands/pot.go:62-67 | the entries are SetC(row0, row1, "") for each wide data row, in CSV order |
| PotCmd.UpsertsTemplate | internal/commands/pot.go:62-67 | every entry comes from a row, is untranslated and comment-less, and every wide row has its entry |
| PotCmd.UpsertsInOrder | internal/commands/pot.go:62-67 | with distinct keys, one entry per wide row in CSV order |
| PotCmd.GeneratePot | internal/commands/pot.go:30-91 | fewer than two rows is an error; otherwise a fresh POT with those entries and PotHeaders |
| PotCmd.CsvHashReadsBack | internal/commands/pot.go:91 | the written hash reads back as the same hash, so an unchanged CSV is recognised |
| PotCmd.CreationDate | internal/commands/pot.go:82-88 | POT-Creation-Date is now when the CSV changed, otherwise the existing one |
| PotCmd.KeepsOtherHeaders | internal/commands/pot.go:54-58 | carried-over headers other than those rules touch survive |
| MakeCmd.ReadEscaped | internal/commands/make.go:67-68 | undoubling the quotes of an escaped field recovers it |
| MakeCmd.ReadRowText | internal/commands/make.go:65-71 | a written row reads back as its fields, with each trailing comma read as a field terminator |
| MakeCmd.ReadTableText | internal/commands/make.go:65-71 | written rows read back as the table, with each trailing comma read as a field terminator |
| MakeCmd.WriteQuotedRow | internal/commands/make.go:65-71 | each field quoted with quotes doubled and a trailing comma, then a newline |
| MakeCmd.LanguageColumns | internal/commands/make.go:34-39 | the defaults present, in default order |
| MakeCmd.PresentKeepsOrder | internal/commands/make.go:34-39 | the columns keep the default order |
| MakeCmd.PresentIgnoresOthers | internal/commands/make.go:34-39 | languages outside the defaults do not affect the columns |
| MakeCmd.BuildRecord | internal/commands/make.go:51-54 | row0, row1, then GetC for every column |
| MakeCmd.RecordsDescribeRows | internal/commands/make.go:47-56 | one record per wide data row, each 2 + columns long with the GetC values |
| MakeCmd.UntranslatedMergesEmpty | internal/commands/make.go:53 | a missing or untranslated entry gives "" |
| MakeCmd.MergedReadsBack | internal/commands/make.go:42-56 | the merged CSV reads back as the header row followed by the records, with each trailing comma read as a field terminator |
| MakeCmd.Make | internal/commands/make.go:22-56 | an error iff loading fails; otherwise the merged CSV text |

## Left out

- xxhash is a function parameter. Only the string it digests is modelled (`HashInput`), and the CSV-file hash of `ComputeCSVHash` is passed in as a number.
- The current time and the build version are parameters (`now`, `buildNow`, `creationNow`, `version`). The date format is not modelled.
- Go map iteration order is left open:
  - The non-standard headers follow an `order` that `MarshalText` chooses and returns as a ghost value.
  - The language listings take a `rest` parameter that lists the remaining keys once each.
- bufio.Scanner: `ParseReader` reads a sequence of lines. The 64 KiB line limit and the CR stripping are not modelled, and neither is a read error. The round trip therefore excludes comments that end in a carriage return.
- MakeCmd.MergedReadsBack: the read-back uses the model's own CSV reader, which takes each trailing comma as a terminator; encoding/csv would read one extra empty last field per record.
- Entries are values in a sequence. Aliasing of `*Entry` pointers (for example `translatePO` writing through `pending`) is modelled by writing at stored positions.
- Strings are sequences of characters. Invalid UTF-8 and its replacement are not modelled. `strings.ToLower` is modelled only for runes whose lower case is ASCII.
- The translation clients (DeepL, Google and OpenAI HTTP code and JSON parsing) are an oracle from a request to a list of strings or a failure. The context argument is dropped.
- Floating-point percentages, the text and JSON output of stats, and all printing are not modelled.
- File handling is left out, because it is I/O: ParseFile, LoadPODirectory, listPOFiles, writePO, WriteFile, os.Stat, glob, and the loops over files in each Execute. The CSV reader is left out too; the records are given.
- `filepath.Base` is modelled for '/' separators only.
- An empty CSV makes `rows[1:]` panic in Go. The model reports it as the error `NoRows`.
- TranslateCmd.TranslatePO requires batch > 0, because the loop `i += batch` never ends otherwise, and requireCommon rejects batch <= 0 first.
- StatsCmd.CalculateLangStats requires at least one row, because `rows[1:]` panics otherwise, and Execute rejects fewer than two rows first.
- Stats verbose items carry the PO line number from `findMsgctxtLine` over the file's lines, which are given. The file name is modelled as its last path element.
- update.go and pos.go are not part of this model: they wrap an external gettext library.
- The CLI entry points and internal/vars are not part of this model.
