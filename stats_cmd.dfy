/** The stats command (internal/commands/stats.go): per language, how many
    CSV rows have a translation, which do not and where their key sits in
    the PO file, plus the language selection and listing order. */
module StatsCmd {
  import opened Text
  import opened Wrappers
  import opened Order
  import opened PoFile
  import opened Lang
  import TranslateCmd
  import CleanCmd
  import CsvLoad

  /** One untranslated row as reported in verbose mode. */
  datatype Item = Item(key: string, original: string, context: string, poFile: string,
                       row: nat, poLine: nat)

  /** The counters of one language; the percentage is not modelled. */
  datatype LangStats = LangStats(language: string, untranslated: seq<Item>,
                                 translated: nat, total: nat, remaining: nat)

  /** selectLanguages: the requested languages, unchanged, if each has a PO
      file, else an error naming the first that has none; without a request,
      the default languages that have a file, then the others in map order
      (`rest`). */
  function SelectLanguages(requested: seq<string>, poMap: map<string, Document>, rest: seq<string>)
    : (r: Result<seq<string>, string>)
    requires TranslateCmd.IsRestListing(poMap, rest)
    ensures |requested| > 0 ==> (r.Err? <==> exists l :: l in requested && l !in poMap)
    ensures |requested| > 0 && r.Ok? ==> r.value == requested
    ensures |requested| == 0 ==> r.Ok? && Distinct(r.value) && forall l :: l in r.value <==> l in poMap
  {
    if |requested| > 0 then
      match TranslateCmd.FirstMissing(requested, poMap)
      case Some(lang) => Err("language '" + lang + "' not found in PO directory")
      case None => Ok(requested)
    else
      TranslateCmd.AllLanguagesOnce(poMap, rest);
      Ok(TranslateCmd.SelectLangsInOrder(poMap, [], rest))
  }

  /** getSortedLangs: the default languages that have statistics, in
      default order, then every other one in map order; each once. */
  function GetSortedLangs(allStats: map<string, LangStats>, rest: seq<string>): (r: seq<string>)
    requires TranslateCmd.IsRestListing(allStats, rest)
    ensures Distinct(r) && forall l :: l in r <==> l in allStats
    ensures |TranslateCmd.Present(DefaultLanguages, allStats)| <= |r|
    ensures r[..|TranslateCmd.Present(DefaultLanguages, allStats)|]
            == TranslateCmd.Present(DefaultLanguages, allStats)
    ensures forall k :: |TranslateCmd.Present(DefaultLanguages, allStats)| <= k < |r| ==>
              r[k] !in DefaultLanguages
  {
    TranslateCmd.AllLanguagesOnce(allStats, rest);
    var r := TranslateCmd.SelectLangsInOrder(allStats, [], rest);
    assert r == TranslateCmd.Present(DefaultLanguages, allStats) + rest;
    r
  }

  // ---------------------------------------------------------------------
  // Locating a key in the PO file text

  function Quoted(key: string): string {
    "\"" + key + "\""
  }

  /** How the look-up sees one line of the PO file, trimmed. */
  datatype LineKind =
    | ContextWithKey   // a `msgctxt ` line containing the quoted key
    | OtherContext     // any other `msgctxt ` line
    | QuotedWithKey    // a line opening with a quote and containing the key
    | IdLine           // a `msgid ` line
    | OtherLine

  function KindOf(line: string, key: string): LineKind {
    var t := TrimSpace(line);
    if HasPrefix(t, "msgctxt ") then
      if Contains(t, Quoted(key)) then ContextWithKey else OtherContext
    else if HasPrefix(t, "\"") && Contains(t, key) then QuotedWithKey
    else if HasPrefix(t, "msgid ") then IdLine
    else OtherLine
  }

  /** The kind of every line. */
  function Kinds(lines: seq<string>, key: string): (kinds: seq<LineKind>)
    ensures |kinds| == |lines|
    ensures forall i :: 0 <= i < |lines| ==> kinds[i] == KindOf(lines[i], key)
  {
    seq(|lines|, i requires 0 <= i < |lines| => KindOf(lines[i], key))
  }

  /** The scan from line index `i` on, with `looking` set after a msgctxt
      line that did not carry the key: the 1-based number of the line
      found, or 0. A quoted line only counts while looking, and a msgid
      line ends the look-ahead. */
  function Scan(kinds: seq<LineKind>, i: nat, looking: bool): nat
    decreases |kinds| - i
  {
    if i >= |kinds| then 0
    else match kinds[i]
      case ContextWithKey => i + 1
      case OtherContext => Scan(kinds, i + 1, true)
      case QuotedWithKey => if looking then i + 1 else Scan(kinds, i + 1, false)
      case IdLine => Scan(kinds, i + 1, false)
      case OtherLine => Scan(kinds, i + 1, looking)
  }

  /** A non-zero answer names a line after `i` that carries the key: a
      msgctxt line with the quoted key, or a quoted line. */
  lemma {:induction false} ScanSound(kinds: seq<LineKind>, i: nat, looking: bool)
    ensures var r := Scan(kinds, i, looking);
      r == 0 || (i < r <= |kinds| && (kinds[r - 1] == ContextWithKey || kinds[r - 1] == QuotedWithKey))
    decreases |kinds| - i
  {
    if i < |kinds| {
      ScanSound(kinds, i + 1, true);
      ScanSound(kinds, i + 1, false);
    }
  }

  /** The scan never passes a msgctxt line that carries the key. */
  lemma {:induction false} ScanFindsDirect(kinds: seq<LineKind>, i: nat, looking: bool, k: nat)
    requires i <= k < |kinds| && kinds[k] == ContextWithKey
    ensures 0 < Scan(kinds, i, looking) <= k + 1
    decreases k - i
  {
    if i < k {
      ScanFindsDirect(kinds, i + 1, true, k);
      ScanFindsDirect(kinds, i + 1, false, k);
    }
  }

  /** findMsgctxtLine over the lines of a readable PO file. */
  function MsgctxtLine(lines: seq<string>, key: string): nat {
    Scan(Kinds(lines, key), 0, false)
  }

  /** The loop of findMsgctxtLine: the line counter and the look-ahead flag
      are the scan's state. */
  method FindMsgctxtLine(lines: seq<string>, key: string) returns (n: nat)
    ensures n == MsgctxtLine(lines, key)
    ensures n == 0 || (n <= |lines| && KindOf(lines[n - 1], key) in {ContextWithKey, QuotedWithKey})
    ensures forall k :: 0 <= k < |lines| && KindOf(lines[k], key) == ContextWithKey ==> 0 < n <= k + 1
  {
    ghost var kinds := Kinds(lines, key);
    ScanSound(kinds, 0, false);
    forall k | 0 <= k < |lines| && KindOf(lines[k], key) == ContextWithKey
      ensures 0 < MsgctxtLine(lines, key) <= k + 1
    {
      ScanFindsDirect(kinds, 0, false, k);
    }
    var lineNum := 0;
    var looking := false;
    while lineNum < |lines|
      invariant 0 <= lineNum <= |lines|
      invariant Scan(kinds, lineNum, looking) == MsgctxtLine(lines, key)
    {
      var line := TrimSpace(lines[lineNum]);
      ghost var kind := KindOf(lines[lineNum], key);
      assert kinds[lineNum] == kind;
      lineNum := lineNum + 1;
      if HasPrefix(line, "msgctxt ") {
        if Contains(line, "\"" + key + "\"") {
          return lineNum;
        }
        looking := true;
      } else if looking {
        if HasPrefix(line, "\"") && Contains(line, key) {
          return lineNum;
        }
        if HasPrefix(line, "msgid ") {
          looking := false;
        }
      } else {
        assert kind != ContextWithKey && kind != OtherContext;
      }
    }
    return 0;
  }

  /** The line number an item reports: 0 without a file path or when the
      file cannot be read (`lines` is None). */
  function PoLine(poFile: string, lines: Option<seq<string>>, key: string): nat {
    if poFile == "" then 0
    else match lines
      case None => 0
      case Some(ls) => MsgctxtLine(ls, key)
  }

  // ---------------------------------------------------------------------
  // Counting

  /** Whether a key counts as done: translated, or, unless clearOnly, marked
      notranslate. A language without a PO document has nothing done. */
  predicate IsDone(po: Option<Document>, key: string, original: string, clearOnly: bool) {
    po.Some? &&
    (IsTranslatedC(po.value.entries, key, original)
     || (!clearOnly && GetEntry(po.value.entries, key, original).Some?
         && HasNoTranslate(GetEntry(po.value.entries, key, original).value)))
  }

  /** The done test of one language, as a function of (key, original). */
  function DoneTest(po: Option<Document>, clearOnly: bool): (string, string) -> bool {
    (key: string, original: string) => IsDone(po, key, original, clearOnly)
  }

  /** A data row that counts as remaining. */
  predicate IsPendingRow(row: seq<string>, done: (string, string) -> bool) {
    CsvLoad.Wide(row) && !done(row[0], row[1])
  }

  function DoneCount(data: seq<seq<string>>, done: (string, string) -> bool): nat {
    if data == [] then 0
    else
      var row := data[|data| - 1];
      DoneCount(data[..|data| - 1], done) + (if CsvLoad.Wide(row) && done(row[0], row[1]) then 1 else 0)
  }

  function PendingCount(data: seq<seq<string>>, done: (string, string) -> bool): nat {
    if data == [] then 0
    else PendingCount(data[..|data| - 1], done) + (if IsPendingRow(data[|data| - 1], done) then 1 else 0)
  }

  function WideCount(data: seq<seq<string>>): nat {
    if data == [] then 0
    else WideCount(data[..|data| - 1]) + (if CsvLoad.Wide(data[|data| - 1]) then 1 else 0)
  }

  /** The report of one untranslated row; `i` is its index among the data
      rows, so the row number counts the header and starts at 1. */
  function ItemOf(row: seq<string>, i: nat, poFile: string, lines: Option<seq<string>>): Item
    requires CsvLoad.Wide(row)
  {
    Item(row[0], row[1], row[0], Base(poFile), i + 2, PoLine(poFile, lines, row[0]))
  }

  /** The indices of the remaining rows, in order. */
  function PendingRows(data: seq<seq<string>>, done: (string, string) -> bool): (r: seq<nat>)
    ensures forall j :: 0 <= j < |r| ==> r[j] < |data| && IsPendingRow(data[r[j]], done)
    ensures forall j, j' :: 0 <= j < j' < |r| ==> r[j] < r[j']
  {
    if data == [] then []
    else
      var n := |data| - 1;
      var init := PendingRows(data[..n], done);
      assert forall j :: 0 <= j < |init| ==> data[init[j]] == data[..n][init[j]];
      if IsPendingRow(data[n], done) then init + [n] else init
  }

  /** The verbose list: one item per remaining row, in row order, each
      with the row's 1-based CSV number (the header is row 1), key and
      text. */
  function Untranslated(data: seq<seq<string>>, done: (string, string) -> bool,
                        poFile: string, lines: Option<seq<string>>): (items: seq<Item>)
    ensures |items| == |PendingRows(data, done)|
    ensures forall j :: 0 <= j < |items| ==>
      2 <= items[j].row <= |data| + 1
      && IsPendingRow(data[items[j].row - 2], done)
      && items[j] == ItemOf(data[items[j].row - 2], items[j].row - 2, poFile, lines)
    ensures forall j, j' :: 0 <= j < j' < |items| ==> items[j].row < items[j'].row
  {
    var idx := PendingRows(data, done);
    seq(|idx|, j requires 0 <= j < |idx| => ItemOf(data[idx[j]], idx[j], poFile, lines))
  }

  /** One more row adds at most its own item at the end. */
  lemma UntranslatedSnoc(data: seq<seq<string>>, done: (string, string) -> bool,
                         poFile: string, lines: Option<seq<string>>)
    requires data != []
    ensures var n := |data| - 1;
      Untranslated(data, done, poFile, lines)
      == Untranslated(data[..n], done, poFile, lines)
         + (if IsPendingRow(data[n], done) then [ItemOf(data[n], n, poFile, lines)] else [])
  {
    var n := |data| - 1;
    var idx0 := PendingRows(data[..n], done);
    var a := Untranslated(data, done, poFile, lines);
    var b := Untranslated(data[..n], done, poFile, lines)
         + (if IsPendingRow(data[n], done) then [ItemOf(data[n], n, poFile, lines)] else []);
    assert |a| == |b|;
    forall j | 0 <= j < |a| ensures a[j] == b[j] {
      if j < |idx0| {
        assert data[idx0[j]] == data[..n][idx0[j]];
      }
    }
  }

  /** The counters after one more row. */
  lemma CountsSnoc(data: seq<seq<string>>, i: nat, done: (string, string) -> bool)
    requires i < |data|
    ensures DoneCount(data[..i + 1], done)
      == DoneCount(data[..i], done) + (if CsvLoad.Wide(data[i]) && done(data[i][0], data[i][1]) then 1 else 0)
    ensures PendingCount(data[..i + 1], done)
      == PendingCount(data[..i], done) + (if IsPendingRow(data[i], done) then 1 else 0)
  {
    assert data[..i + 1][..i] == data[..i];
  }

  /** There is one index per remaining row. */
  lemma {:induction false} PendingRowsCount(data: seq<seq<string>>, done: (string, string) -> bool)
    ensures |PendingRows(data, done)| == PendingCount(data, done)
  {
    if data != [] {
      PendingRowsCount(data[..|data| - 1], done);
    }
  }

  /** The statistics of one language as calculateStats fills them in. */
  function StatsFor(rows: seq<seq<string>>, lang: string, po: Option<Document>, poFile: string,
                    lines: Option<seq<string>>, clearOnly: bool, verbose: bool): LangStats
    requires |rows| >= 1
  {
    var data := rows[1..];
    var done := DoneTest(po, clearOnly);
    LangStats(lang, if verbose then Untranslated(data, done, poFile, lines) else [],
              DoneCount(data, done), |rows| - 1, PendingCount(data, done))
  }

  /** Every row with two columns is counted once, either way. */
  lemma {:induction false} CountsAddUp(data: seq<seq<string>>, done: (string, string) -> bool)
    ensures DoneCount(data, done) + PendingCount(data, done) == WideCount(data)
    ensures WideCount(data) <= |data|
    ensures WideCount(data) == |data| <==> forall i :: 0 <= i < |data| ==> CsvLoad.Wide(data[i])
  {
    if data != [] {
      var init := data[..|data| - 1];
      CountsAddUp(init, done);
      assert forall i :: 0 <= i < |init| ==> init[i] == data[i];
    }
  }

  /** The counters agree with the rows: Total is the number of data rows,
      Translated and Remaining never exceed it and fill it when every row
      has two columns, and in verbose mode every remaining row is listed. */
  lemma StatsCount(rows: seq<seq<string>>, lang: string, po: Option<Document>, poFile: string,
                   lines: Option<seq<string>>, clearOnly: bool, verbose: bool)
    requires |rows| >= 1
    ensures var s := StatsFor(rows, lang, po, poFile, lines, clearOnly, verbose);
      && s.total == |rows| - 1
      && s.translated + s.remaining <= s.total
      && ((forall i :: 1 <= i < |rows| ==> CsvLoad.Wide(rows[i])) ==> s.translated + s.remaining == s.total)
      && (verbose ==> |s.untranslated| == s.remaining)
      && (!verbose ==> s.untranslated == [])
  {
    var data := rows[1..];
    var done := DoneTest(po, clearOnly);
    CountsAddUp(data, done);
    PendingRowsCount(data, done);
    if forall i :: 1 <= i < |rows| ==> CsvLoad.Wide(rows[i]) {
      assert forall i :: 0 <= i < |data| ==> data[i] == rows[i + 1];
    }
  }

  /** A weaker done test counts fewer rows as done. */
  lemma {:induction false} DoneCountMonotone(data: seq<seq<string>>, d1: (string, string) -> bool,
                                             d2: (string, string) -> bool)
    requires forall k, o :: d1(k, o) ==> d2(k, o)
    ensures DoneCount(data, d1) <= DoneCount(data, d2)
  {
    if data != [] {
      DoneCountMonotone(data[..|data| - 1], d1, d2);
    }
  }

  /** Without a PO document nothing is translated. */
  lemma NoDocumentNothingDone(data: seq<seq<string>>, clearOnly: bool)
    ensures DoneCount(data, DoneTest(None, clearOnly)) == 0
  {
    DoneCountMonotone(data, DoneTest(None, clearOnly), (k: string, o: string) => false);
    NothingDoneCountsZero(data);
  }

  lemma {:induction false} NothingDoneCountsZero(data: seq<seq<string>>)
    ensures DoneCount(data, (k: string, o: string) => false) == 0
  {
    if data != [] {
      NothingDoneCountsZero(data[..|data| - 1]);
    }
  }

  /** --clear-only can only lower the translated count. */
  lemma ClearOnlyCountsLess(data: seq<seq<string>>, po: Option<Document>)
    ensures DoneCount(data, DoneTest(po, true)) <= DoneCount(data, DoneTest(po, false))
  {
    DoneCountMonotone(data, DoneTest(po, true), DoneTest(po, false));
  }

  /** An entry the clean command cleared and marked counts as done when
      --clear-only is off. */
  lemma CleanedCopyIsDone(doc: Document, k: nat, e: Entry)
    requires FirstMatch(doc.entries, e.context, e.msgId, k)
    requires CleanCmd.IsCopy(e) && !CleanCmd.MentionsNoTranslate(e.comments)
    requires doc.entries[k] == CleanCmd.Cleared(e, false)
    ensures IsDone(Some(doc), e.context, e.msgId, false)
  {
    FirstMatchIsFindIndex(doc.entries, e.context, e.msgId, k);
    CleanCmd.MarkedIsNoTranslate(e);
  }

  /** The translated test of one row, as calculateStats makes it. */
  method CheckDone(po: Option<Document>, key: string, original: string, clearOnly: bool)
    returns (isTranslated: bool)
    ensures isTranslated == DoneTest(po, clearOnly)(key, original)
  {
    isTranslated := false;
    if po.Some? {
      if IsTranslatedC(po.value.entries, key, original) {
        isTranslated := true;
      } else if !clearOnly {
        var entry := GetEntry(po.value.entries, key, original);
        if entry.Some? && HasNoTranslate(entry.value) {
          isTranslated := true;
        }
      }
    }
  }

  /** The verbose report of one remaining row. */
  method MakeItem(row: seq<string>, i: nat, poFile: string, lines: Option<seq<string>>)
    returns (item: Item)
    requires CsvLoad.Wide(row)
    ensures item == ItemOf(row, i, poFile, lines)
  {
    var poLine := 0;
    if poFile != "" && lines.Some? {
      poLine := FindMsgctxtLine(lines.value, row[0]);
    }
    item := Item(row[0], row[1], row[0], Base(poFile), i + 2, poLine);
  }

  /** calculateStats's work on the data row at index `i`. */
  method CountRow(s: LangStats, row: seq<string>, i: nat, po: Option<Document>, poFile: string,
                  lines: Option<seq<string>>, clearOnly: bool, verbose: bool)
    returns (t: LangStats)
    ensures t.language == s.language && t.total == s.total
    ensures var done := DoneTest(po, clearOnly);
      && t.translated == s.translated + (if CsvLoad.Wide(row) && done(row[0], row[1]) then 1 else 0)
      && t.remaining == s.remaining + (if IsPendingRow(row, done) then 1 else 0)
      && t.untranslated == s.untranslated
           + (if verbose && IsPendingRow(row, done) then [ItemOf(row, i, poFile, lines)] else [])
  {
    t := s;
    if |row| >= 2 {
      var isTranslated := CheckDone(po, row[0], row[1], clearOnly);
      if isTranslated {
        t := t.(translated := t.translated + 1);
      } else {
        t := t.(remaining := t.remaining + 1);
        if verbose {
          var item := MakeItem(row, i, poFile, lines);
          t := t.(untranslated := t.untranslated + [item]);
        }
      }
    }
  }

  /** The counters hold the statistics of the rows `data`. */
  predicate Counted(s: LangStats, data: seq<seq<string>>, done: (string, string) -> bool,
                    poFile: string, lines: Option<seq<string>>, verbose: bool)
  {
    && s.translated == DoneCount(data, done)
    && s.remaining == PendingCount(data, done)
    && s.untranslated == if verbose then Untranslated(data, done, poFile, lines) else []
  }

  /** One loop step: counting row `i` extends the counted prefix by it. */
  method CountNext(s: LangStats, data: seq<seq<string>>, i: nat, po: Option<Document>, poFile: string,
                   lines: Option<seq<string>>, clearOnly: bool, verbose: bool)
    returns (t: LangStats)
    requires i < |data|
    requires Counted(s, data[..i], DoneTest(po, clearOnly), poFile, lines, verbose)
    ensures Counted(t, data[..i + 1], DoneTest(po, clearOnly), poFile, lines, verbose)
    ensures t.language == s.language && t.total == s.total
  {
    ghost var done := DoneTest(po, clearOnly);
    CountsSnoc(data, i, done);
    assert data[..i + 1][..i] == data[..i];
    UntranslatedSnoc(data[..i + 1], done, poFile, lines);
    t := CountRow(s, data[i], i, po, poFile, lines, clearOnly, verbose);
  }

  /** One language's pass over the rows, as calculateStats runs it. */
  method CalculateLangStats(rows: seq<seq<string>>, lang: string, po: Option<Document>, poFile: string,
                            lines: Option<seq<string>>, clearOnly: bool, verbose: bool)
    returns (s: LangStats)
    requires |rows| >= 1
    ensures s == StatsFor(rows, lang, po, poFile, lines, clearOnly, verbose)
  {
    var data := rows[1..];
    s := LangStats(lang, [], 0, |rows| - 1, 0);
    assert data[..0] == [];
    var i := 0;
    while i < |data|
      invariant 0 <= i <= |data|
      invariant s.language == lang && s.total == |rows| - 1
      invariant Counted(s, data[..i], DoneTest(po, clearOnly), poFile, lines, verbose)
    {
      s := CountNext(s, data, i, po, poFile, lines, clearOnly, verbose);
      i := i + 1;
    }
    assert data[..i] == data;
  }

  /** The document of a language, or None (Go's nil) when it has none. */
  function DocumentOf(poMap: map<string, Document>, lang: string): Option<Document> {
    if lang in poMap then Some(poMap[lang]) else None
  }

  /** The lines of the file at a path, or None when it cannot be read. */
  function LinesOf(files: map<string, seq<string>>, path: string): Option<seq<string>> {
    if path in files then Some(files[path]) else None
  }

  /** The statistics calculateStats stores for a language. */
  function StatsOfLang(rows: seq<seq<string>>, lang: string, poMap: map<string, Document>,
                       poFileMap: map<string, string>, files: map<string, seq<string>>,
                       clearOnly: bool, verbose: bool): LangStats
    requires |rows| >= 1
  {
    var poFile := GetHeader(poFileMap, lang);
    StatsFor(rows, lang, DocumentOf(poMap, lang), poFile, LinesOf(files, poFile), clearOnly, verbose)
  }

  /** calculateStats: one entry per selected language. The file contents
      that findMsgctxtLine reads are given as `files`, path to lines. */
  method CalculateStats(rows: seq<seq<string>>, langs: seq<string>, poMap: map<string, Document>,
                        poFileMap: map<string, string>, files: map<string, seq<string>>,
                        clearOnly: bool, verbose: bool)
    returns (allStats: map<string, LangStats>)
    requires |rows| >= 1
    ensures forall l :: l in allStats <==> l in langs
    ensures forall l :: l in allStats ==>
      allStats[l] == StatsOfLang(rows, l, poMap, poFileMap, files, clearOnly, verbose)
  {
    allStats := map[];
    for k := 0 to |langs|
      invariant forall l :: l in allStats <==> l in langs[..k]
      invariant forall l :: l in allStats ==>
        allStats[l] == StatsOfLang(rows, l, poMap, poFileMap, files, clearOnly, verbose)
    {
      var lang := langs[k];
      var po := DocumentOf(poMap, lang);
      var poFile := GetHeader(poFileMap, lang);
      var stats := CalculateLangStats(rows, lang, po, poFile, LinesOf(files, poFile), clearOnly, verbose);
      allStats := allStats[lang := stats];
      assert langs[..k + 1] == langs[..k] + [lang];
    }
    assert langs[..|langs|] == langs;
  }
}
