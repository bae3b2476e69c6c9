/** The make command (internal/commands/make.go): merge the PO
    translations back into one CSV table, every field quoted with doubled
    inner quotes and followed by a comma. */
module MakeCmd {
  import opened Text
  import opened Wrappers
  import opened PoFile
  import opened Lang
  import CsvLoad
  import TranslateCmd

  // ---- Field quoting ----

  /** strings.ReplaceAll(f, `"`, `""`). */
  function Escape(f: string): string {
    ReplaceChar(f, '"', "\"\"")
  }

  /** One field as written: opening quote, escaped text, closing quote and
      comma. */
  function FieldText(f: string): string {
    "\"" + Escape(f) + "\","
  }

  /** The fields in order. */
  function FieldsText(fields: seq<string>): string {
    if fields == [] then ""
    else FieldsText(fields[..|fields| - 1]) + FieldText(fields[|fields| - 1])
  }

  /** What writeQuotedCSVRow adds to the builder: the fields, then '\n'. */
  function RowText(fields: seq<string>): string {
    FieldsText(fields) + "\n"
  }

  /** The rows one after another. */
  function TableText(table: seq<seq<string>>): string {
    if table == [] then ""
    else TableText(table[..|table| - 1]) + RowText(table[|table| - 1])
  }

  lemma {:induction false} FieldsTextCons(fields: seq<string>)
    requires fields != []
    ensures FieldsText(fields) == FieldText(fields[0]) + FieldsText(fields[1..])
  {
    var n := |fields| - 1;
    if n > 0 {
      var init := fields[..n];
      FieldsTextCons(init);
      assert init[1..] == fields[1..][..n - 1];
      assert init[0] == fields[0] && fields[1..][n - 1] == fields[n];
    } else {
      assert fields[1..] == [];
    }
  }

  lemma {:induction false} TableTextCons(table: seq<seq<string>>)
    requires table != []
    ensures TableText(table) == RowText(table[0]) + TableText(table[1..])
  {
    var n := |table| - 1;
    if n > 0 {
      var init := table[..n];
      TableTextCons(init);
      assert init[1..] == table[1..][..n - 1];
      assert init[0] == table[0] && table[1..][n - 1] == table[n];
    } else {
      assert table[1..] == [];
    }
  }

  // ---- Reading the output back ----

  /** Reads an escaped field up to its closing quote, a doubled quote
      standing for one; returns the text and what follows the closing
      quote. */
  function ReadField(s: string): (r: Option<(string, string)>)
    ensures r.Some? ==> |r.value.1| < |s|
  {
    if s == [] then None
    else if s[0] == '"' then
      if |s| >= 2 && s[1] == '"' then
        match ReadField(s[2..])
        case None => None
        case Some((v, rest)) => Some(("\"" + v, rest))
      else Some(("", s[1..]))
    else
      match ReadField(s[1..])
      case None => None
      case Some((v, rest)) => Some(([s[0]] + v, rest))
  }

  /** Reads one row: quoted comma-terminated fields up to a newline that
      stands where a field would start. */
  function ReadRow(s: string): (r: Option<(seq<string>, string)>)
    ensures r.Some? ==> |r.value.1| < |s|
    decreases |s|
  {
    if s != [] && s[0] == '\n' then Some(([], s[1..]))
    else if s == [] || s[0] != '"' then None
    else
      match ReadField(s[1..])
      case None => None
      case Some((v, rest)) =>
        if rest == [] || rest[0] != ',' then None
        else
          match ReadRow(rest[1..])
          case None => None
          case Some((fs, tail)) => Some(([v] + fs, tail))
  }

  /** Reads rows until the text is used up. */
  function ReadTable(s: string): Option<seq<seq<string>>>
    decreases |s|
  {
    if s == [] then Some([])
    else
      match ReadRow(s)
      case None => None
      case Some((fs, tail)) =>
        match ReadTable(tail)
        case None => None
        case Some(rows) => Some([fs] + rows)
  }

  /** Removing the quotes and undoubling recovers the field, whatever it
      holds, as long as no quote follows the closing one. */
  lemma {:induction false} ReadEscaped(f: string, u: string)
    requires u == [] || u[0] != '"'
    ensures ReadField(Escape(f) + "\"" + u) == Some((f, u))
  {
    var s := Escape(f) + "\"" + u;
    if f == [] {
      assert s == "\"" + u;
    } else {
      ReadEscaped(f[1..], u);
      var t := Escape(f[1..]) + "\"" + u;
      if f[0] == '"' {
        assert s == "\"\"" + t;
        assert s[2..] == t;
        assert "\"" + f[1..] == f;
      } else {
        assert s == [f[0]] + t;
        assert s[1..] == t;
        assert [f[0]] + f[1..] == f;
      }
    }
  }

  /** A written field is read back, and reading carries on after its
      comma. */
  lemma ReadFieldText(f: string, t: string)
    ensures ReadRow(FieldText(f) + t)
         == match ReadRow(t)
            case None => None
            case Some((fs, tail)) => Some(([f] + fs, tail))
  {
    var rest := "," + t;
    var x := Escape(f) + "\"" + rest;
    var s := FieldText(f) + t;
    assert s == "\"" + x;
    assert s[0] == '"' && s[1..] == x;
    ReadEscaped(f, rest);
    assert rest[0] == ',' && rest[1..] == t;
  }

  /** A written row reads back as exactly its fields. */
  lemma {:induction false} ReadRowText(fields: seq<string>, u: string)
    ensures ReadRow(RowText(fields) + u) == Some((fields, u))
  {
    if fields == [] {
      var s := RowText(fields) + u;
      assert s == "\n" + u;
      assert s[1..] == u;
    } else {
      FieldsTextCons(fields);
      assert RowText(fields) + u == FieldText(fields[0]) + (RowText(fields[1..]) + u);
      ReadFieldText(fields[0], RowText(fields[1..]) + u);
      ReadRowText(fields[1..], u);
      assert [fields[0]] + fields[1..] == fields;
    }
  }

  /** The whole output reads back as the table that was written. */
  lemma {:induction false} ReadTableText(table: seq<seq<string>>)
    ensures ReadTable(TableText(table)) == Some(table)
  {
    if table != [] {
      TableTextCons(table);
      var s := TableText(table);
      ReadRowText(table[0], TableText(table[1..]));
      assert s != [];
      ReadTableText(table[1..]);
      assert [table[0]] + table[1..] == table;
    }
  }

  // ---- The merged table ----

  /** The default languages that have a PO file, in default order. */
  function Columns<V>(poMap: map<string, V>): seq<string> {
    TranslateCmd.Present(DefaultLanguages, poMap)
  }

  /** `x` stands before `y` in `langs`. */
  predicate Before(langs: seq<string>, x: string, y: string) {
    exists i, j :: 0 <= i < j < |langs| && langs[i] == x && langs[j] == y
  }

  /** The elements of `r` stand in `langs` in the same order. */
  predicate InOrderOf(r: seq<string>, langs: seq<string>) {
    forall a, b :: 0 <= a < b < |r| ==> Before(langs, r[a], r[b])
  }

  /** The column filter keeps the order of the list it filters. */
  lemma {:induction false} PresentKeepsOrder<V>(langs: seq<string>, poMap: map<string, V>)
    ensures InOrderOf(TranslateCmd.Present(langs, poMap), langs)
  {
    if langs != [] {
      var n := |langs| - 1;
      var init := langs[..n];
      PresentKeepsOrder(init, poMap);
      var p := TranslateCmd.Present(init, poMap);
      var r := TranslateCmd.Present(langs, poMap);
      assert r == p || r == p + [langs[n]];
      forall a, b | 0 <= a < b < |r| ensures Before(langs, r[a], r[b]) {
        assert r[a] == p[a];
        if b < |p| {
          assert r[b] == p[b];
          assert Before(init, p[a], p[b]);
          var i, j :| 0 <= i < j < |init| && init[i] == p[a] && init[j] == p[b];
          assert langs[i] == r[a] && langs[j] == r[b];
        } else {
          assert r[a] in init;
          var i :| 0 <= i < n && init[i] == r[a];
          assert langs[i] == r[a] && langs[n] == r[b];
        }
      }
    }
  }

  /** PO files of languages outside the default list change nothing. */
  lemma {:induction false} PresentIgnoresOthers<V>(langs: seq<string>, poMap: map<string, V>)
    ensures TranslateCmd.Present(langs, poMap)
         == TranslateCmd.Present(langs, map l | l in poMap && l in langs :: poMap[l])
  {
    if langs != [] {
      var n := |langs| - 1;
      var init := langs[..n];
      var m := map l | l in poMap && l in langs :: poMap[l];
      var mi := map l | l in poMap && l in init :: poMap[l];
      PresentIgnoresOthers(init, poMap);
      PresentSameKeys(init, mi, m);
    }
  }

  /** The filter only looks at which of the listed names are keys. */
  lemma {:induction false} PresentSameKeys<V>(langs: seq<string>, m1: map<string, V>, m2: map<string, V>)
    requires forall l :: l in langs ==> (l in m1 <==> l in m2)
    ensures TranslateCmd.Present(langs, m1) == TranslateCmd.Present(langs, m2)
  {
    if langs != [] {
      PresentSameKeys(langs[..|langs| - 1], m1, m2);
    }
  }

  /** The merged record of one data row. */
  predicate IsRecord(rec: seq<string>, row: seq<string>, langs: seq<string>, poMap: map<string, Document>)
    requires CsvLoad.Wide(row) && forall l :: l in langs ==> l in poMap
  {
    && |rec| == 2 + |langs|
    && rec[0] == row[0] && rec[1] == row[1]
    && forall k :: 0 <= k < |langs| ==> rec[2 + k] == GetC(poMap[langs[k]].entries, row[0], row[1])
  }

  /** The merged record of a data row with a key and an original text. */
  function RecordOf(row: seq<string>, langs: seq<string>, poMap: map<string, Document>): seq<string>
    requires CsvLoad.Wide(row) && forall l :: l in langs ==> l in poMap
  {
    [row[0], row[1]] + seq(|langs|, k requires 0 <= k < |langs| => GetC(poMap[langs[k]].entries, row[0], row[1]))
  }

  /** The records of the data rows with a key and an original text. */
  function Records(data: seq<seq<string>>, langs: seq<string>, poMap: map<string, Document>)
    : (r: seq<seq<string>>)
    requires forall l :: l in langs ==> l in poMap
  {
    if data == [] then []
    else
      var row := data[|data| - 1];
      Records(data[..|data| - 1], langs, poMap)
      + (if CsvLoad.Wide(row) then [RecordOf(row, langs, poMap)] else [])
  }

  /** Data rows with a key and an original text. */
  function WideRows(data: seq<seq<string>>): seq<seq<string>> {
    if data == [] then []
    else WideRows(data[..|data| - 1]) + (if CsvLoad.Wide(data[|data| - 1]) then [data[|data| - 1]] else [])
  }

  /** One record per wide data row, in order: the key, the original, then
      each language's translation, "" where the PO file has none. */
  lemma {:induction false} RecordsDescribeRows(data: seq<seq<string>>, langs: seq<string>,
                                               poMap: map<string, Document>)
    requires forall l :: l in langs ==> l in poMap
    ensures var r := Records(data, langs, poMap);
      var w := WideRows(data);
      && |r| == |w|
      && forall i :: 0 <= i < |r| ==> CsvLoad.Wide(w[i]) && IsRecord(r[i], w[i], langs, poMap)
  {
    if data != [] {
      RecordsDescribeRows(data[..|data| - 1], langs, poMap);
    }
  }

  /** A language without a translation for the pair merges as "", as does
      every language for a template (no translations at all). */
  lemma UntranslatedMergesEmpty(es: seq<Entry>, context: string, msgId: string)
    requires forall k :: 0 <= k < |es| ==> es[k].msgStr == ""
    ensures GetC(es, context, msgId) == ""
  {
  }

  function Header(langs: seq<string>): seq<string> {
    ["Language", "original"] + langs
  }

  /** The merged CSV text for the data rows. */
  function MergedCsv(data: seq<seq<string>>, poMap: map<string, Document>): string {
    var langs := Columns(poMap);
    TableText([Header(langs)] + Records(data, langs, poMap))
  }

  /** The merged CSV reads back as the header row followed by the records. */
  lemma MergedReadsBack(data: seq<seq<string>>, poMap: map<string, Document>)
    ensures var langs := Columns(poMap);
      ReadTable(MergedCsv(data, poMap)) == Some([Header(langs)] + Records(data, langs, poMap))
  {
    var langs := Columns(poMap);
    ReadTableText([Header(langs)] + Records(data, langs, poMap));
  }

  // ---- The command ----

  /** writeQuotedCSVRow: append each quoted field, then the newline. */
  method WriteQuotedRow(b: string, fields: seq<string>) returns (out: string)
    ensures out == b + RowText(fields)
  {
    out := b;
    for i := 0 to |fields|
      invariant out == b + FieldsText(fields[..i])
    {
      var esc := ReplaceChar(fields[i], '"', "\"\"");
      out := out + "\"" + esc + "\",";
      assert fields[..i + 1][..i] == fields[..i];
    }
    assert fields[..|fields|] == fields;
    out := out + "\n";
  }

  /** The language loop of Execute. */
  method LanguageColumns(poMap: map<string, Document>) returns (langs: seq<string>)
    ensures langs == Columns(poMap)
  {
    langs := [];
    for i := 0 to |DefaultLanguages|
      invariant langs == TranslateCmd.Present(DefaultLanguages[..i], poMap)
    {
      var l := DefaultLanguages[i];
      assert DefaultLanguages[..i + 1][..i] == DefaultLanguages[..i];
      if l in poMap {
        langs := langs + [l];
      }
    }
    assert DefaultLanguages[..|DefaultLanguages|] == DefaultLanguages;
  }

  /** One record: the key, the original, then each language's GetC. */
  method BuildRecord(row: seq<string>, langs: seq<string>, poMap: map<string, Document>)
    returns (rec: seq<string>)
    requires CsvLoad.Wide(row) && forall l :: l in langs ==> l in poMap
    ensures rec == RecordOf(row, langs, poMap)
  {
    rec := [row[0], row[1]];
    for k := 0 to |langs|
      invariant rec == [row[0], row[1]]
        + seq(k, j requires 0 <= j < k => GetC(poMap[langs[j]].entries, row[0], row[1]))
    {
      rec := rec + [GetC(poMap[langs[k]].entries, row[0], row[1])];
    }
  }

  /** Execute on the CSV records and the loaded PO documents, returning the
      text that is written out. */
  method Make(records: seq<seq<string>>, poMap: map<string, Document>)
    returns (r: Result<string, CsvLoad.LoadError>)
    ensures r.Err? <==> records == [] || !CsvLoad.DistinctKeys(records[1..])
    ensures r.Ok? ==> r.value == MergedCsv(records[1..], poMap)
  {
    var loaded := CsvLoad.ValidateRows(records);
    if loaded.Err? {
      return Err(loaded.error);
    }
    var rows := loaded.value;
    var langs := LanguageColumns(poMap);
    var b := WriteQuotedRow("", Header(langs));
    assert b == TableText([Header(langs)]);
    b := WriteRecords(b, rows[1..], langs, poMap);
    return Ok(b);
  }

  /** The data-row loop of Execute. */
  method WriteRecords(b: string, data: seq<seq<string>>, langs: seq<string>, poMap: map<string, Document>)
    returns (out: string)
    requires b == TableText([Header(langs)])
    requires forall l :: l in langs ==> l in poMap
    ensures out == TableText([Header(langs)] + Records(data, langs, poMap))
  {
    out := b;
    for i := 0 to |data|
      invariant out == TableText([Header(langs)] + Records(data[..i], langs, poMap))
    {
      out := WriteRecord(out, data, i, langs, poMap);
    }
    assert data[..|data|] == data;
  }

  /** The loop body: the record of data row `i`, when it has one. */
  method WriteRecord(b: string, data: seq<seq<string>>, i: nat, langs: seq<string>,
                     poMap: map<string, Document>)
    returns (out: string)
    requires i < |data| && forall l :: l in langs ==> l in poMap
    requires b == TableText([Header(langs)] + Records(data[..i], langs, poMap))
    ensures out == TableText([Header(langs)] + Records(data[..i + 1], langs, poMap))
  {
    var row := data[i];
    ghost var before := [Header(langs)] + Records(data[..i], langs, poMap);
    RecordsSnoc(data, i, langs, poMap);
    if CsvLoad.Wide(row) {
      var rec := BuildRecord(row, langs, poMap);
      out := WriteQuotedRow(b, rec);
      assert before + [rec] == [Header(langs)] + Records(data[..i + 1], langs, poMap);
      TableTextSnoc(before, rec);
      assert out == TableText(before + [rec]);
    } else {
      out := b;
      assert Records(data[..i + 1], langs, poMap) == Records(data[..i], langs, poMap);
    }
  }

  lemma TableTextSnoc(table: seq<seq<string>>, row: seq<string>)
    ensures TableText(table + [row]) == TableText(table) + RowText(row)
  {
    assert (table + [row])[..|table|] == table;
  }

  lemma RecordsSnoc(data: seq<seq<string>>, i: nat, langs: seq<string>, poMap: map<string, Document>)
    requires i < |data| && forall l :: l in langs ==> l in poMap
    ensures Records(data[..i + 1], langs, poMap)
         == Records(data[..i], langs, poMap) + (if CsvLoad.Wide(data[i]) then [RecordOf(data[i], langs, poMap)] else [])
  {
    var d := data[..i + 1];
    assert |d| - 1 == i && d[..i] == data[..i] && d[i] == data[i];
  }
}
