/** The pot command (internal/commands/pot.go): rebuild the template from
    the CSV, keep the headers of an existing template, and touch the
    creation date only when the CSV's own fingerprint changed. */
module PotCmd {
  import opened Text
  import opened Wrappers
  import opened Hex
  import opened PoFile
  import PoHeaders
  import CsvLoad

  /** The entries after SetC(row[0], row[1], "") for each wide data row, in
      order, starting from `es`. */
  function Upserts(es: seq<Entry>, data: seq<seq<string>>): seq<Entry> {
    if data == [] then es
    else
      var rest := Upserts(es, data[..|data| - 1]);
      var row := data[|data| - 1];
      if CsvLoad.Wide(row) then Upsert(rest, row[0], row[1], "") else rest
  }

  /** Template entries: empty translations, no comments, no repeated pair. */
  predicate IsTemplate(es: seq<Entry>) {
    Unique(es) && forall k :: 0 <= k < |es| ==> es[k].msgStr == "" && es[k].comments == []
  }

  /** The entry's pair is that of a wide data row. */
  predicate FromRow(e: Entry, data: seq<seq<string>>) {
    exists i :: 0 <= i < |data| && CsvLoad.Wide(data[i]) && Matches(e, data[i][0], data[i][1])
  }

  /** Every entry comes from a wide data row. */
  predicate FromRows(es: seq<Entry>, data: seq<seq<string>>) {
    forall k :: 0 <= k < |es| ==> FromRow(es[k], data)
  }

  /** Some entry holds the pair. */
  predicate HasPair(es: seq<Entry>, context: string, msgId: string) {
    exists k :: 0 <= k < |es| && Matches(es[k], context, msgId)
  }

  /** Every wide data row has its entry. */
  predicate CoversRows(es: seq<Entry>, data: seq<seq<string>>) {
    forall i :: 0 <= i < |data| && CsvLoad.Wide(data[i]) ==> HasPair(es, data[i][0], data[i][1])
  }

  /** The template built from the rows holds exactly their pairs, with
      nothing translated and no pair twice. */
  lemma {:induction false} UpsertsTemplate(data: seq<seq<string>>)
    ensures var r := Upserts([], data);
      IsTemplate(r) && FromRows(r, data) && CoversRows(r, data)
  {
    if data != [] {
      var n := |data| - 1;
      var init := data[..n];
      UpsertsTemplate(init);
      var rest := Upserts([], init);
      var row := data[n];
      FromMoreRows(rest, init, data);
      if CsvLoad.Wide(row) {
        var r := Upsert(rest, row[0], row[1], "");
        UpsertKeepsTemplate(rest, row[0], row[1]);
        UpsertFromRows(rest, data, row[0], row[1]);
        UpsertCovers(rest, init, data);
      } else {
        CoversMoreRows(rest, init, data);
      }
    }
  }

  /** SetC keeps every pair at its place and adds its own. */
  lemma UpsertKeepsPairs(es: seq<Entry>, context: string, msgId: string, msgStr: string)
    ensures var r := Upsert(es, context, msgId, msgStr);
      && (|r| == |es| || r == es + [Entry(context, msgId, msgStr, [])])
      && (forall j :: 0 <= j < |es| ==> r[j] == es[j] || r[j] == es[j].(msgStr := msgStr))
      && HasPair(r, context, msgId)
  {
    var k := FindIndex(es, context, msgId);
    if k == |es| {
      assert Matches(Upsert(es, context, msgId, msgStr)[k], context, msgId);
    }
  }

  lemma UpsertKeepsTemplate(es: seq<Entry>, context: string, msgId: string)
    requires IsTemplate(es)
    ensures IsTemplate(Upsert(es, context, msgId, ""))
  {
    UpsertKeepsUnique(es, context, msgId, "");
    UpsertKeepsPairs(es, context, msgId, "");
    var r := Upsert(es, context, msgId, "");
    forall k | 0 <= k < |r| ensures r[k].msgStr == "" && r[k].comments == [] {
      if k >= |es| {
        assert r[k] == Entry(context, msgId, "", []);
      }
    }
  }

  /** Rows added at the end still account for every entry. */
  lemma FromMoreRows(es: seq<Entry>, init: seq<seq<string>>, data: seq<seq<string>>)
    requires FromRows(es, init)
    requires |init| <= |data| && data[..|init|] == init
    ensures FromRows(es, data)
  {
    forall j | 0 <= j < |es|
      ensures FromRow(es[j], data)
    {
      var i :| 0 <= i < |init| && CsvLoad.Wide(init[i]) && Matches(es[j], init[i][0], init[i][1]);
      assert data[..|init|][i] == data[i];
      assert 0 <= i < |data| && CsvLoad.Wide(data[i]) && Matches(es[j], data[i][0], data[i][1]);
    }
  }

  /** A row without a key adds nothing to cover. */
  lemma CoversMoreRows(es: seq<Entry>, init: seq<seq<string>>, data: seq<seq<string>>)
    requires CoversRows(es, init)
    requires |data| == |init| + 1 && data[..|init|] == init && !CsvLoad.Wide(data[|init|])
    ensures CoversRows(es, data)
  {
    assert forall i :: 0 <= i < |init| ==> data[i] == init[i];
  }

  lemma UpsertFromRows(es: seq<Entry>, data: seq<seq<string>>, context: string, msgId: string)
    requires FromRows(es, data)
    requires exists i :: 0 <= i < |data| && CsvLoad.Wide(data[i]) && data[i][0] == context && data[i][1] == msgId
    ensures FromRows(Upsert(es, context, msgId, ""), data)
  {
    var r := Upsert(es, context, msgId, "");
    UpsertKeepsPairs(es, context, msgId, "");
    forall j | 0 <= j < |r|
      ensures FromRow(r[j], data)
    {
      if j < |es| {
        var i :| 0 <= i < |data| && CsvLoad.Wide(data[i]) && Matches(es[j], data[i][0], data[i][1]);
        assert Matches(r[j], data[i][0], data[i][1]);
      } else {
        var i :| 0 <= i < |data| && CsvLoad.Wide(data[i]) && data[i][0] == context && data[i][1] == msgId;
        assert Matches(r[j], data[i][0], data[i][1]);
      }
    }
  }

  lemma UpsertCovers(es: seq<Entry>, init: seq<seq<string>>, data: seq<seq<string>>)
    requires CoversRows(es, init)
    requires |data| == |init| + 1 && data[..|init|] == init && CsvLoad.Wide(data[|init|])
    ensures CoversRows(Upsert(es, data[|init|][0], data[|init|][1], ""), data)
  {
    var n := |init|;
    var r := Upsert(es, data[n][0], data[n][1], "");
    UpsertKeepsPairs(es, data[n][0], data[n][1], "");
    forall i | 0 <= i < n && CsvLoad.Wide(data[i]) ensures HasPair(r, data[i][0], data[i][1]) {
      assert data[i] == init[i];
      var k :| 0 <= k < |es| && Matches(es[k], init[i][0], init[i][1]);
      assert Matches(r[k], data[i][0], data[i][1]);
    }
  }

  /** The wide rows' pairs as fresh template entries, in row order. */
  function RowEntries(data: seq<seq<string>>): seq<Entry> {
    if data == [] then []
    else
      var row := data[|data| - 1];
      RowEntries(data[..|data| - 1]) + (if CsvLoad.Wide(row) then [Entry(row[0], row[1], "", [])] else [])
  }

  /** With the distinct keys the CSV loader guarantees every SetC appends:
      the template lists the rows' pairs in CSV order. */
  lemma {:induction false} UpsertsInOrder(data: seq<seq<string>>)
    requires CsvLoad.DistinctKeys(data)
    ensures Upserts([], data) == RowEntries(data)
  {
    if data != [] {
      var n := |data| - 1;
      var init := data[..n];
      assert forall i :: 0 <= i < n ==> init[i] == data[i];
      UpsertsInOrder(init);
      UpsertsTemplate(init);
      var row := data[n];
      if CsvLoad.Wide(row) {
        var rest := Upserts([], init);
        forall j | 0 <= j < |rest| ensures !Matches(rest[j], row[0], row[1]) {
          var i :| 0 <= i < |init| && CsvLoad.Wide(init[i]) && Matches(rest[j], init[i][0], init[i][1]);
          assert data[i][0] != data[n][0];
        }
        UpsertNew(rest, row[0], row[1], "");
      }
    }
  }

  /** csvHashChanged: true unless an existing template stores an X-CSV-Hash
      that reads back as the new CSV fingerprint. */
  function CsvHashChanged(existing: Option<Document>, csvHash: U64): (r: bool)
    ensures !r <==> (existing.Some?
      && GetHeader(existing.value.headers, "X-CSV-Hash") != ""
      && ParseHex(GetHeader(existing.value.headers, "X-CSV-Hash")) == Some(csvHash))
  {
    existing.None? || PoHeaders.Changed(GetHeader(existing.value.headers, "X-CSV-Hash"), csvHash)
  }

  /** The header edits after UpdateBuildHeaders: the creation date on a CSV
      change, then the CSV fingerprint, always. */
  function Finished(built: map<string, string>, changed: bool, creationNow: string, csvHash: U64)
    : (r: map<string, string>)
    ensures r.Keys == built.Keys + {"X-CSV-Hash"} + (if changed then {"POT-Creation-Date"} else {})
    ensures r["X-CSV-Hash"] == Hex16(csvHash)
    ensures changed ==> r["POT-Creation-Date"] == creationNow
    ensures forall k :: k in built && k != "X-CSV-Hash" && (changed ==> k != "POT-Creation-Date") ==>
      r[k] == built[k]
  {
    var dated := if changed then built["POT-Creation-Date" := creationNow] else built;
    dated["X-CSV-Hash" := Hex16(csvHash)]
  }

  /** The headers the template starts from. */
  function StartHeaders(existing: Option<Document>): map<string, string> {
    if existing.Some? then existing.value.headers else map[]
  }

  /** The headers of the generated template. `buildNow` is the clock as
      UpdateBuildHeaders reads it, `creationNow` as the command reads it. */
  ghost function PotHeaders(existing: Option<Document>, entries: seq<Entry>, csvHash: U64,
                            projectVersion: string, version: string, buildNow: string,
                            creationNow: string, xxhash: string -> U64): map<string, string>
  {
    var built := PoHeaders.BuildHeaders(Document(StartHeaders(existing), "", entries),
                                        projectVersion, version, buildNow, xxhash);
    Finished(built, CsvHashChanged(existing, csvHash), creationNow, csvHash)
  }

  /** SetHeader for every header of the existing template, one range step
      at a time. */
  method CopyHeaders(po: File, headers: map<string, string>)
    modifies po
    ensures po.headers == old(po.headers) + headers
    ensures po.entries == old(po.entries) && po.language == old(po.language)
  {
    var rest := headers.Keys;
    while rest != {}
      decreases rest
      invariant rest <= headers.Keys
      invariant po.headers == old(po.headers) + map k | k in headers.Keys - rest :: headers[k]
      invariant po.entries == old(po.entries) && po.language == old(po.language)
    {
      var k :| k in rest;
      po.SetHeader(k, headers[k]);
      rest := rest - {k};
    }
    assert headers.Keys - rest == headers.Keys;
  }

  /** SetC for every wide data row. */
  method AddRows(po: File, data: seq<seq<string>>)
    modifies po
    ensures po.entries == Upserts(old(po.entries), data)
    ensures po.headers == old(po.headers) && po.language == old(po.language)
  {
    for i := 0 to |data|
      invariant po.entries == Upserts(old(po.entries), data[..i])
      invariant po.headers == old(po.headers) && po.language == old(po.language)
    {
      assert data[..i + 1][..i] == data[..i];
      var row := data[i];
      if |row| >= 2 {
        po.SetC(row[0], row[1], "");
      }
    }
    assert data[..|data|] == data;
  }

  /** Execute after the CSV is hashed and loaded and an existing template
      is parsed (`existing` is None when there is none or it does not
      parse); writing the result is not part of this model. */
  method GeneratePot(rows: seq<seq<string>>, existing: Option<Document>, csvHash: U64,
                     projectVersion: string, version: string, buildNow: string, creationNow: string,
                     xxhash: string -> U64)
    returns (r: Result<File, string>)
    ensures |rows| < 2 <==> r.Err?
    ensures r.Ok? ==>
      && fresh(r.value)
      && r.value.language == ""
      && r.value.entries == Upserts([], rows[1..])
      && r.value.headers == PotHeaders(existing, Upserts([], rows[1..]), csvHash, projectVersion, version,
                                       buildNow, creationNow, xxhash)
  {
    if |rows| < 2 {
      return Err("CSV must have header and at least one data row");
    }
    var po := new File();
    if existing.Some? {
      CopyHeaders(po, existing.value.headers);
      assert po.headers == existing.value.headers;
    }
    AddRows(po, rows[1..]);
    var csvHashChanged := true;
    if existing.Some? {
      var oldHashStr := GetHeader(existing.value.headers, "X-CSV-Hash");
      if oldHashStr != "" {
        var parsed := ParseHex(oldHashStr);
        if parsed.Some? {
          csvHashChanged := csvHash != parsed.value;
        }
      }
    }
    assert csvHashChanged == CsvHashChanged(existing, csvHash);
    PoHeaders.UpdateBuildHeaders(po, projectVersion, version, buildNow, xxhash);
    if csvHashChanged {
      po.SetHeader("POT-Creation-Date", creationNow);
    }
    po.SetHeader("X-CSV-Hash", Hex16(csvHash));
    r := Ok(po);
  }

  /** The stored CSV fingerprint reads back as the CSV's hash, so running the
      command again on the same CSV sees no CSV change. */
  lemma CsvHashReadsBack(built: map<string, string>, changed: bool, creationNow: string,
                         csvHash: U64, entries: seq<Entry>)
    ensures var h := Finished(built, changed, creationNow, csvHash);
      && ParseHex(h["X-CSV-Hash"]) == Some(csvHash)
      && !CsvHashChanged(Some(Document(h, "", entries)), csvHash)
  {
    ParseHex16(csvHash);
  }

  /** Without a language, the update keeps the creation date whenever a CSV
      fingerprint is already stored. */
  lemma RefreshedKeepsCreation(headers: map<string, string>, now: string, newHash: U64)
    requires GetHeader(headers, "X-CSV-Hash") != ""
    ensures GetHeader(PoHeaders.Refreshed(headers, "", now, newHash), "POT-Creation-Date")
            == GetHeader(headers, "POT-Creation-Date")
  {
  }

  /** Stamping leaves every header but X-Generator and Project-Id-Version
      alone. */
  lemma StampedKeeps(headers: map<string, string>, projectVersion: string, version: string, k: string)
    requires k != "X-Generator" && k != "Project-Id-Version"
    ensures GetHeader(PoHeaders.Stamped(headers, projectVersion, version), k) == GetHeader(headers, k)
  {
  }

  /** Regenerating from an unchanged CSV keeps the template's creation date;
      a changed CSV sets it to the command's clock reading. */
  lemma CreationDate(existing: Option<Document>, entries: seq<Entry>, csvHash: U64,
                     projectVersion: string, version: string, buildNow: string,
                     creationNow: string, xxhash: string -> U64)
    ensures var h := PotHeaders(existing, entries, csvHash, projectVersion, version, buildNow,
                                creationNow, xxhash);
      && (CsvHashChanged(existing, csvHash) ==> h["POT-Creation-Date"] == creationNow)
      && (!CsvHashChanged(existing, csvHash) ==>
            GetHeader(h, "POT-Creation-Date") == GetHeader(existing.value.headers, "POT-Creation-Date"))
  {
    var doc := Document(StartHeaders(existing), "", entries);
    var stamped := PoHeaders.Stamped(doc.headers, projectVersion, version);
    var newHash := xxhash(PoHeaders.HashInput(doc.(headers := stamped)));
    var built := PoHeaders.Refreshed(stamped, "", buildNow, newHash);
    assert built == PoHeaders.BuildHeaders(doc, projectVersion, version, buildNow, xxhash);
    if !CsvHashChanged(existing, csvHash) {
      StampedKeeps(doc.headers, projectVersion, version, "X-CSV-Hash");
      StampedKeeps(doc.headers, projectVersion, version, "POT-Creation-Date");
      RefreshedKeepsCreation(stamped, buildNow, newHash);
    }
  }

  /** Every other header of the existing template is carried over. */
  lemma KeepsOtherHeaders(existing: Option<Document>, entries: seq<Entry>, csvHash: U64,
                          projectVersion: string, version: string, buildNow: string,
                          creationNow: string, xxhash: string -> U64, k: string)
    requires k !in PoHeaders.Excluded && k != "X-CSV-Hash"
    requires k != "X-Generator" && k != "Project-Id-Version"
    ensures GetHeader(PotHeaders(existing, entries, csvHash, projectVersion, version, buildNow,
                                 creationNow, xxhash), k)
            == GetHeader(StartHeaders(existing), k)
  {
    var doc := Document(StartHeaders(existing), "", entries);
    var stamped := PoHeaders.Stamped(doc.headers, projectVersion, version);
    var newHash := xxhash(PoHeaders.HashInput(doc.(headers := stamped)));
    var built := PoHeaders.Refreshed(stamped, "", buildNow, newHash);
    assert built == PoHeaders.BuildHeaders(doc, projectVersion, version, buildNow, xxhash);
    StampedKeeps(doc.headers, projectVersion, version, k);
    PoHeaders.RefreshedKeeps(stamped, "", buildNow, newHash, k);
  }
}
