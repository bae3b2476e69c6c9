/** The PO document: its entries, the mutable file object with its upsert
    operations, and the read-only lookups (internal/poutil/po.go). */
module PoFile {
  import opened Text
  import opened Wrappers

  /** One translation unit: msgctxt, msgid, msgstr and the comment lines
      written above it, kept verbatim. */
  datatype Entry = Entry(context: string, msgId: string, msgStr: string, comments: seq<string>)

  /** The value of a whole document: what a File object holds at one moment. */
  datatype Document = Document(headers: map<string, string>, language: string, entries: seq<Entry>)

  /** The (msgctxt, msgid) pair that identifies an entry. */
  predicate Matches(e: Entry, context: string, msgId: string) {
    e.context == context && e.msgId == msgId
  }

  /** No two entries share a (msgctxt, msgid) pair. */
  predicate Unique(es: seq<Entry>) {
    forall i, j :: 0 <= i < j < |es| ==> !Matches(es[j], es[i].context, es[i].msgId)
  }

  /** `k` is the first position holding the pair. */
  predicate FirstMatch(es: seq<Entry>, context: string, msgId: string, k: int) {
    0 <= k < |es| && Matches(es[k], context, msgId)
    && forall j :: 0 <= j < k ==> !Matches(es[j], context, msgId)
  }

  /** The position the lookups stop at: the first match, or |es| when the
      pair is absent. */
  function FindIndex(es: seq<Entry>, context: string, msgId: string): (k: nat)
    ensures k <= |es|
    ensures k < |es| ==> FirstMatch(es, context, msgId, k)
    ensures k == |es| ==> forall j :: 0 <= j < |es| ==> !Matches(es[j], context, msgId)
  {
    if es == [] then 0
    else if Matches(es[0], context, msgId) then 0
    else 1 + FindIndex(es[1..], context, msgId)
  }

  /** The first match is the only position satisfying FirstMatch. */
  lemma FirstMatchIsFindIndex(es: seq<Entry>, context: string, msgId: string, k: int)
    requires FirstMatch(es, context, msgId, k)
    ensures k == FindIndex(es, context, msgId)
  {
  }

  /** GetC: the msgstr of the first entry with the pair, or "" when absent. */
  function GetC(es: seq<Entry>, context: string, msgId: string): (r: string)
    ensures (exists k :: FirstMatch(es, context, msgId, k) && r == es[k].msgStr)
      || (r == "" && forall j :: 0 <= j < |es| ==> !Matches(es[j], context, msgId))
  {
    var k := FindIndex(es, context, msgId);
    if k < |es| then es[k].msgStr else ""
  }

  /** IsTranslatedC: the pair is present and its first entry has a non-empty
      msgstr. */
  predicate IsTranslatedC(es: seq<Entry>, context: string, msgId: string) {
    GetC(es, context, msgId) != ""
  }

  lemma IsTranslatedCIff(es: seq<Entry>, context: string, msgId: string)
    ensures IsTranslatedC(es, context, msgId)
      <==> exists k :: FirstMatch(es, context, msgId, k) && es[k].msgStr != ""
  {
    if exists k :: FirstMatch(es, context, msgId, k) && es[k].msgStr != "" {
      var k :| FirstMatch(es, context, msgId, k) && es[k].msgStr != "";
      FirstMatchIsFindIndex(es, context, msgId, k);
    }
  }

  /** GetEntry: the first entry with the pair, or None (Go's nil). */
  function GetEntry(es: seq<Entry>, context: string, msgId: string): (r: Option<Entry>)
    ensures r.Some? <==> exists k :: 0 <= k < |es| && Matches(es[k], context, msgId)
    ensures r.Some? ==> exists k :: FirstMatch(es, context, msgId, k) && r.value == es[k]
  {
    var k := FindIndex(es, context, msgId);
    if k < |es| then Some(es[k]) else None
  }

  /** GetC agrees with GetEntry: the msgstr of the found entry, "" for nil. */
  lemma GetCViaGetEntry(es: seq<Entry>, context: string, msgId: string)
    ensures GetC(es, context, msgId)
      == (match GetEntry(es, context, msgId) case Some(e) => e.msgStr case None => "")
  {
  }

  /** What SetC does to the entry list: overwrite the msgstr of the first
      entry with the pair, or append a comment-less entry. */
  function Upsert(es: seq<Entry>, context: string, msgId: string, msgStr: string): (r: seq<Entry>)
  {
    var k := FindIndex(es, context, msgId);
    if k < |es| then es[k := es[k].(msgStr := msgStr)]
    else es + [Entry(context, msgId, msgStr, [])]
  }

  /** Updating an existing pair changes only that entry's msgstr: comments,
      position and length stay. */
  lemma UpsertExisting(es: seq<Entry>, context: string, msgId: string, msgStr: string, k: int)
    requires FirstMatch(es, context, msgId, k)
    ensures var r := Upsert(es, context, msgId, msgStr);
      |r| == |es| && r[k] == Entry(context, msgId, msgStr, es[k].comments)
      && forall j :: 0 <= j < |es| && j != k ==> r[j] == es[j]
  {
    FirstMatchIsFindIndex(es, context, msgId, k);
  }

  /** A new pair is appended, comment-less, after the untouched old entries. */
  lemma UpsertNew(es: seq<Entry>, context: string, msgId: string, msgStr: string)
    requires forall j :: 0 <= j < |es| ==> !Matches(es[j], context, msgId)
    ensures Upsert(es, context, msgId, msgStr) == es + [Entry(context, msgId, msgStr, [])]
  {
  }

  /** SetC never creates a duplicate pair. */
  lemma UpsertKeepsUnique(es: seq<Entry>, context: string, msgId: string, msgStr: string)
    requires Unique(es)
    ensures Unique(Upsert(es, context, msgId, msgStr))
  {
    var r := Upsert(es, context, msgId, msgStr);
    var k := FindIndex(es, context, msgId);
    if k < |es| {
      forall i, j | 0 <= i < j < |r| ensures !Matches(r[j], r[i].context, r[i].msgId) {
        assert Matches(r[i], es[i].context, es[i].msgId);
        assert Matches(r[j], es[j].context, es[j].msgId);
      }
    }
  }

  /** Reading back after SetC gives the value written. */
  lemma UpsertThenGet(es: seq<Entry>, context: string, msgId: string, msgStr: string)
    ensures GetC(Upsert(es, context, msgId, msgStr), context, msgId) == msgStr
  {
    var r := Upsert(es, context, msgId, msgStr);
    var k := FindIndex(es, context, msgId);
    assert FirstMatch(r, context, msgId, k);
    FirstMatchIsFindIndex(r, context, msgId, k);
  }

  /** SetC leaves every other pair's lookup unchanged. */
  lemma UpsertKeepsOthers(es: seq<Entry>, context: string, msgId: string, msgStr: string,
                          c: string, m: string)
    requires c != context || m != msgId
    ensures GetEntry(Upsert(es, context, msgId, msgStr), c, m) == GetEntry(es, c, m)
  {
    var r := Upsert(es, context, msgId, msgStr);
    var k := FindIndex(es, c, m);
    forall j | 0 <= j < |es| ensures Matches(r[j], c, m) == Matches(es[j], c, m) {
    }
    if k < |es| {
      assert FirstMatch(r, c, m, k);
      FirstMatchIsFindIndex(r, c, m, k);
    } else {
      assert forall j :: 0 <= j < |r| ==> !Matches(r[j], c, m);
    }
  }

  /** Go's map lookup `f.Headers[key]`: the zero value "" when absent. */
  function GetHeader(headers: map<string, string>, key: string): (r: string)
    ensures key in headers ==> r == headers[key]
    ensures key !in headers ==> r == ""
  {
    if key in headers then headers[key] else ""
  }

  /** One comment line as HasNoTranslate judges it. */
  predicate NoTranslateComment(comment: string) {
    var trimmed := TrimSpace(comment);
    if HasPrefix(trimmed, "#,") then Contains(TrimSpace(trimmed[2..]), "notranslate")
    else HasPrefix(trimmed, "#") && Contains(trimmed, "notranslate")
  }

  /** HasNoTranslate: some comment carries the notranslate marker. */
  predicate HasNoTranslate(e: Entry) {
    exists i :: 0 <= i < |e.comments| && NoTranslateComment(e.comments[i])
  }

  /** The flag-comment branch adds nothing: a comment marks notranslate
      exactly when, trimmed, it starts with `#` and contains "notranslate". */
  lemma NoTranslateCommentIff(comment: string)
    ensures NoTranslateComment(comment)
      <==> var t := TrimSpace(comment); HasPrefix(t, "#") && Contains(t, "notranslate")
  {
    var t := TrimSpace(comment);
    var word := "notranslate";
    if HasPrefix(t, "#,") {
      assert t[0] == '#' && t[1] == ',';
      forall j: nat | j < 2 ensures !OccursAt(t, word, j) {
        OccursAtStartsWith(t, word, j);
      }
      ContainsAfterDrop(t, word, 2);
      assert NoSpace(word);
      TrimSpaceKeepsContains(t[2..], word);
    }
  }

  /** An occurrence starts with the first character of the pattern. */
  lemma OccursAtStartsWith(s: string, sub: string, j: nat)
    requires j < |s| && sub != [] && s[j] != sub[0]
    ensures !OccursAt(s, sub, j)
  {
    if j + |sub| <= |s| {
      assert s[j..j + |sub|][0] == s[j];
    }
  }

  /** The mutable document that the commands load, edit and save. */
  class File {
    var headers: map<string, string>
    /** The "Language" header as read by the parser; empty for a template. */
    var language: string
    var entries: seq<Entry>

    /** The current contents as a value. */
    function Snapshot(): Document
      reads this
    {
      Document(headers, language, entries)
    }

    /** NewFile: no headers, no language, no entries. */
    constructor ()
      ensures headers == map[] && language == "" && entries == []
    {
      headers := map[];
      language := "";
      entries := [];
    }

    /** SetC: scans for the pair; overwrites its msgstr in place or appends a
        new comment-less entry. */
    method SetC(context: string, msgId: string, msgStr: string)
      modifies this
      ensures entries == Upsert(old(entries), context, msgId, msgStr)
      ensures headers == old(headers) && language == old(language)
    {
      var i := 0;
      while i < |entries|
        invariant 0 <= i <= |entries| && entries == old(entries)
        invariant forall j :: 0 <= j < i ==> !Matches(entries[j], context, msgId)
      {
        if entries[i].context == context && entries[i].msgId == msgId {
          FirstMatchIsFindIndex(entries, context, msgId, i);
          entries := entries[i := entries[i].(msgStr := msgStr)];
          return;
        }
        i := i + 1;
      }
      entries := entries + [Entry(context, msgId, msgStr, [])];
    }

    /** SetHeader: inserts or overwrites one header. */
    method SetHeader(key: string, value: string)
      modifies this
      ensures headers == old(headers)[key := value]
      ensures entries == old(entries) && language == old(language)
    {
      headers := headers[key := value];
    }
  }
}
