/** The header lifecycle of a document (internal/poutil/po.go:571-676): the
    content fingerprint that leaves out the volatile headers, and the update
    that refreshes the date headers only when that fingerprint changes.
    The xxhash digest is a function parameter: only its input is modelled. */
module PoHeaders {
  import opened Text
  import opened Wrappers
  import opened Order
  import opened Hex
  import opened PoFile
  import PoMarshal

  /** Headers that never enter the fingerprint: the two dates and the
      fingerprint itself. */
  const Excluded: set<string> := {"PO-Revision-Date", "POT-Creation-Date", "X-Content-Hash"}

  /** The keys that enter the fingerprint. */
  ghost function HashKeySet(headers: map<string, string>): set<string> {
    set k | k in headers && k !in Excluded
  }

  /** Those keys in ascending order: the order the exchange sort leaves them
      in, whatever order the map was visited in. */
  ghost function HashKeys(headers: map<string, string>): seq<string> {
    SortedSeq(HashKeySet(headers))
  }

  /** `key:value` and a newline. */
  function HeaderHashLine(headers: map<string, string>, key: string): string {
    key + ":" + GetHeader(headers, key) + "\n"
  }

  function HeaderHashText(headers: map<string, string>, keys: seq<string>): string {
    if keys == [] then []
    else HeaderHashText(headers, keys[..|keys| - 1]) + HeaderHashLine(headers, keys[|keys| - 1])
  }

  /** Context, id, translation, each comment, each followed by a newline,
      and one more newline. */
  function EntryHashText(e: Entry): string {
    e.context + "\n" + e.msgId + "\n" + e.msgStr + "\n" + PoMarshal.TextOf(e.comments) + "\n"
  }

  function EntriesHashText(es: seq<Entry>): string {
    if es == [] then []
    else EntriesHashText(es[..|es| - 1]) + EntryHashText(es[|es| - 1])
  }

  /** Everything computeContentHash feeds to the digest, in order. */
  ghost function HashInput(doc: Document): string {
    doc.language + "\n" + HeaderHashText(doc.headers, HashKeys(doc.headers))
    + EntriesHashText(doc.entries)
  }

  /** Two header maps that agree on the listed keys give the same text. */
  lemma {:induction false} HeaderHashTextAgree(h1: map<string, string>, h2: map<string, string>,
                                               keys: seq<string>)
    requires forall i :: 0 <= i < |keys| ==> GetHeader(h1, keys[i]) == GetHeader(h2, keys[i])
    ensures HeaderHashText(h1, keys) == HeaderHashText(h2, keys)
  {
    if keys != [] {
      HeaderHashTextAgree(h1, h2, keys[..|keys| - 1]);
    }
  }

  /** Setting a date header or the fingerprint header leaves the fingerprint
      input as it was: this is what lets the date headers be refreshed
      without the content counting as changed. */
  lemma IgnoresExcluded(doc: Document, key: string, value: string)
    requires key in Excluded
    ensures HashInput(doc.(headers := doc.headers[key := value])) == HashInput(doc)
  {
    var h := doc.headers[key := value];
    assert HashKeySet(h) == HashKeySet(doc.headers);
    var keys := HashKeys(h);
    forall i | 0 <= i < |keys| ensures GetHeader(h, keys[i]) == GetHeader(doc.headers, keys[i]) {
      assert keys[i] in HashKeySet(h);
    }
    HeaderHashTextAgree(h, doc.headers, keys);
  }

  /** Sort by exchange, as computeContentHash writes it: each position in
      turn receives the least of the elements from there on. */
  method ExchangeSort(a: array<string>)
    modifies a
    ensures Sorted(a[..])
    ensures multiset(a[..]) == multiset(old(a[..]))
  {
    var i := 0;
    while i < a.Length - 1
      invariant 0 <= i <= a.Length
      invariant forall p, q :: 0 <= p < i && p < q < a.Length ==> !Less(a[q], a[p])
      invariant multiset(a[..]) == multiset(old(a[..]))
    {
      SelectLeast(a, i);
      i := i + 1;
    }
  }

  /** The inner loop: after it, a[i] is below none of a[i+1..]. */
  method SelectLeast(a: array<string>, i: nat)
    requires i < a.Length
    requires forall p, q :: 0 <= p < i && p < q < a.Length ==> !Less(a[q], a[p])
    modifies a
    ensures forall p, q :: 0 <= p <= i && p < q < a.Length ==> !Less(a[q], a[p])
    ensures multiset(a[..]) == multiset(old(a[..]))
  {
    var j := i + 1;
    while j < a.Length
      invariant i + 1 <= j <= a.Length
      invariant forall p, q :: 0 <= p < i && p < q < a.Length ==> !Less(a[q], a[p])
      invariant forall q :: i < q < j ==> !Less(a[q], a[i])
      invariant multiset(a[..]) == multiset(old(a[..]))
    {
      CompareSwap(a, i, j);
      j := j + 1;
    }
  }

  /** One inner step: swap a[i] and a[j] when a[j] is less, so a[i] stays
      below none of a[i+1..j]. */
  method CompareSwap(a: array<string>, i: nat, j: nat)
    requires i < j < a.Length
    requires forall p, q :: 0 <= p < i && p < q < a.Length ==> !Less(a[q], a[p])
    requires forall q :: i < q < j ==> !Less(a[q], a[i])
    modifies a
    ensures forall p, q :: 0 <= p < i && p < q < a.Length ==> !Less(a[q], a[p])
    ensures forall q :: i < q <= j ==> !Less(a[q], a[i])
    ensures multiset(a[..]) == multiset(old(a[..]))
  {
    if Less(a[j], a[i]) {
      ghost var before := a[..];
      a[i], a[j] := a[j], a[i];
      assert a[..] == before[i := before[j]][j := before[i]];
      SwapKeepsOrder(before, a[..], i, j);
    }
  }

  /** Exchanging s[i] with a lesser s[j] keeps the sorted prefix and leaves
      the new s[i] below none of s[i+1..j]. */
  lemma SwapKeepsOrder(s: seq<string>, t: seq<string>, i: nat, j: nat)
    requires i < j < |s| && t == s[i := s[j]][j := s[i]] && Less(s[j], s[i])
    requires forall p, q :: 0 <= p < i && p < q < |s| ==> !Less(s[q], s[p])
    requires forall q :: i < q < j ==> !Less(s[q], s[i])
    ensures forall p, q :: 0 <= p < i && p < q < |t| ==> !Less(t[q], t[p])
    ensures forall q :: i < q <= j ==> !Less(t[q], t[i])
    ensures multiset(t) == multiset(s)
  {
    forall q | i < q <= j ensures !Less(t[q], t[i]) {
      if q == j {
        LessAsymmetric(s[j], s[i]);
      } else if Less(s[q], s[j]) {
        LessTransitive(s[q], s[j], s[i]);
      }
    }
    forall p, q | 0 <= p < i && p < q < |t| ensures !Less(t[q], t[p]) {
      assert t[q] == s[if q == i then j else if q == j then i else q];
    }
  }

  /** The range over the header map, keeping the keys not excluded in
      visiting order. */
  method HashedKeys(headers: map<string, string>) returns (keys: seq<string>)
    ensures forall k :: k in keys <==> k in HashKeySet(headers)
    ensures Distinct(keys)
  {
    var rest := headers.Keys;
    keys := [];
    while rest != {}
      decreases rest
      invariant rest <= headers.Keys
      invariant forall k :: k in keys ==> k in HashKeySet(headers) && k !in rest
      invariant forall k :: k in HashKeySet(headers) ==> k in keys || k in rest
      invariant Distinct(keys)
    {
      var key :| key in rest;
      if key !in Excluded {
        keys := keys + [key];
      }
      rest := rest - {key};
    }
  }

  /** sort.Strings applied to a listing of a set without repeats: the
      members in ascending order. */
  method SortStrings(keys: seq<string>, ghost S: set<string>) returns (sorted: seq<string>)
    requires Distinct(keys)
    requires forall x :: x in keys <==> x in S
    ensures sorted == SortedSeq(S)
  {
    var a := new string[|keys|](i => if 0 <= i < |keys| then keys[i] else "");
    assert a[..] == keys;
    ExchangeSort(a);
    sorted := a[..];
    DistinctPermutation(keys, sorted);
    forall x ensures x in sorted <==> x in S {
      assert x in sorted <==> x in multiset(sorted);
      assert x in keys <==> x in multiset(keys);
    }
    SortedListingIsSortedSeq(sorted, S);
  }

  /** The fingerprint keys, listed from the map and then sorted. */
  method SortedHashKeys(headers: map<string, string>) returns (sorted: seq<string>)
    ensures sorted == HashKeys(headers)
  {
    var keys := HashedKeys(headers);
    sorted := SortStrings(keys, HashKeySet(headers));
  }

  method WriteHeaderHash(b: string, headers: map<string, string>, keys: seq<string>)
    returns (out: string)
    ensures out == b + HeaderHashText(headers, keys)
  {
    out := b;
    for i := 0 to |keys|
      invariant out == b + HeaderHashText(headers, keys[..i])
    {
      var key := keys[i];
      var piece := key + ":" + GetHeader(headers, key) + "\n";
      assert keys[..i + 1][..i] == keys[..i];
      Assoc(b, HeaderHashText(headers, keys[..i]), piece);
      out := out + piece;
    }
    assert keys[..|keys|] == keys;
  }

  method WriteEntryHash(b: string, e: Entry) returns (out: string)
    ensures out == b + EntryHashText(e)
  {
    ghost var fields := e.context + "\n" + e.msgId + "\n" + e.msgStr + "\n";
    out := b + e.context + "\n" + e.msgId + "\n" + e.msgStr + "\n";
    assert out == b + fields;
    out := PoMarshal.AppendComments(out, e.comments);
    Assoc(b, fields, PoMarshal.TextOf(e.comments));
    ghost var mid := fields + PoMarshal.TextOf(e.comments);
    Assoc(b, mid, "\n");
    out := out + "\n";
  }

  method WriteEntriesHash(b: string, es: seq<Entry>) returns (out: string)
    ensures out == b + EntriesHashText(es)
  {
    out := b;
    for i := 0 to |es|
      invariant out == b + EntriesHashText(es[..i])
    {
      assert es[..i + 1][..i] == es[..i];
      Assoc(b, EntriesHashText(es[..i]), EntryHashText(es[i]));
      out := WriteEntryHash(out, es[i]);
    }
    assert es[..|es|] == es;
  }

  /** computeContentHash: the digest of the language, the sorted
      non-volatile headers and the entries. */
  method ComputeContentHash(f: File, xxhash: string -> U64) returns (h: U64)
    ensures h == xxhash(HashInput(f.Snapshot()))
  {
    var text := f.language + "\n";
    var keys := SortedHashKeys(f.headers);
    text := WriteHeaderHash(text, f.headers, keys);
    text := WriteEntriesHash(text, f.entries);
    h := xxhash(text);
  }

  /** The rule both UpdateBuildHeaders and the template command use to decide
      whether content changed since a stored fingerprint: it is unchanged only
      when the stored text reads back as hex equal to the new value. */
  function Changed(stored: string, current: U64): (r: bool)
    ensures !r <==> stored != "" && ParseHex(stored) == Some(current)
  {
    if stored == "" then true
    else
      match ParseHex(stored)
      case None => true
      case Some(v) => current != v
  }

  /** Reading back a fingerprint written by the tool itself never reports a
      change. */
  lemma ChangedAfterWrite(h: U64)
    ensures !Changed(Hex16(h), h)
  {
    ParseHex16(h);
  }

  /** The two unconditional settings: X-Generator, and Project-Id-Version
      when given. */
  function Stamped(headers: map<string, string>, projectVersion: string, version: string)
    : (r: map<string, string>)
    ensures r.Keys == headers.Keys + {"X-Generator"} + (if projectVersion != "" then {"Project-Id-Version"} else {})
  {
    var h := headers["X-Generator" := "dayz-stringtable " + version];
    if projectVersion != "" then h["Project-Id-Version" := projectVersion] else h
  }

  /** The date headers set when content changed. */
  function Dated(headers: map<string, string>, language: string, now: string)
    : (r: map<string, string>)
  {
    if language == "" then
      if GetHeader(headers, "X-CSV-Hash") == "" then headers["POT-Creation-Date" := now] else headers
    else headers["PO-Revision-Date" := now]
  }

  /** The second half of UpdateBuildHeaders, on the stamped headers and the
      new fingerprint: dates and fingerprint are written only on a change. */
  function Refreshed(headers: map<string, string>, language: string, now: string, newHash: U64)
    : map<string, string>
  {
    if Changed(GetHeader(headers, "X-Content-Hash"), newHash) then
      Dated(headers, language, now)["X-Content-Hash" := Hex16(newHash)]
    else headers
  }

  /** The headers after UpdateBuildHeaders, given the build version, the
      clock reading `now` and the digest. */
  ghost function BuildHeaders(doc: Document, projectVersion: string, version: string, now: string,
                              xxhash: string -> U64): map<string, string>
  {
    var h := Stamped(doc.headers, projectVersion, version);
    Refreshed(h, doc.language, now, xxhash(HashInput(doc.(headers := h))))
  }

  /** UpdateBuildHeaders, with `vars.Info().Version` and the formatted clock
      passed in. */
  method UpdateBuildHeaders(f: File, projectVersion: string, version: string, now: string,
                            xxhash: string -> U64)
    modifies f
    ensures f.headers == BuildHeaders(old(f.Snapshot()), projectVersion, version, now, xxhash)
    ensures f.entries == old(f.entries) && f.language == old(f.language)
  {
    ghost var doc := f.Snapshot();
    f.SetHeader("X-Generator", "dayz-stringtable " + version);
    if projectVersion != "" {
      f.SetHeader("Project-Id-Version", projectVersion);
    }
    assert f.headers == Stamped(doc.headers, projectVersion, version);
    var newHash := ComputeContentHash(f, xxhash);
    var oldHashStr := GetHeader(f.headers, "X-Content-Hash");
    var contentChanged := true;
    if oldHashStr != "" {
      var parsed := ParseHex(oldHashStr);
      if parsed.Some? {
        contentChanged := newHash != parsed.value;
      }
    }
    assert contentChanged == Changed(oldHashStr, newHash);
    if contentChanged {
      if f.language == "" {
        if GetHeader(f.headers, "X-CSV-Hash") == "" {
          f.SetHeader("POT-Creation-Date", now);
        }
      } else {
        f.SetHeader("PO-Revision-Date", now);
      }
      f.SetHeader("X-Content-Hash", Hex16(newHash));
    }
  }

  /** Refreshing touches only the excluded headers. */
  lemma RefreshedKeeps(headers: map<string, string>, language: string, now: string, newHash: U64,
                       k: string)
    requires k !in Excluded
    ensures k in Refreshed(headers, language, now, newHash) <==> k in headers
    ensures GetHeader(Refreshed(headers, language, now, newHash), k) == GetHeader(headers, k)
  {
  }

  /** X-Generator always names the tool and its version; Project-Id-Version
      is set to a non-empty argument and otherwise left as it was. */
  lemma StampsSet(headers: map<string, string>, projectVersion: string, version: string,
                  language: string, now: string, newHash: U64)
    ensures var r := Refreshed(Stamped(headers, projectVersion, version), language, now, newHash);
            && "X-Generator" in r && r["X-Generator"] == "dayz-stringtable " + version
            && GetHeader(r, "Project-Id-Version")
               == if projectVersion != "" then projectVersion
                  else GetHeader(headers, "Project-Id-Version")
  {
    var h := Stamped(headers, projectVersion, version);
    RefreshedKeeps(h, language, now, newHash, "X-Generator");
    RefreshedKeeps(h, language, now, newHash, "Project-Id-Version");
  }

  /** When the stored fingerprint matches, nothing is refreshed: the dates
      and the fingerprint stay. */
  lemma UnchangedKeepsDates(headers: map<string, string>, language: string, now: string,
                            newHash: U64)
    requires !Changed(GetHeader(headers, "X-Content-Hash"), newHash)
    ensures Refreshed(headers, language, now, newHash) == headers
  {
  }

  /** When content changed: the fingerprint is rewritten as 16 lower-case hex
      digits, PO-Revision-Date is set for a translation, and for a template
      POT-Creation-Date is set unless X-CSV-Hash manages it. */
  lemma ChangedSetsDates(headers: map<string, string>, language: string, now: string,
                         newHash: U64)
    requires Changed(GetHeader(headers, "X-Content-Hash"), newHash)
    ensures var r := Refreshed(headers, language, now, newHash);
            && "X-Content-Hash" in r && r["X-Content-Hash"] == Hex16(newHash)
            && (language != "" ==>
                  GetHeader(r, "PO-Revision-Date") == now
                  && GetHeader(r, "POT-Creation-Date") == GetHeader(headers, "POT-Creation-Date"))
            && (language == "" ==>
                  GetHeader(r, "PO-Revision-Date") == GetHeader(headers, "PO-Revision-Date")
                  && GetHeader(r, "POT-Creation-Date")
                     == if GetHeader(headers, "X-CSV-Hash") == "" then now
                        else GetHeader(headers, "POT-Creation-Date"))
  {
  }

  /** The stamped headers survive the refresh, so stamping again does
      nothing. */
  lemma StampedAgain(doc: Document, projectVersion: string, version: string, now: string,
                     xxhash: string -> U64)
    ensures var r := BuildHeaders(doc, projectVersion, version, now, xxhash);
            Stamped(r, projectVersion, version) == r
  {
    var h := Stamped(doc.headers, projectVersion, version);
    StampsSet(doc.headers, projectVersion, version, doc.language, now,
              xxhash(HashInput(doc.(headers := h))));
  }

  /** The first call's result differs from the stamped headers only in
      excluded keys, so the fingerprint input is the same. */
  lemma SameHashInput(doc: Document, projectVersion: string, version: string, now: string,
                      xxhash: string -> U64)
    ensures var h := Stamped(doc.headers, projectVersion, version);
            var r := BuildHeaders(doc, projectVersion, version, now, xxhash);
            HashInput(doc.(headers := r)) == HashInput(doc.(headers := h))
  {
    var h := Stamped(doc.headers, projectVersion, version);
    var newHash := xxhash(HashInput(doc.(headers := h)));
    if Changed(GetHeader(h, "X-Content-Hash"), newHash) {
      var d := Dated(h, doc.language, now);
      if doc.language == "" {
        if GetHeader(h, "X-CSV-Hash") == "" {
          IgnoresExcluded(doc.(headers := h), "POT-Creation-Date", now);
        }
      } else {
        IgnoresExcluded(doc.(headers := h), "PO-Revision-Date", now);
      }
      IgnoresExcluded(doc.(headers := d), "X-Content-Hash", Hex16(newHash));
    }
  }

  /** A second UpdateBuildHeaders with the same arguments, at any later
      time, changes nothing. */
  lemma UpdateIdempotent(doc: Document, projectVersion: string, version: string, now: string,
                         later: string, xxhash: string -> U64)
    ensures var r := BuildHeaders(doc, projectVersion, version, now, xxhash);
            BuildHeaders(doc.(headers := r), projectVersion, version, later, xxhash) == r
  {
    var h := Stamped(doc.headers, projectVersion, version);
    var newHash := xxhash(HashInput(doc.(headers := h)));
    var r := BuildHeaders(doc, projectVersion, version, now, xxhash);
    StampedAgain(doc, projectVersion, version, now, xxhash);
    SameHashInput(doc, projectVersion, version, now, xxhash);
    assert doc.(headers := r).(headers := Stamped(r, projectVersion, version)) == doc.(headers := r);
    if Changed(GetHeader(h, "X-Content-Hash"), newHash) {
      ChangedAfterWrite(newHash);
    }
  }
}
