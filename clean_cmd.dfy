/** The clean command (internal/commands/clean.go): clear translations that
    merely copy the source text, mark them notranslate, drop entries whose
    key is no longer in the CSV, and list the touched languages in order. */
module CleanCmd {
  import opened Text
  import opened Wrappers
  import opened Order
  import opened Hex
  import opened PoFile
  import PoHeaders

  /** The command-line options the model needs. */
  datatype Options = Options(poDir: string, input: string, langs: seq<string>,
                             clearOnly: bool, removeUnused: bool)

  /** The argument check Execute makes before touching any file. */
  function CheckOptions(opts: Options): (r: Result<(), string>)
    ensures r.Err? <==> opts.removeUnused && opts.input == ""
    ensures r.Err? ==> Contains(r.error, "required")
  {
    if opts.removeUnused && opts.input == "" then
      var word := "required";
      Infix("--input is ", word, " when using --remove-unused");
      Err("--input is " + word + " when using --remove-unused")
    else Ok(())
  }

  /** The composite key of a (context, msgid) pair, joined by a bar. */
  function Key(context: string, msgId: string): string {
    context + "|" + msgId
  }

  /** The keys of the data rows that have at least two columns. */
  function RowKeys(data: seq<seq<string>>): set<string> {
    if data == [] then {}
    else
      var row := data[|data| - 1];
      RowKeys(data[..|data| - 1]) + (if |row| >= 2 then {Key(row[0], row[1])} else {})
  }

  /** A key is valid exactly when some data row with two columns spells it. */
  lemma {:induction false} RowKeysIff(data: seq<seq<string>>, k: string)
    ensures k in RowKeys(data)
      <==> exists i :: 0 <= i < |data| && |data[i]| >= 2 && k == Key(data[i][0], data[i][1])
  {
    if data != [] {
      var init := data[..|data| - 1];
      RowKeysIff(init, k);
      if exists i :: 0 <= i < |data| && |data[i]| >= 2 && k == Key(data[i][0], data[i][1]) {
        var i :| 0 <= i < |data| && |data[i]| >= 2 && k == Key(data[i][0], data[i][1]);
        if i < |init| {
          assert init[i] == data[i];
        }
      }
    }
  }

  /** The valid-key set Execute builds from the loaded CSV rows: the header
      row is skipped, and a CSV without a data row is an error. */
  method BuildValidKeys(rows: seq<seq<string>>) returns (r: Result<set<string>, string>)
    ensures |rows| < 2 <==> r.Err?
    ensures r.Ok? ==> r.value == RowKeys(rows[1..])
  {
    if |rows| < 2 {
      return Err("CSV must have header and at least one data row");
    }
    var keys: set<string> := {};
    var i := 1;
    while i < |rows|
      invariant 1 <= i <= |rows|
      invariant keys == RowKeys(rows[1..i])
    {
      var row := rows[i];
      assert rows[1..i + 1][..i - 1] == rows[1..i];
      if |row| >= 2 {
        keys := keys + {Key(row[0], row[1])};
      }
      i := i + 1;
    }
    assert rows[1..i] == rows[1..];
    r := Ok(keys);
  }

  /** The bar is not escaped, so two different pairs can share a key: a CSV
      row ("a|b", "c") keeps a PO entry with context "a" and msgid "b|c". */
  lemma KeyAmbiguous()
    ensures Key("a|b", "c") == Key("a", "b|c")
    ensures Key("a", "b|c") in RowKeys([["a|b", "c"]])
  {
    assert Key("a|b", "c") == "a|b|c";
    assert Key("a", "b|c") == "a|b|c";
    assert [["a|b", "c"]][..0] == [];
  }

  const Marker := "# notranslate"

  lemma MarkerMentions()
    ensures Contains(Marker, "notranslate")
  {
    assert "# " + "notranslate" + "" == Marker;
    Infix("# ", "notranslate", "");
  }

  /** A translation that only repeats its source text. */
  predicate IsCopy(e: Entry) {
    e.msgStr != "" && e.msgStr == e.msgId
  }

  /** The first pass's own test for an existing marker: a plain substring
      search in each comment. */
  predicate MentionsNoTranslate(comments: seq<string>) {
    exists i :: 0 <= i < |comments| && Contains(comments[i], "notranslate")
  }

  /** The comment scan of the first pass, which stops at the first hit. */
  method ScanComments(comments: seq<string>) returns (found: bool)
    ensures found <==> MentionsNoTranslate(comments)
  {
    found := false;
    var c := 0;
    while c < |comments|
      invariant 0 <= c <= |comments|
      invariant !found
      invariant forall j :: 0 <= j < c ==> !Contains(comments[j], "notranslate")
    {
      if Contains(comments[c], "notranslate") {
        found := true;
        return;
      }
      c := c + 1;
    }
  }

  /** One entry after the first pass. */
  function Cleared(e: Entry, clearOnly: bool): (r: Entry)
    ensures !IsCopy(r)
    ensures r.context == e.context && r.msgId == e.msgId
    ensures !IsCopy(e) ==> r == e
    ensures IsCopy(e) ==> r.msgStr == ""
    ensures r.comments == e.comments || r.comments == [Marker] + e.comments
    ensures IsCopy(e) && !clearOnly ==> MentionsNoTranslate(r.comments)
    ensures clearOnly ==> r.comments == e.comments
  {
    if !IsCopy(e) then e
    else if clearOnly || MentionsNoTranslate(e.comments) then e.(msgStr := "")
    else
      MarkerMentions();
      assert ([Marker] + e.comments)[0] == Marker;
      e.(msgStr := "", comments := [Marker] + e.comments)
  }

  /** The entries after the first pass. */
  function ClearedAll(es: seq<Entry>, clearOnly: bool): (r: seq<Entry>)
    ensures |r| == |es|
    ensures forall j :: 0 <= j < |r| ==> r[j] == Cleared(es[j], clearOnly)
  {
    seq(|es|, j requires 0 <= j < |es| => Cleared(es[j], clearOnly))
  }

  /** How many entries are copies. */
  function CopyCount(es: seq<Entry>): nat {
    if es == [] then 0
    else CopyCount(es[..|es| - 1]) + (if IsCopy(es[|es| - 1]) then 1 else 0)
  }

  /** The count is zero exactly when no entry is a copy. */
  lemma {:induction false} CopyCountZero(es: seq<Entry>)
    ensures CopyCount(es) == 0 <==> forall j :: 0 <= j < |es| ==> !IsCopy(es[j])
  {
    if es != [] {
      var init := es[..|es| - 1];
      CopyCountZero(init);
      assert forall j :: 0 <= j < |init| ==> init[j] == es[j];
    }
  }

  /** The first pass: every copy loses its msgstr and, unless clearOnly or
      a comment already mentions it, gains the notranslate marker in front
      of its comments; `cleaned` counts the copies. */
  method ClearCopies(f: File, clearOnly: bool) returns (cleaned: nat)
    modifies f
    ensures f.entries == ClearedAll(old(f.entries), clearOnly)
    ensures cleaned == CopyCount(old(f.entries))
    ensures f.headers == old(f.headers) && f.language == old(f.language)
  {
    ghost var es := f.entries;
    cleaned := 0;
    var i := 0;
    assert es[..0] == [] && es[0..] == es;
    while i < |f.entries|
      invariant 0 <= i <= |es|
      invariant f.entries == ClearedAll(es[..i], clearOnly) + es[i..]
      invariant cleaned == CopyCount(es[..i])
      invariant f.headers == old(f.headers) && f.language == old(f.language)
    {
      CopyCountSnoc(es, i);
      ClearedStep(es, i, clearOnly);
      var entry := f.entries[i];
      if entry.msgStr != "" && entry.msgStr == entry.msgId {
        entry := ClearCopy(entry, clearOnly);
        cleaned := cleaned + 1;
        f.entries := f.entries[i := entry];
      }
      i := i + 1;
    }
    assert es[..i] == es;
  }

  /** The loop's state after one more entry: position i takes its cleared
      form, which is the entry itself unless it is a copy. */
  lemma ClearedStep(es: seq<Entry>, i: nat, clearOnly: bool)
    requires i < |es|
    ensures var s := ClearedAll(es[..i], clearOnly) + es[i..];
      && |s| == |es| && s[i] == es[i]
      && ClearedAll(es[..i + 1], clearOnly) + es[i + 1..] == s[i := Cleared(es[i], clearOnly)]
      && (!IsCopy(es[i]) ==> s == ClearedAll(es[..i + 1], clearOnly) + es[i + 1..])
  {
    var s := ClearedAll(es[..i], clearOnly) + es[i..];
    var t := ClearedAll(es[..i + 1], clearOnly) + es[i + 1..];
    assert |t| == |s|;
    forall j | 0 <= j < |s| ensures t[j] == s[i := Cleared(es[i], clearOnly)][j] {
      if j < i {
        assert es[..i + 1][j] == es[..i][j];
      } else if j == i {
        assert es[..i + 1][i] == es[i];
      } else {
        assert es[i + 1..][j - i - 1] == es[i..][j - i];
      }
    }
  }

  /** The edits of the first pass on one copy. */
  method ClearCopy(entry: Entry, clearOnly: bool) returns (r: Entry)
    requires IsCopy(entry)
    ensures r == Cleared(entry, clearOnly)
  {
    r := entry.(msgStr := "");
    if !clearOnly {
      var hasNoTranslate := ScanComments(r.comments);
      if !hasNoTranslate {
        r := r.(comments := [Marker] + r.comments);
      }
    }
  }

  lemma CopyCountSnoc(es: seq<Entry>, i: nat)
    requires i < |es|
    ensures CopyCount(es[..i + 1]) == CopyCount(es[..i]) + if IsCopy(es[i]) then 1 else 0
  {
    assert es[..i + 1][..i] == es[..i];
  }

  /** With no copy, the first pass changes nothing. */
  lemma NoCopyNoChange(es: seq<Entry>, clearOnly: bool)
    requires CopyCount(es) == 0
    ensures ClearedAll(es, clearOnly) == es
  {
    CopyCountZero(es);
  }

  /** The marker that the first pass prepends is one that HasNoTranslate
      recognises, so a cleared entry then counts as done. */
  lemma MarkedIsNoTranslate(e: Entry)
    requires IsCopy(e) && !MentionsNoTranslate(e.comments)
    ensures HasNoTranslate(Cleared(e, false))
  {
    var r := Cleared(e, false);
    assert r.comments[0] == Marker;
    assert IsTrimmed(Marker);
    TrimSpaceOfTrimmed(Marker);
    assert !HasPrefix(Marker, "#,") by {
      assert Marker[..2][1] == ' ';
    }
    assert HasPrefix(Marker, "#") by {
      assert Marker[..1] == "#";
    }
    MarkerMentions();
    assert NoTranslateComment(r.comments[0]);
  }

  /** The key of an entry. */
  function EntryKey(e: Entry): string {
    Key(e.context, e.msgId)
  }

  /** The entries the second pass keeps, in their original order. */
  function Used(es: seq<Entry>, keys: set<string>): (r: seq<Entry>)
    ensures |r| <= |es|
    ensures forall j :: 0 <= j < |r| ==> EntryKey(r[j]) in keys
    ensures forall j :: 0 <= j < |es| && EntryKey(es[j]) in keys ==> es[j] in r
    ensures forall x :: x in r ==> x in es
  {
    if es == [] then []
    else
      var init := es[..|es| - 1];
      var last := es[|es| - 1];
      assert forall j :: 0 <= j < |init| ==> es[j] == init[j];
      if EntryKey(last) in keys then Used(init, keys) + [last] else Used(init, keys)
  }

  /** Filtering works piecewise, so the kept entries keep their order. */
  lemma {:induction false} UsedAppend(a: seq<Entry>, b: seq<Entry>, keys: set<string>)
    ensures Used(a + b, keys) == Used(a, keys) + Used(b, keys)
    decreases |b|
  {
    if b == [] {
      assert a + b == a;
    } else {
      var init := b[..|b| - 1];
      assert (a + b)[..|a + b| - 1] == a + init;
      UsedAppend(a, init, keys);
    }
  }

  /** Nothing is dropped exactly when every key is valid. */
  lemma {:induction false} UsedAll(es: seq<Entry>, keys: set<string>)
    ensures Used(es, keys) == es <==> forall j :: 0 <= j < |es| ==> EntryKey(es[j]) in keys
  {
    if es != [] {
      var init := es[..|es| - 1];
      UsedAll(init, keys);
      assert forall j :: 0 <= j < |init| ==> es[j] == init[j];
      if EntryKey(es[|es| - 1]) in keys {
        InitLast(es);
        if Used(es, keys) == es {
          assert Used(init, keys) == (Used(init, keys) + [es[|es| - 1]])[..|es| - 1];
        }
      } else {
        assert |Used(init, keys)| <= |init| < |es|;
      }
    }
  }

  /** A filter that keeps as many entries as it was given keeps them all. */
  lemma {:induction false} UsedFull(es: seq<Entry>, keys: set<string>)
    requires |Used(es, keys)| == |es|
    ensures Used(es, keys) == es
  {
    if es != [] {
      var init := es[..|es| - 1];
      if EntryKey(es[|es| - 1]) in keys {
        UsedFull(init, keys);
        InitLast(es);
      }
    }
  }

  /** Removing unused entries a second time drops nothing more. */
  lemma UsedIdempotent(es: seq<Entry>, keys: set<string>)
    ensures Used(Used(es, keys), keys) == Used(es, keys)
  {
    UsedAll(Used(es, keys), keys);
  }

  /** How many entries have a key outside the set. */
  function UnusedCount(es: seq<Entry>, keys: set<string>): nat {
    if es == [] then 0
    else UnusedCount(es[..|es| - 1], keys) + (if EntryKey(es[|es| - 1]) in keys then 0 else 1)
  }

  /** The second pass drops exactly the entries with an unknown key. */
  lemma {:induction false} UsedDropsUnused(es: seq<Entry>, keys: set<string>)
    ensures |es| - |Used(es, keys)| == UnusedCount(es, keys)
  {
    if es != [] {
      UsedDropsUnused(es[..|es| - 1], keys);
    }
  }

  lemma UsedSnoc(es: seq<Entry>, i: nat, keys: set<string>)
    requires i < |es|
    ensures Used(es[..i + 1], keys) == Used(es[..i], keys) + if EntryKey(es[i]) in keys then [es[i]] else []
    ensures UnusedCount(es[..i + 1], keys) == UnusedCount(es[..i], keys) + if EntryKey(es[i]) in keys then 0 else 1
  {
    var d := es[..i + 1];
    assert |d| - 1 == i && d[..i] == es[..i] && d[i] == es[i];
  }

  /** The second pass: keep the entries whose key is valid, in order, and
      count the others. */
  method DropUnused(f: File, keys: set<string>) returns (removed: nat)
    modifies f
    ensures f.entries == Used(old(f.entries), keys)
    ensures removed == UnusedCount(old(f.entries), keys)
    ensures f.headers == old(f.headers) && f.language == old(f.language)
  {
    var es := f.entries;
    var filtered: seq<Entry> := [];
    removed := 0;
    var i := 0;
    while i < |es|
      invariant 0 <= i <= |es|
      invariant filtered == Used(es[..i], keys)
      invariant removed == UnusedCount(es[..i], keys)
      invariant unchanged(f)
    {
      UsedSnoc(es, i, keys);
      var entry := es[i];
      if EntryKey(entry) in keys {
        filtered := filtered + [entry];
      } else {
        removed := removed + 1;
      }
      i := i + 1;
    }
    assert es[..i] == es;
    f.entries := filtered;
  }

  /** The entries after both passes; the second runs only when
      --remove-unused is given and the key set was built. */
  function CleanedEntries(es: seq<Entry>, clearOnly: bool, removeUnused: bool,
                          validKeys: Option<set<string>>): (r: seq<Entry>)
    ensures forall j :: 0 <= j < |r| ==> !IsCopy(r[j])
    ensures removeUnused && validKeys.Some? ==> forall j :: 0 <= j < |r| ==> EntryKey(r[j]) in validKeys.value
  {
    var cleared := ClearedAll(es, clearOnly);
    assert forall x :: x in cleared ==> !IsCopy(x);
    if removeUnused && validKeys.Some? then Used(cleared, validKeys.value) else cleared
  }

  /** What a run removes from the entries. */
  function RemovedCount(es: seq<Entry>, clearOnly: bool, removeUnused: bool,
                        validKeys: Option<set<string>>): nat {
    if removeUnused && validKeys.Some? then UnusedCount(ClearedAll(es, clearOnly), validKeys.value) else 0
  }

  /** The two passes over a loaded file, with their counts. */
  method RunPasses(f: File, clearOnly: bool, removeUnused: bool, validKeys: Option<set<string>>)
    returns (cleaned: nat, removed: nat)
    modifies f
    ensures f.entries == CleanedEntries(old(f.entries), clearOnly, removeUnused, validKeys)
    ensures cleaned == CopyCount(old(f.entries))
    ensures removed == RemovedCount(old(f.entries), clearOnly, removeUnused, validKeys)
    ensures f.headers == old(f.headers) && f.language == old(f.language)
  {
    cleaned := ClearCopies(f, clearOnly);
    removed := 0;
    if removeUnused && validKeys.Some? {
      removed := DropUnused(f, validKeys.value);
    }
  }

  /** When neither pass counts anything, the entries are what they were. */
  lemma NothingCounted(es: seq<Entry>, clearOnly: bool, removeUnused: bool,
                       validKeys: Option<set<string>>)
    requires CopyCount(es) == 0 && RemovedCount(es, clearOnly, removeUnused, validKeys) == 0
    ensures CleanedEntries(es, clearOnly, removeUnused, validKeys) == es
  {
    NoCopyNoChange(es, clearOnly);
    if removeUnused && validKeys.Some? {
      UsedDropsUnused(es, validKeys.value);
      UsedFull(es, validKeys.value);
    }
  }

  /** cleanPOFile on a loaded file: both passes, then, only when something
      changed, the build headers are refreshed with an empty project
      version; otherwise the file is left exactly as it was. Writing the
      file back is not part of this model. */
  method CleanPOFile(f: File, clearOnly: bool, removeUnused: bool, validKeys: Option<set<string>>,
                     version: string, now: string, xxhash: string -> U64)
    returns (cleaned: nat, removed: nat)
    modifies f
    ensures cleaned == CopyCount(old(f.entries))
    ensures removed == RemovedCount(old(f.entries), clearOnly, removeUnused, validKeys)
    ensures cleaned == 0 && removed == 0 ==> f.Snapshot() == old(f.Snapshot())
    ensures cleaned > 0 || removed > 0 ==>
      var es := CleanedEntries(old(f.entries), clearOnly, removeUnused, validKeys);
      f.entries == es && f.language == old(f.language)
      && f.headers == PoHeaders.BuildHeaders(Document(old(f.headers), old(f.language), es),
                                             "", version, now, xxhash)
  {
    cleaned, removed := RunPasses(f, clearOnly, removeUnused, validKeys);
    if cleaned == 0 && removed == 0 {
      NothingCounted(old(f.entries), clearOnly, removeUnused, validKeys);
      return 0, 0;
    }
    PoHeaders.UpdateBuildHeaders(f, "", version, now, xxhash);
  }

  /** Cleaning the result of a clean finds nothing to clear and nothing to
      remove, so the second run leaves the file alone. */
  lemma SecondRunNoOp(es: seq<Entry>, clearOnly: bool, removeUnused: bool,
                      validKeys: Option<set<string>>)
    ensures var once := CleanedEntries(es, clearOnly, removeUnused, validKeys);
      CopyCount(once) == 0 && RemovedCount(once, clearOnly, removeUnused, validKeys) == 0
  {
    var once := CleanedEntries(es, clearOnly, removeUnused, validKeys);
    CopyCountZero(once);
    NoCopyNoChange(once, clearOnly);
    if removeUnused && validKeys.Some? {
      UsedIdempotent(ClearedAll(es, clearOnly), validKeys.value);
      UsedDropsUnused(once, validKeys.value);
    }
  }

  /** Adds the keys of one count map to a set, one range step at a time. */
  method AddKeys(langSet: set<string>, m: map<string, int>) returns (r: set<string>)
    ensures r == langSet + m.Keys
  {
    r := langSet;
    var rest := m.Keys;
    while rest != {}
      decreases rest
      invariant rest <= m.Keys
      invariant r + rest == langSet + m.Keys
    {
      var l :| l in rest;
      r := r + {l};
      rest := rest - {l};
    }
  }

  /** The range over a set, listing each member once in visiting order. */
  method Listing(langSet: set<string>) returns (langs: seq<string>)
    ensures Distinct(langs)
    ensures forall l :: l in langs <==> l in langSet
  {
    langs := [];
    var rest := langSet;
    while rest != {}
      decreases rest
      invariant rest <= langSet
      invariant forall l :: l in langs ==> l in langSet && l !in rest
      invariant forall l :: l in langSet ==> l in langs || l in rest
      invariant Distinct(langs)
    {
      var l :| l in rest;
      langs := langs + [l];
      rest := rest - {l};
    }
  }

  /** orderLangs: every language with a cleaned or a removed count, once
      each, in ascending order. */
  method OrderLangs(cleaned: map<string, int>, removed: map<string, int>) returns (langs: seq<string>)
    ensures langs == SortedSeq(cleaned.Keys + removed.Keys)
    ensures StrictlySorted(langs)
    ensures forall l :: l in langs <==> l in cleaned || l in removed
  {
    var langSet := AddKeys({}, cleaned);
    langSet := AddKeys(langSet, removed);
    assert langSet == cleaned.Keys + removed.Keys;
    var listed := Listing(langSet);
    langs := PoHeaders.SortStrings(listed, langSet);
  }
}
