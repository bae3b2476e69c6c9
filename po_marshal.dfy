/** The serializer of internal/poutil/po.go (MarshalText): the header entry
    with the standard headers in a fixed order and the others in map order,
    then every entry as comments, msgctxt, msgid and msgstr lines and a blank
    line. `MarshalLines` gives the output as lines; `TextOf` joins lines the
    way the builder does, each one followed by a newline. */
module PoMarshal {
  import opened Text
  import opened PoFile
  import opened PoCodec
  import opened Order

  /** The headers written first, in this order, when present. */
  const StandardHeaders: seq<string> := [
    "Project-Id-Version", "POT-Creation-Date", "PO-Revision-Date", "Last-Translator",
    "Language-Team", "Language", "MIME-Version", "Content-Type",
    "Content-Transfer-Encoding", "X-Generator"]

  /** Text made of lines, each one terminated by a newline. */
  function TextOf(lines: seq<string>): string {
    if lines == [] then [] else TextOf(lines[..|lines| - 1]) + lines[|lines| - 1] + "\n"
  }

  lemma {:induction false} TextOfAppend(a: seq<string>, b: seq<string>)
    ensures TextOf(a + b) == TextOf(a) + TextOf(b)
    decreases |b|
  {
    if b == [] {
      assert a + b == a;
    } else {
      assert (a + b)[..|a + b| - 1] == a + b[..|b| - 1];
      TextOfAppend(a, b[..|b| - 1]);
    }
  }

  /** bufio.ScanLines, without its removal of a trailing carriage return:
      the text cut at every newline, a final empty piece not counted. */
  function SplitLines(text: string): seq<string> {
    if text == [] then []
    else
      var parts := Split(text, "\n");
      if parts[|parts| - 1] == [] then parts[..|parts| - 1] else parts
  }

  /** Lines without newlines come back from their text unchanged. */
  lemma SplitLinesOfText(lines: seq<string>)
    requires forall i :: 0 <= i < |lines| ==> '\n' !in lines[i]
    ensures SplitLines(TextOf(lines)) == lines
  {
    SplitText(lines);
    if lines != [] {
      assert |TextOf(lines)| > 0 by {
        assert TextOf(lines) == TextOf(lines[..|lines| - 1]) + lines[|lines| - 1] + "\n";
      }
      assert (lines + [""])[..|lines|] == lines;
    }
  }

  /** Splitting the text at newlines gives the lines and one empty piece. */
  lemma {:induction false} SplitText(lines: seq<string>)
    requires forall i :: 0 <= i < |lines| ==> '\n' !in lines[i]
    ensures Split(TextOf(lines), "\n") == lines + [""]
    decreases |lines|
  {
    if lines == [] {
      assert IndexOf("", "\n") == -1;
    } else {
      var rest := lines[1..];
      SplitText(rest);
      TextOfAppend([lines[0]], rest);
      assert lines == [lines[0]] + rest;
      assert TextOf([lines[0]]) == lines[0] + "\n" by {
        assert [lines[0]][..0] == [];
      }
      SplitAfterLine(lines[0], TextOf(rest));
      assert lines + [""] == [lines[0]] + (rest + [""]);
    }
  }

  /** A line without newline, its newline and what follows split apart. */
  lemma SplitAfterLine(line: string, rest: string)
    requires '\n' !in line
    ensures Split(line + "\n" + rest, "\n") == [line] + Split(rest, "\n")
  {
    var s := line + "\n" + rest;
    assert s[|line|..|line| + 1] == "\n";
    forall j: nat | j < |line| ensures !OccursAt(s, "\n", j) {
      assert s[j] == line[j];
      if j + 1 <= |s| {
        assert s[j..j + 1][0] == s[j];
      }
    }
    IndexOfFirst(s, "\n", |line|);
    assert s[..|line|] == line;
    assert s[|line| + 1..] == rest;
  }

  /** A header as the header entry's msgstr holds it. */
  function HeaderRecord(key: string, value: string): string {
    key + ": " + value + "\n"
  }

  /** A header line: the record, header-escaped, in quotes. */
  function HeaderLine(key: string, value: string): string {
    "\"" + EscapeHeader(HeaderRecord(key, value)) + "\""
  }

  /** The keys of `keys` present in the map, in the order of `keys`. */
  function PresentKeys(headers: map<string, string>, keys: seq<string>): seq<string> {
    if keys == [] then []
    else
      var init := PresentKeys(headers, keys[..|keys| - 1]);
      if keys[|keys| - 1] in headers then init + [keys[|keys| - 1]] else init
  }

  /** Exactly the listed keys the map holds. */
  lemma {:induction false} PresentKeysMembers(headers: map<string, string>, keys: seq<string>)
    ensures forall k :: k in PresentKeys(headers, keys) <==> k in keys && k in headers
    decreases |keys|
  {
    if keys != [] {
      var init := keys[..|keys| - 1];
      PresentKeysMembers(headers, init);
      assert keys == init + [keys[|keys| - 1]];
    }
  }

  /** The line `line` gives for each key, in the order of the keys. */
  function MapLines(line: string -> string, keys: seq<string>): (r: seq<string>)
    ensures |r| == |keys|
    ensures forall i :: 0 <= i < |keys| ==> r[i] == line(keys[i])
  {
    seq(|keys|, i requires 0 <= i < |keys| => line(keys[i]))
  }

  /** The header line for a key, with the key's value. */
  function HeaderLineOf(headers: map<string, string>): string -> string {
    key => HeaderLine(key, GetHeader(headers, key))
  }

  /** The header lines for `keys`, in that order. */
  function HeaderLines(headers: map<string, string>, keys: seq<string>): seq<string> {
    MapLines(HeaderLineOf(headers), keys)
  }

  /** `order` lists, once each, the headers that are not standard: one of
      the orders Go's map iteration may take. */
  predicate IsRestOrder(headers: map<string, string>, order: seq<string>) {
    Distinct(order)
    && (forall k :: k in order ==> k in headers && k !in StandardHeaders)
    && (forall k :: k in headers && k !in StandardHeaders ==> k in order)
  }

  /** The order headers are written in. */
  function HeaderOrder(headers: map<string, string>, order: seq<string>): seq<string>
    requires IsRestOrder(headers, order)
  {
    PresentKeys(headers, StandardHeaders) + order
  }

  /** One msgctxt/msgid/msgstr field: the keyword on the first quoted line,
      the other quoted lines on their own. */
  function FieldLines(keyword: string, s: string): seq<string> {
    var q := QuotedLines(s);
    [keyword + q[0]] + q[1..]
  }

  /** The lines of one entry, the blank separator included. */
  function EntryLines(e: Entry): seq<string> {
    e.comments
    + (if e.context != "" then FieldLines("msgctxt ", e.context) else [])
    + FieldLines("msgid ", e.msgId)
    + FieldLines("msgstr ", e.msgStr)
    + [""]
  }

  function EntriesLines(es: seq<Entry>): seq<string> {
    if es == [] then [] else EntriesLines(es[..|es| - 1]) + EntryLines(es[|es| - 1])
  }

  /** The opening lines of the header entry. */
  const HeaderIntro: seq<string> := ["msgid \"\"", "msgstr \"\""]

  /** Everything MarshalText writes, as lines. */
  function MarshalLines(doc: Document, order: seq<string>): seq<string>
    requires IsRestOrder(doc.headers, order)
  {
    HeaderIntro + HeaderLines(doc.headers, HeaderOrder(doc.headers, order)) + [""]
    + EntriesLines(doc.entries)
  }

  /** Every header is written exactly once, the standard ones before all
      the others. */
  lemma HeaderOrderExact(headers: map<string, string>, order: seq<string>)
    requires IsRestOrder(headers, order)
    ensures forall k :: k in HeaderOrder(headers, order) <==> k in headers
    ensures Distinct(HeaderOrder(headers, order))
    ensures var ks := HeaderOrder(headers, order);
      forall i :: 0 <= i < |ks| && ks[i] in StandardHeaders ==>
        forall j :: 0 <= j < i ==> ks[j] in StandardHeaders
  {
    var p := PresentKeys(headers, StandardHeaders);
    PresentKeysDistinct(headers, StandardHeaders);
    PresentKeysMembers(headers, StandardHeaders);
    var ks := p + order;
    forall i, j | 0 <= i < j < |ks| ensures ks[i] != ks[j] {
      if j < |p| {
        assert ks[i] == p[i] && ks[j] == p[j];
      } else if i < |p| {
        assert ks[i] in p && ks[j] == order[j - |p|];
      } else {
        assert ks[i] == order[i - |p|] && ks[j] == order[j - |p|];
      }
    }
    forall i | 0 <= i < |ks| && ks[i] in StandardHeaders
      ensures forall j :: 0 <= j < i ==> ks[j] in StandardHeaders
    {
      assert ks[i] !in order;
      forall j | 0 <= j < i ensures ks[j] in StandardHeaders {
        assert ks[j] in p;
      }
    }
  }

  lemma {:induction false} PresentKeysDistinct(headers: map<string, string>, keys: seq<string>)
    requires Distinct(keys)
    ensures Distinct(PresentKeys(headers, keys))
    decreases |keys|
  {
    if keys != [] {
      var init := keys[..|keys| - 1];
      PresentKeysDistinct(headers, init);
      PresentKeysMembers(headers, init);
      var last := keys[|keys| - 1];
      var r0 := PresentKeys(headers, init);
      assert last !in init;
      assert last !in r0;
      if last in headers {
        var r := r0 + [last];
        assert PresentKeys(headers, keys) == r;
        forall i, j | 0 <= i < j < |r| ensures r[i] != r[j] {
          if j == |r0| {
            assert r[i] == r0[i] && r0[i] in r0 && r[j] == last;
          } else {
            assert r[i] == r0[i] && r[j] == r0[j];
          }
        }
      } else {
        assert PresentKeys(headers, keys) == r0;
      }
    }
  }

  /** The text MarshalText writes for one field: the keyword, the quoted
      form, a newline. */
  function FieldText(keyword: string, s: string): string {
    keyword + Join(QuotedLines(s), "\n") + "\n"
  }

  /** The lines of a field, as text, are the field's text. */
  lemma FieldLinesText(keyword: string, s: string)
    ensures TextOf(FieldLines(keyword, s)) == FieldText(keyword, s)
  {
    QuotedText(keyword, QuotedLines(s));
  }

  /** The text written for one entry, part by part. */
  function EntryText(e: Entry): string {
    TextOf(e.comments)
    + (if e.context != "" then FieldText("msgctxt ", e.context) else "")
    + FieldText("msgid ", e.msgId) + FieldText("msgstr ", e.msgStr) + "\n"
  }

  /** The entry's lines, as text, are the entry's text. */
  lemma EntryLinesText(e: Entry)
    ensures TextOf(EntryLines(e)) == EntryText(e)
  {
    var ctx := if e.context != "" then FieldLines("msgctxt ", e.context) else [];
    var id := FieldLines("msgid ", e.msgId);
    var str := FieldLines("msgstr ", e.msgStr);
    assert EntryLines(e) == e.comments + ctx + id + str + [""];
    TextOfAppend(e.comments + ctx + id + str, [""]);
    TextOfAppend(e.comments + ctx + id, str);
    TextOfAppend(e.comments + ctx, id);
    TextOfAppend(e.comments, ctx);
    if e.context != "" {
      FieldLinesText("msgctxt ", e.context);
    }
    FieldLinesText("msgid ", e.msgId);
    FieldLinesText("msgstr ", e.msgStr);
    assert TextOf([""]) == "\n" by {
      assert [""][..0] == [];
    }
  }

  /** One more line, terminated by its newline. */
  lemma LineText(out: string, b: string, before: seq<string>, line: string)
    requires out == b + TextOf(before)
    ensures out + line + "\n" == b + TextOf(before + [line])
  {
    assert (before + [line])[..|before|] == before;
  }

  lemma {:induction false} QuotedText(keyword: string, q: seq<string>)
    requires |q| >= 1
    ensures TextOf([keyword + q[0]] + q[1..]) == keyword + Join(q, "\n") + "\n"
    decreases |q|
  {
    if |q| == 1 {
      assert [keyword + q[0]] + q[1..] == [keyword + q[0]];
      assert [keyword + q[0]][..0] == [];
    } else {
      var init := q[..|q| - 1];
      QuotedText(keyword, init);
      assert ([keyword + q[0]] + q[1..])[..|q| - 1] == [keyword + init[0]] + init[1..];
      JoinSnoc(init, q[|q| - 1], "\n");
      assert init + [q[|q| - 1]] == q;
    }
  }

  /** One header line as the builder writes it, newline included. */
  method AppendHeaderLine(b: string, key: string, value: string) returns (out: string)
    ensures out == b + (HeaderLine(key, value) + "\n")
  {
    var line := "\"";
    line := AppendEscapedHeader(line, HeaderRecord(key, value));
    line := line + "\"";
    out := b + line + "\n";
  }

  /** One field: the keyword, the quoted value, a newline. */
  method AppendField(b: string, keyword: string, s: string) returns (out: string)
    ensures out == b + FieldText(keyword, s)
  {
    out := b + keyword;
    out := WriteQuotedString(out, s);
    out := out + "\n";
  }

  /** Writes each comment line followed by a newline. */
  method AppendComments(b: string, comments: seq<string>) returns (out: string)
    ensures out == b + TextOf(comments)
  {
    out := b;
    var c := 0;
    while c < |comments|
      invariant 0 <= c <= |comments|
      invariant out == b + TextOf(comments[..c])
    {
      LineText(out, b, comments[..c], comments[c]);
      assert comments[..c + 1] == comments[..c] + [comments[c]];
      out := out + comments[c] + "\n";
      c := c + 1;
    }
    assert comments[..c] == comments;
  }

  /** The entry's text split at its optional context part. */
  lemma EntryTextParts(e: Entry, context: string)
    requires context == if e.context != "" then FieldText("msgctxt ", e.context) else ""
    ensures EntryText(e) == TextOf(e.comments) + context + FieldText("msgid ", e.msgId)
                            + FieldText("msgstr ", e.msgStr) + "\n"
  {
  }

  /** Writes one entry: comments, the optional context, the id, the translation
      and a blank line. */
  method AppendEntry(b: string, entry: Entry) returns (out: string)
    ensures out == b + EntryText(entry)
  {
    out := AppendComments(b, entry.comments);
    ghost var t := TextOf(entry.comments);
    ghost var context := "";
    ghost var c0 := out;
    if entry.context != "" {
      out := AppendField(out, "msgctxt ", entry.context);
      context := FieldText("msgctxt ", entry.context);
    }
    assert out == b + t + context;
    ghost var id := FieldText("msgid ", entry.msgId);
    ghost var str := FieldText("msgstr ", entry.msgStr);
    out := AppendField(out, "msgid ", entry.msgId);
    out := AppendField(out, "msgstr ", entry.msgStr);
    out := out + "\n";
    Regroup(b, t, context, id, str, "\n");
    EntryTextParts(entry, context);
  }

  lemma Regroup(b: string, t: string, c: string, i: string, s: string, n: string)
    ensures b + t + c + i + s + n == b + (t + c + i + s + n)
  {
  }

  /** The text of the lines `line` gives for the keys, each followed by a
      newline. */
  function TextMap(line: string -> string, keys: seq<string>): string {
    if keys == [] then "" else TextMap(line, keys[..|keys| - 1]) + line(keys[|keys| - 1]) + "\n"
  }

  lemma {:induction false} TextMapAppend(line: string -> string, a: seq<string>, c: seq<string>)
    ensures TextMap(line, a + c) == TextMap(line, a) + TextMap(line, c)
    decreases |c|
  {
    if c == [] {
      assert a + c == a;
    } else {
      assert (a + c)[..|a + c| - 1] == a + c[..|c| - 1];
      TextMapAppend(line, a, c[..|c| - 1]);
    }
  }

  lemma TextMapSnoc(line: string -> string, keys: seq<string>, key: string)
    ensures TextMap(line, keys + [key]) == TextMap(line, keys) + (line(key) + "\n")
  {
    assert (keys + [key])[..|keys|] == keys;
  }

  /** The text of mapped lines is the text of the line sequence. */
  lemma {:induction false} MapLinesText(line: string -> string, keys: seq<string>)
    ensures TextOf(MapLines(line, keys)) == TextMap(line, keys)
    decreases |keys|
  {
    if keys != [] {
      var init := keys[..|keys| - 1];
      MapLinesText(line, init);
      assert MapLines(line, keys)[..|keys| - 1] == MapLines(line, init);
    }
  }

  /** The text of the header lines for `keys`, in that order. */
  function HeadersText(headers: map<string, string>, keys: seq<string>): string {
    TextMap(HeaderLineOf(headers), keys)
  }

  /** The text of the entries, one after the other. */
  function EntriesText(es: seq<Entry>): string {
    if es == [] then "" else EntriesText(es[..|es| - 1]) + EntryText(es[|es| - 1])
  }

  lemma {:induction false} EntriesLinesText(es: seq<Entry>)
    ensures TextOf(EntriesLines(es)) == EntriesText(es)
    decreases |es|
  {
    if es != [] {
      var init := es[..|es| - 1];
      EntriesLinesText(init);
      TextOfAppend(EntriesLines(init), EntryLines(es[|es| - 1]));
      EntryLinesText(es[|es| - 1]);
    }
  }

  /** The text of the header entry's opening lines. */
  lemma IntroText()
    ensures TextOf(HeaderIntro) == "msgid \"\"\n" + "msgstr \"\"\n"
  {
    var a, b := "msgid \"\"", "msgstr \"\"";
    assert HeaderIntro == [a, b];
    assert [a, b][..1] == [a] && [a][..0] == [];
    assert TextOf([a, b]) == a + "\n" + b + "\n";
    assert a + "\n" == "msgid \"\"\n";
    assert b + "\n" == "msgstr \"\"\n";
  }

  /** The whole output, part by part. */
  lemma MarshalLinesText(doc: Document, order: seq<string>)
    requires IsRestOrder(doc.headers, order)
    ensures TextOf(MarshalLines(doc, order))
      == "msgid \"\"\n" + "msgstr \"\"\n"
         + HeadersText(doc.headers, PresentKeys(doc.headers, StandardHeaders))
         + HeadersText(doc.headers, order) + "\n" + EntriesText(doc.entries)
  {
    var h := doc.headers;
    var std := PresentKeys(h, StandardHeaders);
    var lines := HeaderLines(h, std + order);
    var entries := EntriesLines(doc.entries);
    assert MarshalLines(doc, order) == HeaderIntro + lines + [""] + entries;
    TextOfAppend(HeaderIntro + lines + [""], entries);
    TextOfAppend(HeaderIntro + lines, [""]);
    TextOfAppend(HeaderIntro, lines);
    assert TextOf([""]) == "\n" by {
      assert [""][..0] == [];
    }
    IntroText();
    MapLinesText(HeaderLineOf(h), std + order);
    TextMapAppend(HeaderLineOf(h), std, order);
    EntriesLinesText(doc.entries);
    Assoc("msgid \"\"\n" + "msgstr \"\"\n", HeadersText(h, std), HeadersText(h, order));
  }

  /** Appending to a builder that holds a known text. */
  lemma AppendAfter(b: string, b0: string, c: string, piece: string)
    requires b == b0 + c
    ensures b + piece == b0 + (c + piece)
  {
  }

  /** One more header line on a builder holding the lines for `before`. */
  lemma HeaderStep(b: string, b0: string, headers: map<string, string>, before: seq<string>, key: string)
    requires b == b0 + HeadersText(headers, before)
    requires key in headers
    ensures b + (HeaderLine(key, headers[key]) + "\n") == b0 + HeadersText(headers, before + [key])
  {
    AppendAfter(b, b0, HeadersText(headers, before), HeaderLine(key, headers[key]) + "\n");
    TextMapSnoc(HeaderLineOf(headers), before, key);
  }

  /** The listed headers present, in the listed order (MarshalText passes
      the standard ones); `written` records which were written. */
  method WriteListedHeaders(b0: string, headers: map<string, string>, names: seq<string>)
    returns (b: string, written: set<string>)
    ensures forall k :: k in written <==> k in names && k in headers
    ensures b == b0 + HeadersText(headers, PresentKeys(headers, names))
  {
    b := b0;
    written := {};
    WroteNoneListed(b0, headers, names);
    for i := 0 to |names|
      invariant WroteListed(b, written, b0, headers, names, i)
    {
      b, written := WriteListedHeader(b0, b, written, headers, names, i);
    }
    assert names[..|names|] == names;
  }

  /** `b` is `b0` followed by the lines of the headers among names[..i]
      that the map holds, and `written` is that set of names. */
  ghost predicate WroteListed(b: string, written: set<string>, b0: string, headers: map<string, string>,
                              names: seq<string>, i: nat)
    requires i <= |names|
  {
    WrittenNames(written, headers, names, i) && b == b0 + HeadersText(headers, PresentKeys(headers, names[..i]))
  }

  /** `written` is the set of names among names[..i] that the map holds. */
  ghost predicate WrittenNames(written: set<string>, headers: map<string, string>, names: seq<string>, i: nat)
    requires i <= |names|
  {
    forall k :: k in written <==> k in names[..i] && k in headers
  }

  lemma WroteNoneListed(b0: string, headers: map<string, string>, names: seq<string>)
    ensures WroteListed(b0, {}, b0, headers, names, 0)
  {
    assert names[..0] == [];
  }

  /** The loop body: the header named names[i], when the map holds it. */
  method WriteListedHeader(b0: string, b: string, written: set<string>, headers: map<string, string>,
                           names: seq<string>, i: nat)
    returns (out: string, outWritten: set<string>)
    requires i < |names|
    requires WroteListed(b, written, b0, headers, names, i)
    ensures WroteListed(out, outWritten, b0, headers, names, i + 1)
  {
    var key := names[i];
    ghost var before := PresentKeys(headers, names[..i]);
    PresentKeysSnoc(headers, names, i);
    WrittenStep(written, headers, names, i);
    out, outWritten := b, written;
    if key in headers {
      HeaderStep(b, b0, headers, before, key);
      out := AppendHeaderLine(b, key, headers[key]);
      outWritten := written + {key};
    }
  }

  lemma WrittenStep(written: set<string>, headers: map<string, string>, names: seq<string>, i: nat)
    requires i < |names|
    requires WrittenNames(written, headers, names, i)
    ensures names[i] in headers ==> WrittenNames(written + {names[i]}, headers, names, i + 1)
    ensures names[i] !in headers ==> WrittenNames(written, headers, names, i + 1)
  {
    SeenSnoc(names, i);
  }

  lemma SeenSnoc(names: seq<string>, i: nat)
    requires i < |names|
    ensures forall k :: k in names[..i + 1] <==> k in names[..i] || k == names[i]
  {
    assert names[..i + 1] == names[..i] + [names[i]];
  }

  lemma PresentKeysSnoc(headers: map<string, string>, names: seq<string>, i: nat)
    requires i < |names|
    ensures names[..i + 1] == names[..i] + [names[i]]
    ensures names[i] in headers
      ==> PresentKeys(headers, names[..i + 1]) == PresentKeys(headers, names[..i]) + [names[i]]
    ensures names[i] !in headers ==> PresentKeys(headers, names[..i + 1]) == PresentKeys(headers, names[..i])
  {
    assert names[..i + 1][..i] == names[..i];
  }


  /** The keys of a map in one of the orders `range` may visit them. */
  method MapKeys(headers: map<string, string>) returns (keys: seq<string>)
    ensures forall k :: k in keys <==> k in headers
    ensures Distinct(keys)
  {
    var rest := headers.Keys;
    keys := [];
    while rest != {}
      decreases rest
      invariant forall k :: k in keys ==> k in headers && k !in rest
      invariant forall k :: k in headers ==> k in keys || k in rest
      invariant rest <= headers.Keys
      invariant Distinct(keys)
    {
      var key :| key in rest;
      keys := keys + [key];
      rest := rest - {key};
    }
  }

  /** The keys not yet written, in visiting order. */
  function Unwritten(keys: seq<string>, written: set<string>): seq<string> {
    if keys == [] then []
    else
      var init := Unwritten(keys[..|keys| - 1], written);
      if keys[|keys| - 1] in written then init else init + [keys[|keys| - 1]]
  }

  /** Exactly the keys visited and not written. */
  lemma {:induction false} UnwrittenMembers(keys: seq<string>, written: set<string>)
    ensures forall k :: k in Unwritten(keys, written) <==> k in keys && k !in written
    decreases |keys|
  {
    if keys != [] {
      var init := keys[..|keys| - 1];
      UnwrittenMembers(init, written);
      assert keys == init + [keys[|keys| - 1]];
    }
  }

  lemma {:induction false} UnwrittenDistinct(keys: seq<string>, written: set<string>)
    requires Distinct(keys)
    ensures Distinct(Unwritten(keys, written))
    decreases |keys|
  {
    if keys != [] {
      var init := keys[..|keys| - 1];
      UnwrittenDistinct(init, written);
      UnwrittenMembers(init, written);
      var last := keys[|keys| - 1];
      var r0 := Unwritten(init, written);
      assert last !in init;
      assert last !in r0;
      if last !in written {
        var r := r0 + [last];
        assert Unwritten(keys, written) == r;
        forall p, q | 0 <= p < q < |r| ensures r[p] != r[q] {
          if q == |r0| {
            assert r[p] == r0[p] && r0[p] in r0 && r[q] == last;
          } else {
            assert r[p] == r0[p] && r[q] == r0[q];
          }
        }
      } else {
        assert Unwritten(keys, written) == r0;
      }
    }
  }

  lemma UnwrittenSnoc(keys: seq<string>, written: set<string>, i: nat)
    requires i < |keys|
    ensures keys[i] in written ==> Unwritten(keys[..i + 1], written) == Unwritten(keys[..i], written)
    ensures keys[i] !in written
      ==> Unwritten(keys[..i + 1], written) == Unwritten(keys[..i], written) + [keys[i]]
  {
    assert keys[..i + 1][..i] == keys[..i];
  }

  /** The remaining headers, in the map's visiting order `keys`, skipping
      those already written. */
  method WriteOtherHeaders(b0: string, headers: map<string, string>, written: set<string>,
                           keys: seq<string>)
    returns (b: string)
    requires forall k :: k in keys ==> k in headers
    ensures b == b0 + HeadersText(headers, Unwritten(keys, written))
  {
    b := b0;
    WroteNone(b0, headers, written, keys);
    for i := 0 to |keys|
      invariant WroteOthers(b, b0, headers, written, keys, i)
    {
      assert keys[i] in keys;
      b := WriteOtherHeader(b0, b, headers, written, keys, i);
    }
    WroteAll(b, b0, headers, written, keys);
  }

  lemma WroteNone(b0: string, headers: map<string, string>, written: set<string>, keys: seq<string>)
    ensures WroteOthers(b0, b0, headers, written, keys, 0)
  {
    assert Unwritten(keys[..0], written) == [];
  }

  lemma WroteAll(b: string, b0: string, headers: map<string, string>, written: set<string>,
                 keys: seq<string>)
    requires WroteOthers(b, b0, headers, written, keys, |keys|)
    ensures b == b0 + HeadersText(headers, Unwritten(keys, written))
  {
    assert keys[..|keys|] == keys;
  }

  /** `b` is `b0` followed by the lines of the headers among keys[..i] that
      were not written. */
  predicate WroteOthers(b: string, b0: string, headers: map<string, string>, written: set<string>,
                        keys: seq<string>, i: nat)
    requires i <= |keys|
  {
    b == b0 + HeadersText(headers, Unwritten(keys[..i], written))
  }

  /** The loop body: the header at keys[i] unless it was written. */
  method WriteOtherHeader(b0: string, b: string, headers: map<string, string>, written: set<string>,
                          keys: seq<string>, i: nat)
    returns (out: string)
    requires i < |keys| && keys[i] in headers
    requires WroteOthers(b, b0, headers, written, keys, i)
    ensures WroteOthers(out, b0, headers, written, keys, i + 1)
  {
    var key := keys[i];
    UnwrittenSnoc(keys, written, i);
    out := b;
    if key !in written {
      HeaderStep(b, b0, headers, Unwritten(keys[..i], written), key);
      out := AppendHeaderLine(b, key, headers[key]);
    }
  }

  lemma EntriesTextSnoc(es: seq<Entry>, j: nat)
    requires j < |es|
    ensures EntriesText(es[..j + 1]) == EntriesText(es[..j]) + EntryText(es[j])
  {
    assert es[..j + 1][..j] == es[..j];
  }

  /** The entries, one after the other. */
  method WriteEntries(b0: string, entries: seq<Entry>) returns (b: string)
    ensures b == b0 + EntriesText(entries)
  {
    b := b0;
    var j := 0;
    assert b == b0 + EntriesText(entries[..0]) by {
      assert entries[..0] == [];
    }
    while j < |entries|
      invariant 0 <= j <= |entries|
      invariant b == b0 + EntriesText(entries[..j])
    {
      AppendAfter(b, b0, EntriesText(entries[..j]), EntryText(entries[j]));
      EntriesTextSnoc(entries, j);
      b := AppendEntry(b, entries[j]);
      j := j + 1;
    }
    assert entries[..j] == entries;
  }

  /** MarshalText. The order of the non-standard headers is Go's map order,
      which the method picks freely and reports as `order`. */
  method MarshalText(f: File) returns (text: string, ghost order: seq<string>)
    ensures IsRestOrder(f.headers, order)
    ensures text == TextOf(MarshalLines(f.Snapshot(), order))
  {
    var headers := f.headers;
    var b := "msgid \"\"\n";
    b := b + "msgstr \"\"\n";
    var written;
    b, written := WriteListedHeaders(b, headers, StandardHeaders);
    var visit := MapKeys(headers);
    b := WriteOtherHeaders(b, headers, written, visit);
    order := Unwritten(visit, written);
    UnwrittenDistinct(visit, written);
    UnwrittenMembers(visit, written);
    b := b + "\n";
    b := WriteEntries(b, f.entries);
    text := b;
    MarshalLinesText(f.Snapshot(), order);
  }
}
