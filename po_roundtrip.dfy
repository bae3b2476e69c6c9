/** The round trip of the PO engine: ParseReader reads back what MarshalText
    writes. Headers come back as they were, entries come back in order with
    their context, id, translation and comments, and Language is taken from
    the "Language" header. It holds when every msgid is non-empty, every
    comment is one line that starts with `#` once trimmed and does not end
    in a carriage return, and header keys and values are shaped so that
    parseHeaderLine can split them again. */
module PoRoundTrip {
  import opened Text
  import opened Wrappers
  import opened PoFile
  import opened PoCodec
  import opened PoParse
  import opened PoMarshal

  /** A line as writeQuotedString and the header writer produce it. */
  predicate IsQuotedLine(p: string) {
    |p| >= 2 && p[0] == '"' && p[|p| - 1] == '"'
  }

  /** A comment the parser keeps: one line, `#` first once trimmed, and no
      final carriage return for a line reader to strip. */
  predicate IsCommentLine(c: string) {
    HasPrefix(TrimSpace(c), "#") && '\n' !in c && c[|c| - 1] != '\r'
  }

  /** An entry that comes back unchanged. */
  predicate ValidEntry(e: Entry) {
    e.msgId != "" && forall i :: 0 <= i < |e.comments| ==> IsCommentLine(e.comments[i])
  }

  /** A header pair that parseHeaderLine splits back into itself. */
  predicate ValidHeader(key: string, value: string) {
    key != [] && IsTrimmed(key) && ':' !in key && IsTrimmed(value) && !HasSuffix(value, "\\n")
  }

  predicate ValidDocument(doc: Document) {
    (forall k :: k in doc.headers ==> ValidHeader(k, doc.headers[k]))
    && forall i :: 0 <= i < |doc.entries| ==> ValidEntry(doc.entries[i])
  }

  /** The parser between two entries: the header is closed and nothing is
      pending. */
  function Between(headers: map<string, string>, entries: seq<Entry>, section: Section): ParseState {
    ParseState(headers, entries, None, section, "", false, false, [])
  }

  /** The parser inside the header entry. */
  function InHeader(headers: map<string, string>): ParseState {
    ParseState(headers, [], None, Header, "", true, true, [])
  }

  // ---------------------------------------------------------------------
  // Small facts about prefixes and trimming

  lemma NotPrefixAt(s: string, pre: string, i: nat)
    requires i < |pre| && i < |s| && s[i] != pre[i]
    ensures !HasPrefix(s, pre)
  {
    if |pre| <= |s| {
      assert s[..|pre|][i] == s[i];
    }
  }

  lemma PrefixOfConcat(k: string, p: string)
    ensures HasPrefix(k + p, k)
  {
    assert (k + p)[..|k|] == k;
  }

  lemma TrimmedEnds(s: string)
    requires s != [] && !IsSpace(s[0]) && !IsSpace(s[|s| - 1])
    ensures TrimSpace(s) == s
  {
    TrimSpaceOfTrimmed(s);
  }

  /** A keyword line `keyword "..."` is its own trimmed form. */
  lemma KeywordLineTrimmed(k: string, p: string)
    requires k != [] && !IsSpace(k[0]) && IsQuotedLine(p)
    ensures TrimSpace(k + p) == k + p
  {
    assert (k + p)[0] == k[0];
    assert (k + p)[|k + p| - 1] == p[|p| - 1];
    TrimmedEnds(k + p);
  }

  /** The decoded value of `keyword "..."` is that of the quoted part. */
  lemma ExtractAfterKeyword(k: string, p: string)
    requires '"' !in k && IsQuotedLine(p)
    ensures ExtractQuotedValue(k + p) == ExtractQuotedValue(p)
  {
    var s := k + p;
    assert s[|k|..|k| + 1] == "\"";
    forall j: nat | j < |k| ensures !OccursAt(s, "\"", j) {
      assert s[j..j + 1] == [k[j]];
    }
    IndexOfFirst(s, "\"", |k|);
    assert p[0..1] == "\"";
    IndexOfFirst(p, "\"", 0);
    assert s[|k| + 1..] == p[1..];
  }

  // ---------------------------------------------------------------------
  // Continuation lines

  lemma ExtendTwice(e: Entry, section: Section, a: string, b: string)
    ensures Extend(Extend(e, section, a), section, b) == Extend(e, section, a + b)
  {
    match section
    case Msgctxt => Assoc(e.context, a, b);
    case Msgid => Assoc(e.msgId, a, b);
    case Msgstr => Assoc(e.msgStr, a, b);
    case _ =>
  }

  lemma ExtendNothing(e: Entry, section: Section)
    ensures Extend(e, section, "") == e
  {
    match section
    case Msgctxt => assert e.context + "" == e.context;
    case Msgid => assert e.msgId + "" == e.msgId;
    case Msgstr => assert e.msgStr + "" == e.msgStr;
    case _ =>
  }

  /** A quoted line outside the header extends the field opened last. */
  lemma StepContinuation(st: ParseState, p: string)
    requires IsQuotedLine(p) && !st.inHeader && st.current.Some?
    ensures Step(st, p) == st.(current := Some(Extend(st.current.value, st.section, ExtractQuotedValue(p))))
  {
    TrimmedEnds(p);
    NotPrefixAt(p, "#", 0);
    NotPrefixAt(p, "msgid \"\"", 0);
    NotPrefixAt(p, "msgctxt ", 0);
    NotPrefixAt(p, "msgid ", 0);
    NotPrefixAt(p, "msgstr ", 0);
    assert HasPrefix(p, "\"") by {
      assert p[..1] == "\"";
    }
  }

  lemma RunOne(st: ParseState, line: string, rest: seq<string>)
    ensures RunFrom(st, [line] + rest) == RunFrom(Step(st, line), rest)
  {
    RunFromAppend(st, [line], rest);
    assert RunFrom(st, [line]) == Step(RunFrom(st, []), line) by {
      assert [line][..0] == [];
    }
  }

  /** Quoted lines extend the open field by their decoded values. */
  lemma {:induction false} RunContinuations(st: ParseState, qs: seq<string>)
    requires forall i :: 0 <= i < |qs| ==> IsQuotedLine(qs[i])
    requires !st.inHeader && st.current.Some?
    ensures RunFrom(st, qs)
      == st.(current := Some(Extend(st.current.value, st.section, DecodedConcat(qs))))
    decreases |qs|
  {
    if qs == [] {
      ExtendNothing(st.current.value, st.section);
    } else {
      var v := ExtractQuotedValue(qs[0]);
      var st1 := st.(current := Some(Extend(st.current.value, st.section, v)));
      assert [qs[0]] + qs[1..] == qs;
      RunOne(st, qs[0], qs[1..]);
      StepContinuation(st, qs[0]);
      RunContinuations(st1, qs[1..]);
      ExtendTwice(st.current.value, st.section, v, DecodedConcat(qs[1..]));
    }
  }

  // ---------------------------------------------------------------------
  // One field: the keyword line, then its continuation lines

  lemma QuotedLinesAreQuoted(s: string)
    ensures forall i :: 0 <= i < |QuotedLines(s)| ==> IsQuotedLine(QuotedLines(s)[i])
  {
    QuotedLinesShape(s);
  }

  /** The keyword line's value followed by the continuation lines' values is
      the field's string. */
  lemma FieldValue(s: string)
    ensures ExtractQuotedValue(QuotedLines(s)[0]) + DecodedConcat(QuotedLines(s)[1..]) == s
  {
    QuotedLinesRoundTrip(s);
  }

  /** The keyword line of a field opens it; the rest extends it. */
  lemma RunField(st: ParseState, keyword: string, s: string, st1: ParseState)
    requires Step(st, keyword + QuotedLines(s)[0]) == st1
    requires !st1.inHeader && st1.current.Some?
    ensures RunFrom(st, FieldLines(keyword, s))
      == st1.(current := Some(Extend(st1.current.value, st1.section, DecodedConcat(QuotedLines(s)[1..]))))
  {
    var q := QuotedLines(s);
    RunOne(st, keyword + q[0], q[1..]);
    QuotedLinesAreQuoted(s);
    assert forall i :: 0 <= i < |q[1..]| ==> IsQuotedLine(q[1..][i]) by {
      forall i | 0 <= i < |q[1..]| ensures IsQuotedLine(q[1..][i]) {
        assert q[1..][i] == q[i + 1];
      }
    }
    RunContinuations(st1, q[1..]);
  }

  lemma MsgctxtLine(st: ParseState, p: string)
    requires IsQuotedLine(p) && !st.inHeader && st.current.None?
    ensures Step(st, "msgctxt " + p)
      == st.(current := Some(Entry(ExtractQuotedValue(p), "", "", st.pending)), pending := [],
             section := Msgctxt, inHeader := false)
  {
    var line := "msgctxt " + p;
    KeywordLineTrimmed("msgctxt ", p);
    NotPrefixAt(line, "#", 0);
    NotPrefixAt(line, "msgid \"\"", 3);
    PrefixOfConcat("msgctxt ", p);
    ExtractAfterKeyword("msgctxt ", p);
  }

  lemma MsgidLine(st: ParseState, p: string)
    requires IsQuotedLine(p) && p[1] != '"' && !st.inHeader
    ensures Step(st, "msgid " + p)
      == var o := OpenEntry(st);
         o.(current := Some(o.current.value.(msgId := ExtractQuotedValue(p))), section := Msgid, inHeader := false)
  {
    var line := "msgid " + p;
    KeywordLineTrimmed("msgid ", p);
    NotPrefixAt(line, "#", 0);
    assert line[7] == p[1];
    NotPrefixAt(line, "msgid \"\"", 7);
    NotPrefixAt(line, "msgctxt ", 3);
    PrefixOfConcat("msgid ", p);
    ExtractAfterKeyword("msgid ", p);
  }

  lemma MsgstrLine(st: ParseState, p: string)
    requires IsQuotedLine(p) && !st.inHeader
    ensures Step(st, "msgstr " + p)
      == var o := OpenEntry(st);
         o.(current := Some(o.current.value.(msgStr := ExtractQuotedValue(p))), section := Msgstr, inHeader := false)
  {
    var line := "msgstr " + p;
    KeywordLineTrimmed("msgstr ", p);
    NotPrefixAt(line, "#", 0);
    NotPrefixAt(line, "msgid \"\"", 3);
    NotPrefixAt(line, "msgctxt ", 3);
    NotPrefixAt(line, "msgid ", 3);
    PrefixOfConcat("msgstr ", p);
    ExtractAfterKeyword("msgstr ", p);
  }

  // ---------------------------------------------------------------------
  // One entry

  /** The parser once an entry's comments are read. */
  function Commented(h: map<string, string>, es: seq<Entry>, sec: Section, comments: seq<string>): ParseState {
    ParseState(h, es, None, sec, "", false, false, comments)
  }

  /** The parser with an entry open, after its field `section`. */
  function Open(h: map<string, string>, es: seq<Entry>, e: Entry, section: Section): ParseState {
    ParseState(h, es, Some(e), section, "", false, false, [])
  }

  /** Comment lines after the header are queued, in order. */
  lemma {:induction false} RunComments(h: map<string, string>, es: seq<Entry>, sec: Section, cs: seq<string>)
    requires forall i :: 0 <= i < |cs| ==> IsCommentLine(cs[i])
    ensures RunFrom(Between(h, es, sec), cs) == Commented(h, es, sec, cs)
    decreases |cs|
  {
    if cs != [] {
      var init := cs[..|cs| - 1];
      RunComments(h, es, sec, init);
      InitLast(cs);
    }
  }

  /** An entry's msgctxt lines (none for an empty context). */
  function ContextLines(e: Entry): seq<string> {
    if e.context != "" then FieldLines("msgctxt ", e.context) else []
  }

  /** The parser after the msgctxt lines: the entry open with its context
      when there is one, the comments still pending otherwise. */
  function AfterContext(h: map<string, string>, es: seq<Entry>, sec: Section, e: Entry): ParseState {
    if e.context != "" then Open(h, es, Entry(e.context, "", "", e.comments), Msgctxt)
    else Commented(h, es, sec, e.comments)
  }

  lemma RunContext(h: map<string, string>, es: seq<Entry>, sec: Section, e: Entry)
    ensures RunFrom(Commented(h, es, sec, e.comments), ContextLines(e)) == AfterContext(h, es, sec, e)
  {
    if e.context != "" {
      var st := Commented(h, es, sec, e.comments);
      var q := QuotedLines(e.context);
      QuotedLinesAreQuoted(e.context);
      var v := ExtractQuotedValue(q[0]);
      var st1 := Open(h, es, Entry(v, "", "", e.comments), Msgctxt);
      MsgctxtLine(st, q[0]);
      RunField(st, "msgctxt ", e.context, st1);
      FieldValue(e.context);
    }
  }

  lemma RunMsgid(h: map<string, string>, es: seq<Entry>, sec: Section, e: Entry)
    requires e.msgId != ""
    ensures RunFrom(AfterContext(h, es, sec, e), FieldLines("msgid ", e.msgId))
      == Open(h, es, Entry(e.context, e.msgId, "", e.comments), Msgid)
  {
    var st := AfterContext(h, es, sec, e);
    var q := QuotedLines(e.msgId);
    QuotedLinesAreQuoted(e.msgId);
    QuotedLinesFirst(e.msgId);
    var v := ExtractQuotedValue(q[0]);
    var st1 := Open(h, es, Entry(e.context, v, "", e.comments), Msgid);
    MsgidLine(st, q[0]);
    RunField(st, "msgid ", e.msgId, st1);
    FieldValue(e.msgId);
  }

  lemma RunMsgstr(h: map<string, string>, es: seq<Entry>, e: Entry)
    ensures RunFrom(Open(h, es, Entry(e.context, e.msgId, "", e.comments), Msgid), FieldLines("msgstr ", e.msgStr))
      == Open(h, es, e, Msgstr)
  {
    var st := Open(h, es, Entry(e.context, e.msgId, "", e.comments), Msgid);
    var q := QuotedLines(e.msgStr);
    QuotedLinesAreQuoted(e.msgStr);
    var v := ExtractQuotedValue(q[0]);
    var st1 := Open(h, es, Entry(e.context, e.msgId, v, e.comments), Msgstr);
    MsgstrLine(st, q[0]);
    RunField(st, "msgstr ", e.msgStr, st1);
    FieldValue(e.msgStr);
  }

  /** The blank line after an entry stores it. */
  lemma BlankStores(h: map<string, string>, es: seq<Entry>, e: Entry)
    requires e.msgId != ""
    ensures Step(Open(h, es, e, Msgstr), "") == Between(h, es + [e], NoSection)
  {
    assert TrimSpace("") == "";
  }

  /** An entry's lines take the parser from between entries to between
      entries, with that entry stored. */
  lemma RunEntry(h: map<string, string>, es: seq<Entry>, sec: Section, e: Entry)
    requires ValidEntry(e)
    ensures RunFrom(Between(h, es, sec), EntryLines(e)) == Between(h, es + [e], NoSection)
  {
    var st := Between(h, es, sec);
    var a, b := e.comments, ContextLines(e);
    var c, d := FieldLines("msgid ", e.msgId), FieldLines("msgstr ", e.msgStr);
    assert EntryLines(e) == a + b + c + d + [""];
    RunFromAppend(st, a + b + c + d, [""]);
    RunFromAppend(st, a + b + c, d);
    RunFromAppend(st, a + b, c);
    RunFromAppend(st, a, b);
    RunComments(h, es, sec, a);
    RunContext(h, es, sec, e);
    RunMsgid(h, es, sec, e);
    RunMsgstr(h, es, e);
    BlankStores(h, es, e);
    RunOne(Open(h, es, e, Msgstr), "", []);
    assert [""] + [] == [""];
  }

  /** The entries' lines store the entries, in order. */
  lemma {:induction false} RunEntries(h: map<string, string>, es: seq<Entry>)
    requires forall i :: 0 <= i < |es| ==> ValidEntry(es[i])
    ensures RunFrom(Between(h, [], Header), EntriesLines(es))
      == Between(h, es, if es == [] then Header else NoSection)
    decreases |es|
  {
    if es != [] {
      var init := es[..|es| - 1];
      var e := es[|es| - 1];
      assert forall i :: 0 <= i < |init| ==> init[i] == es[i];
      RunEntries(h, init);
      var st := Between(h, [], Header);
      var mid := Between(h, init, if init == [] then Header else NoSection);
      assert EntriesLines(es) == EntriesLines(init) + EntryLines(e);
      RunFromAppend(st, EntriesLines(init), EntryLines(e));
      RunEntry(h, init, if init == [] then Header else NoSection, e);
      InitLast(es);
    }
  }

  // ---------------------------------------------------------------------
  // The header entry

  /** The two opening lines enter the header. */
  lemma RunIntro()
    ensures RunFrom(Start, HeaderIntro) == InHeader(map[])
  {
    var l1, l2 := HeaderIntro[0], HeaderIntro[1];
    assert HeaderIntro == [l1] + [l2];
    RunOne(Start, l1, [l2]);
    IntroMsgid(l1);
    RunOne(InHeader(map[]), l2, []);
    IntroMsgstr(l2);
  }

  lemma IntroMsgid(l: string)
    requires l == "msgid \"\""
    ensures Step(Start, l) == InHeader(map[])
  {
    TrimmedEnds(l);
    NotPrefixAt(l, "#", 0);
    PrefixOfConcat(l, []);
    assert l + [] == l;
  }

  lemma IntroMsgstr(l: string)
    requires l == "msgstr \"\""
    ensures Step(InHeader(map[]), l) == InHeader(map[])
  {
    var q := "\"\"";
    assert l == "msgstr " + q;
    TrimmedEnds(l);
    NotPrefixAt(l, "#", 0);
    NotPrefixAt(l, "msgid \"\"", 3);
    PrefixOfConcat("msgstr \"", "\"");
    assert "msgstr \"" + "\"" == l;
    ExtractAfterKeyword("msgstr ", q);
    assert q[0..1] == "\"";
    IndexOfFirst(q, "\"", 0);
    assert q[1..] == "\"";
    EmptyMsgstrStep(InHeader(map[]), l);
  }

  /** In the header, a `msgstr` line with an empty value changes nothing but
      the section. */
  lemma EmptyMsgstrStep(st: ParseState, l: string)
    requires st.inHeader && TrimSpace(l) == l && l != ""
    requires !HasPrefix(l, "#") && !HasPrefix(l, "msgid \"\"") && HasPrefix(l, "msgstr \"")
    requires ExtractQuotedValue(l) == ""
    ensures Step(st, l) == st.(section := Header)
  {
  }

  /** A header line, as MarshalText writes it, decodes to its record. */
  lemma HeaderLineValue(key: string, value: string)
    ensures IsQuotedLine(HeaderLine(key, value))
    ensures ExtractQuotedValue(HeaderLine(key, value)) == HeaderRecord(key, value)
  {
    var r := HeaderRecord(key, value);
    var p := HeaderLine(key, value);
    Assoc("\"", EscapeHeader(r), "\"");
    assert p == "\"" + (EscapeHeader(r) + "\"");
    assert p[0..1] == "\"";
    IndexOfFirst(p, "\"", 0);
    assert p[1..] == EscapeHeader(r) + "\"";
    DecodeEscapeHeader(r, "\"");
    assert r + [] == r;
  }

  /** Inside the header, a header line stores its pair. */
  lemma HeaderLineStep(h: map<string, string>, key: string, value: string)
    requires ValidHeader(key, value)
    ensures Step(InHeader(h), HeaderLine(key, value)) == InHeader(h[key := value])
  {
    var p := HeaderLine(key, value);
    HeaderLineValue(key, value);
    TrimmedEnds(p);
    NotPrefixAt(p, "#", 0);
    NotPrefixAt(p, "msgid \"\"", 0);
    NotPrefixAt(p, "msgstr \"", 0);
    assert HasPrefix(p, "\"") by {
      assert p[..1] == "\"";
    }
    assert HeaderRecord(key, value) != "" by {
      assert HeaderRecord(key, value)[0] == key[0];
    }
    HeaderLineRoundTrip(h, key, value);
  }

  /** The headers of `headers` whose keys are listed. */
  function Restrict(headers: map<string, string>, keys: seq<string>): map<string, string> {
    map k | k in headers && k in keys :: headers[k]
  }

  lemma RestrictSnoc(headers: map<string, string>, keys: seq<string>, key: string)
    requires key in headers
    ensures Restrict(headers, keys + [key]) == Restrict(headers, keys)[key := headers[key]]
  {
    var a := Restrict(headers, keys + [key]);
    var b := Restrict(headers, keys)[key := headers[key]];
    assert a.Keys == b.Keys;
  }

  lemma MapLinesSnoc(line: string -> string, keys: seq<string>)
    requires keys != []
    ensures MapLines(line, keys) == MapLines(line, keys[..|keys| - 1]) + [line(keys[|keys| - 1])]
  {
  }

  /** The header lines store their pairs, one after the other. */
  lemma {:induction false} RunHeaderLines(headers: map<string, string>, keys: seq<string>)
    requires forall i :: 0 <= i < |keys| ==> keys[i] in headers && ValidHeader(keys[i], headers[keys[i]])
    ensures RunFrom(InHeader(map[]), HeaderLines(headers, keys)) == InHeader(Restrict(headers, keys))
    decreases |keys|
  {
    var lines := HeaderLines(headers, keys);
    if keys == [] {
      assert Restrict(headers, keys) == map[];
    } else {
      var init := keys[..|keys| - 1];
      var key := keys[|keys| - 1];
      RunHeaderLines(headers, init);
      MapLinesSnoc(HeaderLineOf(headers), keys);
      assert lines[..|lines| - 1] == HeaderLines(headers, init);
      assert lines[|lines| - 1] == HeaderLine(key, headers[key]);
      HeaderLineStep(Restrict(headers, init), key, headers[key]);
      InitLast(keys);
      RestrictSnoc(headers, init, key);
    }
  }

  /** The blank line after the header closes it. */
  lemma BlankClosesHeader(h: map<string, string>)
    ensures Step(InHeader(h), "") == Between(h, [], Header)
  {
    assert TrimSpace("") == "";
  }

  // ---------------------------------------------------------------------
  // The whole document

  /** Reading a document back after the last line. */
  lemma FinishBetween(h: map<string, string>, es: seq<Entry>, sec: Section)
    ensures Finish(Between(h, es, sec)) == Document(h, GetHeader(h, "Language"), es)
  {
  }

  /** Every header MarshalText writes comes back, and nothing else. */
  lemma RestrictAll(headers: map<string, string>, order: seq<string>)
    requires IsRestOrder(headers, order)
    ensures Restrict(headers, HeaderOrder(headers, order)) == headers
  {
    HeaderOrderExact(headers, order);
    var r := Restrict(headers, HeaderOrder(headers, order));
    assert r.Keys == headers.Keys;
  }

  /** The header entry as MarshalText writes it, keys in any order that
      lists each header, reads back as exactly those headers. */
  lemma RunHeaderEntry(h: map<string, string>, keys: seq<string>)
    requires forall k :: k in h ==> ValidHeader(k, h[k])
    requires forall k :: k in keys ==> k in h
    requires Restrict(h, keys) == h
    ensures RunFrom(Start, HeaderIntro + HeaderLines(h, keys) + [""]) == Between(h, [], Header)
  {
    var a, b := HeaderIntro, HeaderLines(h, keys);
    RunFromAppend(Start, a + b, [""]);
    RunFromAppend(Start, a, b);
    RunIntro();
    forall i | 0 <= i < |keys| ensures keys[i] in h && ValidHeader(keys[i], h[keys[i]]) {
      var k := keys[i];
      assert k in keys;
    }
    RunHeaderLines(h, keys);
    RunOne(InHeader(h), "", []);
    BlankClosesHeader(h);
  }

  /** ParseReader reads back the lines MarshalText writes: the same headers
      and the same entries in the same order, with Language taken from the
      "Language" header. */
  lemma MarshalParse(doc: Document, order: seq<string>)
    requires ValidDocument(doc) && IsRestOrder(doc.headers, order)
    ensures Parse(MarshalLines(doc, order)) == doc.(language := GetHeader(doc.headers, "Language"))
  {
    var h := doc.headers;
    var keys := HeaderOrder(h, order);
    HeaderOrderExact(h, order);
    RestrictAll(h, order);
    var p := HeaderIntro + HeaderLines(h, keys) + [""];
    RunFromAppend(Start, p, EntriesLines(doc.entries));
    RunHeaderEntry(h, keys);
    RunEntries(h, doc.entries);
    FinishBetween(h, doc.entries, if doc.entries == [] then Header else NoSection);
  }

  // ---------------------------------------------------------------------
  // From text: the lines hold no newline, so the text splits back into them

  predicate NoNewlines(lines: seq<string>) {
    forall i :: 0 <= i < |lines| ==> '\n' !in lines[i]
  }

  lemma NoNewlinesAppend(a: seq<string>, b: seq<string>)
    requires NoNewlines(a) && NoNewlines(b)
    ensures NoNewlines(a + b)
  {
    forall i | 0 <= i < |a + b| ensures '\n' !in (a + b)[i] {
      if i >= |a| {
        assert (a + b)[i] == b[i - |a|];
      }
    }
  }

  lemma QuotedPartNoNewline(k: string, p: string)
    requires '\n' !in k && '\n' !in p
    ensures '\n' !in k + p
  {
  }

  lemma FieldLinesNoNewlines(keyword: string, s: string)
    requires '\n' !in keyword
    ensures NoNewlines(FieldLines(keyword, s))
  {
    var q := QuotedLines(s);
    QuotedLinesShape(s);
    QuotedPartNoNewline(keyword, q[0]);
    forall i | 0 <= i < |FieldLines(keyword, s)| ensures '\n' !in FieldLines(keyword, s)[i] {
      if i > 0 {
        assert FieldLines(keyword, s)[i] == q[i];
      }
    }
  }

  lemma EntryLinesNoNewlines(e: Entry)
    requires ValidEntry(e)
    ensures NoNewlines(EntryLines(e))
  {
    var a, b := e.comments, ContextLines(e);
    var c, d := FieldLines("msgid ", e.msgId), FieldLines("msgstr ", e.msgStr);
    assert NoNewlines(a);
    if e.context != "" {
      FieldLinesNoNewlines("msgctxt ", e.context);
    }
    FieldLinesNoNewlines("msgid ", e.msgId);
    FieldLinesNoNewlines("msgstr ", e.msgStr);
    NoNewlinesAppend(a, b);
    NoNewlinesAppend(a + b, c);
    NoNewlinesAppend(a + b + c, d);
    NoNewlinesAppend(a + b + c + d, [""]);
  }

  lemma {:induction false} EntriesLinesNoNewlines(es: seq<Entry>)
    requires forall i :: 0 <= i < |es| ==> ValidEntry(es[i])
    ensures NoNewlines(EntriesLines(es))
    decreases |es|
  {
    if es != [] {
      var init := es[..|es| - 1];
      assert forall i :: 0 <= i < |init| ==> init[i] == es[i];
      EntriesLinesNoNewlines(init);
      EntryLinesNoNewlines(es[|es| - 1]);
      NoNewlinesAppend(EntriesLines(init), EntryLines(es[|es| - 1]));
    }
  }

  lemma HeaderLinesNoNewlines(h: map<string, string>, keys: seq<string>)
    ensures NoNewlines(HeaderLines(h, keys))
  {
    forall i | 0 <= i < |keys| ensures '\n' !in HeaderLines(h, keys)[i] {
      var r := HeaderRecord(keys[i], GetHeader(h, keys[i]));
      EscapeHeaderNoNewline(r);
      QuotedPartNoNewline("\"", EscapeHeader(r));
      QuotedPartNoNewline("\"" + EscapeHeader(r), "\"");
    }
  }

  lemma IntroNoNewlines(intro: seq<string>)
    requires intro == HeaderIntro
    ensures NoNewlines(intro)
  {
  }

  lemma MarshalLinesNoNewlines(doc: Document, order: seq<string>)
    requires ValidDocument(doc) && IsRestOrder(doc.headers, order)
    ensures NoNewlines(MarshalLines(doc, order))
  {
    var a, b := HeaderIntro, HeaderLines(doc.headers, HeaderOrder(doc.headers, order));
    var c, d := [""], EntriesLines(doc.entries);
    IntroNoNewlines(a);
    HeaderLinesNoNewlines(doc.headers, HeaderOrder(doc.headers, order));
    EntriesLinesNoNewlines(doc.entries);
    NoNewlinesAppend(a, b);
    NoNewlinesAppend(a + b, c);
    NoNewlinesAppend(a + b + c, d);
  }

  /** The text MarshalText writes, split into lines, reads back as the
      document. */
  lemma TextRoundTrip(doc: Document, order: seq<string>)
    requires ValidDocument(doc) && IsRestOrder(doc.headers, order)
    ensures Parse(SplitLines(TextOf(MarshalLines(doc, order))))
      == doc.(language := GetHeader(doc.headers, "Language"))
  {
    MarshalLinesNoNewlines(doc, order);
    SplitLinesOfText(MarshalLines(doc, order));
    MarshalParse(doc, order);
  }

  /** Writing a file and reading the text back: the new file holds the same
      headers and entries, and its Language is the "Language" header. */
  method WriteThenRead(f: File) returns (g: File)
    requires ValidDocument(f.Snapshot())
    ensures fresh(g)
    ensures g.Snapshot() == f.Snapshot().(language := GetHeader(f.headers, "Language"))
  {
    var text, order := MarshalText(f);
    g := ParseReader(SplitLines(text));
    TextRoundTrip(f.Snapshot(), order);
  }
}
