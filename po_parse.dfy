/** The line-driven PO parser of internal/poutil/po.go (ParseReader,
    parseHeader, parseHeaderLine). `Step` is the effect of one loop
    iteration on the parser's variables, `RunFrom` folds it over lines and
    `Finish` is the code after the loop; the method ParseReader is the loop
    itself, proved to compute `Parse`. */
module PoParse {
  import opened Text
  import opened Wrappers
  import opened PoFile
  import opened PoCodec

  /** currentSection: which field a continuation line extends. */
  datatype Section = NoSection | Msgctxt | Msgid | Msgstr | Header

  /** The parser's variables, plus the two parts of the File it fills in. */
  datatype ParseState = ParseState(
    headers: map<string, string>,
    entries: seq<Entry>,
    current: Option<Entry>,
    section: Section,
    headerBuffer: string,
    inHeader: bool,
    headerStarted: bool,
    pending: seq<string>)

  /** The variables before the first line. */
  const Start := ParseState(map[], [], None, NoSection, "", true, false, [])

  /** parseHeaderLine on a header map: trims the line, drops one literal
      `\n` suffix and stores `key: value` split at the first colon, both
      sides trimmed; a line without a colon after its first character is
      ignored. */
  function HeaderAfterLine(headers: map<string, string>, line: string): map<string, string> {
    var t := TrimSpace(line);
    if t == "" then headers
    else
      var l := TrimSuffix(t, "\\n");
      var idx := IndexOf(l, ":");
      if idx > 0 then headers[TrimSpace(l[..idx]) := TrimSpace(l[idx + 1..])] else headers
  }

  /** parseHeaderLine over several lines, in order. */
  function HeaderAfterLines(headers: map<string, string>, lines: seq<string>): map<string, string> {
    if lines == [] then headers
    else HeaderAfterLine(HeaderAfterLines(headers, lines[..|lines| - 1]), lines[|lines| - 1])
  }

  /** parseHeader: the buffered header text is cut at every literal `\n`. */
  function HeaderAfterBlock(headers: map<string, string>, block: string): map<string, string> {
    HeaderAfterLines(headers, Split(block, "\\n"))
  }

  /** A header line `key: value` (as the serializer writes it, newline
      included) is read back as exactly that pair when the key is non-empty,
      trimmed and colon-free and the value is trimmed and does not end in a
      literal `\n`. */
  lemma HeaderLineRoundTrip(headers: map<string, string>, key: string, value: string)
    requires key != [] && IsTrimmed(key) && ':' !in key
    requires IsTrimmed(value) && !HasSuffix(value, "\\n")
    ensures HeaderAfterLine(headers, key + ": " + value + "\n") == headers[key := value]
  {
    var core := if value == [] then key + ":" else key + ": " + value;
    HeaderLineTrim(key, value);
    CoreKeepsSuffix(key, value, core);
    CoreSplitsAtColon(key, value, core);
  }

  /** The trimmed header line does not end in a literal `\n`. */
  lemma CoreKeepsSuffix(key: string, value: string, core: string)
    requires key != [] && !HasSuffix(value, "\\n")
    requires core == if value == [] then key + ":" else key + ": " + value
    ensures core != [] && TrimSuffix(core, "\\n") == core
  {
    if value == [] {
      assert core[|core| - 1] == ':';
    } else if |value| >= 2 {
      assert core[|core| - 2..] == value[|value| - 2..];
    } else {
      assert core[|core| - 2] == ' ';
    }
  }

  /** Cutting the trimmed header line at its first colon gives back the key
      and, trimmed, the value. */
  lemma CoreSplitsAtColon(key: string, value: string, core: string)
    requires key != [] && IsTrimmed(key) && ':' !in key && IsTrimmed(value)
    requires core == if value == [] then key + ":" else key + ": " + value
    ensures IndexOf(core, ":") == |key| > 0
    ensures core[..|key|] == key && TrimSpace(key) == key
    ensures TrimSpace(core[|key| + 1..]) == value
  {
    FirstColon(key, core[|key|..]);
    assert core == key + core[|key|..];
    TrimSpaceOfTrimmed(key);
    if value == [] {
      assert core[|key| + 1..] == [];
    } else {
      assert core[|key| + 1..] == " " + value;
      TrimSpaceOfTrimmed(value);
      TrimLeftSkipsSpaces(" ", value);
    }
  }

  /** Trimming the serialized header line leaves `key:` or `key: value`. */
  lemma HeaderLineTrim(key: string, value: string)
    requires key != [] && IsTrimmed(key) && IsTrimmed(value)
    ensures TrimSpace(key + ": " + value + "\n")
      == if value == [] then key + ":" else key + ": " + value
  {
    var line := key + ": " + value + "\n";
    assert TrimLeft(line) == line by {
      assert line[0] == key[0];
    }
    if value == [] {
      assert line == (key + ":") + " \n";
      TrimRightSkipsSpaces(key + ":", " \n");
    } else {
      assert line == (key + ": " + value) + "\n";
      TrimRightSkipsSpaces(key + ": " + value, "\n");
      assert (key + ": " + value)[|key + ": " + value| - 1] == value[|value| - 1];
    }
  }

  /** In `key` followed by text starting with a colon, the first colon is the
      one right after the key. */
  lemma FirstColon(key: string, rest: string)
    requires ':' !in key && rest != [] && rest[0] == ':'
    ensures IndexOf(key + rest, ":") == |key|
  {
    var s := key + rest;
    assert s[|key|..|key| + 1] == ":";
    assert OccursAt(s, ":", |key|);
    forall j: nat | j < |key| ensures !OccursAt(s, ":", j) {
      assert s[j..j + 1][0] == key[j];
    }
  }

  /** The branch of the loop taken for a line whose trimmed form starts
      with `#`. */
  function OnComment(st: ParseState, line: string, trimmed: string): ParseState {
    if st.inHeader && !st.headerStarted then st
    else if st.inHeader && st.headerStarted then st.(headerBuffer := st.headerBuffer + trimmed + "\n")
    else st.(pending := st.pending + [line])
  }

  /** The branch taken for a blank line: it closes the header or stores the
      current entry (only when its msgid is non-empty). */
  function OnBlank(st: ParseState): ParseState {
    if st.inHeader && st.headerStarted then
      st.(headers := if st.headerBuffer != "" then HeaderAfterBlock(st.headers, st.headerBuffer) else st.headers,
          headerBuffer := "", inHeader := false, headerStarted := false)
    else if !st.inHeader && st.current.Some? && st.current.value.msgId != "" then
      st.(entries := st.entries + [st.current.value], current := None, section := NoSection, pending := [])
    else st
  }

  /** The entry a field line writes into: the current one, or a fresh one
      taking the pending comments. */
  function OpenEntry(st: ParseState): ParseState {
    if st.current.Some? then st
    else st.(current := Some(Entry("", "", "", st.pending)), pending := [])
  }

  /** A continuation line extends the field opened last. */
  function Extend(e: Entry, section: Section, value: string): Entry {
    match section
    case Msgctxt => e.(context := e.context + value)
    case Msgid => e.(msgId := e.msgId + value)
    case Msgstr => e.(msgStr := e.msgStr + value)
    case _ => e
  }

  /** The branches for entry lines: msgctxt, msgid, msgstr and quoted
      continuation lines. */
  function OnEntryLine(st: ParseState, trimmed: string): ParseState {
    if HasPrefix(trimmed, "msgctxt ") then
      var saved := if st.current.Some? && st.current.value.msgId != "" then st.entries + [st.current.value] else st.entries;
      st.(entries := saved, current := Some(Entry(ExtractQuotedValue(trimmed), "", "", st.pending)),
          pending := [], section := Msgctxt, inHeader := false)
    else if HasPrefix(trimmed, "msgid ") then
      var value := ExtractQuotedValue(trimmed);
      if value == "" && st.inHeader then st
      else
        var o := OpenEntry(st);
        o.(current := Some(o.current.value.(msgId := value)), section := Msgid, inHeader := false)
    else if HasPrefix(trimmed, "msgstr ") then
      var o := OpenEntry(st);
      o.(current := Some(o.current.value.(msgStr := ExtractQuotedValue(trimmed))), section := Msgstr, inHeader := false)
    else if HasPrefix(trimmed, "\"") && !st.inHeader then
      if st.current.Some? then st.(current := Some(Extend(st.current.value, st.section, ExtractQuotedValue(trimmed))))
      else st
    else st
  }

  /** One iteration of ParseReader's loop. */
  function Step(st: ParseState, line: string): ParseState {
    var trimmed := TrimSpace(line);
    if HasPrefix(trimmed, "#") then OnComment(st, line, trimmed)
    else if trimmed == "" then OnBlank(st)
    else if HasPrefix(trimmed, "msgid \"\"") then st.(headerStarted := true, inHeader := true, section := Header)
    else if st.inHeader && HasPrefix(trimmed, "msgstr \"") then
      var value := ExtractQuotedValue(trimmed);
      st.(section := Header, headerBuffer := if value != "" then st.headerBuffer + value else st.headerBuffer)
    else if st.inHeader && st.section == Header && HasPrefix(trimmed, "\"") then
      var value := ExtractQuotedValue(trimmed);
      st.(headers := if value != "" then HeaderAfterLine(st.headers, value) else st.headers)
    else OnEntryLine(st, trimmed)
  }

  /** The loop run over `lines` from state `st`. */
  function RunFrom(st: ParseState, lines: seq<string>): ParseState {
    if lines == [] then st else Step(RunFrom(st, lines[..|lines| - 1]), lines[|lines| - 1])
  }

  /** The code after the loop: store the last entry, parse a header still in
      the buffer, take Language from the headers. */
  function Finish(st: ParseState): Document {
    var entries := if st.current.Some? && st.current.value.msgId != "" then st.entries + [st.current.value] else st.entries;
    var headers := if st.inHeader && st.headerBuffer != "" then HeaderAfterBlock(st.headers, st.headerBuffer) else st.headers;
    Document(headers, GetHeader(headers, "Language"), entries)
  }

  /** What ParseReader returns for a sequence of lines. */
  function Parse(lines: seq<string>): Document {
    Finish(RunFrom(Start, lines))
  }

  /** One more line is one more step. */
  lemma RunFromSnoc(st: ParseState, lines: seq<string>, i: nat)
    requires i < |lines|
    ensures RunFrom(st, lines[..i + 1]) == Step(RunFrom(st, lines[..i]), lines[i])
  {
    assert lines[..i + 1][..i] == lines[..i];
  }

  /** Running over two stretches of lines is running over their
      concatenation. */
  lemma {:induction false} RunFromAppend(st: ParseState, a: seq<string>, b: seq<string>)
    ensures RunFrom(st, a + b) == RunFrom(RunFrom(st, a), b)
    decreases |b|
  {
    if b == [] {
      assert a + b == a;
    } else {
      assert (a + b)[..|a + b| - 1] == a + b[..|b| - 1];
      RunFromAppend(st, a, b[..|b| - 1]);
    }
  }

  /** Every stored entry has a non-empty msgid. */
  predicate IdsNonEmpty(es: seq<Entry>) {
    forall i :: 0 <= i < |es| ==> es[i].msgId != ""
  }

  lemma {:induction false} RunKeepsIdsNonEmpty(st: ParseState, lines: seq<string>)
    requires IdsNonEmpty(st.entries)
    ensures IdsNonEmpty(RunFrom(st, lines).entries)
    decreases |lines|
  {
    if lines != [] {
      RunKeepsIdsNonEmpty(st, lines[..|lines| - 1]);
      StepKeepsIdsNonEmpty(RunFrom(st, lines[..|lines| - 1]), lines[|lines| - 1]);
    }
  }

  lemma StepKeepsIdsNonEmpty(st: ParseState, line: string)
    requires IdsNonEmpty(st.entries)
    ensures IdsNonEmpty(Step(st, line).entries)
  {
    var t := TrimSpace(line);
    if HasPrefix(t, "#") || t == "" || HasPrefix(t, "msgid \"\"") {
    } else if st.inHeader && (HasPrefix(t, "msgstr \"") || (st.section == Header && HasPrefix(t, "\""))) {
    } else {
      assert Step(st, line) == OnEntryLine(st, t);
    }
  }

  /** Entries with an empty msgid are never stored. */
  lemma ParsedIdsNonEmpty(lines: seq<string>)
    ensures IdsNonEmpty(Parse(lines).entries)
  {
    RunKeepsIdsNonEmpty(Start, lines);
  }

  /** Comments before the header entry are discarded. */
  lemma {:induction false} LeadingCommentsIgnored(lines: seq<string>)
    requires forall i :: 0 <= i < |lines| ==> HasPrefix(TrimSpace(lines[i]), "#")
    ensures RunFrom(Start, lines) == Start
    decreases |lines|
  {
    if lines != [] {
      LeadingCommentsIgnored(lines[..|lines| - 1]);
    }
  }

  /** A line starting with `msgid ""` re-enters header mode without storing
      or dropping the entry being built. */
  lemma HeaderMsgidKeepsCurrent(st: ParseState, line: string)
    requires HasPrefix(TrimSpace(line), "msgid \"\"")
    ensures var r := Step(st, line);
      r.inHeader && r.headerStarted && r.section == Header
      && r.entries == st.entries && r.current == st.current && r.pending == st.pending
  {
    var t := TrimSpace(line);
    assert t[0] == 'm';
  }

  /** A blank line leaves an entry whose msgid is empty in place. */
  lemma BlankKeepsEmptyIdEntry(st: ParseState, e: Entry)
    requires !st.inHeader && st.current == Some(e) && e.msgId == ""
    ensures Step(st, "") == st
  {
  }

  /** parseHeaderLine: updates the file's header map. */
  method ParseHeaderLine(po: File, line: string)
    modifies po
    ensures po.headers == HeaderAfterLine(old(po.headers), line)
    ensures po.entries == old(po.entries) && po.language == old(po.language)
  {
    var trimmed := TrimSpace(line);
    if trimmed == "" {
      return;
    }
    var l := TrimSuffix(trimmed, "\\n");
    var idx := IndexOf(l, ":");
    if idx > 0 {
      var key := TrimSpace(l[..idx]);
      var value := TrimSpace(l[idx + 1..]);
      po.headers := po.headers[key := value];
    }
  }

  /** parseHeader: one parseHeaderLine per literal-`\n`-separated piece. */
  method ParseHeader(po: File, headerStr: string)
    modifies po
    ensures po.headers == HeaderAfterBlock(old(po.headers), headerStr)
    ensures po.entries == old(po.entries) && po.language == old(po.language)
  {
    var lines := Split(headerStr, "\\n");
    var i := 0;
    while i < |lines|
      invariant 0 <= i <= |lines|
      invariant po.headers == HeaderAfterLines(old(po.headers), lines[..i])
      invariant po.entries == old(po.entries) && po.language == old(po.language)
    {
      ParseHeaderLine(po, lines[i]);
      assert lines[..i + 1][..i] == lines[..i];
      i := i + 1;
    }
    assert lines[..i] == lines;
  }

  /** The branches of ParseReader's loop for entry lines: msgctxt, msgid,
      msgstr and quoted continuation lines. */
  method ParseEntryLine(po: File, current0: Option<Entry>, section0: Section, inHeader0: bool,
                        pending0: seq<string>, trimmed: string, ghost st: ParseState)
    returns (current: Option<Entry>, section: Section, inHeader: bool, pending: seq<string>)
    requires st.headers == po.headers && st.entries == po.entries && st.current == current0
    requires st.section == section0 && st.inHeader == inHeader0 && st.pending == pending0
    modifies po
    ensures OnEntryLine(st, trimmed)
      == st.(entries := po.entries, current := current, section := section, inHeader := inHeader, pending := pending)
    ensures po.headers == old(po.headers) && po.language == old(po.language)
  {
    current, section, inHeader, pending := current0, section0, inHeader0, pending0;
    if HasPrefix(trimmed, "msgctxt ") {
      if current.Some? && current.value.msgId != "" {
        po.entries := po.entries + [current.value];
      }
      current := Some(Entry(ExtractQuotedValue(trimmed), "", "", pending));
      pending := [];
      section := Msgctxt;
      inHeader := false;
    } else if HasPrefix(trimmed, "msgid ") {
      var value := ExtractQuotedValue(trimmed);
      if !(value == "" && inHeader) {
        if current.None? {
          current := Some(Entry("", "", "", pending));
          pending := [];
        }
        section := Msgid;
        current := Some(current.value.(msgId := value));
        inHeader := false;
      }
    } else if HasPrefix(trimmed, "msgstr ") {
      if current.None? {
        current := Some(Entry("", "", "", pending));
        pending := [];
      }
      section := Msgstr;
      current := Some(current.value.(msgStr := ExtractQuotedValue(trimmed)));
      inHeader := false;
    } else if HasPrefix(trimmed, "\"") && !inHeader {
      var value := ExtractQuotedValue(trimmed);
      if current.Some? {
        match section
        case Msgctxt =>
          current := Some(current.value.(context := current.value.context + value));
        case Msgid =>
          current := Some(current.value.(msgId := current.value.msgId + value));
        case Msgstr =>
          current := Some(current.value.(msgStr := current.value.msgStr + value));
        case _ =>
      }
    }
  }

  /** One iteration of ParseReader's loop over the parser's variables. */
  method ParseLine(po: File, current0: Option<Entry>, section0: Section, buffer0: string, inHeader0: bool,
                   started0: bool, pending0: seq<string>, line: string)
    returns (currentEntry: Option<Entry>, currentSection: Section, headerBuffer: string, inHeader: bool,
             headerStarted: bool, pendingComments: seq<string>)
    modifies po
    ensures ParseState(po.headers, po.entries, currentEntry, currentSection, headerBuffer,
                       inHeader, headerStarted, pendingComments)
      == Step(ParseState(old(po.headers), old(po.entries), current0, section0, buffer0,
                         inHeader0, started0, pending0), line)
    ensures po.language == old(po.language)
  {
    ghost var st := ParseState(po.headers, po.entries, current0, section0, buffer0, inHeader0, started0, pending0);
    currentEntry, currentSection, headerBuffer, inHeader, headerStarted, pendingComments :=
      current0, section0, buffer0, inHeader0, started0, pending0;
    var trimmed := TrimSpace(line);
    if HasPrefix(trimmed, "#") {
      if inHeader && !headerStarted {
      } else if inHeader && headerStarted {
        headerBuffer := headerBuffer + trimmed + "\n";
      } else {
        pendingComments := pendingComments + [line];
      }
    } else if trimmed == "" {
      if inHeader && headerStarted {
        if headerBuffer != "" {
          ParseHeader(po, headerBuffer);
          headerBuffer := "";
        }
        inHeader := false;
        headerStarted := false;
      } else if !inHeader && currentEntry.Some? && currentEntry.value.msgId != "" {
        po.entries := po.entries + [currentEntry.value];
        currentEntry := None;
        currentSection := NoSection;
        pendingComments := [];
      }
    } else if HasPrefix(trimmed, "msgid \"\"") {
      headerStarted := true;
      inHeader := true;
      currentSection := Header;
    } else if inHeader && HasPrefix(trimmed, "msgstr \"") {
      currentSection := Header;
      var value := ExtractQuotedValue(trimmed);
      if value != "" {
        headerBuffer := headerBuffer + value;
      }
    } else if inHeader && currentSection == Header && HasPrefix(trimmed, "\"") {
      var value := ExtractQuotedValue(trimmed);
      if value != "" {
        ParseHeaderLine(po, value);
      }
    } else {
      currentEntry, currentSection, inHeader, pendingComments :=
        ParseEntryLine(po, currentEntry, currentSection, inHeader, pendingComments, trimmed, st);
    }
  }

  /** ParseReader over already split lines. */
  method ParseReader(lines: seq<string>) returns (po: File)
    ensures fresh(po)
    ensures po.Snapshot() == Parse(lines)
  {
    po := new File();
    var currentEntry: Option<Entry> := None;
    var currentSection := NoSection;
    var headerBuffer := "";
    var inHeader := true;
    var headerStarted := false;
    var pendingComments: seq<string> := [];
    var i := 0;
    while i < |lines|
      invariant 0 <= i <= |lines|
      invariant po.language == ""
      invariant ParseState(po.headers, po.entries, currentEntry, currentSection, headerBuffer,
                           inHeader, headerStarted, pendingComments) == RunFrom(Start, lines[..i])
    {
      currentEntry, currentSection, headerBuffer, inHeader, headerStarted, pendingComments :=
        ParseLine(po, currentEntry, currentSection, headerBuffer, inHeader, headerStarted, pendingComments, lines[i]);
      RunFromSnoc(Start, lines, i);
      i := i + 1;
    }
    assert lines[..i] == lines;
    if currentEntry.Some? && currentEntry.value.msgId != "" {
      po.entries := po.entries + [currentEntry.value];
    }
    if inHeader && headerBuffer != "" {
      ParseHeader(po, headerBuffer);
    }
    if "Language" in po.headers {
      po.language := po.headers["Language"];
    }
  }
}
