/** The escape codec of PO strings (internal/poutil/po.go): decoding of one
    quoted line, the two different encoders (entry strings and header lines)
    and writeQuotedString, which splits an entry string into continuation
    lines. */
module PoCodec {
  import opened Text

  /** The decoder's rule for the character after a backslash. Unknown escapes
      are kept as backslash plus the character. */
  function UnescapeChar(c: char): (r: string)
    ensures c == 'n' ==> r == "\n"
    ensures c == 't' ==> r == "\t"
    ensures c == 'r' ==> r == "\r"
    ensures c == '\\' || c == '"' ==> r == [c]
    ensures c !in "ntr\\\"" ==> r == ['\\', c]
  {
    match c
    case 'n' => "\n"
    case 't' => "\t"
    case 'r' => "\r"
    case '\\' => "\\"
    case '"' => "\""
    case _ => ['\\', c]
  }

  /** The decoding loop of extractQuotedValue, run on what follows the opening
      quote: it stops at the first unescaped quote and drops a dangling final
      backslash. */
  function DecodeFrom(s: string): (r: string)
    decreases |s|
  {
    if s == [] then []
    else if s[0] == '\\' then (if |s| == 1 then [] else UnescapeChar(s[1]) + DecodeFrom(s[2..]))
    else if s[0] == '"' then []
    else [s[0]] + DecodeFrom(s[1..])
  }

  /** extractQuotedValue: decodes from just after the first `"` of the line;
      a line without a quote gives "". */
  function ExtractQuotedValue(line: string): (r: string)
    ensures !Contains(line, "\"") ==> r == ""
    ensures Contains(line, "\"") ==> r == DecodeFrom(line[IndexOf(line, "\"") + 1..])
  {
    var start := IndexOf(line, "\"");
    if start < 0 then "" else DecodeFrom(line[start + 1..])
  }

  /** Text the decoder reads through without stopping: every backslash
      starts a complete two-character escape and no quote stands alone. */
  predicate Closed(a: string)
    decreases |a|
  {
    a == []
    || (a[0] == '\\' && |a| >= 2 && Closed(a[2..]))
    || (a[0] != '\\' && a[0] != '"' && Closed(a[1..]))
  }

  /** Text after the first unescaped quote is ignored. */
  lemma {:induction false} DecodeStopsAtQuote(a: string, b: string)
    requires Closed(a)
    ensures DecodeFrom(a + "\"" + b) == DecodeFrom(a)
    decreases |a|
  {
    if a == [] {
      assert (a + "\"" + b)[0] == '"';
    } else if a[0] == '\\' {
      assert (a + "\"" + b)[1] == a[1];
      assert (a + "\"" + b)[2..] == a[2..] + "\"" + b;
      DecodeStopsAtQuote(a[2..], b);
    } else {
      assert (a + "\"" + b)[1..] == a[1..] + "\"" + b;
      DecodeStopsAtQuote(a[1..], b);
    }
  }

  /** A backslash as the very last character, after complete escapes, is
      dropped. */
  lemma {:induction false} DecodeDropsDanglingBackslash(a: string)
    requires Closed(a)
    ensures DecodeFrom(a + "\\") == DecodeFrom(a)
    decreases |a|
  {
    if a == [] {
    } else if a[0] == '\\' {
      assert (a + "\\")[1] == a[1];
      assert (a + "\\")[2..] == a[2..] + "\\";
      DecodeDropsDanglingBackslash(a[2..]);
    } else {
      assert (a + "\\")[1..] == a[1..] + "\\";
      DecodeDropsDanglingBackslash(a[1..]);
    }
  }

  /** The per-character rule of writeQuotedString: backslash, quote and tab
      are escaped; newline and carriage return are not. */
  function EscapeEntryChar(c: char): (r: string)
    ensures c !in "\\\"\t" ==> r == [c]
    ensures c in "\\\"\t" ==> |r| == 2 && r[0] == '\\'
  {
    match c
    case '\\' => "\\\\"
    case '"' => "\\\""
    case '\t' => "\\t"
    case _ => [c]
  }

  function EscapeEntry(s: string): string {
    if s == [] then [] else EscapeEntryChar(s[0]) + EscapeEntry(s[1..])
  }

  /** The per-character rule of the header lines in MarshalText: backslash,
      quote and newline are escaped; tab and carriage return are not. */
  function EscapeHeaderChar(c: char): (r: string)
    ensures c !in "\\\"\n" ==> r == [c]
    ensures c in "\\\"\n" ==> |r| == 2 && r[0] == '\\'
  {
    match c
    case '\\' => "\\\\"
    case '"' => "\\\""
    case '\n' => "\\n"
    case _ => [c]
  }

  function EscapeHeader(s: string): string {
    if s == [] then [] else EscapeHeaderChar(s[0]) + EscapeHeader(s[1..])
  }

  lemma EscapeEntrySnoc(s: string, i: nat)
    requires i < |s|
    ensures EscapeEntry(s[..i + 1]) == EscapeEntry(s[..i]) + EscapeEntryChar(s[i])
  {
    EscapeEntryAppend(s[..i], [s[i]]);
    assert s[..i + 1] == s[..i] + [s[i]];
  }

  lemma {:induction false} EscapeEntryAppend(a: string, b: string)
    ensures EscapeEntry(a + b) == EscapeEntry(a) + EscapeEntry(b)
    decreases |a|
  {
    if a != [] {
      assert (a + b)[0] == a[0] && (a + b)[1..] == a[1..] + b;
      EscapeEntryAppend(a[1..], b);
    } else {
      assert a + b == b;
    }
  }

  lemma EscapeHeaderSnoc(s: string, i: nat)
    requires i < |s|
    ensures EscapeHeader(s[..i + 1]) == EscapeHeader(s[..i]) + EscapeHeaderChar(s[i])
  {
    EscapeHeaderAppend(s[..i], [s[i]]);
    assert s[..i + 1] == s[..i] + [s[i]];
  }

  lemma {:induction false} EscapeHeaderAppend(a: string, b: string)
    ensures EscapeHeader(a + b) == EscapeHeader(a) + EscapeHeader(b)
    decreases |a|
  {
    if a != [] {
      assert (a + b)[0] == a[0] && (a + b)[1..] == a[1..] + b;
      EscapeHeaderAppend(a[1..], b);
    } else {
      assert a + b == b;
    }
  }

  /** Decoding undoes the entry escaping, whatever follows it. */
  lemma {:induction false} DecodeEscapeEntry(x: string, rest: string)
    ensures DecodeFrom(EscapeEntry(x) + rest) == x + DecodeFrom(rest)
    decreases |x|
  {
    if x == [] {
      assert EscapeEntry(x) + rest == rest;
    } else {
      var e := EscapeEntryChar(x[0]);
      var e1 := EscapeEntry(x[1..]);
      assert EscapeEntry(x) == e + e1;
      Assoc(e, e1, rest);
      DecodeEntryChar(x[0], e1 + rest);
      DecodeEscapeEntry(x[1..], rest);
      assert x == [x[0]] + x[1..];
      Assoc([x[0]], x[1..], DecodeFrom(rest));
    }
  }

  lemma DecodeEntryChar(c: char, t: string)
    ensures DecodeFrom(EscapeEntryChar(c) + t) == [c] + DecodeFrom(t)
  {
    var e := EscapeEntryChar(c);
    if |e| == 2 {
      assert (e + t)[0] == '\\' && (e + t)[1] == e[1] && (e + t)[2..] == t;
    } else {
      assert (e + t)[0] == c && (e + t)[1..] == t;
    }
  }


  /** Decoding undoes the header escaping, whatever follows it. */
  lemma {:induction false} DecodeEscapeHeader(x: string, rest: string)
    ensures DecodeFrom(EscapeHeader(x) + rest) == x + DecodeFrom(rest)
    decreases |x|
  {
    if x == [] {
      assert EscapeHeader(x) + rest == rest;
    } else {
      var e := EscapeHeaderChar(x[0]);
      var e1 := EscapeHeader(x[1..]);
      assert EscapeHeader(x) == e + e1;
      Assoc(e, e1, rest);
      DecodeHeaderChar(x[0], e1 + rest);
      DecodeEscapeHeader(x[1..], rest);
      assert x == [x[0]] + x[1..];
      Assoc([x[0]], x[1..], DecodeFrom(rest));
    }
  }

  lemma DecodeHeaderChar(c: char, t: string)
    ensures DecodeFrom(EscapeHeaderChar(c) + t) == [c] + DecodeFrom(t)
  {
    var e := EscapeHeaderChar(c);
    if |e| == 2 {
      assert (e + t)[0] == '\\' && (e + t)[1] == e[1] && (e + t)[2..] == t;
    } else {
      assert (e + t)[0] == c && (e + t)[1..] == t;
    }
  }


  /** Escaped text never holds a bare quote: every `"` follows a backslash
      that itself starts an escape. Stated as: no character is a quote
      unless the escaped text is read from an escape boundary. The form used
      below: an escape of any string neither starts with a quote nor holds a
      newline where the source had none. */
  lemma {:induction false} EscapeEntryStart(x: string)
    requires x != []
    ensures EscapeEntry(x) != [] && EscapeEntry(x)[0] != '"'
  {
    assert EscapeEntry(x) == EscapeEntryChar(x[0]) + EscapeEntry(x[1..]);
  }

  lemma {:induction false} EscapeEntryNoNewline(x: string)
    requires '\n' !in x
    ensures '\n' !in EscapeEntry(x)
    decreases |x|
  {
    if x != [] {
      EscapeEntryNoNewline(x[1..]);
      assert EscapeEntry(x) == EscapeEntryChar(x[0]) + EscapeEntry(x[1..]);
    }
  }

  lemma {:induction false} EscapeHeaderNoNewline(x: string)
    ensures '\n' !in EscapeHeader(x)
    decreases |x|
  {
    if x != [] {
      EscapeHeaderNoNewline(x[1..]);
      assert EscapeHeader(x) == EscapeHeaderChar(x[0]) + EscapeHeader(x[1..]);
    }
  }

  /** One output line of writeQuotedString: the escaped segment in quotes,
      with an escaped newline on every segment but the last. */
  function QuotedPiece(segment: string, last: bool): string {
    "\"" + EscapeEntry(segment) + (if last then "" else "\\n") + "\""
  }

  /** The pieces of a string split on newlines, the last one unflagged. */
  function QuotedPieces(segments: seq<string>): (r: seq<string>)
    requires |segments| >= 1
    ensures |r| == |segments|
    ensures forall i :: 0 <= i < |r| ==> r[i] == QuotedPiece(segments[i], i == |r| - 1)
  {
    if |segments| == 1 then [QuotedPiece(segments[0], true)]
    else [QuotedPiece(segments[0], false)] + QuotedPieces(segments[1..])
  }

  /** The lines writeQuotedString produces for `s` (joined with newlines in
      the output). */
  function QuotedLines(s: string): (r: seq<string>)
    ensures |r| >= 1
  {
    QuotedPieces(Split(s, "\n"))
  }

  /** What one piece decodes to: its segment, plus the newline it stood for. */
  lemma DecodePiece(segment: string, last: bool)
    ensures ExtractQuotedValue(QuotedPiece(segment, last))
      == segment + (if last then "" else "\n")
  {
    var p := QuotedPiece(segment, last);
    var e := EscapeEntry(segment);
    var flag: string := if last then "" else "\\n";
    assert p == "\"" + e + flag + "\"";
    Assoc("\"" + e, flag, "\"");
    Assoc("\"", e, flag + "\"");
    assert p[1..] == e + (flag + "\"");
    IndexOfFirst(p, "\"", 0);
    DecodeEscapeEntry(segment, flag + "\"");
    DecodeFlag(last);
  }

  lemma DecodeFlag(last: bool)
    ensures DecodeFrom((if last then "" else "\\n") + "\"") == (if last then "" else "\n")
  {
    if !last {
      assert ("\\n" + "\"")[2..] == "\"";
    }
  }

  /** Concatenating the decoded pieces of writeQuotedString's lines gives the
      string back: the encoder's round trip. */
  function DecodedConcat(lines: seq<string>): string {
    if lines == [] then [] else ExtractQuotedValue(lines[0]) + DecodedConcat(lines[1..])
  }

  lemma {:induction false} DecodePieces(segments: seq<string>)
    requires |segments| >= 1
    ensures DecodedConcat(QuotedPieces(segments)) == Join(segments, "\n")
    decreases |segments|
  {
    DecodePiece(segments[0], |segments| == 1);
    if |segments| > 1 {
      DecodePieces(segments[1..]);
      assert QuotedPieces(segments)[1..] == QuotedPieces(segments[1..]);
    }
  }

  lemma QuotedLinesRoundTrip(s: string)
    ensures DecodedConcat(QuotedLines(s)) == s
  {
    DecodePieces(Split(s, "\n"));
    JoinSplit(s, "\n");
  }

  /** Every line writeQuotedString produces is a single text line that starts
      and ends with a quote. */
  lemma QuotedLinesShape(s: string)
    ensures forall i :: 0 <= i < |QuotedLines(s)| ==>
      var p := QuotedLines(s)[i];
      |p| >= 2 && p[0] == '"' && p[|p| - 1] == '"' && '\n' !in p
  {
    var segs := Split(s, "\n");
    SplitPiecesAvoidSep(s, "\n");
    forall i | 0 <= i < |segs|
      ensures var p := QuotedPiece(segs[i], i == |segs| - 1);
        |p| >= 2 && p[0] == '"' && p[|p| - 1] == '"' && '\n' !in p
    {
      NoNewlineFromNotContains(segs[i]);
      EscapeEntryNoNewline(segs[i]);
    }
  }

  lemma NoNewlineFromNotContains(x: string)
    requires !Contains(x, "\n")
    ensures '\n' !in x
  {
    if '\n' in x {
      var i :| 0 <= i < |x| && x[i] == '\n';
      assert x[i..i + 1] == "\n";
      ContainsAt(x, "\n", i);
    }
  }

  /** The first line starts with a quote that is not immediately closed,
      unless the whole string is empty: this keeps `msgid "<non-empty>"` from
      looking like the header's `msgid ""`. */
  lemma QuotedLinesFirst(s: string)
    ensures var p := QuotedLines(s)[0]; p[1] == '"' <==> s == ""
  {
    var segs := Split(s, "\n");
    var p := QuotedLines(s)[0];
    var tail := if |segs| == 1 then "" else "\\n";
    assert p == "\"" + EscapeEntry(segs[0]) + tail + "\"";
    if segs[0] != [] {
      EscapeEntryStart(segs[0]);
      assert p[1] == EscapeEntry(segs[0])[0];
    } else if |segs| > 1 {
      assert p[1] == '\\';
    } else {
      JoinSplit(s, "\n");
    }
    if s == "" {
      assert IndexOf(s, "\n") < 0;
    }
  }

  /** writeQuotedString: appends the quoted form of `s` to the builder, one
      escaped line per newline-separated segment. */
  method WriteQuotedString(b: string, s: string) returns (out: string)
    ensures out == b + Join(QuotedLines(s), "\n")
  {
    if s == "" {
      out := b + "\"\"";
      assert QuotedLines(s) == [QuotedPiece("", true)];
      return;
    }
    if Contains(s, "\n") {
      out := AppendQuotedLines(b, Split(s, "\n"));
    } else {
      var piece := "\"";
      piece := AppendEscapedEntry(piece, s);
      piece := piece + "\"";
      out := b + piece;
      SplitWithoutSep(s, "\n");
      assert QuotedLines(s) == [QuotedPiece(s, true)];
      assert QuotedPiece(s, true) == piece by {
        assert "\"" + EscapeEntry(s) + "" == "\"" + EscapeEntry(s);
      }
    }
  }

  /** The multi-line branch of writeQuotedString: one quoted line per
      segment, separated by newlines. */
  method AppendQuotedLines(b: string, lines: seq<string>) returns (out: string)
    requires |lines| >= 1
    ensures out == b + Join(QuotedPieces(lines), "\n")
  {
    ghost var pieces := QuotedPieces(lines);
    out := b;
    var i := 0;
    while i < |lines|
      invariant 0 <= i <= |lines|
      invariant i == 0 ==> out == b
      invariant i > 0 ==> out == b + Join(pieces[..i], "\n")
    {
      ghost var before := out;
      if i > 0 {
        out := out + "\n";
      }
      var piece := QuoteLine(lines[i], i == |lines| - 1);
      assert piece == pieces[i];
      out := out + piece;
      if i > 0 {
        AppendPieceStep(b, pieces, i, before, piece);
      } else {
        assert pieces[..1] == [pieces[0]];
      }
      i := i + 1;
    }
    assert pieces[..i] == pieces;
  }

  /** One quoted line: the escaped segment in quotes, with an escaped
      newline unless it is the last segment. */
  method QuoteLine(segment: string, last: bool) returns (piece: string)
    ensures piece == QuotedPiece(segment, last)
  {
    piece := "\"";
    piece := AppendEscapedEntry(piece, segment);
    if !last {
      piece := piece + "\\n";
    }
    piece := piece + "\"";
  }

  lemma AppendPieceStep(b: string, pieces: seq<string>, i: nat, before: string, piece: string)
    requires 0 < i < |pieces| && before == b + Join(pieces[..i], "\n") && piece == pieces[i]
    ensures before + "\n" + piece == b + Join(pieces[..i + 1], "\n")
  {
    assert pieces[..i + 1] == pieces[..i] + [pieces[i]];
    JoinSnoc(pieces[..i], pieces[i], "\n");
  }

  /** The rune loop of writeQuotedString. */
  method AppendEscapedEntry(b: string, s: string) returns (out: string)
    ensures out == b + EscapeEntry(s)
  {
    out := b;
    var i := 0;
    while i < |s|
      invariant 0 <= i <= |s|
      invariant out == b + EscapeEntry(s[..i])
    {
      var c := s[i];
      var piece;
      if c == '\\' {
        piece := "\\\\";
      } else if c == '"' {
        piece := "\\\"";
      } else if c == '\t' {
        piece := "\\t";
      } else {
        piece := [c];
      }
      EscapeEntrySnoc(s, i);
      Assoc(b, EscapeEntry(s[..i]), piece);
      out := out + piece;
      i := i + 1;
    }
    assert s[..i] == s;
  }

  /** The rune loop that escapes a header line in MarshalText. */
  method AppendEscapedHeader(b: string, s: string) returns (out: string)
    ensures out == b + EscapeHeader(s)
  {
    out := b;
    var i := 0;
    while i < |s|
      invariant 0 <= i <= |s|
      invariant out == b + EscapeHeader(s[..i])
    {
      var c := s[i];
      var piece;
      if c == '\\' {
        piece := "\\\\";
      } else if c == '"' {
        piece := "\\\"";
      } else if c == '\n' {
        piece := "\\n";
      } else {
        piece := [c];
      }
      EscapeHeaderSnoc(s, i);
      Assoc(b, EscapeHeader(s[..i]), piece);
      out := out + piece;
      i := i + 1;
    }
    assert s[..i] == s;
  }
}
