/** The few functions of Go's `strings` and `unicode` packages that the
    localization tool relies on, over strings as sequences of Unicode scalar
    values. Each one follows the Go library's definition. */
module Text {

  /** unicode.IsSpace: the ASCII white space and the Unicode space separators. */
  predicate IsSpace(c: char) {
    c == '\t' || c == '\n' || c == '\U{000B}' || c == '\U{000C}' || c == '\r' || c == ' '
    || c == '\U{0085}' || c == '\U{00A0}' || c == '\U{1680}'
    || ('\U{2000}' <= c <= '\U{200A}')
    || c == '\U{2028}' || c == '\U{2029}' || c == '\U{202F}' || c == '\U{205F}' || c == '\U{3000}'
  }

  /** Drops leading white space. */
  function TrimLeft(s: string): (r: string)
    ensures |r| <= |s|
    ensures r == [] || !IsSpace(r[0])
  {
    if s != [] && IsSpace(s[0]) then TrimLeft(s[1..]) else s
  }

  /** Drops trailing white space. */
  function TrimRight(s: string): (r: string)
    ensures |r| <= |s|
    ensures r == [] || !IsSpace(r[|r| - 1])
  {
    if s != [] && IsSpace(s[|s| - 1]) then TrimRight(s[..|s| - 1]) else s
  }

  /** TrimLeft returns a suffix of its argument. */
  lemma {:induction false} TrimLeftIsSuffix(s: string)
    ensures TrimLeft(s) == s[|s| - |TrimLeft(s)|..]
  {
    if s != [] && IsSpace(s[0]) {
      TrimLeftIsSuffix(s[1..]);
      assert s[1..][|s[1..]| - |TrimLeft(s[1..])|..] == s[|s| - |TrimLeft(s)|..];
    }
  }

  /** TrimRight returns a prefix of its argument. */
  lemma {:induction false} TrimRightIsPrefix(s: string)
    ensures TrimRight(s) == s[..|TrimRight(s)|]
  {
    if s != [] && IsSpace(s[|s| - 1]) {
      TrimRightIsPrefix(s[..|s| - 1]);
      assert s[..|s| - 1][..|TrimRight(s)|] == s[..|TrimRight(s)|];
    }
  }

  /** Everything TrimLeft drops is white space. */
  lemma {:induction false} TrimLeftDropsSpaces(s: string, i: nat)
    requires i < |s| - |TrimLeft(s)|
    ensures IsSpace(s[i])
  {
    if i > 0 {
      TrimLeftDropsSpaces(s[1..], i - 1);
    }
  }

  /** Everything TrimRight drops is white space. */
  lemma {:induction false} TrimRightDropsSpaces(s: string, i: nat)
    requires |TrimRight(s)| <= i < |s|
    ensures IsSpace(s[i])
  {
    if i < |s| - 1 {
      TrimRightDropsSpaces(s[..|s| - 1], i);
    }
  }

  /** strings.TrimSpace. */
  function TrimSpace(s: string): string {
    TrimRight(TrimLeft(s))
  }

  /** A string that TrimSpace leaves as it is. */
  predicate IsTrimmed(s: string) {
    s == [] || (!IsSpace(s[0]) && !IsSpace(s[|s| - 1]))
  }

  lemma TrimSpaceOfTrimmed(s: string)
    requires IsTrimmed(s)
    ensures TrimSpace(s) == s
  {
  }

  lemma TrimSpaceIsTrimmed(s: string)
    ensures IsTrimmed(TrimSpace(s))
  {
    var l := TrimLeft(s);
    var r := TrimRight(l);
    TrimRightIsPrefix(l);
    if r != [] {
      assert r[0] == l[0];
    }
  }

  /** TrimLeft skips a prefix made only of white space. */
  lemma {:induction false} TrimLeftSkipsSpaces(a: string, b: string)
    requires forall i :: 0 <= i < |a| ==> IsSpace(a[i])
    ensures TrimLeft(a + b) == TrimLeft(b)
  {
    if a == [] {
      assert a + b == b;
    } else {
      assert (a + b)[0] == a[0];
      assert (a + b)[1..] == a[1..] + b;
      TrimLeftSkipsSpaces(a[1..], b);
    }
  }

  /** TrimRight skips a suffix made only of white space. */
  lemma {:induction false} TrimRightSkipsSpaces(a: string, b: string)
    requires forall i :: 0 <= i < |b| ==> IsSpace(b[i])
    ensures TrimRight(a + b) == TrimRight(a)
  {
    if b == [] {
      assert a + b == a;
    } else {
      var b' := b[..|b| - 1];
      assert (a + b)[|a + b| - 1] == b[|b| - 1];
      assert (a + b)[..|a + b| - 1] == a + b';
      TrimRightSkipsSpaces(a, b');
    }
  }

  predicate HasPrefix(s: string, p: string) {
    |p| <= |s| && s[..|p|] == p
  }

  predicate HasSuffix(s: string, p: string) {
    |p| <= |s| && s[|s| - |p|..] == p
  }

  /** strings.TrimSuffix: removes one occurrence of the suffix, if present. */
  function TrimSuffix(s: string, p: string): (r: string)
    ensures HasSuffix(s, p) ==> r + p == s
    ensures !HasSuffix(s, p) ==> r == s
  {
    if HasSuffix(s, p) then s[..|s| - |p|] else s
  }

  /** `sub` occurs in `s` at position `j`. */
  predicate OccursAt(s: string, sub: string, j: nat) {
    j + |sub| <= |s| && s[j..j + |sub|] == sub
  }

  /** The first position at or after `k` where `sub` occurs in `s`, or -1. */
  function IndexFrom(s: string, sub: string, k: nat): (i: int)
    ensures i == -1 || (k <= i && OccursAt(s, sub, i))
    ensures forall j: nat :: k <= j && (i < 0 || j < i) ==> !OccursAt(s, sub, j)
    decreases |s| - k
  {
    if k + |sub| > |s| then -1
    else if OccursAt(s, sub, k) then k
    else IndexFrom(s, sub, k + 1)
  }

  /** strings.Index: the first position of `sub` in `s`, or -1. */
  function IndexOf(s: string, sub: string): (i: int)
    ensures i == -1 || (i >= 0 && OccursAt(s, sub, i))
    ensures forall j: nat :: i < 0 || j < i ==> !OccursAt(s, sub, j)
  {
    IndexFrom(s, sub, 0)
  }

  /** Concatenation regrouped. */
  lemma Assoc(a: string, b: string, c: string)
    ensures a + b + c == a + (b + c)
  {
  }

  /** A non-empty sequence is its front followed by its last element. */
  lemma InitLast<T>(s: seq<T>)
    requires s != []
    ensures s[..|s| - 1] + [s[|s| - 1]] == s
  {
  }

  /** The first occurrence is where strings.Index stops. */
  lemma IndexOfFirst(s: string, sub: string, k: nat)
    requires OccursAt(s, sub, k)
    requires forall j: nat :: j < k ==> !OccursAt(s, sub, j)
    ensures IndexOf(s, sub) == k
  {
  }

  /** strings.Contains. */
  predicate Contains(s: string, sub: string) {
    IndexOf(s, sub) >= 0
  }

  /** A string contains every substring found at some position. */
  lemma ContainsAt(s: string, sub: string, i: nat)
    requires OccursAt(s, sub, i)
    ensures Contains(s, sub)
  {
  }

  /** A string contains whatever stands between a prefix and a suffix. */
  lemma Infix(a: string, b: string, c: string)
    ensures Contains(a + b + c, b)
  {
    assert (a + b + c)[|a|..|a| + |b|] == b;
    ContainsAt(a + b + c, b, |a|);
  }

  /** strings.Split with a non-empty separator. */
  function Split(s: string, sep: string): (parts: seq<string>)
    requires sep != []
    ensures |parts| >= 1
    decreases |s|
  {
    var i := IndexOf(s, sep);
    if i < 0 then [s] else [s[..i]] + Split(s[i + |sep|..], sep)
  }

  /** strings.Join. */
  function Join(parts: seq<string>, sep: string): string {
    if parts == [] then []
    else if |parts| == 1 then parts[0]
    else parts[0] + sep + Join(parts[1..], sep)
  }

  /** Joining the pieces of a split gives the string back. */
  lemma {:induction false} JoinSplit(s: string, sep: string)
    requires sep != []
    ensures Join(Split(s, sep), sep) == s
    decreases |s|
  {
    var i := IndexOf(s, sep);
    if i >= 0 {
      var head, rest := s[..i], s[i + |sep|..];
      var tail := Split(rest, sep);
      JoinSplit(rest, sep);
      JoinCons(head, tail, sep);
      assert s[i..i + |sep|] == sep;
      assert s == head + s[i..i + |sep|] + rest;
    }
  }

  lemma JoinCons(head: string, tail: seq<string>, sep: string)
    requires |tail| >= 1
    ensures Join([head] + tail, sep) == head + sep + Join(tail, sep)
  {
    assert ([head] + tail)[1..] == tail;
  }

  /** Joining one more part appends the separator and the part. */
  lemma {:induction false} JoinSnoc(parts: seq<string>, x: string, sep: string)
    requires |parts| >= 1
    ensures Join(parts + [x], sep) == Join(parts, sep) + sep + x
    decreases |parts|
  {
    if |parts| > 1 {
      JoinSnoc(parts[1..], x, sep);
      assert (parts + [x])[1..] == parts[1..] + [x];
    }
  }

  /** No piece of a split contains the separator. */
  lemma {:induction false} SplitPiecesAvoidSep(s: string, sep: string)
    requires sep != []
    ensures forall k :: 0 <= k < |Split(s, sep)| ==> !Contains(Split(s, sep)[k], sep)
    decreases |s|
  {
    var i := IndexOf(s, sep);
    if i >= 0 {
      var rest := s[i + |sep|..];
      SplitPiecesAvoidSep(rest, sep);
      var head := s[..i];
      forall j: nat | OccursAt(head, sep, j) ensures false {
        assert head[j..j + |sep|] == s[j..j + |sep|];
        assert OccursAt(s, sep, j);
      }
      assert Split(s, sep) == [head] + Split(rest, sep);
    }
  }

  /** No white space anywhere in `s`. */
  predicate NoSpace(s: string) {
    forall i :: 0 <= i < |s| ==> !IsSpace(s[i])
  }

  /** Trimming white space neither creates nor destroys an occurrence of a
      string that holds no white space. */
  lemma TrimSpaceKeepsContains(s: string, sub: string)
    requires sub != [] && NoSpace(sub)
    ensures Contains(TrimSpace(s), sub) <==> Contains(s, sub)
  {
    if Contains(TrimSpace(s), sub) {
      TrimmedOccurrence(s, sub);
    }
    if Contains(s, sub) {
      OccurrenceSurvivesTrim(s, sub);
    }
  }

  lemma TrimmedOccurrence(s: string, sub: string)
    requires Contains(TrimSpace(s), sub)
    ensures Contains(s, sub)
  {
    var l := TrimLeft(s);
    var t := TrimRight(l);
    var k := |s| - |l|;
    TrimSpaceIsSlice(s);
    var j := IndexOf(t, sub);
    OccursInSlice(s, k, k + |t|, sub, j);
  }

  lemma OccurrenceSurvivesTrim(s: string, sub: string)
    requires sub != [] && NoSpace(sub)
    requires Contains(s, sub)
    ensures Contains(TrimSpace(s), sub)
  {
    var j := IndexOf(s, sub);
    OccurrenceInsideTrim(s, sub, j);
    TrimSpaceIsSlice(s);
    OccursInSubslice(s, |s| - |TrimLeft(s)|, TrimSpace(s), sub, j);
  }

  /** An occurrence lying inside a slice `t` of `s` is an occurrence in `t`. */
  lemma OccursInSubslice(s: string, k: nat, t: string, sub: string, j: nat)
    requires k <= j && j + |sub| <= k + |t| <= |s| && t == s[k..k + |t|]
    requires OccursAt(s, sub, j)
    ensures Contains(t, sub)
  {
    OccursOfSlice(s, k, k + |t|, sub, j - k);
  }

  /** TrimSpace returns a slice of its argument. */
  lemma TrimSpaceIsSlice(s: string)
    ensures var k := |s| - |TrimLeft(s)|;
      k + |TrimSpace(s)| <= |s| && TrimSpace(s) == s[k..k + |TrimSpace(s)|]
  {
    TrimLeftIsSuffix(s);
    TrimRightIsPrefix(TrimLeft(s));
  }

  /** An occurrence in a slice is an occurrence in the whole string. */
  lemma OccursInSlice(s: string, lo: nat, hi: nat, sub: string, j: nat)
    requires lo <= hi <= |s| && OccursAt(s[lo..hi], sub, j)
    ensures Contains(s, sub)
  {
    forall i | 0 <= i < |sub| ensures s[lo + j + i] == sub[i] {
      assert s[lo..hi][j..j + |sub|][i] == sub[i];
    }
    assert s[lo + j..lo + j + |sub|] == sub;
    ContainsAt(s, sub, lo + j);
  }

  /** An occurrence lying inside a slice is an occurrence in the slice. */
  lemma OccursOfSlice(s: string, lo: nat, hi: nat, sub: string, j: nat)
    requires lo <= hi <= |s| && lo + j + |sub| <= hi && OccursAt(s, sub, lo + j)
    ensures Contains(s[lo..hi], sub)
  {
    forall i | 0 <= i < |sub| ensures s[lo..hi][j + i] == sub[i] {
      assert s[lo + j..lo + j + |sub|][i] == sub[i];
    }
    assert s[lo..hi][j..j + |sub|] == sub;
    ContainsAt(s[lo..hi], sub, j);
  }

  /** A white-space-free occurrence lies within the trimmed part. */
  lemma OccurrenceInsideTrim(s: string, sub: string, j: nat)
    requires sub != [] && NoSpace(sub)
    requires OccursAt(s, sub, j)
    ensures |s| - |TrimLeft(s)| <= j
    ensures j + |sub| <= |s| - |TrimLeft(s)| + |TrimSpace(s)|
  {
    var l := TrimLeft(s);
    var k := |s| - |l|;
    assert s[j] == sub[0];
    assert !IsSpace(s[j]);
    if j < k {
      TrimLeftDropsSpaces(s, j);
    }
    var e := j + |sub| - 1;
    assert s[e] == sub[|sub| - 1];
    TrimLeftIsSuffix(s);
    assert l[e - k] == s[e];
    if e - k >= |TrimRight(l)| {
      TrimRightDropsSpaces(l, e - k);
    }
  }

  /** Dropping a prefix in which no occurrence starts keeps `Contains`. */
  lemma ContainsAfterDrop(s: string, sub: string, d: nat)
    requires d <= |s|
    requires forall j: nat :: j < d ==> !OccursAt(s, sub, j)
    ensures Contains(s[d..], sub) <==> Contains(s, sub)
  {
    if Contains(s[d..], sub) {
      var j := IndexOf(s[d..], sub);
      assert s[d + j..d + j + |sub|] == s[d..][j..j + |sub|];
      ContainsAt(s, sub, d + j);
    }
    if Contains(s, sub) {
      var j := IndexOf(s, sub);
      assert s[d..][j - d..j - d + |sub|] == s[j..j + |sub|];
      ContainsAt(s[d..], sub, j - d);
    }
  }

  /** Splitting a string that does not contain the separator gives that string alone. */
  lemma SplitWithoutSep(s: string, sep: string)
    requires sep != [] && !Contains(s, sep)
    ensures Split(s, sep) == [s]
  {
  }

  /** unicode.ToLower restricted to what can matter for a lookup among ASCII
      keys: ASCII capitals, and the two non-ASCII runes whose lower case is an
      ASCII letter (U+0130 and the Kelvin sign U+212A). Every other rune is
      kept; Go would map it to a lower case that is not ASCII either. */
  function LowerChar(c: char): (r: char)
    ensures 'A' <= c <= 'Z' ==> r as int == c as int + 32
    ensures !('A' <= c <= 'Z') && c != '\U{0130}' && c != '\U{212A}' ==> r == c
  {
    if 'A' <= c <= 'Z' then (c as int + 32) as char
    else if c == '\U{0130}' then 'i'
    else if c == '\U{212A}' then 'k'
    else c
  }

  /** strings.ToLower (see LowerChar). */
  function ToLower(s: string): (r: string)
    ensures |r| == |s|
    ensures forall i :: 0 <= i < |s| ==> r[i] == LowerChar(s[i])
  {
    if s == [] then [] else [LowerChar(s[0])] + ToLower(s[1..])
  }

  /** strings.ReplaceAll(s, from, to) for a one-character `from`. */
  function ReplaceChar(s: string, from: char, to: string): (r: string)
    ensures !(from in to) ==> forall i :: 0 <= i < |r| ==> r[i] != from
  {
    if s == [] then []
    else (if s[0] == from then to else [s[0]]) + ReplaceChar(s[1..], from, to)
  }
}
