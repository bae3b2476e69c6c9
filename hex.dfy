/** The two conversions the tool applies to 64-bit hashes: `%016x` formatting
    (internal/poutil/po.go:674, internal/commands/pot.go:91) and reading back
    with `fmt.Sscanf(s, "%x", &v)` into a uint64 (internal/poutil/po.go:655,
    internal/commands/pot.go:74). */
module Hex {
  import opened Text
  import opened Wrappers

  const Two64: nat := 0x1_0000_0000_0000_0000

  /** Go's uint64. */
  type U64 = x: nat | x < Two64

  predicate IsHexDigit(c: char) {
    '0' <= c <= '9' || 'a' <= c <= 'f' || 'A' <= c <= 'F'
  }

  function DigitValue(c: char): (v: nat)
    requires IsHexDigit(c)
    ensures v < 16
  {
    if '0' <= c <= '9' then c as int - '0' as int
    else if 'a' <= c <= 'f' then c as int - 'a' as int + 10
    else c as int - 'A' as int + 10
  }

  /** The lower-case digit `%x` writes for a value below 16. */
  function LowerDigit(d: nat): (c: char)
    requires d < 16
    ensures IsHexDigit(c) && DigitValue(c) == d
    ensures !('A' <= c <= 'Z')
  {
    if d < 10 then ('0' as int + d) as char else ('a' as int + d - 10) as char
  }

  function Pow16(w: nat): (r: nat)
    ensures r >= 1
  {
    if w == 0 then 1 else 16 * Pow16(w - 1)
  }

  /** The last `w` hexadecimal digits of `n`, most significant first,
      zero-padded. */
  function Digits(n: nat, w: nat): (r: string)
    ensures |r| == w
    ensures forall i :: 0 <= i < |r| ==> IsHexDigit(r[i]) && !('A' <= r[i] <= 'Z')
  {
    if w == 0 then [] else Digits(n / 16, w - 1) + [LowerDigit(n % 16)]
  }

  /** `fmt.Sprintf("%016x", n)` for a uint64: at most 16 digits are ever
      needed, so the result always has exactly 16. */
  function Hex16(n: U64): (r: string)
    ensures |r| == 16
    ensures forall i :: 0 <= i < |r| ==> IsHexDigit(r[i]) && !('A' <= r[i] <= 'Z')
  {
    Digits(n, 16)
  }

  /** The value of a string of hex digits, most significant first. */
  function HexValue(s: string): nat
    requires forall i :: 0 <= i < |s| ==> IsHexDigit(s[i])
  {
    if s == [] then 0 else 16 * HexValue(s[..|s| - 1]) + DigitValue(s[|s| - 1])
  }

  /** The characters fmt's scanner accepts into a base-16 number token; the
      underscore is taken into the token but refused afterwards by
      strconv.ParseUint. */
  predicate IsTokenChar(c: char) {
    IsHexDigit(c) || c == '_'
  }

  /** The longest prefix made of token characters. */
  function Token(s: string): (r: string)
    ensures |r| <= |s| && r == s[..|r|]
    ensures forall i :: 0 <= i < |r| ==> IsTokenChar(r[i])
    ensures |r| < |s| ==> !IsTokenChar(s[|r|])
  {
    if s == [] || !IsTokenChar(s[0]) then [] else [s[0]] + Token(s[1..])
  }

  /** The white space fmt's Sscanf skips before a number: a newline there is
      an error, since Sscanf does not treat newlines as space. */
  function SkipSpace(s: string): (r: Option<string>)
    ensures r.Some? ==> |r.value| <= |s|
  {
    if s == [] then Some(s)
    else if s[0] == '\n' then None
    else if IsSpace(s[0]) then SkipSpace(s[1..])
    else Some(s)
  }

  /** `fmt.Sscanf(s, "%x", &v)` with v a uint64: None is the error case.
      Whatever follows the number is ignored. */
  function ParseHex(s: string): (r: Option<U64>)
  {
    match SkipSpace(s)
    case None => None
    case Some(t) =>
      var tok := Token(t);
      if tok == [] || '_' in tok then None
      else
        var v := HexValue(tok);
        if v < Two64 then Some(v) else None
  }

  lemma {:induction false} DigitsValue(n: nat, w: nat)
    ensures HexValue(Digits(n, w)) == n % Pow16(w)
  {
    if w > 0 {
      var d := Digits(n, w);
      assert d[..|d| - 1] == Digits(n / 16, w - 1);
      DigitsValue(n / 16, w - 1);
      ModStep(n, Pow16(w - 1));
    }
  }

  /** Peeling off the last hex digit: n mod 16^(w+1) is 16 times
      (n/16) mod 16^w plus n mod 16. */
  lemma ModStep(n: nat, p: nat)
    requires p >= 1
    ensures n % (16 * p) == 16 * ((n / 16) % p) + n % 16
  {
    var q, r := n / 16, n % 16;
    var a, b := q / p, q % p;
    assert n == (16 * p) * a + (16 * b + r) by {
      assert q == p * a + b;
      assert n == 16 * q + r;
    }
    DivModUnique(n, 16 * p, a, 16 * b + r);
  }

  /** Division with remainder has one answer. */
  lemma DivModUnique(n: nat, m: nat, k: nat, r: nat)
    requires m > 0 && r < m && n == m * k + r
    ensures n / m == k && n % m == r
  {
    var k', r' := n / m, n % m;
    assert m * (k - k') == r' - r;
    if k > k' {
      MulAtLeast(m, k - k');
    } else if k < k' {
      MulAtLeast(m, k' - k);
    }
  }

  lemma MulAtLeast(m: nat, x: nat)
    requires x >= 1
    ensures m * x >= m
  {
    assert m * x == m * (x - 1) + m;
  }

  lemma {:induction false} Pow16Add(a: nat, b: nat)
    ensures Pow16(a + b) == Pow16(a) * Pow16(b)
  {
    if a > 0 {
      Pow16Add(a - 1, b);
      assert Pow16(a + b) == 16 * Pow16(a - 1 + b);
    }
  }

  lemma Pow16Of16()
    ensures Pow16(16) == Two64
  {
    assert Pow16(1) == 16;
    Pow16Add(1, 1);
    Pow16Add(2, 2);
    Pow16Add(4, 4);
    Pow16Add(8, 8);
  }

  lemma TokenOfDigits(s: string)
    requires forall i :: 0 <= i < |s| ==> IsHexDigit(s[i])
    ensures Token(s) == s
  {
  }

  lemma SkipSpaceOfDigit(s: string)
    requires s != [] && IsHexDigit(s[0])
    ensures SkipSpace(s) == Some(s)
  {
  }

  /** A non-empty run of hex digits whose value fits in 64 bits is read back
      as that value. */
  lemma ParseDigits(s: string)
    requires s != [] && forall i :: 0 <= i < |s| ==> IsHexDigit(s[i])
    requires HexValue(s) < Two64
    ensures ParseHex(s) == Some(HexValue(s))
  {
    SkipSpaceOfDigit(s);
    TokenOfDigits(s);
    assert '_' !in s by {
      forall i | 0 <= i < |s| ensures s[i] != '_' {
        assert IsHexDigit(s[i]);
      }
    }
  }

  /** Reading back what `%016x` wrote gives the number. */
  lemma ParseHex16(n: U64)
    ensures ParseHex(Hex16(n)) == Some(n)
  {
    var s := Hex16(n);
    DigitsValue(n, 16);
    Pow16Of16();
    DivModUnique(n, Two64, 0, n);
    assert HexValue(s) == n;
    ParseDigits(s);
  }

  /** Two different hashes are written differently. */
  lemma Hex16Injective(a: U64, b: U64)
    requires Hex16(a) == Hex16(b)
    ensures a == b
  {
    ParseHex16(a);
    ParseHex16(b);
  }
}
