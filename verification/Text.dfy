/** What the number printers and the string routines of str.c compute, as values. */
module Text {
  import opened Machine

  function Reversed<T>(s: seq<T>): (r: seq<T>)
    ensures |r| == |s|
  {
    if s == [] then [] else Reversed(s[1..]) + [s[0]]
  }

  lemma {:induction false} ReversedAt<T>(s: seq<T>, k: nat)
    requires k < |s|
    ensures Reversed(s)[k] == s[|s| - 1 - k]
  {
    if k < |s| - 1 {
      ReversedAt(s[1..], k);
    }
  }

  // ----------------------------------------------------------------- numbers

  const ZERO: Byte := '0' as nat
  const MINUS: Byte := '-' as nat

  /** The character printed for a digit: 0-9, then a-z. */
  function DigitChar(d: nat): Byte
    requires d < 36
  {
    if d > 9 then (d - 10) + 'a' as nat else d + '0' as nat
  }

  /** The characters the printers use, written out. */
  lemma DigitTable(d: nat)
    requires d < 36
    ensures d < 10 ==> |"0123456789"| == 10 && DigitChar(d) == "0123456789"[d] as nat
    ensures d >= 10 ==>
              |"abcdefghijklmnopqrstuvwxyz"| == 26 && DigitChar(d) == "abcdefghijklmnopqrstuvwxyz"[d - 10] as nat
  {}

  /** A character of '0' to '9' or 'a' to 'z'. */
  predicate IsNumeral(c: Byte) {
    48 <= c <= 57 || 97 <= c <= 122
  }

  function DigitValue(c: Byte): int {
    if c >= 'a' as nat then c - 'a' as nat + 10 else c - '0' as nat
  }

  /** The digits of v from the lowest up, none for zero. */
  function LowDigits(v: nat, base: nat): seq<Byte>
    requires 2 <= base <= 36
  {
    if v == 0 then [] else
      Division(v, base);
      [DigitChar(v % base)] + LowDigits(v / base, base)
  }

  // Division by the base, as the digit loops use it.
  lemma Division(v: nat, base: nat)
    requires base >= 2
    ensures 0 <= v / base && v % base < base && v == v / base * base + v % base
    ensures v > 0 ==> v / base < v
    ensures v < base ==> v / base == 0 && v % base == v
  {
    if v < base {
      Small(v, base);
    } else {
      Product(v / base, base);
    }
  }

  lemma Small(v: nat, base: nat)
    requires v < base
    ensures v / base == 0 && v % base == v
  {}

  lemma Product(q: nat, base: nat)
    requires base >= 2
    ensures q * base >= 2 * q
  {}

  /** What utoa prints. */
  function Unsigned(v: nat, base: nat): seq<Byte>
    requires 2 <= base <= 36
  {
    if v == 0 then [ZERO] else Reversed(LowDigits(v, base))
  }

  /** What itoa prints. */
  function Signed(v: int, base: nat): seq<Byte>
    requires 2 <= base <= 36
  {
    if v < 0 then [MINUS] + Unsigned(-v, base) else Unsigned(v, base)
  }

  /** Reading a numeral back, highest digit first. */
  function Parse(s: seq<Byte>, base: nat): int {
    if s == [] then 0 else Parse(s[..|s| - 1], base) * base + DigitValue(s[|s| - 1])
  }

  function ParseSigned(s: seq<Byte>, base: nat): int {
    if s != [] && s[0] == MINUS then -Parse(s[1..], base) else Parse(s, base)
  }

  lemma ParseAppend(s: seq<Byte>, c: Byte, base: nat)
    ensures Parse(s + [c], base) == Parse(s, base) * base + DigitValue(c)
  {
    assert (s + [c])[..|s|] == s;
  }

  lemma DigitOf(d: nat)
    requires d < 36
    ensures DigitValue(DigitChar(d)) == d
  {}

  lemma {:induction false} ParseReversedDigits(v: nat, base: nat)
    requires 2 <= base <= 36
    ensures Parse(Reversed(LowDigits(v, base)), base) == v
  {
    if v > 0 {
      var q, r := v / base, v % base;
      Division(v, base);
      ParseReversedDigits(q, base);
      DigitOf(r);
      var low := LowDigits(v, base);
      assert low[1..] == LowDigits(q, base) && low[0] == DigitChar(r);
      ParseAppend(Reversed(low[1..]), low[0], base);
    }
  }

  lemma {:induction false} HighestDigitNotZero(v: nat, base: nat)
    requires 2 <= base <= 36 && v > 0
    ensures LowDigits(v, base) != [] && var s := LowDigits(v, base); DigitValue(s[|s| - 1]) > 0
  {
    var q, r := v / base, v % base;
    Division(v, base);
    DigitOf(r);
    var s := LowDigits(v, base);
    assert s == [DigitChar(r)] + LowDigits(q, base);
    if q > 0 {
      HighestDigitNotZero(q, base);
    } else {
      assert LowDigits(0, base) == [];
    }
  }

  lemma {:induction false} DigitsAreDigits(v: nat, base: nat)
    requires 2 <= base <= 36
    ensures forall c :: c in LowDigits(v, base) ==> 0 <= DigitValue(c) < base && IsNumeral(c)
  {
    if v > 0 {
      Division(v, base);
      DigitsAreDigits(v / base, base);
    }
  }

  lemma {:induction false} ReversedMembers<T>(s: seq<T>)
    ensures forall c :: c in Reversed(s) <==> c in s
  {
    if s != [] {
      ReversedMembers(s[1..]);
      assert s == [s[0]] + s[1..];
    }
  }

  /** Reading back what utoa prints gives the value; it prints no leading zero but for
      zero itself, and only digits of the base. */
  lemma {:induction false} UnsignedRoundTrip(v: nat, base: nat)
    requires 2 <= base <= 36
    ensures Parse(Unsigned(v, base), base) == v
    ensures Unsigned(v, base) != [] && (v > 0 ==> DigitValue(Unsigned(v, base)[0]) > 0)
    ensures v == 0 ==> |Unsigned(v, base)| == 1
    ensures forall c :: c in Unsigned(v, base) ==> 0 <= DigitValue(c) < base && IsNumeral(c)
  {
    var low := LowDigits(v, base);
    DigitsAreDigits(v, base);
    ReversedMembers(low);
    if v > 0 {
      ParseReversedDigits(v, base);
      HighestDigitNotZero(v, base);
      ReversedAt(low, 0);
    } else {
      assert Parse([], base) == 0;
    }
  }

  /** The same for itoa, sign included. */
  lemma SignedRoundTrip(v: int, base: nat)
    requires 2 <= base <= 36
    ensures ParseSigned(Signed(v, base), base) == v
  {
    UnsignedRoundTrip(if v < 0 then -v else v, base);
    if v < 0 {
      assert Signed(v, base)[1..] == Unsigned(-v, base);
    } else {
      assert Signed(v, base)[0] in Unsigned(v, base);
    }
  }

  /** What itoa prints starts with '-' exactly for negative values; behind the sign come
      digits of the base only, the first of them not '0' but for zero, which is one
      character. */
  lemma SignedForm(v: int, base: nat)
    requires 2 <= base <= 36
    ensures var s := Signed(v, base);
            && s != [] && (s[0] == '-' as nat <==> v < 0)
            && var digits := if v < 0 then s[1..] else s;
               && digits != [] && (digits[0] == '0' as nat <==> v == 0) && (v == 0 ==> |digits| == 1)
               && forall c :: c in digits ==> 0 <= DigitValue(c) < base && IsNumeral(c)
  {
    var u := Unsigned(if v < 0 then -v else v, base);
    UnsignedRoundTrip(if v < 0 then -v else v, base);
    assert u[0] in u;
    if v < 0 {
      assert Signed(v, base)[1..] == u;
    }
  }

  function Power(base: nat, n: nat): nat {
    if n == 0 then 1 else base * Power(base, n - 1)
  }

  /** A value below the n-th power of the base takes at most n digits. */
  lemma {:induction false} DigitCount(v: nat, base: nat, n: nat)
    requires 2 <= base <= 36 && v < Power(base, n)
    ensures |LowDigits(v, base)| <= n
  {
    if v > 0 {
      Division(v, base);
      QuotientBelow(v, base, Power(base, n - 1));
      DigitCount(v / base, base, n - 1);
    }
  }

  lemma QuotientBelow(v: nat, base: nat, p: nat)
    requires base >= 2 && v < base * p
    ensures v / base < p
  {
    Division(v, base);
    if v / base >= p { Monotone(base, p, v / base); }
  }

  lemma Monotone(a: nat, x: nat, y: nat)
    requires x <= y
    ensures a * x <= a * y == y * a
  {}

  /** The callers' buffers are large enough: 11 bytes for any unsigned value in base 10,
      terminator included, and 12 for any signed one. */
  lemma BuffersSuffice(u: Word, v: int)
    requires -0x8000_0000 < v < 0x8000_0000
    ensures |Unsigned(u, 10)| + 1 <= 11
    ensures |Signed(v, 10)| + 1 <= 12
  {
    assert Power(10, 5) == 100000;
    assert Power(10, 10) == 10000000000;
    DigitCount(u, 10, 10);
    DigitCount(if v < 0 then -v else v, 10, 10);
  }

  // ----------------------------------------------------------------- strings

  /** The bytes strn_cpy and strn_cmp see: up to n of them, stopping before a NUL. */
  function Key(s: seq<Byte>, n: nat): (k: seq<Byte>)
    ensures |k| <= n && |k| <= |s|
    ensures forall i :: 0 <= i < |k| ==> k[i] == s[i] != 0
    ensures |k| == n || |k| == |s| || s[|k|] == 0
  {
    if n == 0 || s == [] || s[0] == 0 then [] else [s[0]] + Key(s[1..], n - 1)
  }

  function Zeros(n: nat): seq<Byte> {
    seq(n, _ => 0)
  }

  /** A fixed field of n bytes: the key, padded with NULs. */
  function Field(s: seq<Byte>, n: nat): (f: seq<Byte>)
    ensures |f| == n && forall i :: |Key(s, n)| <= i < n ==> f[i] == 0
  {
    Key(s, n) + Zeros(n - |Key(s, n)|)
  }

  /** Padding a key into a field loses nothing. */
  lemma KeyOfField(s: seq<Byte>, n: nat)
    ensures Key(Field(s, n), n) == Key(s, n)
  {
    var k, f := Key(s, n), Field(s, n);
    assert forall i :: 0 <= i < |k| ==> f[i] == k[i] != 0;
    assert |k| < n ==> f[|k|] == 0;
    assert |Key(f, n)| == |k|;
  }

  /** strn_cmp reads both strings up to the first difference, NUL or n-th byte. */
  predicate CanCompare(a: seq<Byte>, b: seq<Byte>, n: nat) {
    n == 0 || (a != [] && b != [] && (a[0] != b[0] || a[0] == 0 || CanCompare(a[1..], b[1..], n - 1)))
  }

  /** A C string long enough to be read for n bytes. */
  predicate Readable(s: seq<Byte>, n: nat) {
    |s| >= n || 0 in s
  }

  lemma {:induction false} ReadableCompare(a: seq<Byte>, b: seq<Byte>, n: nat)
    requires Readable(a, n) && Readable(b, n)
    ensures CanCompare(a, b, n)
  {
    if n > 0 && a[0] == b[0] != 0 {
      assert a == [a[0]] + a[1..] && b == [b[0]] + b[1..];
      ReadableCompare(a[1..], b[1..], n - 1);
    }
  }

  function Compare(a: seq<Byte>, b: seq<Byte>, n: nat): int
    requires CanCompare(a, b, n)
  {
    if n == 0 then 0
    else if a[0] != b[0] then a[0] - b[0]
    else if a[0] == 0 then 0
    else Compare(a[1..], b[1..], n - 1)
  }

  /** Dictionary order on byte strings, a proper prefix coming first. */
  predicate Before(a: seq<Byte>, b: seq<Byte>) {
    b != [] && (a == [] || a[0] < b[0] || (a[0] == b[0] && Before(a[1..], b[1..])))
  }

  /** The sign of strn_cmp is the dictionary order of the keys, and zero their equality. */
  lemma {:induction false} CompareOrdersKeys(a: seq<Byte>, b: seq<Byte>, n: nat)
    requires CanCompare(a, b, n)
    ensures Compare(a, b, n) == 0 <==> Key(a, n) == Key(b, n)
    ensures Compare(a, b, n) < 0 <==> Before(Key(a, n), Key(b, n))
    ensures Compare(a, b, n) > 0 <==> Before(Key(b, n), Key(a, n))
  {
    if n > 0 && a[0] == b[0] != 0 {
      CompareOrdersKeys(a[1..], b[1..], n - 1);
      var ka, kb := Key(a, n), Key(b, n);
      assert ka[1..] == Key(a[1..], n - 1) && kb[1..] == Key(b[1..], n - 1);
      assert ka == [ka[0]] + ka[1..] && kb == [kb[0]] + kb[1..];
    }
  }

  /** Its value is the difference of the first two bytes that differ, as unsigned ones. */
  lemma {:induction false} CompareAtDifference(a: seq<Byte>, b: seq<Byte>, n: nat, i: nat)
    requires CanCompare(a, b, n) && i < n && i < |a| && i < |b|
    requires a[..i] == b[..i] && 0 !in a[..i] && a[i] != b[i]
    ensures Compare(a, b, n) == a[i] as int - b[i] as int
    decreases i
  {
    if i > 0 {
      assert a[0] == a[..i][0] == b[..i][0] == b[0] && a[0] != 0;
      assert a[1..][..i - 1] == a[..i][1..] && b[1..][..i - 1] == b[..i][1..];
      CompareAtDifference(a[1..], b[1..], n - 1, i - 1);
    }
  }
}
