/** kernel/src/lib/str.c: buffers written in place. */
module Str {
  import opened Machine
  import opened Text

  /** The first `length` bytes with `start` of them exchanged from either end. */
  ghost predicate Turned(was: seq<Byte>, now: seq<Byte>, length: nat, start: nat) {
    && length <= |was| == |now| && now[length..] == was[length..]
    && forall k :: 0 <= k < length ==>
         now[k] == was[if k < start || length - 1 - k < start then length - 1 - k else k]
  }

  /** reverse: the first `length` bytes, swapped from both ends. */
  method Reverse(str: array<Byte>, length: nat)
    requires length <= str.Length
    modifies str
    ensures str[..length] == Reversed(old(str[..length]))
    ensures forall k :: length <= k < str.Length ==> str[k] == old(str[k])
  {
    ghost var was := str[..];
    var start, end := 0, length - 1;
    while start < end
      invariant 0 <= start <= end + 2 && start + end == length - 1
      invariant Turned(was, str[..], length, start)
    {
      var temp := str[start];
      str[start] := str[end];
      str[end] := temp;
      start, end := start + 1, end - 1;
    }
    TurnedIsReversed(was, str[..], length, start);
    assert str[..][..length] == str[..length] && was[..length] == old(str[..length]);
  }

  lemma TurnedIsReversed(was: seq<Byte>, now: seq<Byte>, length: nat, start: nat)
    requires Turned(was, now, length, start) && 2 * start + 1 >= length
    ensures now[..length] == Reversed(was[..length])
    ensures forall k :: length <= k < |was| ==> now[k] == was[k]
  {
    var front := now[..length];
    forall k | 0 <= k < length ensures front[k] == Reversed(was[..length])[k] {
      ReversedAt(was[..length], k);
    }
    forall k | length <= k < |was| ensures now[k] == was[k] {
      assert now[k] == now[length..][k - length];
    }
  }

  /** The digit loop shared by utoa and itoa: digits of `value` from the lowest up. */
  method PutDigits(value: nat, str: array<Byte>, base: nat) returns (i: nat)
    requires 2 <= base <= 36 && |LowDigits(value, base)| < str.Length
    modifies str
    ensures i == |LowDigits(value, base)| && str[..i] == LowDigits(value, base)
    ensures forall k :: i <= k < str.Length ==> str[k] == old(str[k])
  {
    var v: nat := value;
    i := 0;
    while v != 0
      invariant i + |LowDigits(v, base)| == |LowDigits(value, base)|
      invariant LowDigits(value, base) == str[..i] + LowDigits(v, base)
      invariant forall k :: i <= k < str.Length ==> str[k] == old(str[k])
      decreases v
    {
      Division(v, base);
      var rem := v % base;
      ghost var before := str[..i];
      str[i] := if rem > 9 then (rem - 10) + 'a' as nat else rem + '0' as nat;
      i := i + 1;
      assert str[..i] == before + [DigitChar(rem)];
      v := v / base;
    }
  }

  /** utoa. */
  method Utoa(value: Word, str: array<Byte>, base: nat)
    requires 2 <= base <= 36 && |Unsigned(value, base)| < str.Length
    modifies str
    ensures var n := |Unsigned(value, base)|;
            && str[..n] == Unsigned(value, base) && str[n] == 0
            && forall k :: n < k < str.Length ==> str[k] == old(str[k])
  {
    if value == 0 {
      str[0], str[1] := ZERO, 0;
      return;
    }
    var i := PutDigits(value, str, base);
    FinishNumeral(str, i);
  }

  /** itoa; its negation and its remainders are those of C only for the values allowed
      here: any above the least in base 10, none negative in another base. */
  method Itoa(value: int, str: array<Byte>, base: nat)
    requires 2 <= base <= 36 && -0x8000_0000 < value < 0x8000_0000
    requires value < 0 ==> base == 10
    requires |Signed(value, base)| < str.Length
    modifies str
    ensures var n := |Signed(value, base)|;
            && str[..n] == Signed(value, base) && str[n] == 0
            && forall k :: n < k < str.Length ==> str[k] == old(str[k])
  {
    if value == 0 {
      str[0], str[1] := ZERO, 0;
      return;
    }
    var isNegative, v: int := false, value;
    if value < 0 && base == 10 {
      isNegative, v := true, -value;
    }
    var i := PutDigits(v, str, base);
    ghost var low := LowDigits(v, base);
    if isNegative {
      i := PutMinus(str, i);
      ReversedAppend(low, MINUS);
    }
    assert Reversed(str[..i]) == Signed(value, base) && i == |Signed(value, base)|;
    FinishNumeral(str, i);
  }

  method PutMinus(str: array<Byte>, i: nat) returns (next: nat)
    requires i + 1 < str.Length
    modifies str
    ensures next == i + 1 && str[..next] == old(str[..i]) + [MINUS]
    ensures forall k :: next <= k < str.Length ==> str[k] == old(str[k])
  {
    str[i] := MINUS;
    next := i + 1;
  }

  /** The end of both printers: terminate, then turn the characters round. */
  method FinishNumeral(str: array<Byte>, i: nat)
    requires i < str.Length
    modifies str
    ensures str[..i] == Reversed(old(str[..i])) && str[i] == 0
    ensures forall k :: i < k < str.Length ==> str[k] == old(str[k])
  {
    str[i] := 0;
    Reverse(str, i);
  }

  lemma {:induction false} ReversedAppend<T>(s: seq<T>, x: T)
    ensures Reversed(s + [x]) == [x] + Reversed(s)
  {
    if s == [] {
      assert s + [x] == [x] && [x][1..] == [];
    } else {
      ReversedAppend(s[1..], x);
      assert (s + [x])[1..] == s[1..] + [x];
    }
  }

  /** strn_cmp. */
  method StrnCmp(s1: seq<Byte>, s2: seq<Byte>, n: nat) returns (r: int)
    requires CanCompare(s1, s2, n)
    ensures r == Compare(s1, s2, n)
  {
    for i := 0 to n
      invariant i <= |s1| && i <= |s2| && CanCompare(s1[i..], s2[i..], n - i)
      invariant Compare(s1[i..], s2[i..], n - i) == Compare(s1, s2, n)
    {
      if s1[i] != s2[i] {
        return s1[i] as int - s2[i] as int;
      }
      if s1[i] == 0 {
        return 0;
      }
      assert s1[i..][1..] == s1[i + 1..] && s2[i..][1..] == s2[i + 1..];
    }
    return 0;
  }

  /** strn_cpy: the key, then NULs up to the n-th byte. */
  method StrnCpy(dest: array<Byte>, src: seq<Byte>, n: nat)
    requires n <= dest.Length && Readable(src, n)
    modifies dest
    ensures dest[..n] == Field(src, n) && dest[n..] == old(dest[n..])
  {
    ghost var key := Key(src, n);
    var i := 0;
    KeyWithin(src, n);
    while i < n && src[i] != 0
      invariant i <= |key| && (i < n ==> i < |src|)
      invariant dest[..i] == key[..i] && dest[n..] == old(dest[n..])
    {
      dest[i] := src[i];
      i := i + 1;
    }
    assert i == |key|;
    while i < n
      invariant |key| <= i <= n
      invariant dest[..i] == key + Zeros(i - |key|) && dest[n..] == old(dest[n..])
    {
      dest[i] := 0;
      i := i + 1;
    }
  }

  /** A readable string is read within bounds: past the key there is a NUL or the end. */
  lemma {:induction false} KeyWithin(s: seq<Byte>, n: nat)
    requires Readable(s, n)
    ensures |Key(s, n)| < n ==> |Key(s, n)| < |s|
  {
    if n > 0 && s[0] != 0 {
      assert s == [s[0]] + s[1..];
      KeyWithin(s[1..], n - 1);
    }
  }

  /** mem_cpy, for a count that is not negative. */
  method MemCpy(dst: array<Byte>, src: seq<Byte>, n: nat)
    requires n <= dst.Length && n <= |src|
    modifies dst
    ensures dst[..n] == src[..n] && dst[n..] == old(dst[n..])
  {
    var left, i := n, 0;
    while left != 0
      invariant left + i == n
      invariant dst[..i] == src[..i] && dst[n..] == old(dst[n..])
    {
      left := left - 1;
      dst[i] := src[i];
      i := i + 1;
    }
  }
}
