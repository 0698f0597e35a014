/** The `Bit64` container of src/utils/utils.ts: a 64-entry `Uint8Array` that
    holds the binary digits of a BigInt, least significant first. */
module Utils {
  import opened Types
  import opened Numeric

  /** An element of a `Uint8Array`. */
  type Byte = x: int | 0 <= x < 256

  /** The `RangeError` thrown by `getBit` and `setBit`. */
  datatype RangeError = IndexOutOfRange(index: int)

  /** `Number((value >> BigInt(i)) & 1n)`: BigInt shifts are floor divisions,
      so this is also two's-complement exact for negative values. */
  function Bit(value: int, i: nat): (b: nat)
    ensures b <= 1
  {
    (value / Pow2(i)) % 2
  }

  /** BigInt `a | b` on non-negative values, one binary digit at a time. */
  function Or(a: nat, b: nat): (r: nat)
    decreases a
    ensures r >= a && r >= b
  {
    if a == 0 then b
    else if b == 0 then a
    else 2 * Or(a / 2, b / 2) + (if a % 2 == 1 || b % 2 == 1 then 1 else 0)
  }

  /** The `reduce` of `getValue` over the first `n` bytes:
      `acc | (BigInt(bit) << BigInt(i))`, starting from `0n`. */
  function OrFold(s: seq<Byte>, n: nat): nat
    requires n <= |s|
  {
    if n == 0 then 0 else Or(OrFold(s, n - 1), s[n - 1] * Pow2(n - 1))
  }

  /** The OR-fold is at least every byte it folds in, shifted to its position. */
  lemma {:induction false} OrFoldCovers(s: seq<Byte>, n: nat)
    requires n <= |s|
    ensures forall i :: 0 <= i < n ==> OrFold(s, n) >= s[i] * Pow2(i)
  {
    if n > 0 {
      OrFoldCovers(s, n - 1);
      assert OrFold(s, n) >= OrFold(s, n - 1);
    }
  }

  /** Every byte is a binary digit. */
  predicate IsBits(s: seq<Byte>) {
    forall i :: 0 <= i < |s| ==> s[i] <= 1
  }

  /** The number whose binary digits, least significant first, are `s[..n]`. */
  ghost function BitSum(s: seq<Byte>, n: nat): int
    requires n <= |s|
  {
    if n == 0 then 0 else BitSum(s, n - 1) + s[n - 1] * Pow2(n - 1)
  }

  /** OR-ing in a value whose set bits all lie above those of `a` is addition. */
  lemma {:induction false} OrDisjoint(a: nat, b: nat, k: nat)
    requires a < Pow2(k)
    ensures Or(a, b * Pow2(k)) == a + b * Pow2(k)
  {
    if a != 0 && b != 0 {
      var c := b * Pow2(k);
      assert k > 0;
      assert c == 2 * (b * Pow2(k - 1));
      assert c / 2 == b * Pow2(k - 1) && c % 2 == 0;
      OrDisjoint(a / 2, b, k - 1);
      assert Or(a, c) == 2 * (a / 2 + b * Pow2(k - 1)) + a % 2;
    } else if b == 0 {
      assert b * Pow2(k) == 0;
    }
  }

  lemma {:induction false} BitSumBound(s: seq<Byte>, n: nat)
    requires n <= |s| && IsBits(s)
    ensures 0 <= BitSum(s, n) < Pow2(n)
  {
    if n > 0 {
      BitSumBound(s, n - 1);
      assert s[n - 1] == 0 || s[n - 1] == 1;
    }
  }

  /** On binary digits the OR-fold of `getValue` is the positional sum. */
  lemma {:induction false} OrFoldOfBits(s: seq<Byte>, n: nat)
    requires n <= |s|
    ensures IsBits(s) ==> OrFold(s, n) == BitSum(s, n) && BitSum(s, n) < Pow2(n)
  {
    if IsBits(s) && n > 0 {
      OrFoldOfBits(s, n - 1);
      BitSumBound(s, n - 1);
      OrDisjoint(OrFold(s, n - 1), s[n - 1], n - 1);
      BitSumBound(s, n);
    }
  }

  /** `v % 2^(n+1)` adds bit n of `v` on top of `v % 2^n`. */
  lemma ModPow2Step(v: int, n: nat)
    ensures v % Pow2(n + 1) == v % Pow2(n) + Bit(v, n) * Pow2(n)
  {
    var p := Pow2(n);
    var q, r := v / (2 * p), v % (2 * p);
    assert v == p * (2 * q + r / p) + r % p;
    DivModUnique(v, p, 2 * q + r / p, r % p);
    var t := if r >= p then 1 else 0;
    DivModUnique(r, p, t, r - t * p);
    DivModUnique(2 * q + t, 2, q, t);
  }

  /** Storing the bits of `v` and reading them back as a number gives `v mod 2^n`. */
  lemma {:induction false} BitSumOfBits(s: seq<Byte>, v: int, n: nat)
    requires n <= |s|
    requires forall i :: 0 <= i < n ==> s[i] == Bit(v, i)
    ensures BitSum(s, n) == v % Pow2(n)
  {
    if n > 0 {
      BitSumOfBits(s, v, n - 1);
      ModPow2Step(v, n - 1);
    }
  }

  /** Bit j of the positional sum of binary digits is digit j. */
  lemma {:induction false} BitOfBitSum(s: seq<Byte>, n: nat, j: nat)
    requires n <= |s| && IsBits(s) && j < n
    ensures Bit(BitSum(s, n), j) == s[j]
  {
    var a, b := BitSum(s, n - 1), s[n - 1];
    if j == n - 1 {
      BitSumBound(s, n - 1);
      DivModUnique(a + b * Pow2(j), Pow2(j), b, a);
    } else {
      BitAbove(a, b, j, n - 1 - j);
      BitOfBitSum(s, n - 1, j);
    }
  }

  /** Adding a multiple of 2^(j + m), with m >= 1, leaves bit j alone. */
  lemma BitAbove(a: int, b: int, j: nat, m: nat)
    requires m >= 1
    ensures Bit(a + b * Pow2(j + m), j) == Bit(a, j)
  {
    var pj, pm, pm1 := Pow2(j), Pow2(m), Pow2(m - 1);
    assert Pow2(j + m) == pj * pm by {
      Pow2Add(j, m);
    }
    assert b * (pj * pm) == (b * pm) * pj by {
      MulAssoc(b, pm, pj);
    }
    DivAddMul(b * pm, a, pj);
    assert b * pm == (b * pm1) * 2 by {
      MulAssoc(b, pm1, 2);
    }
    DivAddMul(b * pm1, a / pj, 2);
  }

  /** Overwriting digit i changes the positional sum by the difference at weight 2^i. */
  lemma {:induction false} BitSumUpdate(s: seq<Byte>, n: nat, i: nat, x: Byte)
    requires n <= |s| && i < |s|
    ensures BitSum(s[i := x], n) == BitSum(s, n) + (if i < n then (x - s[i]) * Pow2(i) else 0)
  {
    if n > 0 {
      BitSumUpdate(s, n - 1, i, x);
      if i == n - 1 {
        assert x * Pow2(i) == s[i] * Pow2(i) + (x - s[i]) * Pow2(i);
      }
    }
  }

  /** Storing a binary digit x at position i of 64 binary digits `s`, giving
      `t`, keeps them binary, moves the number they spell from `v0` to `v1` by
      the difference at weight 2^i and changes only bit i. */
  lemma StoreBit(s: seq<Byte>, t: seq<Byte>, i: nat, x: Byte, v0: int, v1: int)
    requires |s| == 64 && IsBits(s) && i < 64 && x <= 1 && t == s[i := x]
    requires v0 == BitSum(s, 64) && v1 == BitSum(t, 64)
    ensures IsBits(t)
    ensures v1 == v0 + (x - s[i]) * Pow2(i)
    ensures forall j :: 0 <= j < 64 ==> Bit(v1, j) == if j == i then x else Bit(v0, j)
  {
    assert IsBits(t);
    BitSumUpdate(s, 64, i, x);
    forall j | 0 <= j < 64
      ensures Bit(v1, j) == if j == i then x else Bit(v0, j)
    {
      BitOfBitSum(t, 64, j);
      BitOfBitSum(s, 64, j);
    }
  }

  class Bit64 {
    var bits: array<Byte>

    ghost predicate Valid()
      reads this
    {
      bits.Length == 64
    }

    /** `new Bit64(value)`, with the source's default argument `0n`. */
    constructor (value: int := 0)
      ensures Valid() && fresh(bits)
      ensures forall i :: 0 <= i < 64 ==> bits[i] == Bit(value, i)
      ensures GetValue() == value % Pow2(64)
    {
      bits := new Byte[64](_ => 0);
      new;
      SetValue(value);
    }

    method SetValue(value: int)
      requires Valid()
      modifies bits
      ensures Valid()
      ensures forall i :: 0 <= i < 64 ==> bits[i] == Bit(value, i)
      ensures GetValue() == value % Pow2(64)
    {
      for i := 0 to 64
        invariant forall k :: 0 <= k < i ==> bits[k] == Bit(value, k)
      {
        bits[i] := Bit(value, i);
      }
      BitSumOfBits(bits[..], value, 64);
    }

    /** `getValue`: the OR-fold of every byte shifted to its position. When every
        byte is a binary digit this is the number those digits spell, below 2^64. */
    function GetValue(): (v: nat)
      reads this, bits
      requires Valid()
      ensures IsBits(bits[..]) ==> v == BitSum(bits[..], 64) && v < Pow2(64)
    {
      OrFoldOfBits(bits[..], 64);
      OrFold(bits[..], 64)
    }

    method GetBit(index: int) returns (r: Result<Byte, RangeError>)
      requires Valid()
      ensures r.Failure? <==> index < 0 || index >= 64
      ensures r.Failure? ==> r.error == IndexOutOfRange(index)
      ensures r.Success? ==> r.value == bits[index]
      ensures r.Success? && IsBits(bits[..]) ==> r.value == Bit(GetValue(), index)
    {
      if index < 0 || index >= 64 {
        return Failure(IndexOutOfRange(index));
      }
      if IsBits(bits[..]) {
        BitOfBitSum(bits[..], 64, index);
      }
      return Success(bits[index]);
    }

    /** `setBit`: a `Uint8Array` store keeps the value modulo 256. */
    method SetBit(index: int, value: int) returns (r: Outcome<RangeError>)
      requires Valid()
      modifies bits
      ensures Valid()
      ensures r.Fail? <==> index < 0 || index >= 64
      ensures r.Fail? ==> r.error == IndexOutOfRange(index) && bits[..] == old(bits[..])
      ensures r.Pass? ==> bits[..] == old(bits[..])[index := value % 256]
      ensures r.Pass? && old(IsBits(bits[..])) && 0 <= value <= 1 ==>
        GetValue() == old(GetValue()) + (value - old(bits[index])) * Pow2(index) &&
        forall j :: 0 <= j < 64 ==> Bit(GetValue(), j) == if j == index then value else Bit(old(GetValue()), j)
    {
      if index < 0 || index >= 64 {
        return Fail(IndexOutOfRange(index));
      }
      ghost var before, oldValue := bits[..], GetValue();
      bits[index] := value % 256;
      r := Pass;
      if IsBits(before) && 0 <= value <= 1 {
        ghost var after := bits[..];
        assert after == before[index := value as Byte];
        StoreBit(before, after, index, value as Byte, oldValue, BitSum(after, 64));
        ghost var newValue := GetValue();
        assert newValue == BitSum(after, 64);
      }
    }
  }
}
