/**
 * Python's bitwise operators on non-negative integers, as the driver uses them
 * to pack and unpack register bytes, and the big-endian byte pair built from them.
 *
 * `&` and `|` are defined bit by bit from the least significant bit; the lemmas
 * below connect them to ordinary division and remainder.
 */
module Bytes {

  /** One 8-bit register value. */
  type byte = x: int | 0 <= x < 256

  function Pow2(k: nat): (p: nat)
    ensures p >= 1
  {
    if k == 0 then 1 else 2 * Pow2(k - 1)
  }

  /** Python's `a & b` for non-negative `a` and `b`. */
  function And(a: nat, b: nat): (r: nat)
    ensures r <= a && r <= b
  {
    if a == 0 || b == 0 then 0
    else 2 * And(a / 2, b / 2) + (if a % 2 == 1 && b % 2 == 1 then 1 else 0)
  }

  /** Python's `a | b` for non-negative `a` and `b`. */
  function Or(a: nat, b: nat): (r: nat)
    ensures a <= r && b <= r && r <= a + b
  {
    if a == 0 then b
    else if b == 0 then a
    else 2 * Or(a / 2, b / 2) + (if a % 2 == 1 || b % 2 == 1 then 1 else 0)
  }

  /** Python's `a << k`: shifting back right by `k` recovers `a`, so no bit is lost. */
  function Shl(a: nat, k: nat): (r: nat)
    ensures Shr(r, k) == a
  {
    ShrOfShl(a, k);
    a * Pow2(k)
  }

  /** Shifting `a << k` back right by `k` gives `a`. */
  lemma {:induction false} ShrOfShl(a: nat, k: nat)
    ensures Shr(a * Pow2(k), k) == a
  {
    if k > 0 {
      MulPow2Step(a, k);
      assert (a * Pow2(k)) / 2 == a * Pow2(k - 1);
      ShrOfShl(a, k - 1);
    }
  }

  /** Python's `a >> k` for non-negative `a`: `k` one-bit shifts to the right; nothing is left exactly when `a` has no bit at or above `k`. */
  function Shr(a: nat, k: nat): (r: nat)
    ensures r == 0 <==> a < Pow2(k)
  {
    if k == 0 then a else Shr(a / 2, k - 1)
  }

  /** Shifting right by `k` is floor division by `2^k`. */
  lemma {:induction false} ShrFloor(a: nat, k: nat)
    ensures Pow2(k) * Shr(a, k) <= a < Pow2(k) * (Shr(a, k) + 1)
  {
    if k > 0 {
      var r := Shr(a / 2, k - 1);
      ShrFloor(a / 2, k - 1);
      MulDouble(Pow2(k - 1), r);
      MulDouble(Pow2(k - 1), r + 1);
    }
  }

  lemma Pow2Eight()
    ensures Pow2(8) == 256
  {
  }

  /** Quotient and remainder by 256 are fixed by any decomposition `n == 256 * q + r` with `0 <= r < 256`. */
  lemma ByteDivMod(n: int, q: int, r: int)
    requires 0 <= r < 256 && n == 256 * q + r
    ensures n / 256 == q && n % 256 == r
  {
  }

  /** Doubling one factor doubles the product. */
  lemma MulDouble(p: int, s: int)
    ensures (2 * p) * s == 2 * (p * s)
  {
  }

  /**
   * Masking with `k` one-bits keeps the `k` low bits, and shifting right by `k`
   * keeps the rest: `a == ((a >> k) << k) + (a & (2^k - 1))`.
   */
  lemma {:induction false} AndLowMask(a: nat, k: nat)
    ensures And(a, Pow2(k) - 1) < Pow2(k)
    ensures a == Pow2(k) * Shr(a, k) + And(a, Pow2(k) - 1)
  {
    if k > 0 {
      var p := Pow2(k - 1);
      var m := Pow2(k) - 1;
      assert m / 2 == p - 1 && m % 2 == 1;
      assert And(a, m) == 2 * And(a / 2, p - 1) + a % 2;
      AndLowMask(a / 2, k - 1);
      var s := Shr(a, k);
      assert a / 2 == p * s + And(a / 2, p - 1);
      MulDouble(p, s);
    }
  }

  /** Multiplying by `2^k` is doubling the product with `2^(k-1)`. */
  lemma MulPow2Step(x: int, k: nat)
    requires k > 0
    ensures x * Pow2(k) == 2 * (x * Pow2(k - 1))
  {
    MulDouble(Pow2(k - 1), x);
  }

  /** Masking with an even mask: the low bit is dropped and the rest is masked with half the mask. */
  lemma AndDouble(a: nat, c: nat)
    ensures And(a, 2 * c) == 2 * And(a / 2, c)
  {
  }

  /** Masking with a mask shifted left by `k` is masking the shifted-down value: `a & (b << k) == ((a >> k) & b) << k`. */
  lemma {:induction false} AndHighMask(a: nat, b: nat, k: nat)
    ensures And(a, b * Pow2(k)) == And(Shr(a, k), b) * Pow2(k)
  {
    if k > 0 {
      MulPow2Step(b, k);
      AndDouble(a, b * Pow2(k - 1));
      AndHighMask(a / 2, b, k - 1);
      MulPow2Step(And(Shr(a, k), b), k);
    }
  }

  /** Or-ing a value shifted left by `k` with something below `2^k` is addition: the bits do not overlap. */
  lemma {:induction false} OrDisjoint(a: nat, b: nat, k: nat)
    requires b < Pow2(k)
    ensures Or(a * Pow2(k), b) == a * Pow2(k) + b
  {
    if k > 0 && a > 0 && b > 0 {
      var p := Pow2(k - 1);
      var A := a * Pow2(k);
      assert A == 2 * (a * p);
      assert A / 2 == a * p && A % 2 == 0;
      OrDisjoint(a, b / 2, k - 1);
    }
  }

  /** `a >> 8` and `a & 0xFF` are the quotient and remainder of `a` by 256. */
  lemma ShiftMaskByte(a: nat)
    ensures Shr(a, 8) == a / 256
    ensures And(a, 0xFF) == a % 256
  {
    Pow2Eight();
    AndLowMask(a, 8);
    ByteDivMod(a, Shr(a, 8), And(a, 0xFF));
  }

  /** `(hi << 8) | lo`: the 16-bit value whose big-endian bytes are `hi`, `lo`. */
  function Join(hi: byte, lo: byte): (w: nat)
    ensures w == hi * 256 + lo
    ensures w < 0x1_0000
  {
    Pow2Eight();
    OrDisjoint(hi, lo, 8);
    Or(Shl(hi, 8), lo)
  }

  /** `(v & 0xFF00) >> 8`: the most significant byte of a 16-bit value. */
  function HighByte(v: nat): (b: byte)
    requires v < 0x1_0000
    ensures b == v / 256
  {
    HighByteOfWord(v);
    Shr(And(v, 0xFF00), 8)
  }

  /** Masking a 16-bit value with `0xFF00` and shifting right by 8 leaves its quotient by 256. */
  lemma HighByteOfWord(v: nat)
    requires v < 0x1_0000
    ensures Shr(And(v, 0xFF00), 8) == v / 256
  {
    Pow2Eight();
    var q := v / 256;
    AndHighMask(v, 0xFF, 8);
    assert 0xFF * Pow2(8) == 0xFF00;
    ShiftMaskByte(v);
    ShiftMaskByte(q);
    assert And(v, 0xFF00) == q * Pow2(8);
    ShrOfShl(q, 8);
  }

  /** `v & 0xFF`: the least significant byte. */
  function LowByte(v: nat): (b: byte)
    ensures b == v % 256
  {
    ShiftMaskByte(v);
    And(v, 0xFF)
  }

  /** Splitting a 16-bit value into bytes and joining them again gives the value back. */
  lemma JoinSplit(v: nat)
    requires v < 0x1_0000
    ensures Join(HighByte(v), LowByte(v)) == v
  {
  }

  /** Joining two bytes and splitting the result gives the bytes back. */
  lemma SplitJoin(hi: byte, lo: byte)
    ensures HighByte(Join(hi, lo)) == hi && LowByte(Join(hi, lo)) == lo
  {
  }
}
