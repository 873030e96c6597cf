/** 64 by 64 to 128 bit multiplication from 32-bit limbs; the words wrap around at 2^64. */
module Mul64 {
  import opened Common
  import opened Bytes

  const TWO63: nat := 0x8000_0000_0000_0000
  const TWO128: nat := 0x1_0000_0000_0000_0000_0000_0000_0000_0000

  type U64 = x: int | 0 <= x < 0x1_0000_0000_0000_0000
  type I64 = x: int | -0x8000_0000_0000_0000 <= x < 0x8000_0000_0000_0000

  function Value(low: U64, high: U64): (v: nat)
    ensures v < TWO128
  {
    high * TWO64 + low
  }

  /** Two's complement reading of 128 bits. */
  function Signed(v: nat): (r: int)
    requires v < TWO128
    ensures 0 - TWO128 / 2 <= r < TWO128 / 2 && (r - v) % TWO128 == 0
  {
    if v >= TWO128 / 2 then v - TWO128 else v
  }

  function Wrap(x: nat): U64 { x % TWO64 }

  /** 128-bit addition, modulo 2^128. */
  method Add128(low0: U64, high0: U64, a: U64, b: U64) returns (low: U64, high: U64)
    ensures Value(low, high) == (Value(low0, high0) + Value(a, b)) % TWO128
  {
    hide Wrap;
    WrapOnce(low0 + a);
    low, high := Wrap(low0 + a), high0;
    if low < a {
      WrapOnce(high + 1);
      high := Wrap(high + 1);
    }
    WrapOnce(high + b);
    high := Wrap(high + b);
  }

  lemma WrapOnce(x: nat)
    requires x < 2 * TWO64
    ensures Wrap(x) == if x < TWO64 then x else x - TWO64
  {}

  method Neg128(low0: U64, high0: U64) returns (low: U64, high: U64)
    ensures Value(low, high) == (TWO128 - Value(low0, high0)) % TWO128
  {
    low, high := TWO64 - 1 - low0, TWO64 - 1 - high0;
    low, high := Add128(low, high, 1, 0);
  }

  /** Shifting a product of limbs by 32 over both words loses nothing. */
  lemma ShiftSplits(v: U64)
    ensures v / TWO32 < TWO64 && Value(Wrap(v * TWO32), v / TWO32) == v * TWO32
  {
    var q, r := v / TWO32, v % TWO32;
    assert v * TWO32 == q * TWO64 + r * TWO32;
    WrapSum(q, r * TWO32);
  }

  lemma WrapSum(q: nat, low: nat)
    requires low < TWO64
    ensures Wrap(q * TWO64 + low) == low
  {}

  lemma LimbProduct(x: nat, y: nat)
    requires x < TWO32 && y < TWO32
    ensures x * y <= (TWO32 - 1) * (TWO32 - 1) < TWO64
  {
    MulLe(x, y, TWO32 - 1);
  }

  lemma MulLe(x: nat, y: nat, m: nat)
    requires x <= m && y <= m
    ensures x * y <= m * m
  {
    assert x * y <= x * m;
    assert x * m <= m * m;
  }

  lemma Distribute(a0: nat, a1: nat, b0: nat, b1: nat)
    ensures (a1 * TWO32 + a0) * (b1 * TWO32 + b0)
         == a0 * b0 + (a0 * b1) * TWO32 + (a1 * b0) * TWO32 + (a1 * b1) * TWO64
  {
    var k := TWO32;
    calc {
      (a1 * k + a0) * (b1 * k + b0);
      (a1 * k) * (b1 * k + b0) + a0 * (b1 * k + b0);
      (a1 * k) * (b1 * k) + (a1 * k) * b0 + a0 * (b1 * k) + a0 * b0;
      { assert (a1 * k) * (b1 * k) == (a1 * b1) * (k * k); }
      { assert (a1 * k) * b0 == (a1 * b0) * k && a0 * (b1 * k) == (a0 * b1) * k; }
      (a1 * b1) * TWO64 + (a1 * b0) * k + (a0 * b1) * k + a0 * b0;
    }
  }

  /** The exact 128-bit product. */
  method MulU64(a: U64, b: U64) returns (low: U64, high: U64)
    ensures Value(low, high) == a * b
  {
    var a0, a1, b0, b1 := a % TWO32, a / TWO32, b % TWO32, b / TWO32;
    LimbProduct(a0, b0);
    LimbProduct(a0, b1);
    LimbProduct(a1, b0);
    LimbProduct(a1, b1);
    Distribute(a0, a1, b0, b1);
    low, high := AddLimbs(a0 * b0, a0 * b1, a1 * b0, a1 * b1);
  }

  /** Adds a limb product shifted by 32. */
  method AddShifted(low0: U64, high0: U64, v: U64) returns (low: U64, high: U64)
    requires Value(low0, high0) + v * TWO32 < TWO128
    ensures Value(low, high) == Value(low0, high0) + v * TWO32
  {
    hide Wrap, Value;
    ShiftSplits(v);
    low, high := Add128(low0, high0, Wrap(v * TWO32), v / TWO32);
  }

  /** The four limb products at their places. */
  method AddLimbs(p: U64, q: U64, r: U64, s: U64) returns (low: U64, high: U64)
    requires p + (q + r) * TWO32 + s * TWO64 < TWO128
    ensures Value(low, high) == p + (q + r) * TWO32 + s * TWO64
  {
    hide Wrap;
    low, high := p, 0;
    low, high := AddShifted(low, high, q);
    low, high := AddShifted(low, high, r);
    WrapOnce(high + s);
    high := Wrap(high + s);
  }

  /** -a in 64 bits: the least value is its own negation. */
  function NegWrap(a: I64): I64 { if a == -0x8000_0000_0000_0000 then a else -a }

  function AsU64(a: I64): U64 { if a < 0 then a + TWO64 else a }

  /** The signed 128-bit product. */
  method MulS64(a: I64, b: I64) returns (low: U64, high: U64)
    ensures Signed(Value(low, high)) == a * b
  {
    hide Signed, Value;
    var sa, sb := a < 0, b < 0;
    var ua, ub := a, b;
    if sa {
      ua := NegWrap(ua);
    }
    if sb {
      ub := NegWrap(ub);
    }
    low, high := MulU64(AsU64(ua), AsU64(ub));
    SignOfProduct(a, b, AsU64(ua), AsU64(ub));
    SignedOf(AsU64(ua) * AsU64(ub));
    if sa != sb {
      low, high := Neg128(low, high);
    }
  }

  lemma SignedOf(p: int)
    requires 0 <= p <= TWO63 * TWO63
    ensures p < TWO128 && Signed(p) == p && Signed((TWO128 - p) % TWO128) == -p
  {
    if p > 0 { assert (TWO128 - p) % TWO128 == TWO128 - p; }
  }

  lemma SignOfProduct(a: int, b: int, ua: nat, ub: nat)
    requires ua == (if a < 0 then -a else a) <= TWO63 && ub == (if b < 0 then -b else b) <= TWO63
    ensures ua * ub <= TWO63 * TWO63 && a * b == if (a < 0) == (b < 0) then ua * ub else -(ua * ub)
  {
    MulLe(ua, ub, TWO63);
    if a < 0 {
      assert a * b == -(ua * b);
    }
    if b < 0 {
      assert ua * b == -(ua * ub);
    }
  }
}
