/** Setting and clearing runs of bits word by word, and the search for an aligned run of clear bits. */
module Bitmap {
  import opened Common
  import opened Bytes
  import opened Bitops

  // ----- bitmap_set and bitmap_clear

  /** now is was with the bits from a up to b made v. */
  ghost predicate RangeSet(was: seq<Bits>, now: seq<Bits>, a: int, b: int, v: bool) {
    |now| == |was| &&
    forall i :: InMap(was, i) ==> Bit(now, i) == if a <= i < b then v else Bit(was, i)
  }

  /** One more word of the range: bits lo up to hi of word p. */
  lemma RangeStep(was: seq<Bits>, now: seq<Bits>, a: int, p: nat, lo: nat, hi: nat, w: Bits, v: bool)
    requires p < |now| && lo <= hi <= LONG && a <= LONG * p + lo && RangeSet(was, now, a, LONG * p + lo, v)
    requires forall k :: 0 <= k < LONG ==> w[k] == if lo <= k < hi then v else now[p][k]
    ensures RangeSet(was, now[p := w], a, LONG * p + hi, v)
  {
    var next := now[p := w];
    forall i | InMap(was, i)
      ensures Bit(next, i) == if a <= i < LONG * p + hi then v else Bit(was, i)
    {
      if i / LONG == p {
        assert i == LONG * p + i % LONG;
      }
    }
  }

  /** bitmap_set: exactly the bits of the range become set. */
  method BitmapSet(bits: array<Bits>, start: nat, nr: nat)
    requires start + nr <= LONG * bits.Length
    modifies bits
    ensures RangeSet(old(bits[..]), bits[..], start, start + nr, true)
  {
    hide RangeSet;
    ghost var was := bits[..];
    RangeEmpty(was, start, true);
    var p, left, size := start / LONG, nr, start + nr;
    var toSet, mask := LONG - start % LONG, FirstWordMask(start);
    ghost var lo: nat := start % LONG;
    while left - toSet >= 0
      invariant 0 <= left && toSet == LONG - lo && lo < LONG && mask == ShiftLeft(ONES, lo)
      invariant start <= LONG * p + lo && LONG * p + lo + left == size
      invariant RangeSet(was, bits[..], start, LONG * p + lo, true)
    {
      RangeStep(was, bits[..], start, p, lo, LONG, Or(bits[p], mask), true);
      bits[p] := Or(bits[p], mask);
      left := left - toSet;
      toSet, mask := LONG, ONES;
      p := p + 1;
      lo := 0;
      assert ONES == ShiftLeft(ONES, 0);
    }
    if left != 0 {
      assert size == LONG * p + (lo + left) && size % LONG == lo + left;
      mask := And(mask, LastWordMask(size));
      RangeStep(was, bits[..], start, p, lo, lo + left, Or(bits[p], mask), true);
      bits[p] := Or(bits[p], mask);
    }
  }

  /** bitmap_clear: exactly the bits of the range become clear. */
  method BitmapClear(bits: array<Bits>, start: nat, nr: nat)
    requires start + nr <= LONG * bits.Length
    modifies bits
    ensures RangeSet(old(bits[..]), bits[..], start, start + nr, false)
  {
    hide RangeSet;
    ghost var was := bits[..];
    RangeEmpty(was, start, false);
    var p, left, size := start / LONG, nr, start + nr;
    var toClear, mask := LONG - start % LONG, FirstWordMask(start);
    ghost var lo: nat := start % LONG;
    while left - toClear >= 0
      invariant 0 <= left && toClear == LONG - lo && lo < LONG && mask == ShiftLeft(ONES, lo)
      invariant start <= LONG * p + lo && LONG * p + lo + left == size
      invariant RangeSet(was, bits[..], start, LONG * p + lo, false)
    {
      RangeStep(was, bits[..], start, p, lo, LONG, And(bits[p], Not(mask)), false);
      bits[p] := And(bits[p], Not(mask));
      left := left - toClear;
      toClear, mask := LONG, ONES;
      p := p + 1;
      lo := 0;
      assert ONES == ShiftLeft(ONES, 0);
    }
    if left != 0 {
      assert size == LONG * p + (lo + left) && size % LONG == lo + left;
      mask := And(mask, LastWordMask(size));
      RangeStep(was, bits[..], start, p, lo, lo + left, And(bits[p], Not(mask)), false);
      bits[p] := And(bits[p], Not(mask));
    }
  }

  lemma RangeEmpty(was: seq<Bits>, a: nat, v: bool)
    ensures RangeSet(was, was, a, LONG * (a / LONG) + a % LONG, v)
  {}

  // ----- alignment

  /** x & ~m on binary digits. */
  function AndNot(x: nat, m: nat): nat {
    if x == 0 then 0 else 2 * AndNot(x / 2, m / 2) + (if x % 2 == 1 && m % 2 == 0 then 1 else 0)
  }

  lemma {:induction false} AndNotZero(x: nat)
    ensures AndNot(x, 0) == x
  {
    if x > 0 {
      AndNotZero(x / 2);
    }
  }

  /** The low k binary digits of i are zero: by the two lemmas below, i is a multiple of 2^k. */
  predicate Aligned(i: nat, k: nat) {
    k == 0 || (Even(i) && Aligned(Half(i), k - 1))
  }

  predicate Even(i: nat) { i % 2 == 0 }

  function Half(i: nat): nat { i / 2 }

  lemma HalfOfDouble(y: nat)
    ensures Even(2 * y) && Half(2 * y) == y
  {}

  lemma {:induction false} MultipleIsAligned(k: nat, q: nat)
    ensures Aligned(Pow2(k) * q, k)
    decreases k
  {
    hide Even, Half;
    if k > 0 {
      MultipleIsAligned(k - 1, q);
      var y := Pow2(k - 1) * q;
      assert Pow2(k) * q == 2 * y;
      HalfOfDouble(y);
    }
  }

  lemma {:induction false} AlignedIsMultiple(i: nat, k: nat) returns (q: nat)
    requires Aligned(i, k)
    ensures i == Pow2(k) * q
    decreases k
  {
    if k == 0 {
      q := i;
    } else {
      q := AlignedIsMultiple(Half(i), k - 1);
      assert i == 2 * (Pow2(k - 1) * q);
    }
  }

  lemma AndNotOdd(x: nat, m: nat)
    requires m > 0
    ensures AndNot(x, 2 * m - 1) == 2 * AndNot(x / 2, m - 1)
  {
    assert (2 * m - 1) / 2 == m - 1 && (2 * m - 1) % 2 == 1;
  }

  lemma AlignedDouble(y: nat, k: nat)
    requires k > 0 && Aligned(y, k - 1)
    ensures Aligned(2 * y, k)
  {
    hide Even, Half;
    HalfOfDouble(y);
  }

  /** Masking with one less than a power of two keeps what is above the low digits. */
  lemma {:induction false} AndNotMask(x: nat, k: nat)
    ensures var y := AndNot(x, Pow2(k) - 1); y <= x < y + Pow2(k) && Aligned(y, k)
    decreases k
  {
    hide AndNot;
    if k == 0 {
      AndNotZero(x);
    } else {
      AndNotMask(x / 2, k - 1);
      AndNotOdd(x, Pow2(k - 1));
      AlignedDouble(AndNot(x / 2, Pow2(k - 1) - 1), k);
    }
  }

  lemma {:induction false} AlignedApart(i: nat, j: nat, k: nat)
    requires Aligned(i, k) && Aligned(j, k) && i < j
    ensures i + Pow2(k) <= j
    decreases k
  {
    if k > 0 {
      AlignedApart(Half(i), Half(j), k - 1);
    }
  }

  /** ALIGN_MASK: up to the next multiple when mask + 1 is a power of two. */
  function AlignMask(x: nat, mask: nat): nat { AndNot(x + mask, mask) }

  ghost predicate IsAlignedUp(x: nat, k: nat, y: nat) {
    x <= y && Aligned(y, k) && forall i :: x <= i < y ==> !Aligned(i, k)
  }

  lemma AlignsUp(x: nat, k: nat)
    ensures var y := AlignMask(x, Pow2(k) - 1); IsAlignedUp(x, k, y) && y < x + Pow2(k)
  {
    hide Aligned, AndNot, Pow2;
    var y := AlignMask(x, Pow2(k) - 1);
    AndNotMask(x + Pow2(k) - 1, k);
    forall i | x <= i < y
      ensures !Aligned(i, k)
    {
      if Aligned(i, k) {
        AlignedApart(i, y, k);
      }
    }
  }

  // ----- the area search

  /** nr clear bits inside size, from a multiple of the alignment. */
  ghost predicate Fits(bits: seq<Bits>, size: nat, nr: nat, k: nat, i: nat)
    requires size <= LONG * |bits|
  {
    Aligned(i, k) && i + nr <= size && All(bits, false, i, i + nr)
  }

  ghost predicate NoneFits(bits: seq<Bits>, size: nat, nr: nat, k: nat, a: nat, b: nat)
    requires size <= LONG * |bits|
  {
    forall i :: a <= i < b ==> !Fits(bits, size, nr, k, i)
  }

  /** Before the next clear bit nothing fits, and between it and the aligned index nothing is aligned. */
  lemma NothingBeforeIndex(bits: seq<Bits>, size: nat, nr: nat, k: nat, start: nat, z: nat, index: nat)
    requires size <= LONG * |bits| && nr > 0
    requires IsNext(bits, false, size, start, z) && IsAlignedUp(z, k, index)
    ensures NoneFits(bits, size, nr, k, start, index)
  {
    hide Bit, Aligned;
    forall i: nat | start <= i < index
      ensures !Fits(bits, size, nr, k, i)
    {
      if i < z && i < size {
        assert Bit(bits, i);
      }
    }
  }

  /** A set bit inside the area rules out every start up to that bit. */
  lemma NothingUpTo(bits: seq<Bits>, size: nat, nr: nat, k: nat, index: nat, i: nat)
    requires size <= LONG * |bits|
    requires index <= i < index + nr <= size && Bit(bits, i)
    ensures NoneFits(bits, size, nr, k, index, i + 1)
  {
    hide Bit, Aligned;
    forall c: nat | index <= c < i + 1
      ensures !Fits(bits, size, nr, k, c)
    {
      assert c <= i < c + nr;
    }
  }

  /** What the search returns: the least place that fits, or a value past size when there is none. */
  ghost predicate IsArea(bits: seq<Bits>, size: nat, start: nat, nr: nat, k: nat, r: nat)
    requires size <= LONG * |bits|
  {
    if r <= size then start <= r && Fits(bits, size, nr, k, r) && NoneFits(bits, size, nr, k, start, r)
    else forall i: nat :: start <= i ==> !Fits(bits, size, nr, k, i)
  }

  /** bitmap_find_next_zero_area with an alignment of 2^k; nothing wraps around 64 bits. */
  method FindNextZeroArea(bits: seq<Bits>, size: nat, start: nat, nr: nat, alignMask: nat,
                          ghost k: nat) returns (r: nat)
    requires size <= LONG * |bits| && alignMask == Pow2(k) - 1 && size + alignMask + nr < TWO64
    ensures nr > 0 ==> IsArea(bits, size, start, nr, k, r)
    ensures nr == 0 ==> exists z :: IsNext(bits, false, size, start, z) && r == AlignMask(z, alignMask)
  {
    hide Bit, Aligned, AlignMask;
    var from := start;
    while true
      invariant start <= from && NoneFits(bits, size, nr, k, start, from)
      invariant nr == 0 ==> from == start
      decreases size - from
    {
      var z := FindNextZeroBit(bits, size, from);
      var index := AlignMask(z, alignMask);
      AlignsUp(z, k);
      var end := index + nr;
      if nr > 0 {
        NothingBeforeIndex(bits, size, nr, k, from, z, index);
      }
      if end > size {
        return end;
      }
      var i := FindNextBit(bits, end, index);
      if i < end {
        NothingUpTo(bits, size, nr, k, index, i);
        from := i + 1;
      } else {
        return index;
      }
    }
  }
}
