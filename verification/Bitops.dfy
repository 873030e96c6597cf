/** Searching arrays of 64-bit words for set and clear bits. */
module Bitops {

  const LONG := 64

  type Bits = w: seq<bool> | |w| == LONG witness seq(64, _ => false)

  const ZERO: Bits := seq(LONG, _ => false)
  const ONES: Bits := seq(LONG, _ => true)

  function Not(w: Bits): Bits { seq(LONG, k requires 0 <= k < LONG => !w[k]) }
  function And(u: Bits, v: Bits): Bits { seq(LONG, k requires 0 <= k < LONG => u[k] && v[k]) }
  function Or(u: Bits, v: Bits): Bits { seq(LONG, k requires 0 <= k < LONG => u[k] || v[k]) }

  function ShiftLeft(w: Bits, n: nat): Bits {
    seq(LONG, k requires 0 <= k < LONG => n <= k && w[k - n])
  }

  function ShiftRight(w: Bits, n: nat): Bits {
    seq(LONG, k requires 0 <= k < LONG => k + n < LONG && w[k + n])
  }

  /** ~0 << (start % 64) */
  function FirstWordMask(start: nat): Bits { seq(LONG, k requires 0 <= k < LONG => start % LONG <= k) }

  /** (1 << (nbits % 64)) - 1, or ~0 when no bits are left over. */
  function LastWordMask(nbits: nat): Bits {
    seq(LONG, k requires 0 <= k < LONG => nbits % LONG == 0 || k < nbits % LONG)
  }

  /** w & ((1 << n) - 1) == 0 */
  predicate LowClear(w: Bits, n: nat)
    requires n <= LONG
  {
    forall k :: 0 <= k < n ==> !w[k]
  }

  /** w & (~0 << (64 - n)) == 0 */
  predicate HighClear(w: Bits, n: nat)
    requires n <= LONG
  {
    forall k :: LONG - n <= k < LONG ==> !w[k]
  }

  ghost predicate FirstSet(w: Bits, k: int) {
    0 <= k < LONG && w[k] && forall j :: 0 <= j < k ==> !w[j]
  }

  ghost predicate LastSet(w: Bits, k: int) {
    0 <= k < LONG && w[k] && forall j :: k < j < LONG ==> !w[j]
  }

  lemma ZeroIsClear(w: Bits)
    ensures w == ZERO <==> LowClear(w, LONG)
  {
    if LowClear(w, LONG) {
      assert w == ZERO;
    }
  }

  lemma NotZero(w: Bits)
    ensures Not(w) == ZERO <==> w == ONES
  {
    if Not(w) == ZERO {
      forall k | 0 <= k < LONG
        ensures w[k]
      {
        assert Not(w)[k] == ZERO[k];
      }
      assert w == ONES;
    }
  }

  lemma FirstExists(w: Bits, n: nat) returns (k: int)
    requires n <= LONG && !LowClear(w, n)
    ensures FirstSet(w, k) && k < n
  {
    k := 0;
    while !w[k]
      invariant 0 <= k < n && forall j :: 0 <= j < k ==> !w[j]
      decreases n - k
    {
      k := k + 1;
    }
  }

  lemma LastExists(w: Bits) returns (k: int)
    requires w != ZERO
    ensures LastSet(w, k)
  {
    ZeroIsClear(w);
    k := LONG - 1;
    while !w[k]
      invariant 0 <= k < LONG && forall j :: k < j < LONG ==> !w[j]
      invariant exists j :: 0 <= j <= k && w[j]
      decreases k
    {
      k := k - 1;
    }
  }

  lemma ShiftNone(w: Bits)
    ensures ShiftLeft(w, 0) == w && ShiftRight(w, 0) == w
  {}

  /** One halving of the search for the first bit: is it in the low h bits of what is left? */
  method HalveLow(ghost w: Bits, ghost k: int, word: Bits, num: nat, h: nat) returns (word': Bits, num': nat)
    requires FirstSet(w, k) && num <= k < num + 2 * h && h <= 32 && word == ShiftRight(w, num)
    ensures num' <= k < num' + h && word' == ShiftRight(w, num')
  {
    assert k - num < LONG && word[k - num];
    if LowClear(word, h) {
      return ShiftRight(word, h), num + h;
    }
    assert forall j :: 0 <= j < h && word[j] ==> k <= j + num;
    return word, num;
  }

  /** The first set bit, by halving. */
  method Ffsl(w: Bits) returns (num: nat)
    requires w != ZERO
    ensures FirstSet(w, num)
  {
    hide ShiftRight;
    ZeroIsClear(w);
    ghost var k := FirstExists(w, LONG);
    var word := w;
    num := 0;
    ShiftNone(w);
    word, num := HalveLow(w, k, word, num, 32);
    word, num := HalveLow(w, k, word, num, 16);
    word, num := HalveLow(w, k, word, num, 8);
    word, num := HalveLow(w, k, word, num, 4);
    word, num := HalveLow(w, k, word, num, 2);
    word, num := HalveLow(w, k, word, num, 1);
  }

  method HalveHigh(ghost w: Bits, ghost k: int, word: Bits, num: nat, h: nat) returns (word': Bits, num': nat)
    requires LastSet(w, k) && num < LONG && num - 2 * h < k <= num && h <= 32 && word == ShiftLeft(w, 63 - num)
    ensures num' < LONG && num' - h < k <= num' && word' == ShiftLeft(w, 63 - num')
  {
    assert word[k + 63 - num];
    if HighClear(word, h) {
      return ShiftLeft(word, h), num - h;
    }
    assert forall j :: LONG - h <= j < LONG && word[j] ==> j - (63 - num) <= k;
    return word, num;
  }

  /** The last set bit, by halving. */
  method Flsl(w: Bits) returns (num: nat)
    requires w != ZERO
    ensures LastSet(w, num)
  {
    hide ShiftLeft;
    ghost var k := LastExists(w);
    var word := w;
    num := 63;
    ShiftNone(w);
    word, num := HalveHigh(w, k, word, num, 32);
    word, num := HalveHigh(w, k, word, num, 16);
    word, num := HalveHigh(w, k, word, num, 8);
    word, num := HalveHigh(w, k, word, num, 4);
    word, num := HalveHigh(w, k, word, num, 2);
    word, num := HalveHigh(w, k, word, num, 1);
  }

  /** The first clear bit. */
  method Ffz(w: Bits) returns (num: nat)
    requires w != ONES
    ensures FirstSet(Not(w), num)
  {
    NotZero(w);
    num := Ffsl(Not(w));
  }

  // ----- bits of a word array

  predicate InMap(addr: seq<Bits>, i: int) { 0 <= i < LONG * |addr| }

  /** Bit i of the map. */
  predicate Bit(addr: seq<Bits>, i: int)
    requires InMap(addr, i)
  {
    addr[i / LONG][i % LONG]
  }

  lemma BitOfWord(addr: seq<Bits>, p: nat, k: nat)
    requires p < |addr| && k < LONG
    ensures InMap(addr, LONG * p + k) && Bit(addr, LONG * p + k) == addr[p][k]
  {
    assert (LONG * p + k) / LONG == p && (LONG * p + k) % LONG == k;
  }

  /** Every bit from a up to b has value v. */
  ghost predicate All(addr: seq<Bits>, v: bool, a: int, b: int)
    requires 0 <= a && b <= LONG * |addr|
  {
    forall i :: a <= i < b ==> Bit(addr, i) == v
  }

  lemma AllInWord(addr: seq<Bits>, v: bool, p: nat, lo: nat, hi: nat)
    requires p < |addr| && lo <= hi <= LONG && forall k :: lo <= k < hi ==> addr[p][k] == v
    ensures All(addr, v, LONG * p + lo, LONG * p + hi)
  {
    forall i | LONG * p + lo <= i < LONG * p + hi
      ensures Bit(addr, i) == v
    {
      BitOfWord(addr, p, i - LONG * p);
    }
  }

  /** r is the least index from offset with value v, or size when there is none below size. */
  ghost predicate IsNext(addr: seq<Bits>, v: bool, size: nat, offset: nat, r: nat)
    requires size <= LONG * |addr|
  {
    if offset >= size then r == size
    else offset <= r <= size && All(addr, !v, offset, r) && (r < size ==> Bit(addr, r) == v)
  }

  /** A hit in word p, the bits before it having the other value. */
  lemma NextFound(addr: seq<Bits>, v: bool, size: nat, offset: nat, p: nat, lo: nat, k: nat)
    requires p < |addr| && lo <= k < LONG && LONG * p + k < size <= LONG * |addr|
    requires offset <= LONG * p + lo && All(addr, !v, offset, LONG * p + lo)
    requires addr[p][k] == v && forall j :: lo <= j < k ==> addr[p][j] != v
    ensures IsNext(addr, v, size, offset, LONG * p + k)
  {
    AllInWord(addr, !v, p, lo, k);
    BitOfWord(addr, p, k);
  }

  lemma NextWord(addr: seq<Bits>, v: bool, offset: nat, p: nat, lo: nat, hi: nat)
    requires p < |addr| && lo <= hi <= LONG
    requires offset <= LONG * p + lo && All(addr, v, offset, LONG * p + lo)
    requires forall j :: lo <= j < hi ==> addr[p][j] == v
    ensures All(addr, v, offset, LONG * p + hi)
  {
    AllInWord(addr, v, p, lo, hi);
  }

  /** The last word: the bits below lo and from size on are masked off. */
  method FoundFirst(addr: seq<Bits>, ghost all: nat, ghost offset: nat, ghost p: nat, ghost lo: nat,
                    tmp: Bits, size: nat, result: nat) returns (r: nat)
    requires p < |addr| && lo < size < LONG && result == LONG * p && all == result + size
    requires offset == result + lo || (lo == 0 && offset <= result)
    requires All(addr, false, offset, result + lo) && all <= LONG * |addr|
    requires tmp == And(addr[p], ShiftLeft(ONES, lo))
    ensures IsNext(addr, true, all, offset, r)
  {
    var tmp := And(tmp, ShiftRight(ONES, LONG - size));
    ZeroIsClear(tmp);
    if tmp == ZERO {
      assert forall j :: lo <= j < size ==> addr[p][j] == tmp[j];
      NextWord(addr, false, offset, p, lo, size);
      return result + size;
    }
    var k := Ffsl(tmp);
    assert forall j :: lo <= j < k ==> addr[p][j] == tmp[j];
    NextFound(addr, true, all, offset, p, lo, k);
    return result + k;
  }

  /** find_next_bit: exact least-index search over words. */
  method FindNextBit(addr: seq<Bits>, size: nat, offset: nat) returns (r: nat)
    requires size <= LONG * |addr|
    ensures IsNext(addr, true, size, offset, r)
  {
    hide Bit;
    var p, result := offset / LONG, offset - offset % LONG;
    if offset >= size {
      return size;
    }
    var left, off := size - result, offset % LONG;
    if off != 0 {
      var tmp := And(addr[p], ShiftLeft(ONES, off));
      if left < LONG {
        r := FoundFirst(addr, size, offset, p, off, tmp, left, result);
        return;
      }
      ZeroIsClear(tmp);
      if tmp != ZERO {
        var k := Ffsl(tmp);
        assert forall j :: off <= j < k ==> addr[p][j] == tmp[j];
        NextFound(addr, true, size, offset, p, off, k);
        return result + k;
      }
      assert forall j :: off <= j < LONG ==> addr[p][j] == tmp[j];
      NextWord(addr, false, offset, p, off, LONG);
      p := p + 1;
      left, result := left - LONG, result + LONG;
    }
    while left >= LONG
      invariant result == LONG * p && result + left == size && offset <= result && 0 <= left
      invariant All(addr, false, offset, result)
    {
      var tmp := addr[p];
      ZeroIsClear(tmp);
      if tmp != ZERO {
        var k := Ffsl(tmp);
        NextFound(addr, true, size, offset, p, 0, k);
        return result + k;
      }
      NextWord(addr, false, offset, p, 0, LONG);
      p := p + 1;
      result, left := result + LONG, left - LONG;
    }
    if left == 0 {
      return result;
    }
    assert addr[p] == And(addr[p], ShiftLeft(ONES, 0));
    r := FoundFirst(addr, size, offset, p, 0, addr[p], left, result);
  }

  method FoundFirstZero(addr: seq<Bits>, ghost all: nat, ghost offset: nat, ghost p: nat, ghost lo: nat,
                        tmp: Bits, size: nat, result: nat) returns (r: nat)
    requires p < |addr| && lo < size < LONG && result == LONG * p && all == result + size
    requires offset == result + lo || (lo == 0 && offset <= result)
    requires All(addr, true, offset, result + lo) && all <= LONG * |addr|
    requires tmp == Or(addr[p], ShiftRight(ONES, LONG - lo))
    ensures IsNext(addr, false, all, offset, r)
  {
    var tmp := Or(tmp, ShiftLeft(ONES, size));
    if tmp == ONES {
      assert forall j :: lo <= j < size ==> addr[p][j] == tmp[j];
      NextWord(addr, true, offset, p, lo, size);
      return result + size;
    }
    var k := Ffz(tmp);
    assert forall j :: 0 <= j <= k ==> Not(tmp)[j] == !tmp[j];
    assert forall j :: lo <= j < k ==> addr[p][j] == tmp[j];
    NextFound(addr, false, all, offset, p, lo, k);
    return result + k;
  }

  /** find_next_zero_bit. */
  method FindNextZeroBit(addr: seq<Bits>, size: nat, offset: nat) returns (r: nat)
    requires size <= LONG * |addr|
    ensures IsNext(addr, false, size, offset, r)
  {
    hide Bit;
    var p, result := offset / LONG, offset - offset % LONG;
    if offset >= size {
      return size;
    }
    var left, off := size - result, offset % LONG;
    if off != 0 {
      var tmp := Or(addr[p], ShiftRight(ONES, LONG - off));
      if left < LONG {
        r := FoundFirstZero(addr, size, offset, p, off, tmp, left, result);
        return;
      }
      if tmp != ONES {
        var k := Ffz(tmp);
        assert forall j :: 0 <= j <= k ==> Not(tmp)[j] == !tmp[j];
        assert forall j :: off <= j < k ==> addr[p][j] == tmp[j];
        NextFound(addr, false, size, offset, p, off, k);
        return result + k;
      }
      assert forall j :: off <= j < LONG ==> addr[p][j] == tmp[j];
      NextWord(addr, true, offset, p, off, LONG);
      p := p + 1;
      left, result := left - LONG, result + LONG;
    }
    while left >= LONG
      invariant result == LONG * p && result + left == size && offset <= result && 0 <= left
      invariant All(addr, true, offset, result)
    {
      var tmp := addr[p];
      if tmp != ONES {
        var k := Ffz(tmp);
        assert forall j :: 0 <= j <= k ==> Not(tmp)[j] == !tmp[j];
        NextFound(addr, false, size, offset, p, 0, k);
        return result + k;
      }
      NextWord(addr, true, offset, p, 0, LONG);
      p := p + 1;
      result, left := result + LONG, left - LONG;
    }
    if left == 0 {
      return result;
    }
    assert addr[p] == Or(addr[p], ShiftRight(ONES, LONG));
    r := FoundFirstZero(addr, size, offset, p, 0, addr[p], left, result);
  }

  /** r is the greatest set index below size, or size when there is none. */
  ghost predicate IsLast(addr: seq<Bits>, size: nat, r: nat)
    requires size <= LONG * |addr|
  {
    if r < size then Bit(addr, r) && All(addr, false, r + 1, size)
    else r == size && All(addr, false, 0, size)
  }

  lemma LastFound(addr: seq<Bits>, size: nat, p: nat, k: nat, hi: nat)
    requires p < |addr| && k < hi <= LONG && LONG * p + hi <= size <= LONG * |addr|
    requires addr[p][k] && (forall j :: k < j < hi ==> !addr[p][j]) && All(addr, false, LONG * p + hi, size)
    ensures IsLast(addr, size, LONG * p + k)
  {
    AllInWord(addr, false, p, k + 1, hi);
    BitOfWord(addr, p, k);
  }

  method FindLastBit(addr: seq<Bits>, size: nat) returns (r: nat)
    requires size <= LONG * |addr|
    ensures IsLast(addr, size, r)
  {
    hide Bit;
    var words := size / LONG;
    var part := size % LONG;
    if part != 0 {
      var tmp := And(addr[words], ShiftRight(ONES, LONG - part));
      ZeroIsClear(tmp);
      assert forall j :: 0 <= j < part ==> addr[words][j] == tmp[j];
      if tmp != ZERO {
        var k := Flsl(tmp);
        LastFound(addr, size, words, k, part);
        return words * LONG + k;
      }
      AllInWord(addr, false, words, 0, part);
    }
    while words != 0
      invariant 0 <= LONG * words <= size
      invariant All(addr, false, LONG * words, size)
    {
      words := words - 1;
      var tmp := addr[words];
      ZeroIsClear(tmp);
      if tmp != ZERO {
        var k := Flsl(tmp);
        LastFound(addr, size, words, k, LONG);
        return words * LONG + k;
      }
      AllInWord(addr, false, words, 0, LONG);
    }
    return size;
  }
}
