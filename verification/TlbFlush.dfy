/** Flushing a virtual page: TLB entries, the jump cache and large pages (qemu/exec.c:1955-2044,
    2210-2229; qemu/exec-all.h:162-175).  Addresses have 32 bits, as for the i386 target; pages
    are numbered, and page numbers have 20 bits. */
module TlbFlush {
  import opened Common

  const PAGES: nat := 0x10_0000

  type Page = p: int | 0 <= p < PAGES

  function Shr(x: nat, k: nat): nat { if k == 0 then x else Shr(x, k - 1) / 2 }

  lemma {:induction false} ShrAgain(x: nat, y: nat, k: nat, l: nat)
    requires k <= l && Shr(x, k) == Shr(y, k)
    ensures Shr(x, l) == Shr(y, l)
  {
    if k < l { ShrAgain(x, y, k, l - 1); }
  }

  lemma {:induction false} ShrBelow(x: nat, k: nat, n: nat)
    requires x < Pow2(n + k)
    ensures Shr(x, k) < Pow2(n)
  {
    if k > 0 { ShrBelow(x, k - 1, n + 1); }
  }

  lemma PageBitsGone(p: Page)
    ensures Shr(p, 20) == 0
  {
    assert Pow2(8) == 256;
    assert Pow2(16) == 256 * Pow2(8);
    assert Pow2(20) == 16 * Pow2(16);
    ShrBelow(p, 20, 0);
  }

  // ----- the region that covers all large pages

  /** tlb_flush_addr and tlb_flush_mask.  Sizes of pages are powers of two, so the mask is all
      ones above some bit: pages are in the region when they agree with base above that bit. */
  datatype Region = Nothing | Region(base: Page, bits: nat)

  /** The test of tlb_flush_page for a forced full flush. */
  predicate InRegion(r: Region, p: Page) { r.Region? && Shr(p, r.bits) == Shr(r.base, r.bits) }

  /** p lies in the large page of 2^bits pages that holds v. */
  predicate InLargePage(p: Page, v: Page, bits: nat) { Shr(p, bits) == Shr(v, bits) }

  /** tlb_add_large_page: the region grows to cover the new page and keeps what it covered, and it grows no
      further than the first size at which the two agree. */
  method AddLargePage(r: Region, v: Page, bits: nat) returns (r': Region)
    requires bits <= 20 && (r.Region? ==> r.bits <= 20)
    ensures r'.Region? && r'.bits <= 20
    ensures forall p: Page :: InLargePage(p, v, bits) || InRegion(r, p) ==> InRegion(r', p)
    ensures r.Nothing? ==> r' == Region(v, bits)
    ensures r.Region? ==> r'.base == r.base && forall k :: bits <= k && r.bits <= k < r'.bits ==>
        Shr(r.base, k) != Shr(v, k)
  {
    if r.Nothing? { return Region(v, bits); }
    var mask := if bits < r.bits then r.bits else bits;  // mask &= env->tlb_flush_mask
    PageBitsGone(r.base);
    PageBitsGone(v);
    while Shr(r.base, mask) != Shr(v, mask)
      invariant bits <= mask && r.bits <= mask <= 20
      invariant forall k :: bits <= k && r.bits <= k < mask ==> Shr(r.base, k) != Shr(v, k)
      decreases 20 - mask
    {
      mask := mask + 1;                                   // mask <<= 1
    }
    r' := Region(r.base, mask);
    forall p: Page | InLargePage(p, v, bits) || InRegion(r, p) ensures InRegion(r', p) {
      if InLargePage(p, v, bits) { ShrAgain(p, v, bits, mask); } else { ShrAgain(p, r.base, r.bits, mask); }
    }
  }

  // ----- the jump cache

  /** Exclusive or of n-bit numbers. */
  function Xor(a: nat, b: nat, n: nat): (r: nat)
    ensures r < Pow2(n)
  {
    if n == 0 then 0 else (a + b) % 2 + 2 * Xor(a / 2, b / 2, n - 1)
  }

  /** A block in the jump cache: the page and offset of its address, and its length. */
  datatype Tb = Tb(page: Page, off: nat, size: nat)

  predicate ValidTb(t: Tb) { t.off < PAGE && 1 <= t.size <= PAGE }

  /** tb_jmp_cache_hash_page: bits 12..17 xor bits 18..23 of the address, times 64. */
  function HashPage(p: Page): nat { 64 * Xor(p % 64, p / 64 % 64, 6) }

  /** tb_jmp_cache_hash_func: the same, plus bits 0..5 xor bits 6..11. */
  function HashFunc(t: Tb): nat { HashPage(t.page) + Xor(t.off % 64, t.off / 64 % 64, 6) }

  /** Binary digit i. */
  function Digit(x: nat, i: nat): nat { Shr(x, i) % 2 }

  lemma {:induction false} ShrFirst(x: nat, i: nat)
    requires i > 0
    ensures Shr(x, i) == Shr(x / 2, i - 1)
  {
    if i > 1 { ShrFirst(x, i - 1); }
  }

  lemma {:induction false} XorDigit(a: nat, b: nat, n: nat, i: nat)
    requires i < n
    ensures Digit(Xor(a, b, n), i) == (Digit(a, i) + Digit(b, i)) % 2
    decreases n
  {
    if i > 0 {
      ShrFirst(Xor(a, b, n), i);
      ShrFirst(a, i);
      ShrFirst(b, i);
      assert Xor(a, b, n) / 2 == Xor(a / 2, b / 2, n - 1);
      XorDigit(a / 2, b / 2, n - 1, i - 1);
    }
  }

  /** Digits of the low six digits, and of the six above them. */
  lemma SixDigits(x: nat, i: nat)
    requires i < 6
    ensures Digit(x % 64, i) == Digit(x, i) && Digit(x / 64 % 64, i) == Digit(x, i + 6)
  {
    LowDigits(x, i);
    LowDigits(x / 64, i);
    HighDigits(x, 6, i);
    Unshift(x, 5);
    assert Shr(x, 6) == Shr(x, 5) / 2;
    assert x / 2 / 2 / 2 / 2 / 2 / 2 == x / 64;
  }

  lemma LowDigits(x: nat, i: nat)
    requires i < 6
    ensures Digit(x % 64, i) == Digit(x, i)
  {
    hide Shr;
    var q, r := x / 64, x % 64;
    assert x == 64 * q + r;
    assert x / 2 == 32 * q + r / 2 && x / 2 / 2 == 16 * q + r / 2 / 2 && x / 2 / 2 / 2 == 8 * q + r / 2 / 2 / 2;
    assert x / 2 / 2 / 2 / 2 == 4 * q + r / 2 / 2 / 2 / 2 && x / 2 / 2 / 2 / 2 / 2 == 2 * q + r / 2 / 2 / 2 / 2 / 2;
    Unshift(x, i);
    Unshift(r, i);
  }

  lemma Unshift(x: nat, i: nat)
    requires i < 6
    ensures Shr(x, i) == if i == 0 then x else if i == 1 then x / 2 else if i == 2 then x / 2 / 2
      else if i == 3 then x / 2 / 2 / 2 else if i == 4 then x / 2 / 2 / 2 / 2 else x / 2 / 2 / 2 / 2 / 2
  {
    assert Shr(x, 1) == x / 2;
    assert Shr(x, 3) == Shr(x, 2) / 2;
    assert Shr(x, 5) == Shr(x, 4) / 2;
  }

  lemma {:induction false} HighDigits(x: nat, k: nat, i: nat)
    ensures Shr(Shr(x, k), i) == Shr(x, k + i)
  {
    if i > 0 { HighDigits(x, k, i - 1); }
  }

  /** Digit by digit: each half of the hash is two groups of six address digits, one against the other. */
  lemma HashDigits(t: Tb, i: nat)
    requires i < 6
    ensures HashFunc(t) / 64 == Xor(t.page % 64, t.page / 64 % 64, 6) && HashFunc(t) < 4096
    ensures Digit(HashFunc(t) / 64, i) == (Digit(t.page, i) + Digit(t.page, i + 6)) % 2
    ensures Digit(HashFunc(t) % 64, i) == (Digit(t.off, i) + Digit(t.off, i + 6)) % 2
  {
    hide Digit, Xor;
    assert Pow2(6) == 64;
    XorDigit(t.page % 64, t.page / 64 % 64, 6, i);
    XorDigit(t.off % 64, t.off / 64 % 64, 6, i);
    SixDigits(t.page, i);
    SixDigits(t.off, i);
  }

  function Before(p: Page): Page { (p + PAGES - 1) % PAGES }

  function After(p: Page): Page { (p + 1) % PAGES }

  /** The block has a byte on page p. */
  predicate OnPage(t: Tb, p: Page) { t.page == p || (t.off + t.size > PAGE && After(t.page) == p) }

  predicate InStretch(h: nat, p: Page) { HashPage(p) <= h < HashPage(p) + 64 }

  /** tlb_flush_jmp_cache: clears the stretches of the page and of the page before it. */
  function FlushJmpCache(cache: map<nat, Tb>, p: Page): map<nat, Tb> {
    map h | h in cache && !InStretch(h, Before(p)) && !InStretch(h, p) :: cache[h]
  }

  ghost predicate CacheOk(cache: map<nat, Tb>) {
    forall h :: h in cache ==> ValidTb(cache[h]) && h == HashFunc(cache[h])
  }

  lemma HashInStretch(t: Tb)
    ensures InStretch(HashFunc(t), t.page)
  {
    assert Pow2(6) == 64;
  }

  lemma BeforeAfter(p: Page)
    ensures Before(After(p)) == p
  {}

  /** No block with a byte on the page stays in the cache, although it is filed under the page
      it starts on. */
  lemma JmpCacheFlushed(cache: map<nat, Tb>, p: Page)
    requires CacheOk(cache)
    ensures var cache' := FlushJmpCache(cache, p);
            CacheOk(cache') && forall h :: h in cache' ==> !OnPage(cache'[h], p)
  {
    hide HashPage, HashFunc;
    var cache' := FlushJmpCache(cache, p);
    forall h | h in cache' ensures !OnPage(cache'[h], p) {
      var t := cache[h];
      HashInStretch(t);
      BeforeAfter(t.page);
    }
  }

  lemma StretchesApart(h: nat, p: Page, q: Page)
    requires InStretch(h, p) && InStretch(h, q)
    ensures HashPage(p) == HashPage(q)
  {
    hide Xor;
  }

  /** Page q is filed elsewhere than page p and the page before p. */
  predicate FiledApart(q: Page, p: Page) {
    HashPage(q) != HashPage(p) && HashPage(q) != HashPage((p + PAGES - 1) % PAGES)
  }

  /** Blocks filed under other pages stay. */
  lemma JmpCacheKept(cache: map<nat, Tb>, p: Page)
    requires CacheOk(cache)
    ensures var cache' := FlushJmpCache(cache, p);
      forall h :: h in cache && FiledApart(cache[h].page, p) ==> h in cache' && cache'[h] == cache[h]
  {
    hide HashPage, HashFunc, InStretch;
    forall h | h in cache && FiledApart(cache[h].page, p) ensures !InStretch(h, p) && !InStretch(h, Before(p)) {
      HashInStretch(cache[h]);
      if InStretch(h, p) { StretchesApart(h, p, cache[h].page); }
      if InStretch(h, Before(p)) { StretchesApart(h, Before(p), cache[h].page); }
    }
  }

  // ----- the TLB of a CPU

  /** The virtual pages addr_read, addr_write and addr_code are valid for. */
  datatype Entry = Entry(read: set<Page>, write: set<Page>, code: set<Page>)

  const EMPTY_ENTRY: Entry := Entry({}, {}, {})

  predicate Maps(e: Entry, p: Page) { p in e.read || p in e.write || p in e.code }

  /** At most its own page, and only at the index of that page. */
  ghost predicate EntryOk(e: Entry, i: nat) {
    forall p: Page :: Maps(e, p) ==> p % CPU_TLB_SIZE == i
  }

  datatype LargePage = LargePage(v: Page, bits: nat)

  class Tlb {
    var table: seq<seq<Entry>>     // tlb_table, per MMU mode
    var region: Region
    var jmpCache: map<nat, Tb>
    ghost var large: set<LargePage>  // installed since the last full flush

    ghost predicate Valid()
      reads this
    {
      && (forall m :: 0 <= m < |table| ==> |table[m]| == CPU_TLB_SIZE)
      && (forall m, i :: 0 <= m < |table| && 0 <= i < CPU_TLB_SIZE ==> EntryOk(table[m][i], i))
      && (region.Region? ==> region.bits <= 20)
      && (forall l: LargePage, p: Page :: l in large && InLargePage(p, l.v, l.bits) ==> InRegion(region, p))
      && CacheOk(jmpCache)
    }

    ghost predicate Empty()
      reads this
    {
      && (forall m, i :: 0 <= m < |table| && 0 <= i < |table[m]| ==> table[m][i] == EMPTY_ENTRY)
      && jmpCache == map[] && region.Nothing?
    }

    constructor (modes: nat)
      ensures Valid() && Empty() && |table| == modes && large == {}
    {
      table := seq(modes, _ => seq(CPU_TLB_SIZE, _ => EMPTY_ENTRY));
      region, jmpCache, large := Nothing, map[], {};
    }

    /** tlb_flush */
    method Flush()
      requires Valid()
      modifies this
      ensures Valid() && Empty() && |table| == |old(table)| && large == {}
    {
      table := seq(|table|, _ => seq(CPU_TLB_SIZE, _ => EMPTY_ENTRY));
      region, jmpCache, large := Nothing, map[], {};
    }

    /** tlb_flush_page: nothing for page p survives, and if p lies in a large page everything goes. */
    method FlushPage(p: Page)
      requires Valid()
      modifies this
      ensures Valid() && |table| == |old(table)|
      ensures forall m, i :: 0 <= m < |table| && 0 <= i < CPU_TLB_SIZE ==> !Maps(table[m][i], p)
      ensures forall h :: h in jmpCache ==> !OnPage(jmpCache[h], p)
      ensures (exists l :: l in old(large) && InLargePage(p, l.v, l.bits)) ==> Empty()
      ensures InRegion(old(region), p) ==> Empty() && large == {}
      ensures !InRegion(old(region), p) ==>
        && large == old(large) && region == old(region) && jmpCache == FlushJmpCache(old(jmpCache), p)
        && forall m, i :: 0 <= m < |table| && 0 <= i < CPU_TLB_SIZE && !Maps(old(table)[m][i], p) ==>
            table[m][i] == old(table)[m][i]
      ensures !InRegion(old(region), p) ==>
        forall h :: h in old(jmpCache) && FiledApart(old(jmpCache)[h].page, p) ==>
          h in jmpCache && jmpCache[h] == old(jmpCache)[h]
    {
      hide Shr, FlushJmpCache, OnPage, CacheOk, FiledApart;
      if InRegion(region, p) {
        Flush();
        return;
      }
      var i := p % CPU_TLB_SIZE;
      for m := 0 to |table|
        invariant Valid() && |table| == |old(table)| && large == old(large) && region == old(region)
            && jmpCache == old(jmpCache)
        invariant forall n :: 0 <= n < m ==> !Maps(table[n][i], p)
        invariant forall n, j :: 0 <= n < |table| && 0 <= j < CPU_TLB_SIZE && !Maps(old(table)[n][j], p) ==>
                    table[n][j] == old(table)[n][j]
      {
        if Maps(table[m][i], p) { table := table[m := table[m][i := EMPTY_ENTRY]]; }
      }
      JmpCacheFlushed(jmpCache, p);
      JmpCacheKept(jmpCache, p);
      jmpCache := FlushJmpCache(jmpCache, p);
    }

    /** tlb_set_page: size is 2^bits pages. */
    method SetPage(v: Page, mode: nat, bits: nat, read: bool, write: bool, exec: bool)
      requires Valid() && mode < |table| && bits <= 20
      modifies this`table, this`region, this`large
      ensures Valid() && |table| == |old(table)|
      ensures large == if bits == 0 then old(large) else old(large) + {LargePage(v, bits)}
      ensures bits == 0 ==> region == old(region)
      ensures bits != 0 && old(region).Nothing? ==> region == Region(v, bits)
      ensures bits != 0 && old(region).Region? ==>
        && region.Region? && region.base == old(region).base
        && forall k :: bits <= k && old(region).bits <= k < region.bits ==> Shr(region.base, k) != Shr(v, k)
      ensures table == old(table)[mode := old(table)[mode][v % CPU_TLB_SIZE :=
                Entry(if read then {v} else {}, if write then {v} else {}, if exec then {v} else {})]]
    {
      hide Shr;
      if bits != 0 {
        region := AddLargePage(region, v, bits);
        large := large + {LargePage(v, bits)};
      }
      var i := v % CPU_TLB_SIZE;
      var e := Entry(if read then {v} else {}, if write then {v} else {}, if exec then {v} else {});
      table := table[mode := table[mode][i := e]];
    }
  }
}
