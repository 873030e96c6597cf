/** The cache of translation blocks: physical hash table, per-page lists, code bitmaps, per-CPU
    jump caches and direct jumps (qemu/exec.c:659-1300, qemu/cpu-exec.c:82-153). */
module TbCache {
  import opened Common
  import opened Bytes
  import opened Links
  import opened CodeBitmap
  import JumpLists
  import Chains

  const SMC_BITMAP_USE_THRESHOLD: nat := 10

  /** A translation block: its key, the physical pages (by number) its guest code lies on, and
      the guest code it was translated from. */
  datatype Block = Block(pc: nat, csBase: nat, flags: nat, page0: nat, page1: Option<nat>, code: seq<Byte>)

  function Off(b: Block): nat { b.pc % PAGE }

  /** 1 <= size <= TARGET_PAGE_SIZE, and a second page exactly when the code crosses a page end. */
  ghost predicate ValidBlock(b: Block) {
    && 1 <= |b.code| <= PAGE && (b.page1.Some? <==> Off(b) + |b.code| > PAGE) && b.page1 != Some(b.page0)
  }

  function PageOf(b: Block, n: nat): Option<nat> {
    if n == 0 then Some(b.page0) else if n == 1 then b.page1 else None
  }

  /** The part of page PageOf(b, n) that holds code of b, as the range scan computes it. */
  function Start(b: Block, n: nat): nat { if n == 0 then Off(b) else 0 }

  function End(b: Block, n: nat): nat { if n == 0 then Off(b) + |b.code| else (b.pc + |b.code|) % PAGE }

  /** Byte k of physical page p is code of b. */
  ghost predicate Covers(b: Block, p: nat, k: nat) {
    exists n :: 0 <= n < 2 && PageOf(b, n) == Some(p) && Start(b, n) <= k < End(b, n)
  }

  ghost predicate Overlaps(b: Block, p: nat, from: nat, to: nat) {
    exists n :: 0 <= n < 2 && PageOf(b, n) == Some(p) && !(End(b, n) <= from || Start(b, n) >= to)
  }

  /** Where byte i of the guest code of b lies: on the first page up to its end, then on the second from its start. */
  ghost predicate LiesAt(b: Block, i: nat, p: nat, k: nat) {
    var a := b.pc % PAGE + i;
    if a < PAGE then p == b.page0 && k == a else b.page1 == Some(p) && k == a - PAGE
  }

  /** The intervals of the range scan are the places of the code bytes, no more and no less. */
  lemma CoversIsCode(b: Block, p: nat, k: nat)
    requires ValidBlock(b) && k < PAGE
    ensures Covers(b, p, k) <==> exists i: nat :: i < |b.code| && LiesAt(b, i, p, k)
  {
    var o := b.pc % PAGE;
    if o + |b.code| > PAGE { WrapsOnce(b.pc, |b.code|); }
    if Covers(b, p, k) {
      var n :| 0 <= n < 2 && PageOf(b, n) == Some(p) && Start(b, n) <= k < End(b, n);
      var i := if n == 0 then k - o else PAGE - o + k;
      assert LiesAt(b, i, p, k);
    }
    if i: nat :| i < |b.code| && LiesAt(b, i, p, k) {
      var n := if o + i < PAGE then 0 else 1;
      assert PageOf(b, n) == Some(p) && Start(b, n) <= k < End(b, n);
    }
  }

  lemma WrapsOnce(pc: nat, size: nat)
    requires 1 <= size <= PAGE && pc % PAGE + size > PAGE
    ensures (pc + size) % PAGE == pc % PAGE + size - PAGE
  {}

  /** The interval test of the range scan finds the blocks with a code byte in the range. */
  lemma OverlapIsCoverage(b: Block, p: nat, from: nat, to: nat)
    requires ValidBlock(b) && from < to <= PAGE
    ensures Overlaps(b, p, from, to) <==> exists k :: from <= k < to && Covers(b, p, k)
  {
    if n :| 0 <= n < 2 && PageOf(b, n) == Some(p) && !(End(b, n) <= from || Start(b, n) >= to) {
      assert Covers(b, p, if Start(b, n) <= from then from else Start(b, n));
    }
  }

  function PhysHash(b: Block): nat { (b.page0 * PAGE + Off(b)) / 4 % 0x8000 }

  // ----- the index structures describe the linked blocks

  ghost predicate HashIndexed(owner: map<Slot, nat>, tbs: map<nat, Block>) {
    forall s :: (s in owner <==> s.n == 0 && s.tb in tbs) && (s in owner ==> owner[s] == PhysHash(tbs[s.tb]))
  }

  ghost predicate PagesIndexed(owner: map<Slot, nat>, tbs: map<nat, Block>) {
    forall s :: (s in owner <==> s.tb in tbs && PageOf(tbs[s.tb], s.n).Some?)
             && (s in owner ==> PageOf(tbs[s.tb], s.n) == Some(owner[s]))
  }

  ghost predicate CacheIndexed(cache: map<nat, nat>, tbs: map<nat, Block>, hash: nat -> nat) {
    forall h :: h in cache ==> cache[h] in tbs && hash(tbs[cache[h]].pc) == h
  }

  ghost predicate Covered(tbs: map<nat, Block>, p: nat, k: nat) {
    exists t :: t in tbs && Covers(tbs[t], p, k)
  }

  /** Bit k of the bitmap of page p is set exactly when some block has code there. */
  ghost predicate BitmapOk(bits: seq<Bits8>, tbs: map<nat, Block>, p: nat) {
    8 * |bits| == PAGE && forall k :: 0 <= k < PAGE ==> Bit(bits, k) == Covered(tbs, p, k)
  }

  /** Blocks on other pages have no influence on a page's bitmap. */
  lemma BitmapUnaffected(bits: seq<Bits8>, tbs: map<nat, Block>, t: nat, b: Block, p: nat)
    requires PageOf(b, 0) != Some(p) && PageOf(b, 1) != Some(p)
    ensures t !in tbs && BitmapOk(bits, tbs, p) ==> BitmapOk(bits, tbs[t := b], p)
    ensures t in tbs && tbs[t] == b && BitmapOk(bits, tbs, p) ==> BitmapOk(bits, tbs - {t}, p)
  {
    forall k ensures !Covers(b, p, k) {}
    if t !in tbs {
      forall k ensures Covered(tbs[t := b], p, k) <==> Covered(tbs, p, k) {
        if Covered(tbs[t := b], p, k) {
          var more := tbs[t := b];
          var u :| u in more && Covers(more[u], p, k);
          assert u in tbs && Covers(tbs[u], p, k);
        }
        if u :| u in tbs && Covers(tbs[u], p, k) { assert u in tbs[t := b] && Covers(tbs[t := b][u], p, k); }
      }
    } else if tbs[t] == b {
      forall k ensures Covered(tbs - {t}, p, k) <==> Covered(tbs, p, k) {
        if u :| u in tbs && Covers(tbs[u], p, k) { assert u in tbs - {t} && Covers((tbs - {t})[u], p, k); }
      }
    }
  }

  /** What the parts of the cache say about the linked blocks. */
  datatype View = View(tbs: map<nat, Block>, jumpers: set<nat>, hashed: map<Slot, nat>, paged: map<Slot, nat>,
                       caches: seq<map<nat, nat>>, bitmaps: map<nat, seq<Bits8>>)

  ghost predicate Indexed(v: View, hash: nat -> nat) {
    && v.jumpers == v.tbs.Keys
    && HashIndexed(v.hashed, v.tbs) && PagesIndexed(v.paged, v.tbs)
    && (forall t :: t in v.tbs ==> ValidBlock(v.tbs[t]))
    && (forall i :: 0 <= i < |v.caches| ==> CacheIndexed(v.caches[i], v.tbs, hash))
    && (forall p :: p in v.bitmaps ==> BitmapOk(v.bitmaps[p], v.tbs, p))
  }

  function OnPages(b: Block): set<nat> {
    {b.page0} + if b.page1.Some? then {b.page1.value} else {}
  }

  function Slots(t: nat): set<Slot> { {Slot(t, 0), Slot(t, 1)} }

  function Forget(cache: map<nat, nat>, t: nat, h: nat): map<nat, nat> {
    if h in cache && cache[h] == t then cache - {h} else cache
  }

  /** The entries for block t are gone, and no other. */
  ghost predicate Forgotten(cache: map<nat, nat>, cache': map<nat, nat>, t: nat) {
    forall h :: (h in cache' <==> h in cache && cache[h] != t) && (h in cache' ==> cache'[h] == cache[h])
  }

  lemma ForgetOnly(v: View, t: nat, hash: nat -> nat)
    requires Indexed(v, hash) && t in v.tbs
    ensures forall i :: 0 <= i < |v.caches| ==>
        Forgotten(v.caches[i], Forget(v.caches[i], t, hash(v.tbs[t].pc)), t)
  {
    forall i | 0 <= i < |v.caches| ensures Forgotten(v.caches[i], Forget(v.caches[i], t, hash(v.tbs[t].pc)), t) {
      assert CacheIndexed(v.caches[i], v.tbs, hash);
    }
  }

  function Entered(cache: map<nat, nat>, h: nat, t: nat): map<nat, nat> { cache[h := t] }

  function Dropped(v: View, t: nat, h: nat): View
    requires t in v.tbs
  {
    View(v.tbs - {t}, v.jumpers - {t}, v.hashed - {Slot(t, 0)}, v.paged - Slots(t),
         seq(|v.caches|, i requires 0 <= i < |v.caches| => Forget(v.caches[i], t, h)), v.bitmaps - OnPages(v.tbs[t]))
  }

  lemma Parts(v: View, t: nat, hash: nat -> nat)
    requires Indexed(v, hash) && t in v.tbs
    ensures v.jumpers == v.tbs.Keys && HashIndexed(v.hashed, v.tbs) && PagesIndexed(v.paged, v.tbs)
        && ValidBlock(v.tbs[t])
  {}

  lemma NothingIndexed(v: View, hash: nat -> nat)
    requires v.tbs == map[] && v.jumpers == {} && v.hashed == map[] && v.paged == map[] && v.bitmaps == map[]
    requires forall i :: 0 <= i < |v.caches| ==> v.caches[i] == map[]
    ensures Indexed(v, hash)
  {}

  lemma DropHash(owner: map<Slot, nat>, tbs: map<nat, Block>, t: nat)
    requires HashIndexed(owner, tbs) && t in tbs
    ensures HashIndexed(owner - {Slot(t, 0)}, tbs - {t})
  {}

  lemma DropPages(owner: map<Slot, nat>, tbs: map<nat, Block>, t: nat)
    requires PagesIndexed(owner, tbs) && t in tbs
    ensures PagesIndexed(owner - Slots(t), tbs - {t})
  {}

  lemma DropCache(cache: map<nat, nat>, tbs: map<nat, Block>, t: nat, hash: nat -> nat)
    requires CacheIndexed(cache, tbs, hash) && t in tbs
    ensures CacheIndexed(Forget(cache, t, hash(tbs[t].pc)), tbs - {t}, hash)
  {}

  /** The index is right again after block t left all its parts. */
  lemma DropIndexed(v: View, t: nat, hash: nat -> nat)
    requires Indexed(v, hash) && t in v.tbs
    ensures Indexed(Dropped(v, t, hash(v.tbs[t].pc)), hash)
  {
    hide HashIndexed, PagesIndexed, CacheIndexed, BitmapOk, Forget, Slots;
    var v' := Dropped(v, t, hash(v.tbs[t].pc));
    DropHash(v.hashed, v.tbs, t);
    DropPages(v.paged, v.tbs, t);
    forall i | 0 <= i < |v'.caches| ensures CacheIndexed(v'.caches[i], v'.tbs, hash) {
      DropCache(v.caches[i], v.tbs, t, hash);
    }
    forall p | p in v'.bitmaps ensures BitmapOk(v'.bitmaps[p], v'.tbs, p) {
      BitmapUnaffected(v.bitmaps[p], v.tbs, t, v.tbs[t], p);
    }
  }

  /** after is before with one occurrence of s taken out. */
  ghost predicate Without(before: seq<Slot>, after: seq<Slot>, s: Slot) {
    exists p :: 0 <= p < |before| && before[p] == s && after == before[..p] + before[p + 1..]
  }

  /** How the list of page p changes when block t leaves the page lists. */
  ghost predicate LeftPage(b: Block, t: nat, p: nat, before: seq<Slot>, after: seq<Slot>) {
    && (PageOf(b, 0) == Some(p) ==> Without(before, after, Slot(t, 0)))
    && (PageOf(b, 1) == Some(p) ==> Without(before, after, Slot(t, 1)))
    && (p !in OnPages(b) ==> after == before)
  }

  const L2_SIZE: nat := 1024

  /** The pages whose descriptors page_find_alloc allocates together with that of page p. */
  function Leaf(p: nat): (r: set<nat>)
    ensures p in r && forall q: nat :: q in r <==> q / 1024 == p / 1024
  {
    set q: nat | q < (p / L2_SIZE + 1) * L2_SIZE && LeafNo(q) == LeafNo(p)
  }

  function LeafNo(p: nat): nat { p / L2_SIZE }

  function Leaves(b: Block): set<nat> { Leaf(b.page0) + if b.page1.Some? then Leaf(b.page1.value) else {} }

  class Cache {
    const hash: Chains.ChainTable
    const pages: Chains.ChainTable
    const jumps: JumpLists.Jumps
    const jmpHash: nat -> nat             // tb_jmp_cache_hash_func; any function will do
    var tbs: map<nat, Block>              // the linked blocks
    var jmpCache: seq<map<nat, nat>>      // tb_jmp_cache, per CPU
    var codeBitmap: map<nat, seq<Bits8>>  // per page, when built
    var writeCount: map<nat, nat>         // code_write_count, per page

    ghost predicate Valid()
      reads this, hash, pages, jumps
    {
      && hash != pages && hash.Valid() && pages.Valid() && jumps.Valid()
      && Indexed(V(), jmpHash)
    }

    ghost function V(): View
      reads this, hash, pages, jumps
    {
      View(tbs, jumps.first.Keys, hash.owner, pages.owner, jmpCache, codeBitmap)
    }

    constructor (cpus: nat, jmpHash: nat -> nat)
      ensures Valid() && tbs == map[] && fresh(hash) && fresh(pages) && fresh(jumps)
    {
      hash := new Chains.ChainTable();
      pages := new Chains.ChainTable();
      jumps := new JumpLists.Jumps();
      this.jmpHash, tbs, jmpCache := jmpHash, map[], seq(cpus, _ => map[]);
      codeBitmap, writeCount := map[], map[];
    }

    ghost function PageList(p: nat): seq<Slot>
      reads pages
    {
      Chains.ListOf(pages.lists, p)
    }

    /** invalidate_page_bitmap */
    method InvalidatePageBitmap(p: nat)
      modifies this`codeBitmap, this`writeCount
      ensures codeBitmap == old(codeBitmap) - {p} && writeCount == old(writeCount) - {p}
    {
      codeBitmap, writeCount := codeBitmap - {p}, writeCount - {p};
    }

    /** The loop over CPUs that forgets block t. */
    method ForgetInJmpCaches(t: nat, h: nat)
      modifies this`jmpCache
      ensures jmpCache == seq(|old(jmpCache)|, i requires 0 <= i < |old(jmpCache)| => Forget(old(jmpCache)[i], t, h))
    {
      for i := 0 to |jmpCache|
        invariant |jmpCache| == |old(jmpCache)|
        invariant forall j :: 0 <= j < |jmpCache| ==>
                    jmpCache[j] == if j < i then Forget(old(jmpCache)[j], t, h) else old(jmpCache)[j]
      {
        if h in jmpCache[i] && jmpCache[i][h] == t { jmpCache := jmpCache[i := jmpCache[i] - {h}]; }
      }
    }

    /** Takes block t out of the lists of its pages, whose bitmaps are dropped. */
    method RemoveFromPages(t: nat, b: Block)
      requires pages.Valid() && PagesIndexed(pages.owner, tbs) && t in tbs && tbs[t] == b && ValidBlock(b)
      modifies this`codeBitmap, this`writeCount, pages
      ensures pages.Valid() && pages.owner == old(pages.owner) - Slots(t)
      ensures codeBitmap == old(codeBitmap) - OnPages(b) && writeCount == old(writeCount) - OnPages(b)
      ensures forall p: nat :: LeftPage(b, t, p, old(PageList(p)), PageList(p))
    {
      hide Chains.Ok;
      ghost var j0 := pages.Remove(b.page0, t, Slot(t, 0));
      InvalidatePageBitmap(b.page0);
      if b.page1.Some? {
        ghost var j1 := pages.Remove(b.page1.value, t, Slot(t, 1));
        InvalidatePageBitmap(b.page1.value);
      }
    }

    /** tb_phys_invalidate(tb, -1): the block is in no hash chain, page list, jump cache or jump
        list any more, nothing jumps to it, and everything else stays. */
    method PhysInvalidate(t: nat)
      requires Valid() && t in tbs
      modifies this, hash, pages, jumps
      ensures Valid() && V() == Dropped(old(V()), t, jmpHash(old(tbs)[t].pc))
      ensures tbs == old(tbs) - {t} && |jmpCache| == |old(jmpCache)|
      ensures forall i :: 0 <= i < |jmpCache| ==> Forgotten(old(jmpCache)[i], jmpCache[i], t)
      ensures codeBitmap == old(codeBitmap) - OnPages(old(tbs)[t])
      ensures writeCount == old(writeCount) - OnPages(old(tbs)[t])
      ensures jumps.dest == JumpLists.Detached(old(jumps.dest) - Slots(t), t)
      ensures forall p: nat :: LeftPage(old(tbs)[t], t, p, old(PageList(p)), PageList(p))
    {
      hide Indexed, HashIndexed, PagesIndexed, LeftPage, JumpLists.Ok, Chains.Ok, Forgotten;
      var b := tbs[t];
      ghost var v := V();
      ForgetOnly(v, t, jmpHash);
      Parts(v, t, jmpHash);
      DropIndexed(v, t, jmpHash);
      RemoveFromHash(t, b);
      RemoveFromPages(t, b);
      ForgetInJmpCaches(t, jmpHash(b.pc));
      jumps.Invalidate(t);
      tbs := tbs - {t};
      assert V() == Dropped(v, t, jmpHash(b.pc));
    }

    method RemoveFromHash(t: nat, b: Block)
      requires hash.Valid() && HashIndexed(hash.owner, tbs) && t in tbs && tbs[t] == b
      modifies hash
      ensures hash.Valid() && hash.owner == old(hash.owner) - {Slot(t, 0)}
    {
      ghost var _ := hash.Remove(PhysHash(b), t, Slot(t, 0));
    }

    /** tb_flush */
    method Flush()
      requires Valid()
      modifies this, hash, pages, jumps
      ensures Valid() && tbs == map[] && |jmpCache| == |old(jmpCache)|
      ensures forall i :: 0 <= i < |jmpCache| ==> jmpCache[i] == map[]
      ensures codeBitmap == map[] && writeCount == map[] && pages.heads.Keys == old(pages.heads.Keys)
    {
      hide JumpLists.Ok, Chains.Ok, Indexed;
      jmpCache := seq(|jmpCache|, _ => map[]);
      hash.Clear();
      pages.Clear();
      codeBitmap, writeCount := map[], map[];
      jumps.Clear();
      tbs := map[];
      NothingIndexed(V(), jmpHash);
    }

    /** tb_alloc_page: block t becomes the first of the list of page p; tells whether the page
        had no code before and so has to be write-protected. */
    method AllocPage(t: nat, n: nat, p: nat) returns (protect: bool)
      requires pages.Valid() && Slot(t, n) !in pages.owner
      modifies this`codeBitmap, this`writeCount, pages
      ensures pages.Valid() && pages.owner == old(pages.owner)[Slot(t, n) := p]
      ensures codeBitmap == old(codeBitmap) - {p} && pages.heads.Keys == old(pages.heads.Keys) + Leaf(p)
      ensures protect <==> old(PageList(p)) == []
      ensures forall q: nat :: PageList(q) == if q == p then [Slot(t, n)] + old(PageList(p)) else old(PageList(q))
    {
      hide Chains.Ok, Leaf;
      pages.AllocKeys(Leaf(p));
      Chains.Pointer(pages.C(), p, 0);
      protect := Chains.HeadOf(pages.heads, p) == Null;
      pages.Push(p, Slot(t, n));
      InvalidatePageBitmap(p);
    }

    /** Puts block t in the lists of its pages; protect is the set of pages that had no code before. */
    method AllocPages(t: nat, b: Block) returns (protect: set<nat>)
      requires pages.Valid() && Slot(t, 0) !in pages.owner && Slot(t, 1) !in pages.owner && b.page1 != Some(b.page0)
      modifies this`codeBitmap, this`writeCount, pages
      ensures pages.Valid() && pages.owner == PagesAdded(old(pages.owner), t, b)
      ensures codeBitmap == old(codeBitmap) - OnPages(b)
      ensures pages.heads.Keys == old(pages.heads.Keys) + Leaves(b)
      ensures protect == set p | p in OnPages(b) && old(PageList(p)) == []
    {
      hide Chains.Ok, Leaf;
      var first := AllocPage(t, 0, b.page0);
      protect := if first then {b.page0} else {};
      if b.page1.Some? {
        var second := AllocPage(t, 1, b.page1.value);
        if second { protect := protect + {b.page1.value}; }
      }
    }

    /** tb_link_page; protect is the set of pages that had no code before. */
    method LinkPage(t: nat, b: Block) returns (protect: set<nat>)
      requires Valid() && t !in tbs && ValidBlock(b)
      modifies this, hash, pages, jumps
      ensures Valid() && V() == Linked(old(V()), t, b)
      ensures jumps.dest == old(jumps.dest)[Slot(t, 0) := None][Slot(t, 1) := None]
      ensures pages.heads.Keys == old(pages.heads.Keys) + Leaves(b)
      ensures protect == set p | p in OnPages(b) && old(PageList(p)) == []
    {
      hide Indexed, JumpLists.Ok, Chains.Ok, Leaf;
      ghost var v := V();
      LinkIndexed(v, t, b, jmpHash);
      hash.Push(PhysHash(b), Slot(t, 0));
      protect := AllocPages(t, b);
      jumps.AddBlock(t);
      tbs := tbs[t := b];
      assert V() == Linked(v, t, b);
    }

    /** build_page_bitmap */
    method BuildPageBitmap(p: nat)
      requires Valid()
      modifies this`codeBitmap
      ensures Valid() && p in codeBitmap && codeBitmap - {p} == old(codeBitmap) - {p}
    {
      hide Indexed, JumpLists.Ok, Chains.Ok;
      var bits := MarkAll(p);
      ghost var v := V();
      BitmapBuilt(pages.C(), v, p, bits, jmpHash);
      codeBitmap := codeBitmap[p := bits];
      assert V() == v.(bitmaps := v.bitmaps[p := bits]);
    }

    /** The bitmap of all blocks in the list of page p. */
    method MarkAll(p: nat) returns (bits: seq<Bits8>)
      requires Valid()
      ensures 8 * |bits| == PAGE
      ensures forall k :: 0 <= k < PAGE ==> Bit(bits, k) == CoveredBy(tbs, PageList(p), k)
    {
      hide Indexed, JumpLists.Ok, Chains.Ok, CoveredBy;
      ghost var v, list := V(), PageList(p);
      var tab := new Bits8[PAGE / 8](_ => NO_BITS);
      Chains.Pointer(pages.C(), p, 0);
      var cur := Chains.HeadOf(pages.heads, p);
      ghost var i := 0;
      NotCoveredByNone(tbs);
      while cur != Null
        invariant 0 <= i <= |list| && cur == Chains.After(list, i) && fresh(tab)
        invariant forall k :: 0 <= k < PAGE ==> Bit(tab[..], k) == CoveredBy(tbs, list[..i], k)
        decreases |list| - i
      {
        var s := Slot(cur.tb, cur.tag);
        Listed(pages.C(), v, p, i, jmpHash);
        Chains.Pointer(pages.C(), p, i + 1);
        MarkBlock(tab, tbs[s.tb], s.n);
        forall k | 0 <= k < PAGE ensures Bit(tab[..], k) == CoveredBy(tbs, list[..i + 1], k) {
          CoveredByOneMore(tbs, list, i, k);
        }
        cur, i := pages.next[s], i + 1;
      }
      bits := tab[..];
      assert list[..i] == list;
    }

    /** The list walk of tb_invalidate_phys_page_range: removes every block with code in bytes
        [from, to) of page p, and no other. */
    method RemoveInRange(p: nat, from: nat, to: nat)
      requires Valid()
      modifies this, hash, pages, jumps
      ensures Valid() && |jmpCache| == |old(jmpCache)|
      ensures tbs == Survivors(old(tbs), p, from, to)
      ensures if tbs == old(tbs) then codeBitmap == old(codeBitmap) && writeCount == old(writeCount)
              else p !in codeBitmap && p !in writeCount
    {
      hide Indexed, JumpLists.Ok, Chains.Ok, Chains.ListOf, Survivors, Walked;
      Chains.Pointer(pages.C(), p, 0);
      var cur := Chains.HeadOf(pages.heads, p);
      ghost var i: nat := 0;
      ghost var was, gone: Option<nat> := tbs, None;
      StartOfWalk(pages.C(), tbs, p, from, to);
      while cur != Null
        invariant Valid() && |jmpCache| == |old(jmpCache)| && Walked(pages.C(), was, tbs, p, from, to, i)
        invariant i <= |PageList(p)| && cur == Chains.After(PageList(p), i)
        invariant gone.None? ==> tbs == was && codeBitmap == old(codeBitmap) && writeCount == old(writeCount)
        invariant gone.Some? ==> gone.value in was && gone.value !in tbs && p !in codeBitmap && p !in writeCount
        decreases |PageList(p)| - i
      {
        ghost var t := cur.tb;
        var removed;
        cur, i, removed := WalkTurn(p, from, to, cur, i, was);
        if removed { gone := Some(t); }
      }
      EndOfWalk(pages.C(), V(), was, p, from, to, i, jmpHash);
    }

    /** One turn of the walk: the block at the i-th place goes if it has code in the range. */
    method WalkTurn(p: nat, from: nat, to: nat, cur: Link, ghost i: nat, ghost was: map<nat, Block>)
      returns (next: Link, ghost i': nat, removed: bool)
      requires Valid() && Walked(pages.C(), was, tbs, p, from, to, i)
      requires i < |PageList(p)| && cur == Chains.After(PageList(p), i)
      modifies this, hash, pages, jumps
      ensures Valid() && |jmpCache| == |old(jmpCache)| && Walked(pages.C(), was, tbs, p, from, to, i')
      ensures i' <= |PageList(p)| && next == Chains.After(PageList(p), i')
      ensures |PageList(p)| - i' < |old(PageList(p))| - i
      ensures tbs == if removed then old(tbs) - {cur.tb} else old(tbs)
      ensures removed ==> cur.tb in was && p !in codeBitmap && p !in writeCount
      ensures !removed ==> codeBitmap == old(codeBitmap) && writeCount == old(writeCount)
    {
      hide Indexed, JumpLists.Ok, Chains.Ok, Chains.ListOf, LeftPage, Dropped, Survivors, Walked, OnPages, Forgotten,
        JumpLists.Detached, ValidBlock;
      var s := Slot(cur.tb, cur.tag);
      Listed(pages.C(), V(), p, i, jmpHash);
      Chains.Pointer(pages.C(), p, i + 1);
      next, i', removed := pages.next[s], i, false;
      var b := tbs[s.tb];
      if !(End(b, s.n) <= from || Start(b, s.n) >= to) {
        ghost var c, v := pages.C(), V();
        WalkedFrom(c, was, v.tbs, p, from, to, i);
        PhysInvalidate(s.tb);
        WalkRemoves(c, pages.C(), v, was, p, from, to, i, jmpHash);
        removed := true;
      } else {
        WalkKeeps(pages.C(), was, tbs, p, from, to, i);
        i' := i + 1;
      }
    }

    /** Counts a write to a page without a bitmap; enough writes by the CPU and the page gets one. */
    method CountWrite(p: nat, isCpuWriteAccess: bool)
      requires Valid()
      modifies this`codeBitmap, this`writeCount
      ensures Valid() && codeBitmap - {p} == old(codeBitmap) - {p}
      ensures if p in old(codeBitmap) then codeBitmap == old(codeBitmap) && writeCount == old(writeCount)
              else var n := (if p in old(writeCount) then old(writeCount)[p] else 0) + 1;
                writeCount == old(writeCount)[p := n] && (p in codeBitmap <==> n >= 10 && isCpuWriteAccess)
    {
      hide Indexed, JumpLists.Ok, Chains.Ok;
      if p !in codeBitmap {
        writeCount := writeCount[p := (if p in writeCount then writeCount[p] else 0) + 1];
        if writeCount[p] >= SMC_BITMAP_USE_THRESHOLD && isCpuWriteAccess { BuildPageBitmap(p); }
      }
    }

    /** tb_invalidate_phys_page_range on bytes [from, to) of page p; unprotect asks the caller to
        stop trapping writes to the page (tlb_unprotect_code_phys). */
    method InvalidatePhysPageRange(p: nat, from: nat, to: nat, isCpuWriteAccess: bool) returns (unprotect: bool)
      requires Valid()
      modifies this, hash, pages, jumps
      ensures Valid() && |jmpCache| == |old(jmpCache)|
      ensures tbs == Survivors(old(tbs), p, from, to)
      ensures unprotect <==> isCpuWriteAccess && p in old(pages.heads) && NoCodeOn(tbs, p)
      ensures p in old(pages.heads) && tbs == old(tbs) && !NoCodeOn(tbs, p) ==>
        if p in old(codeBitmap) then codeBitmap == old(codeBitmap) && writeCount == old(writeCount)
        else var n := (if p in old(writeCount) then old(writeCount)[p] else 0) + 1;
          writeCount == old(writeCount)[p := n] && (p in codeBitmap <==> n >= 10 && isCpuWriteAccess)
      ensures p in old(pages.heads) && (tbs != old(tbs) || NoCodeOn(tbs, p)) ==> p !in codeBitmap && p !in writeCount
    {
      hide Indexed, JumpLists.Ok, Chains.Ok, Chains.ListOf, Survivors, NoCodeOn;
      Chains.Pointer(pages.C(), p, 0);
      if p !in pages.heads {
        EmptyPage(pages.C(), V(), p, from, to, jmpHash);
        return false;
      }
      CountWrite(p, isCpuWriteAccess);
      RemoveInRange(p, from, to);
      unprotect := false;
      Chains.Pointer(pages.C(), p, 0);
      if Chains.HeadOf(pages.heads, p) == Null {
        EmptyPage(pages.C(), V(), p, from, to, jmpHash);
        ghost var v := V();
        FewerBitmaps(v, p, jmpHash);
        InvalidatePageBitmap(p);
        assert V() == v.(bitmaps := v.bitmaps - {p});
        unprotect := isCpuWriteAccess;
      } else {
        EmptyListMeansNoCode(pages.C(), V(), p, jmpHash);
      }
    }

    /** The pages that have a descriptor and no bitmap: a write to one is always followed by a scan. */
    ghost function Scanned(): set<nat>
      reads this, pages
    {
      pages.heads.Keys - codeBitmap.Keys
    }

    /** tb_invalidate_phys_page_fast: with the bitmap it may skip the scan, and does so exactly
        when the scan would remove nothing. */
    method InvalidatePhysPageFast(p: nat, offset: nat, len: nat) returns (unprotect: bool)
      requires Valid() && len in {1, 2, 4, 8} && offset % len == 0 && offset + len <= PAGE
      modifies this, hash, pages, jumps
      ensures Valid() && |jmpCache| == |old(jmpCache)|
      ensures tbs == Survivors(old(tbs), p, offset, offset + len)
      ensures unprotect <==> NoCodeOn(tbs, p) && (!NoCodeOn(old(tbs), p) || p in old(Scanned()))
    {
      hide Indexed, JumpLists.Ok, Chains.Ok, Chains.ListOf, Survivors, NoCodeOn;
      unprotect := false;
      Chains.Pointer(pages.C(), p, 0);
      if NoCodeOn(Survivors(tbs, p, offset, offset + len), p) {
        FastUnprotects(pages.C(), V(), p, offset, len, jmpHash);
      }
      if p !in pages.heads {
        EmptyPage(pages.C(), V(), p, offset, offset + len, jmpHash);
        return;
      }
      if p in codeBitmap {
        FastSkipsExactly(V(), p, offset, len, jmpHash);
        if Hit(codeBitmap[p], offset, len) {
          unprotect := InvalidatePhysPageRange(p, offset, offset + len, true);
        }
      } else {
        unprotect := InvalidatePhysPageRange(p, offset, offset + len, true);
      }
    }

    /** tb_find_slow up to translation: finds a linked block for the CPU state if there is one,
        moves it to the front of its hash chain and enters it in the CPU's jump cache. */
    method FindSlow(cpu: nat, pc: nat, csBase: nat, flags: nat, page1: nat, page2: nat) returns (r: Option<nat>)
      requires Valid() && cpu < |jmpCache|
      modifies this`jmpCache, hash
      ensures Valid() && tbs == old(tbs)
      ensures r.Some? ==> r.value in tbs && IsFor(tbs[r.value], pc, csBase, flags, page1, page2)
      ensures r.Some? ==> EnteredFor(old(jmpCache), jmpCache, cpu, jmpHash(pc), r.value)
      ensures r.Some? ==> Chains.Fronted(old(hash.lists), hash.lists, PhysHash(tbs[r.value]), Slot(r.value, 0))
      ensures r.None? ==> forall t :: t in tbs ==> !IsFor(tbs[t], pc, csBase, flags, page1, page2)
      ensures r.None? ==> jmpCache == old(jmpCache) && hash.lists == old(hash.lists)
    {
      hide Indexed, JumpLists.Ok, Chains.Ok, Chains.ListOf, IsFor, EnteredFor, Chains.Fronted;
      var h := (page1 * PAGE + pc % PAGE) / 4 % 0x8000;
      ghost var c, v := hash.C(), V();
      ghost var list := Chains.ListOf(hash.lists, h);
      Chains.Pointer(c, h, 0);
      var prev: Option<Slot>, cur := None, Chains.HeadOf(hash.heads, h);
      ghost var i := 0;
      while cur != Null
        invariant 0 <= i <= |list| && cur == Chains.After(list, i) && hash.C() == c && V() == v
        invariant prev == if i == 0 then None else Some(list[i - 1])
        invariant forall j :: 0 <= j < i ==>
            list[j].tb in tbs && !Matches(tbs[list[j].tb], pc, csBase, flags, page1, page2)
        decreases |list| - i
      {
        Hashed(c, v, h, i, jmpHash);
        Chains.Pointer(c, h, i + 1);
        var s := Slot(cur.tb, cur.tag);
        if Matches(tbs[s.tb], pc, csBase, flags, page1, page2) {
          MatchesIsFor(tbs[s.tb], pc, csBase, flags, page1, page2);
          Found(cpu, h, pc, prev, s, i);
          return Some(s.tb);
        }
        prev, cur, i := Some(s), hash.next[s], i + 1;
      }
      forall t | t in tbs ensures !Matches(tbs[t], pc, csBase, flags, page1, page2) {
        if Matches(tbs[t], pc, csBase, flags, page1, page2) { ghost var j := InChain(c, v, t, jmpHash); }
      }
      forall t | t in tbs ensures !IsFor(tbs[t], pc, csBase, flags, page1, page2) {
        MatchesIsFor(tbs[t], pc, csBase, flags, page1, page2);
      }
      r := None;
    }

    /** The block at place i of its hash chain moves to the front and into the jump cache. */
    method Found(cpu: nat, h: nat, pc: nat, prev: Option<Slot>, s: Slot, ghost i: nat)
      requires Valid() && cpu < |jmpCache| && h in hash.lists && i < |hash.lists[h]| && hash.lists[h][i] == s
      requires prev == if i == 0 then None else Some(hash.lists[h][i - 1])
      requires s.tb in tbs && tbs[s.tb].pc == pc
      modifies this`jmpCache, hash
      ensures Valid() && EnteredFor(old(jmpCache), jmpCache, cpu, jmpHash(pc), s.tb)
      ensures Chains.Fronted(old(hash.lists), hash.lists, h, s)
    {
      hide Indexed, JumpLists.Ok, Chains.Ok;
      ghost var v := V();
      hash.MoveToFront(h, prev, s, i);
      EnterCache(v, cpu, s.tb, jmpHash);
      jmpCache := jmpCache[cpu := Entered(jmpCache[cpu], jmpHash(pc), s.tb)];
      assert V() == v.(caches := jmpCache);
    }

    /** tb_find_fast: the jump cache gives a linked block for the CPU state.  It is the right one as long
        as the cached entry was made under the present mapping, which is what flushing a page sees to. */
    method FindFast(cpu: nat, pc: nat, csBase: nat, flags: nat, page1: nat, page2: nat) returns (r: Option<nat>)
      requires Valid() && cpu < |jmpCache|
      modifies this`jmpCache, hash
      ensures Valid() && tbs == old(tbs)
      ensures r.Some? ==> r.value in tbs && var b := tbs[r.value]; b.pc == pc && b.csBase == csBase && b.flags == flags
      ensures r.Some? && old(MappedAsNow(cpu, pc, page1, page2)) ==>
          IsFor(tbs[r.value], pc, csBase, flags, page1, page2)
      ensures r.None? ==> forall t :: t in tbs ==> !IsFor(tbs[t], pc, csBase, flags, page1, page2)
    {
      hide JumpLists.Ok, Chains.Ok;
      var h := jmpHash(pc);
      if h in jmpCache[cpu] {
        assert CacheIndexed(jmpCache[cpu], tbs, jmpHash);
        var t := jmpCache[cpu][h];
        if tbs[t].pc == pc && tbs[t].csBase == csBase && tbs[t].flags == flags {
          return Some(t);
        }
      }
      r := FindSlow(cpu, pc, csBase, flags, page1, page2);
    }

    /** If the jump cache has an entry for pc, its code is where pc is mapped now. */
    ghost predicate MappedAsNow(cpu: nat, pc: nat, page1: nat, page2: nat)
      requires Valid() && cpu < |jmpCache|
      reads this, hash, pages, jumps
    {
      var cache, h := jmpCache[cpu], jmpHash(pc);
      h in cache && cache[h] in tbs ==>
        var b := tbs[cache[h]]; b.page0 == page1 && (b.page1.Some? ==> b.page1 == Some(page2))
    }
  }

  /** Block b is a translation for this CPU state, made from the pages where the guest now maps the code. */
  ghost predicate IsFor(b: Block, pc: nat, csBase: nat, flags: nat, page1: nat, page2: nat) {
    b == Block(pc, csBase, flags, page1, if b.page1.Some? then Some(page2) else None, b.code)
  }

  lemma MatchesIsFor(b: Block, pc: nat, csBase: nat, flags: nat, page1: nat, page2: nat)
    ensures Matches(b, pc, csBase, flags, page1, page2) <==> IsFor(b, pc, csBase, flags, page1, page2)
  {}

  /** Block t has been entered in the jump cache of one CPU. */
  ghost predicate EnteredFor(caches: seq<map<nat, nat>>, caches': seq<map<nat, nat>>, cpu: nat, h: nat, t: nat) {
    && |caches'| == |caches|
    && forall i :: 0 <= i < |caches| ==>
        if i == cpu then
          h in caches'[i] && caches'[i][h] == t && caches'[i] - {h} == caches[i] - {h}
        else caches'[i] == caches[i]
  }

  /** The comparisons of tb_find_slow; page1 and page2 are where the guest now maps the code. */
  predicate Matches(b: Block, pc: nat, csBase: nat, flags: nat, page1: nat, page2: nat) {
    && b.pc == pc && b.page0 == page1 && b.csBase == csBase && b.flags == flags
    && (b.page1.Some? ==> b.page1 == Some(page2))
  }

  ghost predicate NoCodeOn(tbs: map<nat, Block>, p: nat) {
    forall t :: t in tbs ==> p !in OnPages(tbs[t])
  }

  /** The body of the loop of build_page_bitmap. */
  method MarkBlock(tab: array<Bits8>, b: Block, n: nat)
    requires ValidBlock(b) && n < 2 && PageOf(b, n).Some? && 8 * tab.Length == PAGE
    modifies tab
    ensures forall k :: 0 <= k < PAGE ==> Bit(tab[..], k) == (old(Bit(tab[..], k)) || Start(b, n) <= k < End(b, n))
  {
    var from, to := Start(b, n), End(b, n);
    if to > PAGE { to := PAGE; }
    SetBits(tab, from, to - from);
  }

  // ----- facts about the page lists

  /** Byte k of the page is code of a block in list. */
  ghost predicate CoveredBy(tbs: map<nat, Block>, list: seq<Slot>, k: nat) {
    exists j :: 0 <= j < |list| && list[j].tb in tbs
        && Start(tbs[list[j].tb], list[j].n) <= k < End(tbs[list[j].tb], list[j].n)
  }

  lemma NotCoveredByNone(tbs: map<nat, Block>)
    ensures forall k, list: seq<Slot> :: list == [] ==> !CoveredBy(tbs, list, k)
  {}

  lemma CoveredByOneMore(tbs: map<nat, Block>, list: seq<Slot>, i: nat, k: nat)
    requires i < |list| && list[i].tb in tbs
    ensures CoveredBy(tbs, list[..i + 1], k) <==>
              CoveredBy(tbs, list[..i], k) || Start(tbs[list[i].tb], list[i].n) <= k < End(tbs[list[i].tb], list[i].n)
  {
    var more := list[..i + 1];
    if CoveredBy(tbs, list[..i], k) {
      var j :| 0 <= j < i && list[..i][j].tb in tbs
          && Start(tbs[list[..i][j].tb], list[..i][j].n) <= k < End(tbs[list[..i][j].tb], list[..i][j].n);
      assert more[j] == list[j];
    }
    assert more[i] == list[i];
    if CoveredBy(tbs, more, k) {
      var j :| 0 <= j < |more| && more[j].tb in tbs
          && Start(tbs[more[j].tb], more[j].n) <= k < End(tbs[more[j].tb], more[j].n);
      if j < i { assert list[..i][j] == more[j]; }
    }
  }

  /** Every slot in the list of page p belongs to a linked block that lies on p there. */
  lemma Listed(c: Chains.Chain, v: View, p: nat, i: nat, hash: nat -> nat)
    requires Chains.Ok(c) && c.owner == v.paged && Indexed(v, hash) && i < |Chains.ListOf(c.lists, p)|
    ensures var s := Chains.ListOf(c.lists, p)[i];
            && s in c.next && s.n < 2 && s.tb in v.tbs && PageOf(v.tbs[s.tb], s.n) == Some(p) && ValidBlock(v.tbs[s.tb])
            && p in OnPages(v.tbs[s.tb])
  {
    Chains.Pointer(c, p, i);
  }

  /** Every linked block is in the lists of its pages. */
  lemma InList(c: Chains.Chain, v: View, t: nat, n: nat, p: nat, hash: nat -> nat) returns (j: nat)
    requires Chains.Ok(c) && c.owner == v.paged && Indexed(v, hash) && t in v.tbs && n < 2
        && PageOf(v.tbs[t], n) == Some(p)
    ensures j < |Chains.ListOf(c.lists, p)| && Chains.ListOf(c.lists, p)[j] == Slot(t, n)
  {
    j := Chains.Position(c, Slot(t, n));
  }

  lemma BitmapBuilt(c: Chains.Chain, v: View, p: nat, bits: seq<Bits8>, hash: nat -> nat)
    requires Chains.Ok(c) && c.owner == v.paged && Indexed(v, hash) && 8 * |bits| == PAGE
    requires forall k :: 0 <= k < PAGE ==> Bit(bits, k) == CoveredBy(v.tbs, Chains.ListOf(c.lists, p), k)
    ensures Indexed(v.(bitmaps := v.bitmaps[p := bits]), hash)
  {
    var list := Chains.ListOf(c.lists, p);
    forall k | 0 <= k < PAGE ensures CoveredBy(v.tbs, list, k) <==> Covered(v.tbs, p, k) {
      if CoveredBy(v.tbs, list, k) {
        var j :| 0 <= j < |list| && list[j].tb in v.tbs
            && Start(v.tbs[list[j].tb], list[j].n) <= k < End(v.tbs[list[j].tb], list[j].n);
        Listed(c, v, p, j, hash);
        assert Covers(v.tbs[list[j].tb], p, k);
      }
      if Covered(v.tbs, p, k) {
        var t :| t in v.tbs && Covers(v.tbs[t], p, k);
        var n :| 0 <= n < 2 && PageOf(v.tbs[t], n) == Some(p) && Start(v.tbs[t], n) <= k < End(v.tbs[t], n);
        var j := InList(c, v, t, n, p, hash);
      }
    }
  }

  function PagesAdded(owner: map<Slot, nat>, t: nat, b: Block): map<Slot, nat> {
    var first := owner[Slot(t, 0) := b.page0];
    if b.page1.Some? then first[Slot(t, 1) := b.page1.value] else first
  }

  function Linked(v: View, t: nat, b: Block): View {
    View(v.tbs[t := b], v.jumpers + {t}, v.hashed[Slot(t, 0) := PhysHash(b)],
         PagesAdded(v.paged, t, b), v.caches, v.bitmaps - OnPages(b))
  }

  lemma LinkHash(owner: map<Slot, nat>, tbs: map<nat, Block>, t: nat, b: Block)
    requires HashIndexed(owner, tbs) && t !in tbs
    ensures HashIndexed(owner[Slot(t, 0) := PhysHash(b)], tbs[t := b]) && Slot(t, 0) !in owner
  {}

  lemma LinkPages(owner: map<Slot, nat>, tbs: map<nat, Block>, t: nat, b: Block)
    requires PagesIndexed(owner, tbs) && t !in tbs
    ensures PagesIndexed(PagesAdded(owner, t, b), tbs[t := b]) && Slot(t, 0) !in owner && Slot(t, 1) !in owner
  {}

  lemma LinkCache(cache: map<nat, nat>, tbs: map<nat, Block>, t: nat, b: Block, hash: nat -> nat)
    requires CacheIndexed(cache, tbs, hash) && t !in tbs
    ensures CacheIndexed(cache, tbs[t := b], hash)
  {}

  lemma LinkIndexed(v: View, t: nat, b: Block, hash: nat -> nat)
    requires Indexed(v, hash) && t !in v.tbs && ValidBlock(b)
    ensures Indexed(Linked(v, t, b), hash)
    ensures v.jumpers == v.tbs.Keys && Slot(t, 0) !in v.hashed && Slot(t, 0) !in v.paged && Slot(t, 1) !in v.paged
  {
    hide HashIndexed, PagesIndexed, CacheIndexed, BitmapOk, PagesAdded, PhysHash, ValidBlock;
    var v' := Linked(v, t, b);
    LinkHash(v.hashed, v.tbs, t, b);
    LinkPages(v.paged, v.tbs, t, b);
    forall i | 0 <= i < |v'.caches| ensures CacheIndexed(v'.caches[i], v'.tbs, hash) {
      LinkCache(v.caches[i], v.tbs, t, b, hash);
    }
    forall p | p in v'.bitmaps ensures BitmapOk(v'.bitmaps[p], v'.tbs, p) {
      BitmapUnaffected(v.bitmaps[p], v.tbs, t, b, p);
    }
  }

  // ----- the walk of the range scan

  ghost function Survivors(tbs: map<nat, Block>, p: nat, from: nat, to: nat): map<nat, Block> {
    map t | t in tbs && !Overlaps(tbs[t], p, from, to) :: tbs[t]
  }

  ghost predicate Hits(tbs: map<nat, Block>, s: Slot, from: nat, to: nat) {
    s.tb in tbs && !(End(tbs[s.tb], s.n) <= from || Start(tbs[s.tb], s.n) >= to)
  }

  /** After i steps: only overlapping blocks are gone, and the first i slots of the list do not overlap. */
  ghost predicate Walked(c: Chains.Chain, was: map<nat, Block>, tbs: map<nat, Block>, p: nat, from: nat, to: nat,
                         i: nat) {
    && (forall t :: t in tbs ==> t in was && tbs[t] == was[t])
    && (forall t :: t in was && t !in tbs ==> Overlaps(was[t], p, from, to))
    && i <= |Chains.ListOf(c.lists, p)|
    && forall j :: 0 <= j < i ==> !Hits(tbs, Chains.ListOf(c.lists, p)[j], from, to)
  }

  lemma WalkedFrom(c: Chains.Chain, was: map<nat, Block>, tbs: map<nat, Block>, p: nat, from: nat, to: nat, i: nat)
    requires Walked(c, was, tbs, p, from, to, i)
    ensures tbs.Keys <= was.Keys
  {}

  lemma StartOfWalk(c: Chains.Chain, tbs: map<nat, Block>, p: nat, from: nat, to: nat)
    ensures Walked(c, tbs, tbs, p, from, to, 0)
  {}

  lemma WalkKeeps(c: Chains.Chain, was: map<nat, Block>, tbs: map<nat, Block>, p: nat, from: nat, to: nat, i: nat)
    requires Walked(c, was, tbs, p, from, to, i) && i < |Chains.ListOf(c.lists, p)|
    requires !Hits(tbs, Chains.ListOf(c.lists, p)[i], from, to)
    ensures Walked(c, was, tbs, p, from, to, i + 1)
  {}

  /** Removing the block at position i leaves the walk at the same position of the shorter list. */
  lemma WalkRemoves(c: Chains.Chain, c': Chains.Chain, v: View, was: map<nat, Block>, p: nat, from: nat, to: nat,
                    i: nat,
                    hash: nat -> nat)
    requires Chains.Ok(c) && c.owner == v.paged && Indexed(v, hash) && i < |Chains.ListOf(c.lists, p)|
    requires Walked(c, was, v.tbs, p, from, to, i)
    requires var s := Chains.ListOf(c.lists, p)[i];
             Hits(v.tbs, s, from, to)
                 && LeftPage(v.tbs[s.tb], s.tb, p, Chains.ListOf(c.lists, p), Chains.ListOf(c'.lists, p))
    ensures var s := Chains.ListOf(c.lists, p)[i];
            && Walked(c', was, v.tbs - {s.tb}, p, from, to, i)
            && |Chains.ListOf(c'.lists, p)| == |Chains.ListOf(c.lists, p)| - 1
            && Chains.After(Chains.ListOf(c'.lists, p), i) == Chains.After(Chains.ListOf(c.lists, p), i + 1)
  {
    Listed(c, v, p, i, hash);
    var list, list' := Chains.ListOf(c.lists, p), Chains.ListOf(c'.lists, p);
    var s := list[i];
    assert Without(list, list', s);
    var q :| 0 <= q < |list| && list[q] == s && list' == list[..q] + list[q + 1..];
    assert Chains.ListOk(c, p) && q == i;
    assert Overlaps(was[s.tb], p, from, to);
    forall j | 0 <= j < i ensures !Hits(v.tbs - {s.tb}, list'[j], from, to) {
      assert list'[j] == list[j] && !Hits(v.tbs, list[j], from, to);
    }
  }

  lemma EndOfWalk(c: Chains.Chain, v: View, was: map<nat, Block>, p: nat, from: nat, to: nat, i: nat, hash: nat -> nat)
    requires Chains.Ok(c) && c.owner == v.paged && Indexed(v, hash) && i <= |Chains.ListOf(c.lists, p)|
    requires Walked(c, was, v.tbs, p, from, to, i) && Chains.After(Chains.ListOf(c.lists, p), i) == Null
    ensures v.tbs == Survivors(was, p, from, to)
  {
    forall t | t in v.tbs ensures !Overlaps(v.tbs[t], p, from, to) {
      if Overlaps(v.tbs[t], p, from, to) {
        var n :| 0 <= n < 2 && PageOf(v.tbs[t], n) == Some(p)
            && !(End(v.tbs[t], n) <= from || Start(v.tbs[t], n) >= to);
        var j := InList(c, v, t, n, p, hash);
        assert Hits(v.tbs, Chains.ListOf(c.lists, p)[j], from, to);
      }
    }
  }

  // ----- pages without code, and the fast path

  lemma EmptyPage(c: Chains.Chain, v: View, p: nat, from: nat, to: nat, hash: nat -> nat)
    requires Chains.Ok(c) && c.owner == v.paged && Indexed(v, hash) && Chains.HeadOf(c.heads, p) == Null
    ensures NoCodeOn(v.tbs, p) && Survivors(v.tbs, p, from, to) == v.tbs
  {
    Chains.Pointer(c, p, 0);
    forall t, n | t in v.tbs && 0 <= n < 2 ensures PageOf(v.tbs[t], n) != Some(p) {
      if PageOf(v.tbs[t], n) == Some(p) { var j := InList(c, v, t, n, p, hash); }
    }
    forall t | t in v.tbs ensures p !in OnPages(v.tbs[t]) {
      assert PageOf(v.tbs[t], 0) != Some(p) && PageOf(v.tbs[t], 1) != Some(p);
    }
  }

  lemma EmptyListMeansNoCode(c: Chains.Chain, v: View, p: nat, hash: nat -> nat)
    requires Chains.Ok(c) && c.owner == v.paged && Indexed(v, hash)
    ensures Chains.ListOf(c.lists, p) == [] <==> NoCodeOn(v.tbs, p)
  {
    Chains.Pointer(c, p, 0);
    if Chains.ListOf(c.lists, p) == [] {
      EmptyPage(c, v, p, 0, 0, hash);
    } else {
      Listed(c, v, p, 0, hash);
    }
  }

  lemma FewerBitmaps(v: View, p: nat, hash: nat -> nat)
    requires Indexed(v, hash)
    ensures Indexed(v.(bitmaps := v.bitmaps - {p}), hash)
  {}

  /** The fast path refines the slow scan: it finds no bit set exactly when no block overlaps. */
  lemma FastSkipsExactly(v: View, p: nat, offset: nat, len: nat, hash: nat -> nat)
    requires Indexed(v, hash) && p in v.bitmaps
    requires len in {1, 2, 4, 8} && offset % len == 0 && offset + len <= PAGE
    ensures 8 * |v.bitmaps[p]| == PAGE
    ensures !Hit(v.bitmaps[p], offset, len) <==> Survivors(v.tbs, p, offset, offset + len) == v.tbs
  {
    var bits := v.bitmaps[p];
    assert BitmapOk(bits, v.tbs, p);
    HitIsExact(bits, offset, len);
    if Hit(bits, offset, len) {
      var k :| offset <= k < offset + len && Bit(bits, k);
      var t :| t in v.tbs && Covers(v.tbs[t], p, k);
      OverlapIsCoverage(v.tbs[t], p, offset, offset + len);
      assert t !in Survivors(v.tbs, p, offset, offset + len);
    } else {
      forall t | t in v.tbs ensures !Overlaps(v.tbs[t], p, offset, offset + len) {
        OverlapIsCoverage(v.tbs[t], p, offset, offset + len);
        forall k | offset <= k < offset + len ensures !Covers(v.tbs[t], p, k) {
          assert !Bit(bits, k) && !Covered(v.tbs, p, k);
        }
      }
    }
  }

  lemma SurvivorsOffPage(tbs: map<nat, Block>, p: nat, from: nat, to: nat)
    requires NoCodeOn(tbs, p)
    ensures Survivors(tbs, p, from, to) == tbs
  {
    forall t | t in tbs ensures !Overlaps(tbs[t], p, from, to) {
      assert PageOf(tbs[t], 0) != Some(p) && PageOf(tbs[t], 1) != Some(p);
    }
  }

  /** When no code is left on the page, the fast path has scanned exactly if there was code, or if it had no
      bitmap to go by. */
  lemma FastUnprotects(c: Chains.Chain, v: View, p: nat, offset: nat, len: nat, hash: nat -> nat)
    requires Chains.Ok(c) && c.owner == v.paged && Indexed(v, hash)
    requires len in {1, 2, 4, 8} && offset % len == 0 && offset + len <= PAGE
    requires NoCodeOn(Survivors(v.tbs, p, offset, offset + len), p)
    ensures p in v.bitmaps ==> 8 * |v.bitmaps[p]| == PAGE
    ensures p in c.heads && (p in v.bitmaps ==> Hit(v.bitmaps[p], offset, len)) <==>
      !NoCodeOn(v.tbs, p) || (p in c.heads && p !in v.bitmaps)
  {
    hide Survivors, NoCodeOn, Indexed, Chains.Ok, Hit;
    EmptyListMeansNoCode(c, v, p, hash);
    Chains.Pointer(c, p, 0);
    if p in v.bitmaps {
      FastSkipsExactly(v, p, offset, len, hash);
    }
    if NoCodeOn(v.tbs, p) {
      SurvivorsOffPage(v.tbs, p, offset, offset + len);
    }
  }

  // ----- the hash chains

  lemma Hashed(c: Chains.Chain, v: View, h: nat, i: nat, hash: nat -> nat)
    requires Chains.Ok(c) && c.owner == v.hashed && Indexed(v, hash) && i < |Chains.ListOf(c.lists, h)|
    ensures var s := Chains.ListOf(c.lists, h)[i]; h in c.lists && s in c.next && s.tb in v.tbs && s.n == 0
    ensures Chains.ListOf(c.lists, h) == c.lists[h]
  {
    Chains.Pointer(c, h, i);
  }

  lemma InChain(c: Chains.Chain, v: View, t: nat, hash: nat -> nat) returns (j: nat)
    requires Chains.Ok(c) && c.owner == v.hashed && Indexed(v, hash) && t in v.tbs
    ensures j < |Chains.ListOf(c.lists, PhysHash(v.tbs[t]))|
        && Chains.ListOf(c.lists, PhysHash(v.tbs[t]))[j] == Slot(t, 0)
  {
    j := Chains.Position(c, Slot(t, 0));
  }

  lemma EnterCache(v: View, cpu: nat, t: nat, hash: nat -> nat)
    requires Indexed(v, hash) && cpu < |v.caches| && t in v.tbs
    ensures Indexed(v.(caches := v.caches[cpu := Entered(v.caches[cpu], hash(v.tbs[t].pc), t)]), hash)
  {
    assert CacheIndexed(v.caches[cpu], v.tbs, hash);
  }
}
