/** Self-modifying code: translated blocks, dirty flags and TLB write entries stay coherent with
    guest memory (qemu/exec.c:1206-1301, 2046-2109, 2189-2206, 2321-2335, 3310-3368, 3900-3914;
    qemu/softmmu_template.h:225-278). */
module Smc {
  import opened Common
  import opened Bytes
  import opened RamList
  import RamSave
  import TbCache

  /** CPU, MMU mode and index of a TLB entry. */
  datatype Key = Key(cpu: nat, mode: nat, index: nat)

  /** addr_write of a TLB entry for RAM: the virtual page, the ram page it maps to, and whether
      stores go straight to memory or take the slow path (TLB_NOTDIRTY). */
  datatype Entry = Fast(vpage: nat, page: nat) | NotDirty(vpage: nat, page: nat)

  /** The linked blocks, memory, its dirty bytes, the TLBs, and the pages where a write is always followed by a
      scan for blocks (TbCache.Cache.Scanned). */
  datatype Machine = Machine(tbs: map<nat, TbCache.Block>, ram: seq<Page>, dirty: seq<DirtyByte>, tlb: map<Key, Entry>,
                             scanned: set<nat>)

  // ----- the invariant

  /** Byte i of the guest code of block b, as memory holds it now. */
  function CodeByte(ram: seq<Page>, b: TbCache.Block, i: nat): Option<Byte> {
    var k := TbCache.Off(b) + i;
    if k < PAGE then
      if b.page0 < |ram| then Some(ram[b.page0][k]) else None
    else
      if b.page1.Some? && b.page1.value < |ram| && k < 2 * PAGE then Some(ram[b.page1.value][k - PAGE]) else None
  }

  /** Block b is a translation of what memory holds. */
  ghost predicate Current(ram: seq<Page>, b: TbCache.Block) {
    forall i :: 0 <= i < |b.code| ==> CodeByte(ram, b, i) == Some(b.code[i])
  }

  /** No linked block is stale. */
  ghost predicate Coherent(m: Machine) {
    forall t :: t in m.tbs ==> Current(m.ram, m.tbs[t])
  }

  /** A page with translated code has its code flag clear. */
  ghost predicate CodeTracked(m: Machine) {
    forall t :: t in m.tbs ==> BlockTracked(m.dirty, m.tbs[t])
  }

  ghost predicate BlockTracked(dirty: seq<DirtyByte>, b: TbCache.Block) {
    && b.page0 < |dirty| && !dirty[b.page0].code
    && (b.page1.Some? ==> b.page1.value < |dirty| && !dirty[b.page1.value].code)
  }

  /** A TLB entry that lets stores bypass the slow path maps a page whose flags are all set. */
  ghost predicate FastIsDirty(tlb: map<Key, Entry>, dirty: seq<DirtyByte>) {
    forall k :: k in tlb && tlb[k].Fast? ==> tlb[k].page < |dirty| && dirty[tlb[k].page] == ALL_DIRTY
  }

  /** The MMU modes of a CPU map a virtual page to the same ram page. */
  ghost predicate ModesAgree(tlb: map<Key, Entry>) {
    forall k, l :: k in tlb && l in tlb && k.cpu == l.cpu && tlb[k].vpage == tlb[l].vpage ==> tlb[k].page == tlb[l].page
  }

  ghost predicate Inv(m: Machine) {
    && |m.ram| == |m.dirty|
    && (forall t :: t in m.tbs ==> TbCache.ValidBlock(m.tbs[t]))
    && (forall k :: k in m.tlb ==> m.tlb[k].page < |m.ram| && k.index == m.tlb[k].vpage % CPU_TLB_SIZE)
    && CodeTracked(m) && FastIsDirty(m.tlb, m.dirty) && Coherent(m)
  }

  // ----- the parts of a step

  /** Memory after data is stored at byte off of page p. */
  function Poke(ram: seq<Page>, p: nat, off: nat, data: seq<Byte>): seq<Page>
    requires p < |ram| && off + |data| <= PAGE
  {
    ram[p := ram[p][..off] + data + ram[p][off + |data|..]]
  }

  /** Byte by byte: ram' is ram with data at byte off of page p. */
  ghost predicate Stored(ram: seq<Page>, ram': seq<Page>, p: nat, off: nat, data: seq<Byte>) {
    && |ram'| == |ram|
    && forall q, i :: 0 <= q < |ram| && 0 <= i < PAGE ==>
        ram'[q][i] == if q == p && off <= i < off + |data| then data[i - off] else ram[q][i]
  }

  /** After a write to page p all its flags but the code flag are set; a code flag never goes away, and no other page's
      flags change. */
  ghost predicate WrittenFlags(dirty: seq<DirtyByte>, dirty': seq<DirtyByte>, p: nat) {
    && p < |dirty| == |dirty'| && dirty' == dirty[p := dirty'[p]]
    && dirty'[p].vga && dirty'[p].migration && dirty'[p].others && (dirty[p].code ==> dirty'[p].code)
  }

  lemma PokeStores(ram: seq<Page>, p: nat, off: nat, data: seq<Byte>)
    requires p < |ram| && off + |data| <= PAGE
    ensures Stored(ram, Poke(ram, p, off, data), p, off, data)
  {
    var page := ram[p][..off] + data + ram[p][off + |data|..];
    forall q, i | 0 <= q < |ram| && 0 <= i < PAGE
      ensures Poke(ram, p, off, data)[q][i] == if q == p && off <= i < off + |data| then data[i - off] else ram[q][i]
    {
      if q == p { assert Poke(ram, p, off, data)[p] == page; }
    }
  }

  /** tlb_reset_dirty_range for the pages ps: direct stores to them end. */
  function Protect(tlb: map<Key, Entry>, ps: set<nat>): map<Key, Entry> {
    map k | k in tlb :: ProtectedEntry(tlb[k], ps)
  }

  function ProtectedEntry(e: Entry, ps: set<nat>): Entry {
    if e.page in ps then NotDirty(e.vpage, e.page) else e
  }

  /** tlb_set_dirty: in every mode, the entry for the virtual page allows direct stores again. */
  function SetDirty(tlb: map<Key, Entry>, cpu: nat, vpage: nat): map<Key, Entry> {
    map k | k in tlb ::
      if k.cpu == cpu && k.index == vpage % CPU_TLB_SIZE && tlb[k] == NotDirty(vpage, tlb[k].page)
      then Fast(vpage, tlb[k].page) else tlb[k]
  }

  /** cpu_physical_memory_reset_dirty for the pages ps: the given flags are cleared. */
  function ResetDirty(m: Machine, ps: set<nat>, flags: DirtyByte): Machine {
    m.(dirty := ClearPages(m.dirty, ps, flags), tlb := Protect(m.tlb, ps))
  }

  /** cpu_physical_memory_mask_dirty_range */
  function ClearPages(dirty: seq<DirtyByte>, ps: set<nat>, flags: DirtyByte): (r: seq<DirtyByte>)
    ensures |r| == |dirty|
  {
    seq(|dirty|, p requires 0 <= p < |dirty| => if p in ps then Clear(dirty[p], flags) else dirty[p])
  }

  function Clear(d: DirtyByte, flags: DirtyByte): DirtyByte {
    DirtyByte(d.vga && !flags.vga, d.code && !flags.code, d.migration && !flags.migration, d.others && !flags.others)
  }

  const CODE_FLAG: DirtyByte := DirtyByte(false, true, false, false)

  /** The pages of b that hold no code yet; tb_alloc_page protects these. */
  ghost function Unprotected(m: Machine, b: TbCache.Block): set<nat> {
    set p | p in TbCache.OnPages(b) && TbCache.NoCodeOn(m.tbs, p)
  }

  // ----- the steps

  /** tb_gen_code and tb_link_page: b is translated from what memory holds. */
  ghost predicate Translates(m: Machine, m': Machine, t: nat, b: TbCache.Block) {
    && t !in m.tbs && TbCache.ValidBlock(b) && Current(m.ram, b)
    && m' == ResetDirty(m, Unprotected(m, b), CODE_FLAG).(tbs := m.tbs[t := b], scanned := m'.scanned)
  }

  /** Blocks are invalidated, for whatever reason, or all are flushed. */
  ghost predicate Discards(m: Machine, m': Machine) {
    && (forall t :: t in m'.tbs ==> t in m.tbs && m'.tbs[t] == m.tbs[t])
    && m' == m.(tbs := m'.tbs, scanned := m'.scanned)
  }

  /** tlb_set_page for a writable RAM page. */
  function FillTlb(m: Machine, cpu: nat, mode: nat, vpage: nat, page: nat): Machine
    requires page < |m.dirty|
  {
    m.(tlb := m.tlb[Key(cpu, mode, vpage % CPU_TLB_SIZE) :=
                    if m.dirty[page] == ALL_DIRTY then Fast(vpage, page) else NotDirty(vpage, page)])
  }

  /** The new entry agrees with what the other modes of the CPU hold for the virtual page. */
  ghost predicate FillAgrees(m: Machine, cpu: nat, mode: nat, vpage: nat, page: nat) {
    forall k :: k in m.tlb && k.cpu == cpu && k.mode != mode && m.tlb[k].vpage == vpage ==> m.tlb[k].page == page
  }

  ghost predicate FlushesTlb(m: Machine, m': Machine) {
    (forall k :: k in m'.tlb ==> k in m.tlb && m'.tlb[k] == m.tlb[k]) && m' == m.(tlb := m'.tlb, scanned := m'.scanned)
  }

  /** A store through an entry without TLB_NOTDIRTY. */
  function FastStore(m: Machine, k: Key, off: nat, data: seq<Byte>): Machine
    requires k in m.tlb && m.tlb[k].page < |m.ram| && off + |data| <= PAGE
  {
    m.(ram := Poke(m.ram, m.tlb[k].page, off, data))
  }

  /** A slow store gives up trapping writes to its page: no code is left on it, and either the store removed the
      last of it or the page is one that is always scanned. */
  ghost predicate Unprotects(m: Machine, p: nat, off: nat, len: nat) {
    && TbCache.NoCodeOn(TbCache.Survivors(m.tbs, p, off, off + len), p)
    && (!TbCache.NoCodeOn(m.tbs, p) || p in m.scanned)
  }

  /** The dirty byte of page p after a slow store to it. */
  ghost function FlagsAfter(m: Machine, p: nat, off: nat, len: nat): DirtyByte
    requires p < |m.dirty|
  {
    MarkWritten(m.dirty[p].(code := m.dirty[p].code || Unprotects(m, p, off, len)))
  }

  /** The blocks a slow store to page p leaves. */
  ghost function LeftBy(m: Machine, p: nat, off: nat, len: nat): map<nat, TbCache.Block>
    requires p < |m.dirty|
  {
    if m.dirty[p].code then m.tbs else TbCache.Survivors(m.tbs, p, off, off + len)
  }

  /** notdirty_mem_write through entry k. */
  ghost function SlowStore(m: Machine, k: Key, off: nat, data: seq<Byte>): Machine
    requires k in m.tlb && m.tlb[k].page < |m.ram| == |m.dirty| && off + |data| <= PAGE
  {
    var p := m.tlb[k].page;
    var d := FlagsAfter(m, p, off, |data|);
    m.(tbs := LeftBy(m, p, off, |data|),
       ram := Poke(m.ram, p, off, data), dirty := m.dirty[p := d],
       tlb := if d == ALL_DIRTY then SetDirty(m.tlb, k.cpu, m.tlb[k].vpage) else m.tlb)
  }

  /** The RAM case of cpu_physical_memory_rw, one page at a time. */
  ghost function DmaWrite(m: Machine, p: nat, off: nat, data: seq<Byte>): Machine
    requires p < |m.ram| == |m.dirty| && off + |data| <= PAGE
  {
    if m.dirty[p] == ALL_DIRTY then m.(ram := Poke(m.ram, p, off, data))
    else m.(tbs := TbCache.Survivors(m.tbs, p, off, off + |data|), ram := Poke(m.ram, p, off, data),
            dirty := m.dirty[p := MarkWritten(m.dirty[p])])
  }

  /** cpu_physical_memory_set_dirty: all flags of page p are set, the code flag too. */
  function Marked(m: Machine, p: nat): Machine
    requires p < |m.dirty|
  {
    m.(dirty := m.dirty[p := ALL_DIRTY])
  }

  datatype Action =
    | Translate(t: nat, b: TbCache.Block)
    | Discard
    | Reset(ps: set<nat>, flags: DirtyByte)
    | Fill(cpu: nat, mode: nat, vpage: nat, page: nat)
    | FlushTlb
    | Store(k: Key, off: nat, data: seq<Byte>)
    | Dma(p: nat, off: nat, data: seq<Byte>)
    | Mark(p: nat)

  /** What the machine becomes, but for the pages that are scanned: these depend on how often a page has been
      written and may change with any step. */
  ghost predicate Becomes(m': Machine, n: Machine) { m' == n.(scanned := m'.scanned) }

  ghost predicate Step(m: Machine, a: Action, m': Machine) {
    |m.ram| == |m.dirty| &&
    match a
    case Translate(t, b) => Translates(m, m', t, b)
    case Discard => Discards(m, m')
    case Reset(ps, flags) => !flags.others && Becomes(m', ResetDirty(m, ps, flags))
    case Fill(cpu, mode, vpage, page) => page < |m.dirty| && Becomes(m', FillTlb(m, cpu, mode, vpage, page))
    case FlushTlb => FlushesTlb(m, m')
    case Store(k, off, data) =>
      && k in m.tlb && m.tlb[k].page < |m.ram| && off + |data| <= PAGE && data != []
      && Becomes(m', if m.tlb[k].Fast? then FastStore(m, k, off, data) else SlowStore(m, k, off, data))
    case Dma(p, off, data) => p < |m.ram| && off + |data| <= PAGE && data != []
        && Becomes(m', DmaWrite(m, p, off, data))
    case Mark(p) => p < |m.dirty| && Becomes(m', Marked(m, p))
  }

  // ----- when a step keeps the invariant

  /** The entries of the CPU that tlb_set_dirty changes along with k map the same page as k, or one whose
      flags are all set. */
  ghost predicate OthersDirty(m: Machine, k: Key)
    requires k in m.tlb
  {
    forall l :: l in m.tlb && l.cpu == k.cpu && m.tlb[l] == NotDirty(m.tlb[k].vpage, m.tlb[l].page) ==>
      m.tlb[l].page == m.tlb[k].page || (m.tlb[l].page < |m.dirty| && m.dirty[m.tlb[l].page] == ALL_DIRTY)
  }

  /** A store that sets the last flag of its page lets no store bypass the check for another page, and a page
      is marked only when it has no code; nothing else is asked. */
  ghost predicate Safe(m: Machine, a: Action) {
    match a
    case Store(k, off, data) =>
      k in m.tlb && m.tlb[k].NotDirty? && m.tlb[k].page < |m.dirty| ==>
        FlagsAfter(m, m.tlb[k].page, off, |data|) == ALL_DIRTY ==> OthersDirty(m, k)
    case Mark(p) => TbCache.NoCodeOn(m.tbs, p)
    case _ => true
  }

  /** A store leaves a translation current if no byte of its code lies in the stored range. */
  lemma StoreKeepsCurrent(ram: seq<Page>, p: nat, off: nat, data: seq<Byte>, b: TbCache.Block)
    requires p < |ram| && off + |data| <= PAGE && data != [] && TbCache.ValidBlock(b) && Current(ram, b)
    requires p !in TbCache.OnPages(b) || !TbCache.Overlaps(b, p, off, off + |data|)
    ensures Current(Poke(ram, p, off, data), b)
  {
    TbCache.OverlapIsCoverage(b, p, off, off + |data|);
    var ram' := Poke(ram, p, off, data);
    forall i | 0 <= i < |b.code| ensures CodeByte(ram', b, i) == CodeByte(ram, b, i) {
      var k := TbCache.Off(b) + i;
      if k < PAGE {
        if b.page0 == p { assert TbCache.PageOf(b, 0) == Some(p) && TbCache.Covers(b, p, k); }
      } else if b.page1 == Some(p) {
        assert TbCache.PageOf(b, 1) == Some(p) && TbCache.End(b, 1) == TbCache.Off(b) + |b.code| - PAGE;
        assert TbCache.Covers(b, p, k - PAGE);
      }
    }
  }

  lemma PagesInRam(ram: seq<Page>, b: TbCache.Block)
    requires TbCache.ValidBlock(b) && Current(ram, b)
    ensures forall p :: p in TbCache.OnPages(b) ==> p < |ram|
  {
    assert CodeByte(ram, b, 0).Some? && CodeByte(ram, b, |b.code| - 1).Some?;
  }

  /** Protecting the pages that had no code tracks all pages of the new block. */
  lemma NewBlockTracked(m: Machine, b: TbCache.Block)
    requires CodeTracked(m) && |m.ram| == |m.dirty| && TbCache.ValidBlock(b) && Current(m.ram, b)
    ensures BlockTracked(ResetDirty(m, Unprotected(m, b), CODE_FLAG).dirty, b)
  {
    PagesInRam(m.ram, b);
    var dirty := ResetDirty(m, Unprotected(m, b), CODE_FLAG).dirty;
    forall p | p in TbCache.OnPages(b) ensures !dirty[p].code {
      if p !in Unprotected(m, b) {
        var w :| w in m.tbs && p in TbCache.OnPages(m.tbs[w]);
        assert BlockTracked(m.dirty, m.tbs[w]);
      }
    }
  }

  lemma TranslateKeepsInv(m: Machine, m': Machine, t: nat, b: TbCache.Block)
    requires Inv(m) && Translates(m, m', t, b)
    ensures Inv(m')
  {
    ResetKeepsInv(m, Unprotected(m, b), CODE_FLAG);
    NewBlockTracked(m, b);
  }

  lemma ResetKeepsFast(m: Machine, ps: set<nat>, flags: DirtyByte)
    requires FastIsDirty(m.tlb, m.dirty)
    ensures FastIsDirty(ResetDirty(m, ps, flags).tlb, ResetDirty(m, ps, flags).dirty)
  {}

  lemma ResetKeepsInv(m: Machine, ps: set<nat>, flags: DirtyByte)
    requires Inv(m)
    ensures Inv(ResetDirty(m, ps, flags))
  {
    var m' := ResetDirty(m, ps, flags);
    forall t | t in m.tbs ensures BlockTracked(m'.dirty, m.tbs[t]) { assert BlockTracked(m.dirty, m.tbs[t]); }
    ResetKeepsFast(m, ps, flags);
  }

  /** tlb_set_dirty for a virtual page of a CPU changes entry k. */
  predicate Changes(tlb: map<Key, Entry>, k: Key, cpu: nat, vpage: nat)
    requires k in tlb
  {
    k.cpu == cpu && k.index == vpage % CPU_TLB_SIZE && tlb[k] == NotDirty(vpage, tlb[k].page)
  }

  /** Exactly when tlb_set_dirty is safe: every entry it changes maps a page whose flags are all set. */
  lemma SetDirtyExactly(tlb: map<Key, Entry>, dirty: seq<DirtyByte>, cpu: nat, vpage: nat)
    requires FastIsDirty(tlb, dirty)
    ensures FastIsDirty(SetDirty(tlb, cpu, vpage), dirty) <==>
      forall k :: k in tlb && Changes(tlb, k, cpu, vpage) ==> tlb[k].page < |dirty| && dirty[tlb[k].page] == ALL_DIRTY
  {
    var tlb' := SetDirty(tlb, cpu, vpage);
    if FastIsDirty(tlb', dirty) {
      forall k | k in tlb && Changes(tlb, k, cpu, vpage)
        ensures tlb[k].page < |dirty| && dirty[tlb[k].page] == ALL_DIRTY
      {
        assert k in tlb' && tlb'[k] == Fast(vpage, tlb[k].page);
      }
    }
  }

  lemma FastStoreKeepsInv(m: Machine, k: Key, off: nat, data: seq<Byte>)
    requires Inv(m) && k in m.tlb && m.tlb[k].Fast? && off + |data| <= PAGE && data != []
    ensures Inv(FastStore(m, k, off, data))
  {
    var p := m.tlb[k].page;
    forall t | t in m.tbs ensures Current(Poke(m.ram, p, off, data), m.tbs[t]) {
      StoreKeepsCurrent(m.ram, p, off, data, m.tbs[t]);
    }
  }

  /** After the overlapping blocks are gone, the store makes no block stale. */
  lemma SurvivorsStayCurrent(m: Machine, p: nat, off: nat, data: seq<Byte>)
    requires Inv(m) && p < |m.ram| && off + |data| <= PAGE && data != []
    ensures var tbs := TbCache.Survivors(m.tbs, p, off, off + |data|);
            forall t :: t in tbs ==> Current(Poke(m.ram, p, off, data), tbs[t])
  {
    var tbs := TbCache.Survivors(m.tbs, p, off, off + |data|);
    forall t | t in tbs ensures Current(Poke(m.ram, p, off, data), tbs[t]) {
      StoreKeepsCurrent(m.ram, p, off, data, tbs[t]);
    }
  }

  /** The slow path does right by memory, blocks and flags; only tlb_set_dirty can break the invariant. */
  lemma SlowStoreMemory(m: Machine, k: Key, off: nat, data: seq<Byte>)
    requires Inv(m) && k in m.tlb && m.tlb[k].NotDirty? && off + |data| <= PAGE && data != []
    ensures var m' := SlowStore(m, k, off, data); Inv(m'.(tlb := m.tlb))
  {
    var p, m' := m.tlb[k].page, SlowStore(m, k, off, data);
    SurvivorsStayCurrent(m, p, off, data);
    if m.dirty[p].code {
      forall t | t in m.tbs ensures Current(m'.ram, m.tbs[t]) { StoreKeepsCurrent(m.ram, p, off, data, m.tbs[t]); }
    }
    forall t | t in m'.tbs ensures BlockTracked(m'.dirty, m'.tbs[t]) { assert BlockTracked(m.dirty, m.tbs[t]); }
  }

  /** A slow store keeps the invariant exactly when it is safe. */
  lemma SlowStoreExactly(m: Machine, k: Key, off: nat, data: seq<Byte>)
    requires Inv(m) && k in m.tlb && m.tlb[k].NotDirty? && off + |data| <= PAGE && data != []
    ensures Inv(SlowStore(m, k, off, data)) <==> Safe(m, Action.Store(k, off, data))
  {
    hide Coherent, CodeTracked, TbCache.Survivors, Poke, TbCache.ValidBlock;
    var m' := SlowStore(m, k, off, data);
    var n := m'.(tlb := m.tlb);
    SlowStoreMemory(m, k, off, data);
    SetDirtyExactly(m.tlb, m'.dirty, k.cpu, m.tlb[k].vpage);
    TlbAlone(n, m'.tlb);
    if m'.tlb != m.tlb {
      OthersExactly(m, m', k);
    }
  }

  /** Exchanging the TLB keeps the rest of the invariant. */
  lemma TlbAlone(m: Machine, tlb: map<Key, Entry>)
    requires Inv(m)
    ensures Inv(m.(tlb := tlb)) <==>
      (forall k :: k in tlb ==>
          tlb[k].page < |m.ram| && k.index == tlb[k].vpage % CPU_TLB_SIZE) && FastIsDirty(tlb, m.dirty)
  {}

  lemma OthersExactly(m: Machine, m': Machine, k: Key)
    requires Inv(m) && k in m.tlb && m.tlb[k].NotDirty?
    requires m'.dirty == m.dirty[m.tlb[k].page := ALL_DIRTY] && m'.tlb == SetDirty(m.tlb, k.cpu, m.tlb[k].vpage)
    ensures OthersDirty(m, k) <==> FastIsDirty(m'.tlb, m'.dirty)
  {
    SetDirtyExactly(m.tlb, m'.dirty, k.cpu, m.tlb[k].vpage);
  }

  lemma DmaWriteKeepsInv(m: Machine, p: nat, off: nat, data: seq<Byte>)
    requires Inv(m) && p < |m.ram| && off + |data| <= PAGE && data != []
    ensures Inv(DmaWrite(m, p, off, data))
  {
    var m' := DmaWrite(m, p, off, data);
    forall t | t in m'.tbs ensures BlockTracked(m'.dirty, m'.tbs[t]) { assert BlockTracked(m.dirty, m.tbs[t]); }
    SurvivorsStayCurrent(m, p, off, data);
    if m.dirty[p] == ALL_DIRTY {
      forall t | t in m.tbs ensures Current(m'.ram, m.tbs[t]) { StoreKeepsCurrent(m.ram, p, off, data, m.tbs[t]); }
    }
  }

  lemma FillKeepsInv(m: Machine, cpu: nat, mode: nat, vpage: nat, page: nat)
    requires Inv(m) && page < |m.dirty|
    ensures Inv(FillTlb(m, cpu, mode, vpage, page))
  {}

  /** Marking a page keeps the invariant exactly when it is safe. */
  lemma MarkKeepsInvExactly(m: Machine, p: nat)
    requires Inv(m) && p < |m.dirty|
    ensures Inv(Marked(m, p)) <==> Safe(m, Mark(p))
  {
    var m' := Marked(m, p);
    if TbCache.NoCodeOn(m.tbs, p) {
      forall t | t in m.tbs ensures BlockTracked(m'.dirty, m.tbs[t]) { assert BlockTracked(m.dirty, m.tbs[t]); }
    } else {
      var t :| t in m.tbs && p in TbCache.OnPages(m.tbs[t]);
      assert !BlockTracked(m'.dirty, m'.tbs[t]);
    }
  }

  // ----- when a block can go stale

  /** Some byte of the code of block b on page p, and a value it does not have. */
  lemma CodeByteOn(ram: seq<Page>, b: TbCache.Block, p: nat) returns (i: nat, off: nat, v: Byte)
    requires TbCache.ValidBlock(b) && Current(ram, b) && p in TbCache.OnPages(b) && p < |ram|
    ensures i < |b.code| && off < PAGE && v != b.code[i]
    ensures CodeByte(Poke(ram, p, off, [v]), b, i) == Some(v)
  {
    if p == b.page0 {
      i, off := 0, TbCache.Off(b);
    } else {
      i, off := |b.code| - 1, TbCache.Off(b) + |b.code| - 1 - PAGE;
      assert CodeByte(ram, b, i).Some?;
    }
    v := if b.code[i] == 0 then 1 else 0;
    var page := ram[p][..off] + [v] + ram[p][off + 1..];
    assert page[off] == v && Poke(ram, p, off, [v])[p] == page;
  }

  /** A TLB entry lets stores to a page with code bypass the check. */
  ghost predicate AtRisk(m: Machine) {
    exists k :: k in m.tlb && m.tlb[k].Fast? && !TbCache.NoCodeOn(m.tbs, m.tlb[k].page)
  }

  ghost predicate GoesStale(m: Machine, k: Key, off: nat, data: seq<Byte>) {
    && k in m.tlb && m.tlb[k].Fast? && m.tlb[k].page < |m.ram| && off + |data| <= PAGE && data != []
    && !Coherent(FastStore(m, k, off, data))
  }

  /** That is exactly when a store straight to memory can make a block stale. */
  lemma AtRiskExactly(m: Machine)
    requires Coherent(m) && (forall t :: t in m.tbs ==> TbCache.ValidBlock(m.tbs[t]))
    requires forall k :: k in m.tlb ==> m.tlb[k].page < |m.ram|
    ensures AtRisk(m) <==> exists k, off, data :: GoesStale(m, k, off, data)
  {
    if AtRisk(m) {
      var k :| k in m.tlb && m.tlb[k].Fast? && !TbCache.NoCodeOn(m.tbs, m.tlb[k].page);
      var p := m.tlb[k].page;
      var t :| t in m.tbs && p in TbCache.OnPages(m.tbs[t]);
      var i, off, v := CodeByteOn(m.ram, m.tbs[t], p);
      assert !Current(FastStore(m, k, off, [v]).ram, m.tbs[t]);
      assert GoesStale(m, k, off, [v]);
    }
    if k, off, data :| GoesStale(m, k, off, data) {
      var p := m.tlb[k].page;
      var t :| t in m.tbs && !Current(Poke(m.ram, p, off, data), m.tbs[t]);
      if p !in TbCache.OnPages(m.tbs[t]) {
        StoreKeepsCurrent(m.ram, p, off, data, m.tbs[t]);
      }
      assert !TbCache.NoCodeOn(m.tbs, p);
    }
  }

  lemma InvIsNotAtRisk(m: Machine)
    requires Inv(m)
    ensures !AtRisk(m)
  {
    forall k | k in m.tlb && m.tlb[k].Fast? ensures TbCache.NoCodeOn(m.tbs, m.tlb[k].page) {
      forall t | t in m.tbs ensures m.tlb[k].page !in TbCache.OnPages(m.tbs[t]) {
        assert BlockTracked(m.dirty, m.tbs[t]);
      }
    }
  }

  /** The store sets the last flag of its page, and another entry of the CPU that tlb_set_dirty changes along with
      k maps a page with code that the store leaves. */
  ghost predicate Exposes(m: Machine, k: Key, off: nat, data: seq<Byte>)
    requires k in m.tlb && m.tlb[k].page < |m.ram| == |m.dirty| && off + |data| <= PAGE
  {
    && FlagsAfter(m, m.tlb[k].page, off, |data|) == ALL_DIRTY
    && exists l :: l in m.tlb && l.cpu == k.cpu && m.tlb[l] == NotDirty(m.tlb[k].vpage, m.tlb[l].page)
        && !TbCache.NoCodeOn(LeftBy(m, m.tlb[k].page, off, |data|), m.tlb[l].page)
  }

  /** A slow store puts coherence at risk exactly when it exposes such a page. */
  lemma ExposesExactly(m: Machine, k: Key, off: nat, data: seq<Byte>)
    requires Inv(m) && k in m.tlb && m.tlb[k].NotDirty? && off + |data| <= PAGE && data != []
    ensures AtRisk(SlowStore(m, k, off, data)) <==> Exposes(m, k, off, data)
  {
    hide TbCache.NoCodeOn, TbCache.Survivors, Poke, FlagsAfter;
    var m' := SlowStore(m, k, off, data);
    FewerBlocks(m, k, off, data);
    InvIsNotAtRisk(m);
    if AtRisk(m') {
      var l :| l in m'.tlb && m'.tlb[l].Fast? && !TbCache.NoCodeOn(m'.tbs, m'.tlb[l].page);
      FewerOn(m, m', m'.tlb[l].page);
      assert m.tlb[l] == NotDirty(m.tlb[k].vpage, m.tlb[l].page);
    }
    if Exposes(m, k, off, data) {
      var l :| l in m.tlb && l.cpu == k.cpu && m.tlb[l] == NotDirty(m.tlb[k].vpage, m.tlb[l].page)
        && !TbCache.NoCodeOn(m'.tbs, m.tlb[l].page);
      assert m'.tlb[l] == Fast(m.tlb[k].vpage, m.tlb[l].page);
    }
  }

  lemma FewerBlocks(m: Machine, k: Key, off: nat, data: seq<Byte>)
    requires k in m.tlb && m.tlb[k].page < |m.ram| == |m.dirty| && off + |data| <= PAGE
    ensures var tbs := SlowStore(m, k, off, data).tbs; forall t :: t in tbs ==> t in m.tbs && tbs[t] == m.tbs[t]
  {}

  lemma FewerOn(m: Machine, m': Machine, p: nat)
    requires forall t :: t in m'.tbs ==> t in m.tbs && m'.tbs[t] == m.tbs[t]
    ensures TbCache.NoCodeOn(m.tbs, p) ==> TbCache.NoCodeOn(m'.tbs, p)
  {}

  /** For every block and every page of it: once the page is marked, a fill and a store of one byte make that
      block stale. */
  lemma MarkedGoesStale(m: Machine, t: nat, p: nat, cpu: nat, mode: nat, vpage: nat) returns (off: nat, v: Byte)
    requires Inv(m) && t in m.tbs && p in TbCache.OnPages(m.tbs[t]) && p < |m.dirty|
    ensures var n, k := FillTlb(Marked(m, p), cpu, mode, vpage, p), Key(cpu, mode, vpage % CPU_TLB_SIZE);
      && Step(m, Mark(p), Marked(m, p)) && Step(Marked(m, p), Fill(cpu, mode, vpage, p), n)
      && k in n.tlb && n.tlb[k] == Fast(vpage, p) && off < PAGE
      && var o := FastStore(n, k, off, [v]);
         Step(n, Action.Store(k, off, [v]), o) && o.tbs == m.tbs && !Current(o.ram, o.tbs[t])
  {
    hide Poke;
    var i;
    i, off, v := CodeByteOn(m.ram, m.tbs[t], p);
  }

  /** Two modes of CPU 0 that map virtual page 5 to different pages, and code on the second one. */
  function Disagreeing(): Machine {
    var zero: Page := seq(PAGE, _ => 0);
    Machine(map[0 := TbCache.Block(0, 0, 0, 1, None, [0])], [zero, zero],
            [ALL_DIRTY.(migration := false), ALL_DIRTY.(code := false)],
            map[Key(0, 0, 5) := NotDirty(5, 0), Key(0, 1, 5) := NotDirty(5, 1)], {})
  }

  lemma DisagreeingIsGood()
    ensures Inv(Disagreeing())
  {
    var m := Disagreeing();
    assert Current(m.ram, m.tbs[0]);
  }

  /** In general the property fails: a store through one mode lets the next store through the other mode
      bypass the check, and the block it hits goes stale. */
  lemma DisagreementGoesStale()
    ensures var m, k := Disagreeing(), Key(0, 0, 5);
      && Inv(m) && !Safe(m, Action.Store(k, 0, [7])) && Step(m, Action.Store(k, 0, [7]), SlowStore(m, k, 0, [7]))
      && exists l, off, data :: GoesStale(SlowStore(m, k, 0, [7]), l, off, data)
  {
    hide Poke, GoesStale;
    DisagreeingIsGood();
    var m, k, l := Disagreeing(), Key(0, 0, 5), Key(0, 1, 5);
    var m' := SlowStore(m, k, 0, [7]);
    assert m.tlb[l] == NotDirty(5, 1) && m'.tlb[l] == Fast(5, 1);
    assert !OthersDirty(m, k);
    assert 1 in TbCache.OnPages(m'.tbs[0]);
    assert AtRisk(m');
    SlowStoreMemory(m, k, 0, [7]);
    AtRiskExactly(m');
  }

  // ----- the first stage of ram_save_live

  /** Stage 1 marks the pages that lack the migration flag; on a machine whose code lies in the blocks of the list,
      that keeps the invariant exactly when no page with code lacks it. */
  lemma StageOneExactly(m: Machine, s: RamSave.Source, t: RamSave.Source)
    requires Inv(m) && RamSave.Begun(s, t) && s.dirty == m.dirty
    requires forall b, p :: b in m.tbs && p in TbCache.OnPages(m.tbs[b]) ==> InList(s.blocks, p)
    ensures Inv(m.(dirty := t.dirty)) <==>
      forall c :: At(s.blocks, c) && !RamSave.Dirty(s, c) ==> TbCache.NoCodeOn(m.tbs, PageNo(s.blocks, c))
  {
    var m' := m.(dirty := t.dirty);
    if Inv(m') {
      forall c | At(s.blocks, c) && !RamSave.Dirty(s, c) ensures TbCache.NoCodeOn(m.tbs, PageNo(s.blocks, c)) {
        assert RamSave.Dirty(t, c);
        forall b | b in m.tbs ensures PageNo(s.blocks, c) !in TbCache.OnPages(m.tbs[b]) {
          assert BlockTracked(m'.dirty, m.tbs[b]) && BlockTracked(m.dirty, m.tbs[b]);
        }
      }
    }
    if forall c :: At(s.blocks, c) && !RamSave.Dirty(s, c) ==> TbCache.NoCodeOn(m.tbs, PageNo(s.blocks, c)) {
      forall b | b in m.tbs ensures BlockTracked(m'.dirty, m.tbs[b]) {
        assert BlockTracked(m.dirty, m.tbs[b]);
        forall p | p in TbCache.OnPages(m.tbs[b]) ensures m'.dirty[p] == m.dirty[p] {
          assert InList(s.blocks, p);
          var c :| At(s.blocks, c) && PageNo(s.blocks, c) == p;
        }
      }
    }
  }

  ghost predicate InList(bs: seq<RamBlock>, p: nat) {
    exists c :: At(bs, c) && PageNo(bs, c) == p
  }

  // ----- runs

  lemma BecomesInv(m': Machine, n: Machine)
    requires Becomes(m', n)
    ensures Inv(m') <==> Inv(n)
  {}

  lemma DiscardKeepsInv(m: Machine, m': Machine)
    requires Inv(m) && Discards(m, m')
    ensures Inv(m')
  {}

  lemma FlushKeepsInv(m: Machine, m': Machine)
    requires Inv(m) && FlushesTlb(m, m')
    ensures Inv(m')
  {}

  /** A step keeps the invariant exactly when it is safe, and only slow stores and marks can be unsafe. */
  lemma StepKeepsInvExactly(m: Machine, a: Action, m': Machine)
    requires Inv(m) && Step(m, a, m')
    ensures Inv(m') <==> Safe(m, a)
  {
    hide Inv, Becomes, Discards, FlushesTlb, Translates;
    match a
    case Translate(t, b) => TranslateKeepsInv(m, m', t, b);
    case Discard => DiscardKeepsInv(m, m');
    case Reset(ps, flags) =>
      ResetKeepsInv(m, ps, flags);
      BecomesInv(m', ResetDirty(m, ps, flags));
    case Fill(cpu, mode, vpage, page) =>
      FillKeepsInv(m, cpu, mode, vpage, page);
      BecomesInv(m', FillTlb(m, cpu, mode, vpage, page));
    case FlushTlb => FlushKeepsInv(m, m');
    case Store(k, off, data) =>
      if m.tlb[k].Fast? {
        FastStoreKeepsInv(m, k, off, data);
        BecomesInv(m', FastStore(m, k, off, data));
      } else {
        SlowStoreExactly(m, k, off, data);
        BecomesInv(m', SlowStore(m, k, off, data));
      }
    case Dma(p, off, data) =>
      DmaWriteKeepsInv(m, p, off, data);
      BecomesInv(m', DmaWrite(m, p, off, data));
    case Mark(p) =>
      MarkKeepsInvExactly(m, p);
      BecomesInv(m', Marked(m, p));
  }

  ghost predicate Run(ms: seq<Machine>, acts: seq<Action>) {
    |ms| == |acts| + 1 && forall i :: 0 <= i < |acts| ==> Step(ms[i], acts[i], ms[i + 1])
  }

  /** In every run of safe steps no linked block is ever stale. */
  lemma {:induction false} RunStaysCoherent(ms: seq<Machine>, acts: seq<Action>)
    requires Run(ms, acts) && Inv(ms[0]) && forall i :: 0 <= i < |acts| ==> Safe(ms[i], acts[i])
    ensures forall i :: 0 <= i < |ms| ==> Inv(ms[i]) && Coherent(ms[i])
    decreases |acts|
  {
    hide Step, Safe;
    if acts != [] {
      var n := |acts| - 1;
      RunStaysCoherent(ms[..n + 1], acts[..n]);
      assert Inv(ms[..n + 1][n]);
      StepKeepsInvExactly(ms[n], acts[n], ms[n + 1]);
      forall i | 0 <= i < |ms| ensures Inv(ms[i]) {
        if i <= n { assert Inv(ms[..n + 1][i]); }
      }
    }
  }

  /** A fill maps the virtual page as the other modes of the CPU do, and no page with code is marked. */
  ghost predicate Agrees(m: Machine, a: Action) {
    && (a.Fill? ==> FillAgrees(m, a.cpu, a.mode, a.vpage, a.page))
    && (a.Mark? ==> TbCache.NoCodeOn(m.tbs, a.p))
  }

  /** When the modes of a CPU agree every step is safe, and they agree afterwards if the step is not a fill
      that disagrees. */
  lemma AgreeingStep(m: Machine, a: Action, m': Machine)
    requires Inv(m) && ModesAgree(m.tlb) && Step(m, a, m') && Agrees(m, a)
    ensures Safe(m, a) && ModesAgree(m'.tlb)
  {
    hide TbCache.Survivors, Poke, Current, TbCache.ValidBlock, TbCache.NoCodeOn, ClearPages;
  }

  /** So a guest whose MMU modes share their page tables is safe in every run. */
  lemma {:induction false} AgreeingRunStaysCoherent(ms: seq<Machine>, acts: seq<Action>)
    requires Run(ms, acts) && Inv(ms[0]) && ModesAgree(ms[0].tlb)
    requires forall i :: 0 <= i < |acts| ==> Agrees(ms[i], acts[i])
    ensures forall i :: 0 <= i < |ms| ==> Inv(ms[i]) && Coherent(ms[i])
    ensures ModesAgree(ms[|acts|].tlb)
    decreases |acts|
  {
    hide Step, Safe, Agrees, ModesAgree;
    if acts != [] {
      var n := |acts| - 1;
      AgreeingRunStaysCoherent(ms[..n + 1], acts[..n]);
      assert Inv(ms[..n + 1][n]);
      AgreeingStep(ms[n], acts[n], ms[n + 1]);
      StepKeepsInvExactly(ms[n], acts[n], ms[n + 1]);
      forall i | 0 <= i < |ms| ensures Inv(ms[i]) {
        if i <= n { assert Inv(ms[..n + 1][i]); }
      }
    }
  }

  // ----- the code

  /** Entry k comes before (cpu, mode, index) in the order of the loops over all TLB entries. */
  predicate Before(k: Key, cpu: nat, mode: nat, index: nat) {
    k.cpu < cpu || (k.cpu == cpu && (k.mode < mode || (k.mode == mode && k.index < index)))
  }

  predicate Within(p: nat, start: nat, end: nat) { start <= p < end }

  function Pages(start: nat, end: nat): set<nat> { set p: nat | p < end && Within(p, start, end) }

  class Emulator {
    const cache: TbCache.Cache
    const cpus: nat
    const modes: nat            // NB_MMU_MODES
    var ram: seq<Page>
    var dirty: seq<DirtyByte>   // phys_dirty
    var tlb: map<Key, Entry>
    var nbTbs: nat
    const maxBlocks: nat        // code_gen_max_blocks

    ghost function M(): Machine
      reads this, cache, cache.pages
    {
      Machine(cache.tbs, ram, dirty, tlb, cache.Scanned())
    }

    ghost predicate TlbOk()
      reads this
    {
      forall k :: k in tlb ==> k.cpu < cpus && k.mode < modes && k.index < CPU_TLB_SIZE
    }

    /** All but the invariant on memory, blocks, flags and TLB. */
    ghost predicate Intact()
      reads this, cache, cache.hash, cache.pages, cache.jumps
    {
      cache.Valid() && TlbOk() && (forall t :: t in cache.tbs ==> t < nbTbs) && maxBlocks > 0
    }

    ghost predicate Valid()
      reads this, cache, cache.hash, cache.pages, cache.jumps
    {
      Intact() && Inv(M())
    }

    constructor (ram: seq<Page>, cpus: nat, modes: nat, maxBlocks: nat, jmpHash: nat -> nat)
      requires maxBlocks > 0
      ensures Valid() && ram == this.ram && tlb == map[] && cache.tbs == map[] && nbTbs == 0
      ensures this.cpus == cpus && this.modes == modes && this.maxBlocks == maxBlocks
      ensures |dirty| == |ram| && forall p :: 0 <= p < |dirty| ==> dirty[p] == ALL_DIRTY
    {
      cache := new TbCache.Cache(cpus, jmpHash);
      this.ram, dirty, tlb, nbTbs, this.maxBlocks := ram, seq(|ram|, _ => ALL_DIRTY), map[], 0, maxBlocks;
      this.cpus, this.modes := cpus, modes;
    }

    /** The invalidation of notdirty_mem_write; afterwards flags is the page's dirty byte. */
    method InvalidateForWrite(p: nat, off: nat, len: nat) returns (flags: DirtyByte)
      requires Valid() && p < |dirty| && len in {1, 2, 4} && off % len == 0 && off + len <= PAGE
      modifies this`dirty, cache, cache.hash, cache.pages, cache.jumps
      ensures Intact()
      ensures cache.tbs == if old(dirty)[p].code then old(cache.tbs)
          else TbCache.Survivors(old(cache.tbs), p, off, off + len)
      ensures flags == old(dirty)[p].(code := old(dirty)[p].code || Unprotects(old(M()), p, off, len))
      ensures dirty == old(dirty)[p := flags]
    {
      hide Inv, TbCache.Indexed, TbCache.Cache.Valid, TbCache.NoCodeOn;
      flags := dirty[p];
      if !flags.code {
        var unprotect := cache.InvalidatePhysPageFast(p, off, len);
        if unprotect { dirty := dirty[p := dirty[p].(code := true)]; }  // tlb_unprotect_code_phys
        flags := dirty[p];
      }
    }

    /** tlb_set_dirty, mode by mode. */
    method TlbSetDirty(cpu: nat, vpage: nat)
      requires TlbOk()
      modifies this`tlb
      ensures TlbOk() && tlb == SetDirty(old(tlb), cpu, vpage) && tlb.Keys == old(tlb).Keys
      ensures forall k :: k in tlb ==>
          tlb[k] == if k.cpu == cpu && k.index == vpage % 256 && old(tlb)[k] == NotDirty(vpage, old(tlb)[k].page)
                    then Fast(vpage, old(tlb)[k].page) else old(tlb)[k]
    {
      var i := vpage % CPU_TLB_SIZE;
      for mode := 0 to modes
        invariant TlbOk() && tlb.Keys == old(tlb).Keys
        invariant forall k :: k in tlb ==>
            tlb[k] == if k.mode < mode then SetDirty(old(tlb), cpu, vpage)[k] else old(tlb)[k]
      {
        var k := Key(cpu, mode, i);
        if k in tlb && tlb[k] == NotDirty(vpage, tlb[k].page) {
          tlb := tlb[k := Fast(vpage, tlb[k].page)];
        }
      }
    }

    /** notdirty_mem_write{b,w,l} */
    method NotDirtyWrite(k: Key, off: nat, data: seq<Byte>)
      requires Valid() && k in tlb && tlb[k].NotDirty?
      requires |data| in {1, 2, 4} && off % |data| == 0 && off + |data| <= PAGE
      modifies this, cache, cache.hash, cache.pages, cache.jumps
      ensures Intact() && Step(old(M()), Action.Store(k, off, data), M())
      ensures Valid() <==> Safe(old(M()), Action.Store(k, off, data))
      ensures Stored(old(ram), ram, old(tlb)[k].page, off, data)
      ensures WrittenFlags(old(dirty), dirty, old(tlb)[k].page)
    {
      hide Inv, Step, Safe, TbCache.Indexed, TbCache.Survivors, Unprotects, SetDirty, Poke, TbCache.Cache.Valid;
      ghost var m := M();
      InBounds(m, k);
      var p := tlb[k].page;
      var flags := InvalidateForWrite(p, off, |data|);
      ram := Poke(ram, p, off, data);
      flags := MarkWritten(flags);
      dirty := dirty[p := Union(dirty[p], flags)];
      if flags == ALL_DIRTY { TlbSetDirty(k.cpu, tlb[k].vpage); }
      PokeStores(m.ram, p, off, data);
      assert Becomes(M(), SlowStore(m, k, off, data));
      SlowStoreIsStep(m, k, off, data, M());
    }

    /** A store of the guest through TLB entry k.  softmmu splits a store that is not aligned
        or is longer than 4 bytes before it takes the slow path. */
    method Store(k: Key, off: nat, data: seq<Byte>)
      requires Valid() && k in tlb && off + |data| <= PAGE && data != []
      requires tlb[k].NotDirty? ==> |data| in {1, 2, 4} && off % |data| == 0
      modifies this, cache, cache.hash, cache.pages, cache.jumps
      ensures Intact() && Step(old(M()), Action.Store(k, off, data), M())
      ensures Valid() <==> Safe(old(M()), Action.Store(k, off, data))
      ensures Stored(old(ram), ram, old(tlb)[k].page, off, data)
      ensures WrittenFlags(old(dirty), dirty, old(tlb)[k].page)
    {
      hide Inv, TbCache.Indexed, TbCache.Cache.Valid, Poke;
      ghost var m := M();
      InBounds(m, k);
      if tlb[k].NotDirty? {
        NotDirtyWrite(k, off, data);
      } else {
        FastFlags(m, k);
        PokeStores(ram, tlb[k].page, off, data);
        ram := Poke(ram, tlb[k].page, off, data);
        StepKeepsInvExactly(m, Action.Store(k, off, data), M());
      }
    }

    /** The RAM case of one turn of the loop of cpu_physical_memory_rw. */
    method DmaPage(p: nat, off: nat, data: seq<Byte>)
      requires Valid() && p < |ram| && off + |data| <= PAGE && data != []
      modifies this, cache, cache.hash, cache.pages, cache.jumps
      ensures Valid() && Step(old(M()), Dma(p, off, data), M())
      ensures Stored(old(ram), ram, p, off, data) && WrittenFlags(old(dirty), dirty, p)
    {
      hide Inv, TbCache.Indexed, TbCache.Cache.Valid, Poke;
      ghost var m := M();
      SameSizes(m);
      PokeStores(ram, p, off, data);
      ram := Poke(ram, p, off, data);
      if dirty[p] != ALL_DIRTY {
        var _ := cache.InvalidatePhysPageRange(p, off, off + |data|, false);
        dirty := dirty[p := MarkWritten(dirty[p])];
      }
      assert Becomes(M(), DmaWrite(m, p, off, data));
      StepKeepsInvExactly(m, Dma(p, off, data), M());
    }

    /** cpu_physical_memory_set_dirty */
    method SetDirtyPage(p: nat)
      requires Valid() && p < |dirty|
      modifies this`dirty
      ensures Intact() && Step(old(M()), Mark(p), M())
      ensures Valid() <==> Safe(old(M()), Mark(p))
      ensures dirty == old(dirty)[p := DirtyByte(true, true, true, true)]
    {
      hide Inv, TbCache.Indexed, TbCache.Cache.Valid;
      ghost var m := M();
      SameSizes(m);
      dirty := dirty[p := ALL_DIRTY];
      StepKeepsInvExactly(m, Mark(p), M());
    }

    /** cpu_physical_memory_mask_dirty_range */
    method MaskDirtyRange(start: nat, end: nat, flags: DirtyByte)
      requires start <= end <= |dirty|
      modifies this`dirty
      ensures dirty == ClearPages(old(dirty), Pages(start, end), flags) && |dirty| == |old(dirty)|
      ensures forall p :: 0 <= p < |dirty| && !(start <= p < end) ==> dirty[p] == old(dirty)[p]
      ensures forall p :: start <= p < end ==> var d, e := old(dirty)[p], dirty[p];
          && e.vga == (d.vga && !flags.vga) && e.code == (d.code && !flags.code)
          && e.migration == (d.migration && !flags.migration) && e.others == (d.others && !flags.others)
    {
      for i := start to end
        invariant |dirty| == |old(dirty)|
        invariant forall p :: 0 <= p < |dirty| ==>
            dirty[p] == if start <= p < i then Clear(old(dirty)[p], flags) else old(dirty)[p]
      {
        dirty := dirty[i := Clear(dirty[i], flags)];
      }
    }

    /** tlb_reset_dirty_range on every entry of every CPU. */
    method TlbResetDirty(start: nat, end: nat)
      requires TlbOk()
      modifies this`tlb
      ensures TlbOk() && tlb == Protect(old(tlb), Pages(start, end)) && tlb.Keys == old(tlb).Keys
      ensures forall k :: k in tlb ==> var e := old(tlb)[k];
          tlb[k] == if start <= e.page < end then NotDirty(e.vpage, e.page) else e
    {
      hide Reached, Protect, Pages;
      ghost var t, ps := tlb, Pages(start, end);
      ReachedNone(t, ps);
      for cpu := 0 to cpus
        invariant TlbOk() && tlb.Keys == t.Keys && Reached(t, ps, tlb, cpu, 0, 0)
      {
        for mode := 0 to modes
          invariant TlbOk() && tlb.Keys == t.Keys && Reached(t, ps, tlb, cpu, mode, 0)
        {
          for i := 0 to CPU_TLB_SIZE
            invariant TlbOk() && tlb.Keys == t.Keys && Reached(t, ps, tlb, cpu, mode, i)
          {
            var k := Key(cpu, mode, i);
            ReachedOne(t, start, end, tlb, k);
            if k in tlb && tlb[k].Fast? && start <= tlb[k].page < end {
              tlb := tlb[k := NotDirty(tlb[k].vpage, tlb[k].page)];
            }
          }
          ReachedMode(t, ps, tlb, cpu, mode);
        }
        ReachedCpu(t, ps, tlb, cpu, modes);
      }
      ReachedAll(t, ps, tlb, cpus);
      ProtectsRange(t, start, end);
    }

    /** cpu_physical_memory_reset_dirty, on whole pages. */
    method ResetRange(start: nat, end: nat, flags: DirtyByte)
      requires start <= end <= |dirty| && TlbOk()
      modifies this`dirty, this`tlb
      ensures TlbOk() && dirty == ClearPages(old(dirty), Pages(start, end), flags)
      ensures tlb == Protect(old(tlb), Pages(start, end))
    {
      if start == end {
        NothingReset(dirty, tlb, start, flags);
        return;
      }
      MaskDirtyRange(start, end, flags);
      TlbResetDirty(start, end);
    }

    method ResetDirtyPages(start: nat, end: nat, flags: DirtyByte)
      requires Valid() && !flags.others && start <= end <= |dirty|
      modifies this`dirty, this`tlb
      ensures Valid() && Step(old(M()), Reset(Pages(start, end), flags), M())
    {
      hide Inv, TbCache.Indexed, TbCache.Cache.Valid, Protect, ClearPages;
      ghost var m := M();
      SameSizes(m);
      ResetRange(start, end, flags);
      StepKeepsInvExactly(m, Reset(Pages(start, end), flags), M());
    }

    /** tlb_set_page for a writable RAM page. */
    method TlbSetPage(cpu: nat, mode: nat, vpage: nat, page: nat)
      requires Valid() && page < |dirty| && cpu < cpus && mode < modes
      modifies this`tlb
      ensures Valid() && Step(old(M()), Fill(cpu, mode, vpage, page), M())
      ensures var d, e := dirty[page], old(tlb);
        tlb == e[Key(cpu, mode, vpage % 256) :=
                 if d.vga && d.code && d.migration && d.others then Fast(vpage, page) else NotDirty(vpage, page)]
    {
      hide Inv, TbCache.Indexed, TbCache.Cache.Valid;
      ghost var m := M();
      SameSizes(m);
      var entry := if dirty[page] == ALL_DIRTY then Fast(vpage, page) else NotDirty(vpage, page);
      tlb := tlb[Key(cpu, mode, vpage % CPU_TLB_SIZE) := entry];
      FillKeepsInv(m, cpu, mode, vpage, page);
    }

    /** tb_alloc, with the flush tb_gen_code does when there is no room (bufferFull: the code
        buffer is full). */
    method AllocBlock(bufferFull: bool) returns (t: nat)
      requires Valid()
      modifies this`nbTbs, cache, cache.hash, cache.pages, cache.jumps
      ensures Valid() && Step(old(M()), Discard, M()) && t !in cache.tbs && nbTbs == t + 1
      ensures t == if old(nbTbs) >= maxBlocks || bufferFull then 0 else old(nbTbs)
      ensures cache.tbs == if old(nbTbs) >= maxBlocks || bufferFull then map[] else old(cache.tbs)
    {
      hide Inv, TbCache.Indexed, TbCache.Cache.Valid;
      ghost var m := M();
      SameSizes(m);
      if nbTbs >= maxBlocks || bufferFull {
        cache.Flush();
        nbTbs := 0;
      }
      t := nbTbs;
      nbTbs := nbTbs + 1;
      StepKeepsInvExactly(m, Discard, M());
    }

    /** tlb_protect_code for each page of a set. */
    method ProtectPages(ps: set<nat>)
      requires TlbOk() && forall p :: p in ps ==> p < |dirty|
      modifies this`dirty, this`tlb
      ensures TlbOk() && dirty == ClearPages(old(dirty), ps, CODE_FLAG) && tlb == Protect(old(tlb), ps)
    {
      hide ClearPages, Protect;
      var todo := ps;
      ghost var d, e := dirty, tlb;
      NothingProtected(d, e);
      assert ps - todo == {};
      while todo != {}
        invariant todo <= ps && TlbOk() && |dirty| == |d|
        invariant dirty == ClearPages(d, ps - todo, CODE_FLAG) && tlb == Protect(e, ps - todo)
        decreases |todo|
      {
        var p :| p in todo;
        ghost var done := ps - todo;
        ResetRange(p, p + 1, CODE_FLAG);
        ProtectedMore(d, e, done, p);
        todo := todo - {p};
        assert ps - todo == done + {p};
      }
      assert ps - {} == ps;
    }

    /** tb_link_page of a fresh translation, with the protection of its pages. */
    method LinkBlock(t: nat, b: TbCache.Block)
      requires Valid() && t !in cache.tbs && t < nbTbs && TbCache.ValidBlock(b) && Current(ram, b)
      modifies this`dirty, this`tlb, cache, cache.hash, cache.pages, cache.jumps
      ensures Valid() && Step(old(M()), Translate(t, b), M())
      ensures |dirty| == |old(dirty)| && forall p :: 0 <= p < |dirty| ==>
          dirty[p] == if p in TbCache.OnPages(b) then old(dirty)[p].(code := false) else old(dirty)[p]
    {
      hide Inv, TbCache.Indexed, TbCache.Cache.Valid, TbCache.NoCodeOn, Current, TbCache.ValidBlock, Protect,
        ClearPages;
      ghost var m := M();
      SameSizes(m);
      PagesHoldCode(cache);
      PagesInRam(ram, b);
      var protect := cache.LinkPage(t, b);
      assert protect == Unprotected(m, b);
      ProtectPages(protect);
      assert Becomes(M(), ResetDirty(m, protect, CODE_FLAG).(tbs := m.tbs[t := b]));
      StepKeepsInvExactly(m, Translate(t, b), M());
      ProtectedPages(m, b);
    }

    /** tb_gen_code: translates what memory holds into a new block. */
    method GenCode(pc: nat, csBase: nat, flags: nat, page0: nat, page1: Option<nat>, size: nat, bufferFull: bool)
      returns (t: nat, b: TbCache.Block, ghost mid: Machine)
      requires Valid() && 1 <= size <= PAGE && page0 < |ram| && page1 != Some(page0)
      requires page1.Some? <==> pc % PAGE + size > PAGE
      requires page1.Some? ==> page1.value < |ram|
      modifies this, cache, cache.hash, cache.pages, cache.jumps
      ensures Valid() && Step(old(M()), Discard, mid) && Step(mid, Translate(t, b), M())
      ensures mid.tbs == if old(nbTbs) >= maxBlocks || bufferFull then map[] else old(cache.tbs)
      ensures b == TbCache.Block(pc, csBase, flags, page0, page1, b.code) && |b.code| == size
    {
      hide Inv, Step, TbCache.Indexed, TbCache.Cache.Valid;
      ghost var m := M();
      t := AllocBlock(bufferFull);
      mid := M();
      DiscardKeepsRam(m, mid);
      b := TbCache.Block(pc, csBase, flags, page0, page1, Fetch(ram, pc % PAGE, page0, page1, size));
      FetchedIsCurrent(ram, b, size);
      LinkBlock(t, b);
    }
  }

  /** The entries before (cpu, mode, index) are protected and the others as they were. */
  ghost predicate Reached(t: map<Key, Entry>, ps: set<nat>, now: map<Key, Entry>, cpu: nat, mode: nat, index: nat) {
    now.Keys == t.Keys && forall k :: k in t ==>
        now[k] == if Before(k, cpu, mode, index) then ProtectedEntry(t[k], ps) else t[k]
  }

  lemma ReachedNone(t: map<Key, Entry>, ps: set<nat>)
    ensures Reached(t, ps, t, 0, 0, 0)
  {}

  lemma ReachedOne(t: map<Key, Entry>, start: nat, end: nat, now: map<Key, Entry>, k: Key)
    requires Reached(t, Pages(start, end), now, k.cpu, k.mode, k.index)
    ensures Reached(t, Pages(start, end),
                    if k in now && now[k].Fast?
                        && start <= now[k].page < end then now[k := NotDirty(now[k].vpage, now[k].page)] else now,
                    k.cpu, k.mode, k.index + 1)
  {
    if k in now {
      assert now[k] == t[k] && (t[k].page in Pages(start, end) <==> start <= t[k].page < end);
    }
  }

  lemma ReachedMode(t: map<Key, Entry>, ps: set<nat>, now: map<Key, Entry>, cpu: nat, mode: nat)
    requires Reached(t, ps, now, cpu, mode, CPU_TLB_SIZE) && forall k :: k in t ==> k.index < CPU_TLB_SIZE
    ensures Reached(t, ps, now, cpu, mode + 1, 0)
  {}

  lemma ReachedCpu(t: map<Key, Entry>, ps: set<nat>, now: map<Key, Entry>, cpu: nat, modes: nat)
    requires Reached(t, ps, now, cpu, modes, 0) && forall k :: k in t ==> k.mode < modes
    ensures Reached(t, ps, now, cpu + 1, 0, 0)
  {}

  lemma ProtectsRange(t: map<Key, Entry>, start: nat, end: nat)
    ensures var u := Protect(t, Pages(start, end));
      u.Keys == t.Keys && forall k :: k in t ==>
        u[k] == if start <= t[k].page < end then NotDirty(t[k].vpage, t[k].page) else t[k]
  {
    forall k | k in t ensures t[k].page in Pages(start, end) <==> start <= t[k].page < end {
      assert Within(t[k].page, start, end) <==> start <= t[k].page < end;
    }
  }

  lemma ReachedAll(t: map<Key, Entry>, ps: set<nat>, now: map<Key, Entry>, cpus: nat)
    requires Reached(t, ps, now, cpus, 0, 0) && forall k :: k in t ==> k.cpu < cpus
    ensures now == Protect(t, ps)
  {}

  lemma NothingReset(dirty: seq<DirtyByte>, tlb: map<Key, Entry>, start: nat, flags: DirtyByte)
    ensures dirty == ClearPages(dirty, Pages(start, start), flags) && tlb == Protect(tlb, Pages(start, start))
  {}

  lemma NothingProtected(d: seq<DirtyByte>, e: map<Key, Entry>)
    ensures ClearPages(d, {}, CODE_FLAG) == d && Protect(e, {}) == e
  {}

  lemma ProtectedMore(d: seq<DirtyByte>, e: map<Key, Entry>, ps: set<nat>, p: nat)
    ensures ClearPages(ClearPages(d, ps, CODE_FLAG), Pages(p, p + 1), CODE_FLAG) == ClearPages(d, ps + {p}, CODE_FLAG)
    ensures Protect(Protect(e, ps), Pages(p, p + 1)) == Protect(e, ps + {p})
  {}

  lemma DiscardKeepsRam(m: Machine, m': Machine)
    requires Step(m, Discard, m')
    ensures m'.ram == m.ram
  {}

  /** The guest bytes from byte off of page0 on, going over to page1 at the page end. */
  function Fetch(ram: seq<Page>, off: nat, page0: nat, page1: Option<nat>, size: nat): (code: seq<Byte>)
    requires page0 < |ram| && off < PAGE && size <= PAGE && (off + size > PAGE ==> page1.Some? && page1.value < |ram|)
    ensures |code| == size
  {
    if off + size <= PAGE then ram[page0][off..off + size]
    else ram[page0][off..] + ram[page1.value][..off + size - PAGE]
  }

  lemma FetchedIsCurrent(ram: seq<Page>, b: TbCache.Block, size: nat)
    requires b.page0 < |ram| && 1 <= size <= PAGE
    requires TbCache.Off(b) + size > PAGE ==> b.page1.Some? && b.page1.value < |ram|
    requires b.code == Fetch(ram, TbCache.Off(b), b.page0, b.page1, size)
    ensures Current(ram, b)
  {}

  /** A page list is empty exactly when no linked block lies on the page. */
  /** Protecting the pages of b that had no code clears the code flag of every page of b, and no other flag. */
  lemma ProtectedPages(m: Machine, b: TbCache.Block)
    requires Inv(m)
    ensures var d := ClearPages(m.dirty, Unprotected(m, b), CODE_FLAG);
      forall p :: 0 <= p < |m.dirty| ==>
        d[p] == if p in TbCache.OnPages(b) then m.dirty[p].(code := false) else m.dirty[p]
  {
    forall p | 0 <= p < |m.dirty| && p in TbCache.OnPages(b) && p !in Unprotected(m, b) ensures !m.dirty[p].code {
      var t :| t in m.tbs && p in TbCache.OnPages(m.tbs[t]);
      assert BlockTracked(m.dirty, m.tbs[t]);
    }
  }

  lemma PagesHoldCode(c: TbCache.Cache)
    requires c.Valid()
    ensures forall p: nat :: c.PageList(p) == [] <==> TbCache.NoCodeOn(c.tbs, p)
  {
    forall p: nat ensures c.PageList(p) == [] <==> TbCache.NoCodeOn(c.tbs, p) {
      TbCache.EmptyListMeansNoCode(c.pages.C(), c.V(), p, c.jmpHash);
    }
  }

  function Union(a: DirtyByte, b: DirtyByte): DirtyByte {
    DirtyByte(a.vga || b.vga, a.code || b.code, a.migration || b.migration, a.others || b.others)
  }

  lemma SlowStoreIsStep(m: Machine, k: Key, off: nat, data: seq<Byte>, m': Machine)
    requires Inv(m) && k in m.tlb && m.tlb[k].NotDirty? && off + |data| <= PAGE && data != []
    requires Becomes(m', SlowStore(m, k, off, data))
    ensures Step(m, Action.Store(k, off, data), m') && (Inv(m') <==> Safe(m, Action.Store(k, off, data)))
  {
    hide Safe, Inv, SlowStore;
    InBounds(m, k);
    SlowStoreExactly(m, k, off, data);
    BecomesInv(m', SlowStore(m, k, off, data));
  }

  /** A page that takes direct stores has all flags set already. */
  lemma FastFlags(m: Machine, k: Key)
    requires Inv(m) && k in m.tlb && m.tlb[k].Fast?
    ensures WrittenFlags(m.dirty, m.dirty, m.tlb[k].page)
  {
    var p := m.tlb[k].page;
    assert m.dirty[p := m.dirty[p]] == m.dirty;
  }

  lemma SameSizes(m: Machine)
    requires Inv(m)
    ensures |m.ram| == |m.dirty|
  {}

  lemma InBounds(m: Machine, k: Key)
    requires Inv(m) && k in m.tlb
    ensures |m.ram| == |m.dirty| && m.tlb[k].page < |m.ram|
  {}
}
