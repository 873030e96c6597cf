/** The RAM block list, the phys_dirty bytes, and the order in which migration
    visits pages (qemu/cpu-all.h, qemu/arch_init.c).  Offsets count pages here; the
    stream carries them multiplied by PAGE. */
module RamList {
  import opened Common
  import opened Bytes

  type Page = p: seq<Byte> | |p| == PAGE witness seq(PAGE, _ => 0)

  /** One byte of phys_dirty: bits 0x01, 0x02 and 0x08, and the remaining five, which
      no caller clears. */
  datatype DirtyByte = DirtyByte(vga: bool, code: bool, migration: bool, others: bool)

  const ALL_DIRTY: DirtyByte := DirtyByte(true, true, true, true)  // 0xff

  /** d |= 0xff & ~CODE_DIRTY_FLAG, which every write to guest memory does. */
  function MarkWritten(d: DirtyByte): DirtyByte { ALL_DIRTY.(code := d.code) }

  /** idstr, the ram address of the first page, and the number of pages. */
  datatype RamBlock = RamBlock(id: seq<Byte>, first: nat, pages: nat)

  /** A page of the list: block number and page number inside the block. */
  datatype Cursor = Cursor(b: nat, k: nat)

  ghost predicate ValidBlock(x: RamBlock, ramPages: nat) {
    && 1 <= x.pages && x.first + x.pages <= ramPages
    && |x.id| < 256 && 0 !in x.id
  }

  predicate Apart(x: RamBlock, y: RamBlock) {
    x.id != y.id && (x.first + x.pages <= y.first || y.first + y.pages <= x.first)
  }

  ghost predicate ValidBlocks(bs: seq<RamBlock>, ramPages: nat) {
    && bs != []
    && Total(bs) * PAGE < TWO64
    && (forall i :: 0 <= i < |bs| ==> ValidBlock(bs[i], ramPages))
    && (forall i, j :: 0 <= i < j < |bs| ==> Apart(bs[i], bs[j]))
  }

  predicate At(bs: seq<RamBlock>, c: Cursor) {
    c.b < |bs| && c.k < bs[c.b].pages
  }

  function PageNo(bs: seq<RamBlock>, c: Cursor): nat
    requires At(bs, c)
  {
    bs[c.b].first + c.k
  }

  /** Number of pages in the blocks before block b. */
  function Base(bs: seq<RamBlock>, b: nat): nat
    requires b <= |bs|
  {
    if b == 0 then 0 else Base(bs, b - 1) + bs[b - 1].pages
  }

  function Total(bs: seq<RamBlock>): nat { Base(bs, |bs|) }

  /** Position of a page in the whole list. */
  function Flat(bs: seq<RamBlock>, c: Cursor): nat
    requires At(bs, c)
  {
    Base(bs, c.b) + c.k
  }

  function Next(bs: seq<RamBlock>, c: Cursor): Cursor
    requires At(bs, c)
  {
    if c.k + 1 < bs[c.b].pages then Cursor(c.b, c.k + 1)
    else if c.b + 1 < |bs| then Cursor(c.b + 1, 0)
    else Cursor(0, 0)
  }

  lemma {:induction false} BaseMonotone(bs: seq<RamBlock>, i: nat, j: nat)
    requires i <= j <= |bs|
    ensures Base(bs, i) <= Base(bs, j)
    decreases j
  {
    if i < j { BaseMonotone(bs, i, j - 1); }
  }

  lemma FlatBelowTotal(bs: seq<RamBlock>, c: Cursor)
    requires At(bs, c)
    ensures Flat(bs, c) < Base(bs, c.b + 1) <= Total(bs)
  {
    BaseMonotone(bs, c.b + 1, |bs|);
  }

  /** Positions name pages: two pages at one position are the same page. */
  lemma FlatInjective(bs: seq<RamBlock>, c: Cursor, d: Cursor)
    requires At(bs, c) && At(bs, d)
    ensures Flat(bs, c) == Flat(bs, d) ==> c == d
  {
    if c.b < d.b { BaseMonotone(bs, c.b + 1, d.b); }
    if d.b < c.b { BaseMonotone(bs, d.b + 1, c.b); }
  }

  /** Next steps to the following position and wraps from the last one to the first. */
  lemma NextIsSuccessor(bs: seq<RamBlock>, c: Cursor, ramPages: nat)
    requires ValidBlocks(bs, ramPages) && At(bs, c)
    ensures At(bs, Next(bs, c))
    ensures Flat(bs, c) + 1 < Total(bs) ==> Flat(bs, Next(bs, c)) == Flat(bs, c) + 1
    ensures Flat(bs, c) + 1 == Total(bs) ==> Next(bs, c) == Cursor(0, 0)
  {
    FlatBelowTotal(bs, c);
    if c.b + 1 < |bs| {
      FlatBelowTotal(bs, Cursor(c.b + 1, 0));
    }
  }

  /** Blocks may touch: the one ends where the other starts. */
  lemma TouchingBlocks(m: nat, n: nat)
    requires 1 <= m && 1 <= n && (m + n) * PAGE < TWO64
    ensures ValidBlocks([RamBlock([1], 0, m), RamBlock([2], m, n)], m + n)
    ensures ValidBlocks([RamBlock([1], n, m), RamBlock([2], 0, n)], m + n)
  {
    var bs, cs := [RamBlock([1], 0, m), RamBlock([2], m, n)], [RamBlock([1], n, m), RamBlock([2], 0, n)];
    assert Base(bs, 1) == m && Base(bs, 2) == Base(bs, 1) + n;
    assert Base(cs, 1) == m && Base(cs, 2) == Base(cs, 1) + n;
  }

  /** Pages of the list have distinct ram addresses. */
  lemma PageNoInjective(bs: seq<RamBlock>, c: Cursor, d: Cursor, ramPages: nat)
    requires ValidBlocks(bs, ramPages) && At(bs, c) && At(bs, d)
    ensures PageNo(bs, c) == PageNo(bs, d) ==> c == d
    ensures PageNo(bs, c) < ramPages
  {
    if c.b < d.b { assert Apart(bs[c.b], bs[d.b]); }
    if d.b < c.b { assert Apart(bs[d.b], bs[c.b]); }
  }

  function Find(bs: seq<RamBlock>, id: seq<Byte>): (r: Option<nat>)
    ensures r.Some? ==> r.value < |bs| && bs[r.value].id == id
    ensures r.None? ==> forall i :: 0 <= i < |bs| ==> bs[i].id != id
  {
    FindFrom(bs, id, 0)
  }

  function FindFrom(bs: seq<RamBlock>, id: seq<Byte>, i: nat): (r: Option<nat>)
    requires i <= |bs|
    ensures r.Some? ==> i <= r.value < |bs| && bs[r.value].id == id
    ensures r.None? ==> forall j :: i <= j < |bs| ==> bs[j].id != id
    decreases |bs| - i
  {
    if i == |bs| then None
    else if bs[i].id == id then Some(i)
    else FindFrom(bs, id, i + 1)
  }
}
