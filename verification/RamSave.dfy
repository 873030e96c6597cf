/** The sending side of live RAM migration (qemu/arch_init.c:95-336). */
module RamSave {
  import opened Common
  import opened Bytes
  import opened RamList

  const COMPRESS: nat := 0x02
  const MEM_SIZE: nat := 0x04
  const PAGE_DATA: nat := 0x08
  const EOS: nat := 0x10
  const CONTINUE: nat := 0x20

  /** Block list, page contents and dirty bytes by ram page number, and the
      last page visited (last_block, last_offset). */
  datatype Source = Source(blocks: seq<RamBlock>, ram: seq<Page>, dirty: seq<DirtyByte>, last: Option<Cursor>)

  ghost predicate ValidSource(s: Source) {
    && |s.ram| == |s.dirty|
    && ValidBlocks(s.blocks, |s.ram|)
    && (s.last.Some? ==> At(s.blocks, s.last.value))
    // ram_save_block follows last_block, so before the first record it must find page 0 dirty
    && (s.last.None? ==> forall c :: At(s.blocks, c) ==> Dirty(s, c))
  }

  predicate Dirty(s: Source, c: Cursor)
    requires At(s.blocks, c)
  {
    PageNo(s.blocks, c) < |s.dirty| && s.dirty[PageNo(s.blocks, c)].migration
  }

  ghost predicate NothingDirty(s: Source) {
    forall c :: At(s.blocks, c) ==> !Dirty(s, c)
  }

  ghost predicate Uniform(p: Page) { forall i :: 0 <= i < PAGE ==> p[i] == p[0] }

  function NameField(id: seq<Byte>): seq<Byte>
    requires |id| < 256
  {
    [|id|] + id
  }

  /** A page record: offset and flags, the block name unless the block is the one of
      the previous record, then one byte for a uniform page or the whole page. */
  function Record(id: seq<Byte>, k: nat, cont: bool, p: Page, dup: bool): seq<Byte>
    requires |id| < 256
  {
    PutBe64(k * PAGE + (if cont then CONTINUE else 0) + if dup then COMPRESS else PAGE_DATA)
    + (if cont then [] else NameField(id))
    + if dup then [p[0]] else p
  }

  /** The bytes of a page record: the low twelve bits of the first word are flags, 0x20 for a block named before, 0x02
      for a uniform page and 0x08 for any other; the rest is the offset.  Then name and contents. */
  lemma RecordLayout(id: seq<Byte>, k: nat, cont: bool, p: Page, dup: bool)
    requires |id| < 256 && k * 4096 + 0x28 < TWO64
    ensures var r, n := Record(id, k, cont, p, dup), if cont then 8 else 9 + |id|;
      && |r| == n + (if dup then 1 else 4096)
      && FromBigEndian(r[..8]) == k * 4096 + (if cont then 0x20 else 0) + (if dup then 0x02 else 0x08)
      && (!cont ==> r[8] == |id| && r[9..n] == id)
      && r[n..] == if dup then [p[0]] else p
  {
    hide PutBe64, FromBigEndian;
    var v := k * PAGE + (if cont then CONTINUE else 0) + if dup then COMPRESS else PAGE_DATA;
    var name, body := if cont then [] else NameField(id), if dup then [p[0]] else p;
    var r := Record(id, k, cont, p, dup);
    assert r == PutBe64(v) + (name + body);
    Be64ThenMore(v, name + body);
    assert r[8..] == name + body;
    if !cont { assert r[9..9 + |id|] == (name + body)[1..1 + |id|] == id; }
  }

  /** What ram_save_block puts in the stream for page c. */
  ghost function PageRecord(s: Source, c: Cursor): seq<Byte>
    requires ValidSource(s) && At(s.blocks, c)
  {
    assert ValidBlock(s.blocks[c.b], |s.ram|);
    var p := s.ram[PageNo(s.blocks, c)];
    Record(s.blocks[c.b].id, c.k, s.last.Some? && s.last.value.b == c.b, p, Uniform(p))
  }

  /** The source after page c was put in the stream. */
  function Sent(s: Source, c: Cursor): Source
    requires At(s.blocks, c) && PageNo(s.blocks, c) < |s.dirty|
  {
    var n := PageNo(s.blocks, c);
    s.(dirty := s.dirty[n := s.dirty[n].(migration := false)], last := Some(c))
  }

  /** Position p lies in the round-robin stretch from start up to, not including, stop. */
  predicate Passed(start: nat, p: nat, stop: nat) {
    if start <= stop then start <= p < stop else start <= p || p < stop
  }

  function StartOf(s: Source): Cursor { if s.last.Some? then s.last.value else Cursor(0, 0) }

  /** No page is dirty from the last page visited up to, not including, page c. */
  ghost predicate CleanUpTo(s: Source, c: Cursor)
    requires At(s.blocks, c) && At(s.blocks, StartOf(s))
  {
    forall d :: At(s.blocks, d) && Passed(Flat(s.blocks, StartOf(s)), Flat(s.blocks, d), Flat(s.blocks, c)) ==>
        !Dirty(s, d)
  }

  /** c is the dirty page that comes first in round-robin order from the last page visited. */
  ghost predicate FirstDirty(s: Source, c: Cursor) {
    At(s.blocks, c) && At(s.blocks, StartOf(s)) && Dirty(s, c) && CleanUpTo(s, c)
  }

  /** One turn of the scan; coming back to the start means that nothing is dirty. */
  lemma ScanStep(s: Source, c: Cursor)
    requires ValidSource(s) && At(s.blocks, c) && At(s.blocks, StartOf(s))
    requires CleanUpTo(s, c) && !Dirty(s, c)
    ensures At(s.blocks, Next(s.blocks, c))
    ensures Next(s.blocks, c) != StartOf(s) ==> CleanUpTo(s, Next(s.blocks, c))
    ensures Next(s.blocks, c) == StartOf(s) ==> NothingDirty(s)
    ensures Next(s.blocks, c) != StartOf(s) ==> ToGo(s, Next(s.blocks, c)) < ToGo(s, c)
  {
    var start, n := StartOf(s), Next(s.blocks, c);
    FlatBelowTotal(s.blocks, start);
    FlatBelowTotal(s.blocks, c);
    NextIsSuccessor(s.blocks, c, |s.ram|);
    FlatInjective(s.blocks, n, start);
    forall d | At(s.blocks, d)
      ensures Passed(Flat(s.blocks, start), Flat(s.blocks, d), Flat(s.blocks, n)) || n == start ==> !Dirty(s, d)
    {
      FlatInjective(s.blocks, d, c);
      FlatBelowTotal(s.blocks, d);
    }
  }

  /** Pages the scan still has to visit. */
  ghost function ToGo(s: Source, c: Cursor): nat
    requires At(s.blocks, c) && At(s.blocks, StartOf(s))
  {
    var p, from := Flat(s.blocks, c), Flat(s.blocks, StartOf(s));
    FlatBelowTotal(s.blocks, c);
    if from <= p then Total(s.blocks) - p + from else from - p
  }

  lemma StartValid(s: Source)
    requires ValidSource(s)
    ensures At(s.blocks, StartOf(s)) && CleanUpTo(s, StartOf(s))
  {
    assert ValidBlock(s.blocks[0], |s.ram|);
  }

  /** Sending c cleans c and no other page. */
  lemma SentCleansOnePage(s: Source, c: Cursor)
    requires ValidSource(s) && At(s.blocks, c)
    ensures PageNo(s.blocks, c) < |s.dirty|
    ensures ValidSource(Sent(s, c)) && !Dirty(Sent(s, c), c)
    ensures forall d :: At(s.blocks, d) && d != c ==> Dirty(Sent(s, c), d) == Dirty(s, d)
  {
    PageNoInjective(s.blocks, c, c, |s.ram|);
    forall d | At(s.blocks, d) && d != c
      ensures Dirty(Sent(s, c), d) == Dirty(s, d)
    {
      PageNoInjective(s.blocks, c, d, |s.ram|);
    }
  }

  ghost function DirtyPages(s: Source): set<nat> {
    set p: nat | p < |s.dirty| && s.dirty[p].migration
  }

  lemma SentShrinksDirtyPages(s: Source, c: Cursor)
    requires ValidSource(s) && FirstDirty(s, c)
    ensures DirtyPages(Sent(s, c)) < DirtyPages(s)
  {
    var n := PageNo(s.blocks, c);
    SentCleansOnePage(s, c);
    assert n in DirtyPages(s) && n !in DirtyPages(Sent(s, c));
  }

  /** cs are pages ram_save_block sends one after the other, starting from s. */
  ghost predicate Sendable(s: Source, cs: seq<Cursor>)
    requires ValidSource(s)
    decreases |cs|, 0
  {
    cs == [] || (Sendable(s, cs[..|cs| - 1]) && FirstDirty(AfterSending(s, cs[..|cs| - 1]), cs[|cs| - 1]))
  }

  ghost function AfterSending(s: Source, cs: seq<Cursor>): (t: Source)
    requires ValidSource(s) && Sendable(s, cs)
    ensures ValidSource(t) && t.blocks == s.blocks && t.ram == s.ram && |t.dirty| == |s.dirty|
    decreases |cs|, 1
  {
    if cs == [] then s
    else
      var t := AfterSending(s, cs[..|cs| - 1]);
      SentCleansOnePage(t, cs[|cs| - 1]);
      Sent(t, cs[|cs| - 1])
  }

  /** The bytes the pages cs put in the stream. */
  ghost function Records(s: Source, cs: seq<Cursor>): seq<Byte>
    requires ValidSource(s) && Sendable(s, cs)
    decreases |cs|
  {
    if cs == [] then []
    else Records(s, cs[..|cs| - 1]) + PageRecord(AfterSending(s, cs[..|cs| - 1]), cs[|cs| - 1])
  }

  lemma SendNothing(s: Source)
    requires ValidSource(s)
    ensures Sendable(s, []) && AfterSending(s, []) == s && Records(s, []) == []
  {}

  lemma SendOneMore(s: Source, cs: seq<Cursor>, c: Cursor)
    requires ValidSource(s) && Sendable(s, cs) && FirstDirty(AfterSending(s, cs), c)
    ensures Sendable(s, cs + [c]) && PageNo(s.blocks, c) < |s.dirty|
    ensures AfterSending(s, cs + [c]) == Sent(AfterSending(s, cs), c)
    ensures Records(s, cs + [c]) == Records(s, cs) + PageRecord(AfterSending(s, cs), c)
  {
    assert (cs + [c])[..|cs|] == cs;
  }

  /** The size header that opens a migration. */
  ghost function SizeEntries(bs: seq<RamBlock>): seq<Byte>
    requires forall i :: 0 <= i < |bs| ==> |bs[i].id| < 256
  {
    if bs == [] then [] else NameField(bs[0].id) + PutBe64(bs[0].pages * PAGE) + SizeEntries(bs[1..])
  }

  ghost function SizeHeader(bs: seq<RamBlock>): seq<Byte>
    requires forall i :: 0 <= i < |bs| ==> |bs[i].id| < 256
  {
    PutBe64(Total(bs) * PAGE + MEM_SIZE) + SizeEntries(bs)
  }

  /** An entry of the block list: the length of the name, the name, and the size in bytes. */
  lemma SizeEntryLayout(id: seq<Byte>, v: nat, more: seq<Byte>)
    requires |id| < 256 && v < TWO64
    ensures var s, n := NameField(id) + PutBe64(v) + more, |id|;
      |s| >= 9 + n && s[0] == n && s[1..1 + n] == id && FromBigEndian(s[1 + n..9 + n]) == v && s[9 + n..] == more
  {
    hide PutBe64, FromBigEndian;
    var s, n := NameField(id) + PutBe64(v) + more, |id|;
    Be64RoundTrip(v);
    assert s[1 + n..9 + n] == PutBe64(v);
  }

  /** The header: the total size with flag 0x04, then an entry for each block. */
  lemma HeaderLayout(bs: seq<RamBlock>)
    requires bs != [] && Total(bs) * 4096 + 4 < TWO64 && bs[0].pages <= Total(bs)
    requires forall i :: 0 <= i < |bs| ==> |bs[i].id| < 256
    ensures var h, n := SizeHeader(bs), |bs[0].id|;
      && |h| >= 17 + n && FromBigEndian(h[..8]) == Total(bs) * 4096 + 4
      && var s := h[8..];
         && s[0] == n && s[1..1 + n] == bs[0].id && FromBigEndian(s[1 + n..9 + n]) == bs[0].pages * 4096
         && s[9 + n..] == SizeEntries(bs[1..])
  {
    hide PutBe64, FromBigEndian, Total, NameField;
    Be64ThenMore(Total(bs) * PAGE + MEM_SIZE, SizeEntries(bs));
    SizeEntryLayout(bs[0].id, bs[0].pages * PAGE, SizeEntries(bs[1..]));
  }

  /** The mark that ends a section. */
  lemma EosLayout()
    ensures PutBe64(EOS) == [0, 0, 0, 0, 0, 0, 0, 16]
  {
    hide BigEndian;
    Be64Layout(EOS);
  }

  /** Stage 1: every page that lacks the migration flag is marked 0xff, and the scan restarts. */
  ghost predicate Begun(s: Source, t: Source) {
    && t.blocks == s.blocks && t.ram == s.ram && |t.dirty| == |s.dirty| && t.last.None?
    && (forall c :: At(t.blocks, c) ==> Dirty(t, c))
    && forall n :: 0 <= n < |s.dirty| ==>
         t.dirty[n] == s.dirty[n] || (t.dirty[n] == ALL_DIRTY && !s.dirty[n].migration)
  }

  method IsDupPage(page: Page, ch: Byte) returns (dup: bool)
    ensures dup <==> forall i :: 0 <= i < PAGE ==> page[i] == ch
  {
    // one 32-bit word at a time
    for i := 0 to PAGE / 4
      invariant forall j :: 0 <= j < 4 * i ==> page[j] == ch
    {
      if page[4 * i..4 * i + 4] != [ch, ch, ch, ch] {
        assert page[4 * i] != ch || page[4 * i + 1] != ch || page[4 * i + 2] != ch || page[4 * i + 3] != ch;
        return false;
      }
      assert page[4 * i] == page[4 * i..4 * i + 4][0];
      assert page[4 * i + 1] == page[4 * i..4 * i + 4][1];
      assert page[4 * i + 2] == page[4 * i..4 * i + 4][2];
      assert page[4 * i + 3] == page[4 * i..4 * i + 4][3];
    }
    return true;
  }

  class RamSender {
    var blocks: seq<RamBlock>
    var ram: seq<Page>
    var physDirty: seq<DirtyByte>
    var lastBlock: Option<nat>
    var lastOffset: nat

    ghost function State(): Source
      reads this
    {
      Source(blocks, ram, physDirty,
             if lastBlock.Some? then Some(Cursor(lastBlock.value, lastOffset)) else None)
    }

    ghost predicate Valid()
      reads this
    {
      ValidSource(State()) && (lastBlock.None? ==> lastOffset == 0)
    }

    /** Sends the next dirty page in round-robin order; returns 0 exactly when no page is dirty. */
    method SaveBlock() returns (sent: nat, out: seq<Byte>, ghost c: Cursor)
      requires Valid()
      modifies this`lastBlock, this`lastOffset, this`physDirty
      ensures Valid()
      ensures sent == 0 <==> NothingDirty(old(State()))
      ensures sent == 0 ==> out == [] && State() == old(State())
      ensures sent != 0 ==> FirstDirty(old(State()), c) && PageNo(blocks, c) < |physDirty| == |ram|
                            && State() == Sent(old(State()), c) && out == PageRecord(old(State()), c)
                            && sent == if Uniform(ram[PageNo(blocks, c)]) then 1 else 4096
    {
      hide CleanUpTo, PageRecord, ValidBlocks;
      ghost var s := State();
      StartValid(s);
      var b: nat, k: nat := if lastBlock.Some? then lastBlock.value else 0, lastOffset;
      c := Cursor(b, k);
      sent, out := 0, [];
      while true
        invariant At(blocks, Cursor(b, k)) && State() == s && sent == 0 && out == []
        invariant lastBlock.None? ==> Cursor(b, k) == StartOf(s) && lastOffset == 0
        invariant CleanUpTo(s, Cursor(b, k))
        decreases ToGo(s, Cursor(b, k))
      {
        c := Cursor(b, k);
        PageNoInjective(blocks, c, c, |ram|);
        var addr := blocks[b].first + k;
        if physDirty[addr].migration {
          sent, out := EmitPage(b, k);
          return;
        }
        ScanStep(s, c);
        k := k + 1;
        if k >= blocks[b].pages {
          k, b := 0, b + 1;
          if b == |blocks| { b := 0; }
        }
        PageNoInjective(blocks, Cursor(b, k), StartOf(s), |ram|);
        if blocks[b].first + k == blocks[lastBlock.value].first + lastOffset {
          break;
        }
      }
      lastBlock, lastOffset := Some(b), k;
    }

    /** The branch of ram_save_block that found page (b, k) dirty. */
    method EmitPage(b: nat, k: nat) returns (sent: nat, out: seq<Byte>)
      requires Valid() && At(blocks, Cursor(b, k))
      requires PageNo(blocks, Cursor(b, k)) < |physDirty|
      modifies this`lastBlock, this`lastOffset, this`physDirty
      ensures Valid() && State() == Sent(old(State()), Cursor(b, k))
      ensures out == PageRecord(old(State()), Cursor(b, k))
      ensures PageNo(blocks, Cursor(b, k)) < |ram|
      ensures sent == if Uniform(ram[PageNo(blocks, Cursor(b, k))]) then 1 else 4096
    {
      ghost var s, c := State(), Cursor(b, k);
      SentCleansOnePage(s, c);
      assert ValidBlock(blocks[b], |ram|);
      var addr, cont := blocks[b].first + k, lastBlock == Some(b);
      physDirty := physDirty[addr := physDirty[addr].(migration := false)];
      var p := ram[addr];
      var dup := IsDupPage(p, p[0]);
      out := Record(blocks[b].id, k, cont, p, dup);
      sent := if dup then 1 else PAGE;
      lastBlock, lastOffset := Some(b), k;
      assert State().dirty == Sent(s, c).dirty && State().ram == s.ram;
    }

    /** Stage 1 of ram_save_live: mark every page dirty and restart the scan. */
    method MarkAllDirty()
      requires |ram| == |physDirty| && ValidBlocks(blocks, |ram|)
      modifies this`lastBlock, this`lastOffset, this`physDirty
      ensures Valid() && Begun(old(State()), State())
    {
      lastBlock, lastOffset := None, 0;
      var b := 0;
      while b < |blocks|
        invariant 0 <= b <= |blocks| && lastBlock.None? && lastOffset == 0
        invariant forall c :: At(blocks, c) && c.b < b ==> Dirty(State(), c)
        invariant OnlyMarked(old(physDirty), physDirty)
      {
        assert ValidBlock(blocks[b], |ram|);
        var k := 0;
        while k < blocks[b].pages
          invariant 0 <= k <= blocks[b].pages && lastBlock.None? && lastOffset == 0
          invariant forall c :: At(blocks, c) && (c.b < b || (c.b == b && c.k < k)) ==> Dirty(State(), c)
          invariant OnlyMarked(old(physDirty), physDirty)
        {
          var addr := blocks[b].first + k;
          if !physDirty[addr].migration { physDirty := physDirty[addr := ALL_DIRTY]; }
          k := k + 1;
        }
        b := b + 1;
      }
    }

    /** Stage 1 of ram_save_live: the total size, then the name and length of each block. */
    method PutHeader() returns (out: seq<Byte>)
      requires forall i :: 0 <= i < |blocks| ==> |blocks[i].id| < 256
      ensures out == SizeHeader(blocks)
    {
      hide PutBe64, NameField;
      out := PutBe64(Total(blocks) * PAGE + MEM_SIZE);
      for b := 0 to |blocks|
        invariant out + SizeEntries(blocks[b..]) == SizeHeader(blocks)
      {
        var entry := NameField(blocks[b].id) + PutBe64(blocks[b].pages * PAGE);
        assert blocks[b..][0] == blocks[b] && blocks[b..][1..] == blocks[b + 1..];
        assert out + (entry + SizeEntries(blocks[b + 1..])) == (out + entry) + SizeEntries(blocks[b + 1..]);
        out := out + entry;
      }
      assert out + [] == out;
    }

    /** Sends pages until the rate limit is reached or nothing is dirty; with no limit, until
        nothing is dirty.  sent lists the pages sent since the state s. */
    method SavePages(limit: Option<nat>, ghost s: Source, ghost sent: seq<Cursor>)
      returns (out: seq<Byte>, ghost cs: seq<Cursor>)
      requires Valid() && ValidSource(s) && Sendable(s, sent) && State() == AfterSending(s, sent)
      modifies this`lastBlock, this`lastOffset, this`physDirty
      ensures Valid() && Sendable(s, cs) && State() == AfterSending(s, cs)
      ensures Records(s, cs) == Records(s, sent) + out
      ensures limit.None? ==> NothingDirty(State())
      ensures limit.Some? ==> |cs| == |sent| + limit.value || (|cs| < |sent| + limit.value && NothingDirty(State()))
    {
      hide Sendable, AfterSending, Records, ValidSource, FirstDirty, PageRecord, Sent, NothingDirty;
      out, cs := [], sent;
      var budget := limit;
      while budget != Some(0)
        invariant Valid() && Sendable(s, cs) && State() == AfterSending(s, cs)
        invariant Records(s, cs) == Records(s, sent) + out
        invariant limit.None? ==> budget.None?
        invariant limit.Some? ==> budget.Some? && |cs| + budget.value == |sent| + limit.value
        decreases DirtyPages(State())
      {
        ghost var t := State();
        var n, bytes, c := SaveBlock();
        if n == 0 { break; }
        SentShrinksDirtyPages(t, c);
        SendOneMore(s, cs, c);
        out, cs := out + bytes, cs + [c];
        if budget.Some? { budget := Some(budget.value - 1); }
      }
    }

    /** A write of the guest to page n: new contents, and all flags but the code flag set. */
    method GuestWrite(n: nat, p: Page)
      requires Valid() && n < |ram|
      modifies this`ram, this`physDirty
      ensures Valid() && State() ==
          old(State()).(ram := old(ram)[n := p], dirty := old(physDirty)[n := MarkWritten(old(physDirty)[n])])
    {
      ram := ram[n := p];
      physDirty := physDirty[n := MarkWritten(physDirty[n])];
    }

    /** ram_save_live; limit is how many times the rate limiter lets the first loop go on. */
    method SaveLive(stage: int, limit: nat) returns (out: seq<Byte>, ghost mid: Source, ghost cs: seq<Cursor>)
      requires |ram| == |physDirty| && ValidBlocks(blocks, |ram|)
      requires stage == 1 || Valid()
      modifies this`lastBlock, this`lastOffset, this`physDirty
      ensures Valid()
      ensures stage < 0 ==> out == [] && State() == old(State())
      ensures stage >= 0 ==>
        && (if stage == 1 then Begun(old(State()), mid) else mid == old(State()))
        && ValidSource(mid) && mid.blocks == blocks && Sendable(mid, cs) && State() == AfterSending(mid, cs)
        && (forall i :: 0 <= i < |blocks| ==> |blocks[i].id| < 256)
        && out == (if stage == 1 then SizeHeader(blocks) else []) + Records(mid, cs) + PutBe64(EOS)
      ensures stage >= 0 && stage != 3 ==> |cs| == limit || (|cs| < limit && NothingDirty(State()))
      ensures stage == 3 ==> NothingDirty(State())
    {
      hide Sendable, AfterSending, Records, ValidSource, PutBe64, SizeHeader, Begun, NothingDirty;
      assert forall i :: 0 <= i < |blocks| ==> ValidBlock(blocks[i], |ram|);
      mid, cs, out := State(), [], [];
      if stage < 0 { return; }
      if stage == 1 {
        MarkAllDirty();
        out := PutHeader();
      }
      mid := State();
      SendNothing(mid);
      var pages, rest;
      pages, cs := SavePages(Some(limit), mid, []);
      if stage == 3 {
        rest, cs := SavePages(None, mid, cs);
        pages := pages + rest;
      }
      assert pages == Records(mid, cs);
      out := out + pages + PutBe64(EOS);
    }
  }

  ghost predicate OnlyMarked(s: seq<DirtyByte>, t: seq<DirtyByte>) {
    && |s| == |t|
    && forall n :: 0 <= n < |s| ==> t[n] == s[n] || (t[n] == ALL_DIRTY && !s[n].migration)
  }
}
