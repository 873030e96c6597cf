/** Live migration as a two-party system: a sender whose guest keeps writing, a stream of
    bytes in flight, and a receiver (qemu/arch_init.c). */
module Migration {
  import opened Common
  import opened Bytes
  import opened RamList
  import opened RamSave
  import opened RamLoad

  datatype System = System(src: Source, wire: seq<Byte>, dst: Dest)

  /** The receiver has every block of the sender, by name and length, in any order. */
  ghost predicate Matched(bs: seq<RamBlock>, ds: seq<RamBlock>) {
    forall i :: 0 <= i < |bs| ==> HasBlock(ds, bs[i])
  }

  predicate HasBlock(ds: seq<RamBlock>, b: RamBlock) {
    Find(ds, b.id).Some? && ds[Find(ds, b.id).value].pages == b.pages
  }

  /** The receiver's block for the sender's block b. */
  ghost function Peer(bs: seq<RamBlock>, ds: seq<RamBlock>, b: nat): (i: nat)
    requires Matched(bs, ds) && b < |bs|
    ensures i < |ds| && ds[i].id == bs[b].id && ds[i].pages == bs[b].pages
  {
    Find(ds, bs[b].id).value
  }

  ghost predicate Paired(s: Source, d: Dest) {
    ValidSource(s) && ValidDest(d) && Matched(s.blocks, d.blocks)
  }

  ghost function SourcePage(s: Source, c: Cursor): Page
    requires ValidSource(s) && At(s.blocks, c)
  {
    assert ValidBlock(s.blocks[c.b], |s.ram|);
    s.ram[PageNo(s.blocks, c)]
  }

  ghost function DestPage(s: Source, d: Dest, c: Cursor): Page
    requires Paired(s, d) && At(s.blocks, c)
  {
    var i := Peer(s.blocks, d.blocks, c.b);
    assert ValidBlock(d.blocks[i], |d.ram|);
    d.ram[d.blocks[i].first + c.k]
  }

  // ----- each record decodes to what the sender meant

  lemma {:induction false} CStringOfName(id: seq<Byte>)
    requires 0 !in id
    ensures CString(id) == id
  {
    if id != [] { CStringOfName(id[1..]); }
  }

  lemma NameDecodes(id: seq<Byte>, x: seq<Byte>)
    requires |id| < 256 && 0 !in id
    ensures GetName(NameField(id) + x) == Named(id, x)
  {
    var w := NameField(id) + x;
    assert w[1..1 + w[0]] == id && w[1 + w[0]..] == x;
    CStringOfName(id);
  }

  lemma HostDecodes(s: Source, d: Dest, c: Cursor, flags: nat, x: seq<Byte>)
    requires Paired(s, d) && At(s.blocks, c)
    requires Has(flags, CONTINUE) ==> d.cur == Some(Peer(s.blocks, d.blocks, c.b))
    ensures |s.blocks[c.b].id| < 256
    ensures GetHost(d, flags, (if Has(flags, CONTINUE) then [] else NameField(s.blocks[c.b].id)) + x)
         == Host(Peer(s.blocks, d.blocks, c.b), x)
  {
    assert ValidBlock(s.blocks[c.b], |s.ram|);
    if Has(flags, CONTINUE) {
      assert [] + x == x;
    } else {
      NameDecodes(s.blocks[c.b].id, x);
    }
  }

  /** The receiver after page c of s has arrived. */
  ghost function Received(s: Source, d: Dest, c: Cursor): Dest
    requires Paired(s, d) && At(s.blocks, c)
  {
    var i := Peer(s.blocks, d.blocks, c.b);
    assert ValidBlock(d.blocks[i], |d.ram|);
    d.(ram := d.ram[d.blocks[i].first + c.k := SourcePage(s, c)], cur := Some(i))
  }

  lemma OffsetFits(s: Source, c: Cursor, flags: nat)
    requires ValidSource(s) && At(s.blocks, c) && flags < PAGE
    ensures c.k * PAGE + flags < TWO64
    ensures (c.k * PAGE + flags) / PAGE == c.k && (c.k * PAGE + flags) % PAGE == flags
  {
    FlatBelowTotal(s.blocks, c);
  }

  /** Whatever the receiver held, the record for page c makes its copy of page c right. */
  lemma RecordDecodes(s: Source, d: Dest, c: Cursor, x: seq<Byte>)
    requires Paired(s, d) && At(s.blocks, c)
    requires s.last.Some? ==> s.last.value.b < |s.blocks| && d.cur == Some(Peer(s.blocks, d.blocks, s.last.value.b))
    ensures LoadRecord(d, PageRecord(s, c) + x) == Done(Received(s, d, c), x, false)
  {
    hide PutBe64, FromBigEndian, NameField, LoadPayload, GetHost, Received;
    assert ValidBlock(s.blocks[c.b], |s.ram|);
    var p, id := SourcePage(s, c), s.blocks[c.b].id;
    var cont := s.last.Some? && s.last.value.b == c.b;
    var flags := (if cont then CONTINUE else 0) + if Uniform(p) then COMPRESS else PAGE_DATA;
    var name := if cont then [] else NameField(id);
    var body := if Uniform(p) then [p[0]] else p;
    OffsetFits(s, c, flags);
    Be64ThenMore(c.k * PAGE + flags, name + (body + x));
    assert PageRecord(s, c) + x == PutBe64(c.k * PAGE + flags) + (name + (body + x));
    assert Has(flags, CONTINUE) == cont && Has(flags, COMPRESS) == Uniform(p) && !Has(flags, EOS)
        && !Has(flags, MEM_SIZE) && Has(flags, PAGE_DATA) == !Uniform(p);
    HostDecodes(s, d, c, flags, body + x);
    BodyDecodes(s, d, c, flags, name, x);
  }

  lemma BodyDecodes(s: Source, d: Dest, c: Cursor, flags: nat, name: seq<Byte>, x: seq<Byte>)
    requires Paired(s, d) && At(s.blocks, c)
    requires var p := SourcePage(s, c);
             && Has(flags, COMPRESS) == Uniform(p) && Has(flags, PAGE_DATA) == !Uniform(p) && !Has(flags, EOS)
             && GetHost(d, flags, name + ((if Uniform(p) then [p[0]] else p) + x)) ==
                Host(Peer(s.blocks, d.blocks, c.b), (if Uniform(p) then [p[0]] else p) + x)
    ensures var p := SourcePage(s, c);
            LoadPayload(d, c.k, flags, name + ((if Uniform(p) then [p[0]]
                else p) + x)) == Done(Received(s, d, c), x, false)
  {
    hide GetHost;
    var i := Peer(s.blocks, d.blocks, c.b);
    assert ValidBlock(d.blocks[i], |d.ram|);
    var p := SourcePage(s, c);
    if Uniform(p) {
      assert ([p[0]] + x)[0] == p[0] && ([p[0]] + x)[1..] == x;
      assert seq(PAGE, _ => p[0]) == p;
    } else {
      assert (p + x)[..PAGE] == p && (p + x)[PAGE..] == x;
    }
  }

  lemma MatchedTail(bs: seq<RamBlock>, ds: seq<RamBlock>)
    requires bs != []
    ensures Matched(bs, ds) <==> HasBlock(ds, bs[0]) && Matched(bs[1..], ds)
  {
    if HasBlock(ds, bs[0]) && Matched(bs[1..], ds) {
      forall i | 0 <= i < |bs| ensures HasBlock(ds, bs[i]) {
        if i > 0 { assert HasBlock(ds, bs[1..][i - 1]); }
      }
    }
    if Matched(bs, ds) {
      forall i | 0 <= i < |bs[1..]| ensures HasBlock(ds, bs[1..][i]) { assert bs[1..][i] == bs[i + 1]; }
    }
  }

  /** The size loop accepts a block list exactly when the receiver has all its blocks, and consumes it. */
  lemma {:induction false} SizesDecode(bs: seq<RamBlock>, d: Dest, x: seq<Byte>)
    requires Total(bs) * PAGE < TWO64
    requires forall i :: 0 <= i < |bs| ==> 1 <= bs[i].pages && |bs[i].id| < 256 && 0 !in bs[i].id
    ensures GetSizes(d, Total(bs) * PAGE, SizeEntries(bs) + x)
         == if Matched(bs, d.blocks) then SizesOk(x) else SizesBad
  {
    hide PutBe64, NameField, FromBigEndian, GetName, Matched;
    if bs == [] {
      assert [] + x == x;
      MatchedNothing(d.blocks);
    } else {
      var b, tail := bs[0], bs[1..];
      TotalSplits(bs);
      MatchedTail(bs, d.blocks);
      var w := PutBe64(b.pages * PAGE) + (SizeEntries(tail) + x);
      assert SizeEntries(bs) + x == NameField(b.id) + w;
      NameDecodes(b.id, w);
      Be64ThenMore(b.pages * PAGE, SizeEntries(tail) + x);
      SizesDecode(tail, d, x);
      assert (Total(bs) * PAGE - b.pages * PAGE) % TWO64 == Total(tail) * PAGE;
    }
  }

  lemma MatchedNothing(ds: seq<RamBlock>)
    ensures Matched([], ds)
  {}

  lemma {:induction false} TotalSplits(bs: seq<RamBlock>)
    requires bs != []
    ensures Total(bs) == bs[0].pages + Total(bs[1..])
    decreases |bs|
  {
    if |bs| == 1 {
      assert Base(bs, 1) == Base(bs, 0) + bs[0].pages;
    } else {
      var init := bs[..|bs| - 1];
      TotalSplits(init);
      BasePrefix(bs, init, |init|);
      BasePrefix(bs[1..], init[1..], |init| - 1);
      assert init[1..] == bs[1..][..|init| - 1];
    }
  }

  lemma {:induction false} BasePrefix(bs: seq<RamBlock>, init: seq<RamBlock>, n: nat)
    requires n <= |init| <= |bs| && forall i :: 0 <= i < |init| ==> init[i] == bs[i]
    ensures Base(bs, n) == Base(init, n)
  {
    if n > 0 { BasePrefix(bs, init, n - 1); }
  }

  /** The header of any sender: the receiver reads all of it if it has the sender's blocks, and refuses it if
      it has not. */
  lemma HeaderDecodes(s: Source, d: Dest, x: seq<Byte>)
    requires ValidSource(s)
    ensures forall i :: 0 <= i < |s.blocks| ==> |s.blocks[i].id| < 256
    ensures LoadRecord(d, SizeHeader(s.blocks) + x) == if Matched(s.blocks, d.blocks) then Done(d, x, false) else Bad
  {
    hide PutBe64, FromBigEndian, SizeEntries, GetSizes, Matched;
    assert forall i :: 0 <= i < |s.blocks| ==> ValidBlock(s.blocks[i], |s.ram|);
    var v := Total(s.blocks) * PAGE + MEM_SIZE;
    Be64ThenMore(v, SizeEntries(s.blocks) + x);
    assert SizeHeader(s.blocks) + x == PutBe64(v) + (SizeEntries(s.blocks) + x);
    assert v / PAGE == Total(s.blocks) && v % PAGE == MEM_SIZE;
    SizesDecode(s.blocks, d, x);
  }

  lemma EosDecodes(d: Dest, x: seq<Byte>)
    ensures LoadRecord(d, PutBe64(EOS) + x) == Done(d, x, true)
  {
    Be64ThenMore(EOS, x);
  }

  // ----- the system

  /** The invariant: the stream decodes, the receiver will remember the block the sender
      sent last, and every page is dirty or will be right once the stream is drained. */
  ghost predicate Inv(m: System) {
    && Paired(m.src, m.dst)
    && Drain(m.dst, m.wire).Drained?
    && var d := Drain(m.dst, m.wire).dest;
       && Paired(m.src, d)
       && (m.src.last.Some? ==> d.cur == Some(Peer(m.src.blocks, d.blocks, m.src.last.value.b)))
       && forall c :: At(m.src.blocks, c) ==> Dirty(m.src, c) || SourcePage(m.src, c) == DestPage(m.src, d, c)
  }

  /** A guest or device write to ram page n: new contents, and all flags but the code flag set. */
  function Written(s: Source, n: nat, p: Page): Source
    requires n < |s.ram| == |s.dirty|
  {
    s.(ram := s.ram[n := p], dirty := s.dirty[n := MarkWritten(s.dirty[n])])
  }

  /** From s to t no page has become clean, and every page that changed is dirty. */
  ghost predicate Marks(s: Source, t: Source) {
    && t.blocks == s.blocks && t.last == s.last && |t.ram| == |s.ram| == |s.dirty| == |t.dirty|
    && forall n :: 0 <= n < |s.ram| ==>
        && (s.dirty[n].migration ==> t.dirty[n].migration)
        && (t.ram[n] == s.ram[n] || t.dirty[n].migration)
  }

  /** The guest and its devices write, and mark what they write. */
  ghost predicate GuestWrites(m: System, m': System) {
    Marks(m.src, m'.src) && m' == m.(src := m'.src)
  }

  ghost predicate SendPage(m: System, m': System) {
    ValidSource(m.src) &&
    exists c :: FirstDirty(m.src, c) && PageNo(m.src.blocks, c) < |m.src.dirty|
             && m' == m.(src := Sent(m.src, c), wire := m.wire + PageRecord(m.src, c))
  }

  ghost predicate EndSection(m: System, m': System) {
    m' == m.(wire := m.wire + PutBe64(EOS))
  }

  /** A new migration starts (stage 1). */
  ghost predicate Start(m: System, m': System) {
    && Begun(m.src, m'.src) && (forall i :: 0 <= i < |m.src.blocks| ==> |m.src.blocks[i].id| < 256)
    && m'.wire == m.wire + SizeHeader(m.src.blocks) && m'.dst == m.dst
  }

  ghost predicate Receive(m: System, m': System) {
    var r := LoadRecord(m.dst, m.wire);
    r.Done? && m' == m.(wire := r.rest, dst := r.dest)
  }

  ghost predicate Step(m: System, m': System) {
    GuestWrites(m, m') || SendPage(m, m') || EndSection(m, m') || Start(m, m') || Receive(m, m')
  }

  lemma {:induction false} DrainKeepsPaired(s: Source, d: Dest, w: seq<Byte>)
    requires Paired(s, d) && Drain(d, w).Drained?
    ensures Paired(s, Drain(d, w).dest) && Drain(d, w).dest.blocks == d.blocks
    decreases |w|
  {
    if w != [] {
      RecordKeepsValid(d, w);
      RecordShrinks(d, w);
      DrainKeepsPaired(s, LoadRecord(d, w).dest, LoadRecord(d, w).rest);
    }
  }

  lemma DrainOne(d: Dest, d': Dest, w: seq<Byte>, eos: bool)
    requires w != [] && LoadRecord(d, w + []) == Done(d', [], eos)
    ensures Drain(d, w) == Drained(d')
  {
    assert w + [] == w;
  }

  lemma GuestWritesKeepInv(m: System, t: Source)
    requires Inv(m) && Marks(m.src, t)
    ensures Inv(m.(src := t))
  {
    var s := m.src;
    forall c | At(s.blocks, c)
      ensures Dirty(s, c) ==> Dirty(t, c)
      ensures Dirty(t, c) || t.ram[PageNo(s.blocks, c)] == s.ram[PageNo(s.blocks, c)]
    {
      PageNoInjective(s.blocks, c, c, |s.ram|);
    }
  }

  lemma GuestWriteKeepsInv(m: System, n: nat, p: Page)
    requires Inv(m) && n < |m.src.ram|
    ensures Inv(m.(src := Written(m.src, n, p)))
  {
    GuestWritesKeepInv(m, Written(m.src, n, p));
  }

  /** A received page replaces the copy of that page and of no other. */
  lemma ReceivedPages(s: Source, d: Dest, c: Cursor, e: Cursor)
    requires Paired(s, d) && At(s.blocks, c) && At(s.blocks, e)
    ensures Paired(s, Received(s, d, c))
    ensures DestPage(s, Received(s, d, c), e) == if e == c then SourcePage(s, c) else DestPage(s, d, e)
  {
    var i, j := Peer(s.blocks, d.blocks, c.b), Peer(s.blocks, d.blocks, e.b);
    if c.b < e.b { assert Apart(s.blocks[c.b], s.blocks[e.b]); }
    if e.b < c.b { assert Apart(s.blocks[e.b], s.blocks[c.b]); }
    PageNoInjective(d.blocks, Cursor(i, c.k), Cursor(j, e.k), |d.ram|);
  }

  /** Draining the stream with one more page record. */
  lemma DrainSent(m: System, c: Cursor)
    requires Inv(m) && FirstDirty(m.src, c)
    ensures var d := Drain(m.dst, m.wire).dest;
      Drain(m.dst, m.wire + PageRecord(m.src, c)) == Drained(Received(m.src, d, c))
  {
    hide LoadRecord, PutBe64, NameField, Received, Drain, ValidBlocks, ValidDest, Matched;
    var s, d := m.src, Drain(m.dst, m.wire).dest;
    DrainAppend(m.dst, m.wire, PageRecord(s, c));
    RecordDecodes(s, d, c, []);
    DrainOne(d, Received(s, d, c), PageRecord(s, c), false);
  }

  lemma SendPageKeepsInv(m: System, c: Cursor)
    requires Inv(m) && FirstDirty(m.src, c)
    ensures PageNo(m.src.blocks, c) < |m.src.dirty|
    ensures Inv(m.(src := Sent(m.src, c), wire := m.wire + PageRecord(m.src, c)))
  {
    hide LoadRecord, PageRecord, Drain, Received, ValidBlocks, Matched;
    var s, d := m.src, Drain(m.dst, m.wire).dest;
    SentCleansOnePage(s, c);
    DrainSent(m, c);
    ReceivedPages(s, d, c, c);
    ReceivedBlocks(s, d, c);
    forall e | At(s.blocks, e)
      ensures Dirty(Sent(s, c), e) || SourcePage(Sent(s, c), e) == DestPage(s, Received(s, d, c), e)
    {
      ReceivedPages(s, d, c, e);
    }
  }

  lemma ReceivedBlocks(s: Source, d: Dest, c: Cursor)
    requires Paired(s, d) && At(s.blocks, c)
    ensures Received(s, d, c).blocks == d.blocks && Received(s, d, c).cur == Some(Peer(s.blocks, d.blocks, c.b))
  {}

  lemma EndSectionKeepsInv(m: System)
    requires Inv(m)
    ensures Inv(m.(wire := m.wire + PutBe64(EOS)))
  {
    var d := Drain(m.dst, m.wire).dest;
    DrainAppend(m.dst, m.wire, PutBe64(EOS));
    EosDecodes(d, []);
    DrainOne(d, d, PutBe64(EOS), true);
  }

  /** Starting needs no history: any decodable stream in flight will do. */
  lemma StartEstablishesInv(m: System, m': System)
    requires ValidBlocks(m.src.blocks, |m.src.ram|) && |m.src.ram| == |m.src.dirty| && ValidDest(m.dst)
    requires Matched(m.src.blocks, m.dst.blocks) && Drain(m.dst, m.wire).Drained? && Start(m, m')
    ensures Inv(m')
  {
    var d, h := Drain(m.dst, m.wire).dest, SizeHeader(m.src.blocks);
    DrainKeepsPaired(m'.src, m.dst, m.wire);
    DrainAppend(m.dst, m.wire, h);
    HeaderDecodes(m'.src, d, []);
    DrainOne(d, d, h, false);
  }

  lemma ReceiveKeepsInv(m: System, m': System)
    requires Inv(m) && Receive(m, m')
    ensures Inv(m')
  {
    RecordKeepsValid(m.dst, m.wire);
    RecordShrinks(m.dst, m.wire);
  }

  lemma StepKeepsInv(m: System, m': System)
    requires Inv(m) && Step(m, m')
    ensures Inv(m')
  {
    if GuestWrites(m, m') {
      GuestWritesKeepInv(m, m'.src);
    } else if SendPage(m, m') {
      var c :| FirstDirty(m.src, c) && PageNo(m.src.blocks, c) < |m.src.dirty|
            && m' == m.(src := Sent(m.src, c), wire := m.wire + PageRecord(m.src, c));
      SendPageKeepsInv(m, c);
    } else if EndSection(m, m') {
      EndSectionKeepsInv(m);
    } else if Start(m, m') {
      StartEstablishesInv(m, m');
    } else {
      ReceiveKeepsInv(m, m');
    }
  }

  ghost predicate Run(ms: seq<System>) {
    ms != [] && forall i :: 0 <= i < |ms| - 1 ==> Step(ms[i], ms[i + 1])
  }

  /** Safety over whole runs, in every interleaving. */
  lemma {:induction false} RunKeepsInv(ms: seq<System>)
    requires Run(ms) && Inv(ms[0])
    ensures forall i :: 0 <= i < |ms| ==> Inv(ms[i])
    decreases |ms|
  {
    if |ms| > 1 {
      var init := ms[..|ms| - 1];
      RunKeepsInv(init);
      assert Step(ms[|ms| - 2], ms[|ms| - 1]);
      assert Inv(init[|ms| - 2]);
      StepKeepsInv(ms[|ms| - 2], ms[|ms| - 1]);
      forall i | 0 <= i < |ms| ensures Inv(ms[i]) {
        if i < |ms| - 1 { assert Inv(init[i]); }
      }
    }
  }

  /** The bytes of one call of ram_save_live keep the invariant, whatever pages it sends. */
  lemma {:induction false} SendingKeepsInv(m: System, cs: seq<Cursor>)
    requires ValidSource(m.src) && Inv(m) && Sendable(m.src, cs)
    ensures Inv(m.(src := AfterSending(m.src, cs), wire := m.wire + Records(m.src, cs)))
    decreases |cs|
  {
    hide Inv, PageRecord, Sent, ValidSource;
    if cs == [] {
      assert m.wire + [] == m.wire;
    } else {
      var init, c := cs[..|cs| - 1], cs[|cs| - 1];
      SendingKeepsInv(m, init);
      var n := m.(src := AfterSending(m.src, init), wire := m.wire + Records(m.src, init));
      SendPageKeepsInv(n, c);
      assert n.wire + PageRecord(n.src, c) == m.wire + Records(m.src, cs);
    }
  }

  /** The purpose of migration: both machines hold the same pages. */
  ghost predicate SameRam(s: Source, d: Dest) {
    Paired(s, d) && forall c :: At(s.blocks, c) ==> SourcePage(s, c) == DestPage(s, d, c)
  }

  /** The last record of w is an end-of-section mark. */
  ghost predicate EndsInEos(d: Dest, w: seq<Byte>)
    decreases |w|
  {
    var r := LoadRecord(d, w);
    r.Done? && (RecordShrinks(d, w); if r.rest == [] then r.eos else EndsInEos(r.dest, r.rest))
  }

  lemma {:induction false} EosEnds(d: Dest, w: seq<Byte>)
    requires Drain(d, w).Drained?
    ensures EndsInEos(d, w + PutBe64(EOS))
    decreases |w|
  {
    if w == [] {
      assert w + PutBe64(EOS) == PutBe64(EOS) + [];
      EosDecodes(d, []);
    } else {
      RecordThenMore(d, w, PutBe64(EOS));
      RecordShrinks(d, w);
      EosEnds(LoadRecord(d, w).dest, LoadRecord(d, w).rest);
    }
  }

  /** ram_load returns from such a stream, and what is left is such a stream again. */
  lemma {:induction false} SectionReturns(d: Dest, w: seq<Byte>)
    requires EndsInEos(d, w)
    ensures var r := LoadSection(d, w);
            r.Done? && |r.rest| < |w| && (r.rest == [] || EndsInEos(r.dest, r.rest))
    decreases |w|
  {
    var r := LoadRecord(d, w);
    RecordShrinks(d, w);
    if !r.eos { SectionReturns(r.dest, r.rest); }
  }

  /** The final stage of ram_save_live leaves a stream that makes both RAMs equal. */
  lemma LastStage(m: System, cs: seq<Cursor>)
    requires Inv(m) && Sendable(m.src, cs) && NothingDirty(AfterSending(m.src, cs))
    ensures var w := m.wire + Records(m.src, cs) + PutBe64(EOS);
            && EndsInEos(m.dst, w) && Drain(m.dst, w).Drained?
            && SameRam(AfterSending(m.src, cs), Drain(m.dst, w).dest)
  {
    SendingKeepsInv(m, cs);
    var n := m.(src := AfterSending(m.src, cs), wire := m.wire + Records(m.src, cs));
    EndSectionKeepsInv(n);
    EosEnds(m.dst, n.wire);
  }

  /** The receiver calls ram_load until the stream is empty. */
  method LoadAll(receiver: RamReceiver, wire: seq<Byte>)
    requires EndsInEos(receiver.State(), wire)
    modifies receiver
    ensures Drain(old(receiver.State()), wire) == Drained(receiver.State())
  {
    hide LoadSection, EndsInEos, LoadRecord;
    var rest := wire;
    while rest != []
      invariant Drain(receiver.State(), rest) == Drain(old(receiver.State()), wire)
      invariant rest == [] || EndsInEos(receiver.State(), rest)
      decreases |rest|
    {
      SectionReturns(receiver.State(), rest);
      DrainSection(receiver.State(), rest);
      var _, left := receiver.Load(rest);
      rest := left;
    }
  }

  /** Two machines with the same blocks, before migration. */
  ghost predicate Fit(s: Source, d: Dest) {
    ValidBlocks(s.blocks, |s.ram|) && |s.ram| == |s.dirty| && ValidDest(d) && Matched(s.blocks, d.blocks)
  }

  /** After any run that begins with the start of a migration, a stopped guest, the final stage of
      ram_save_live and a receiver that reads everything, both RAMs are equal. */
  method Finish(sender: RamSender, receiver: RamReceiver, ghost run: seq<System>, limit: nat, wire: seq<Byte>)
    requires Run(run) && |run| > 1 && Fit(run[0].src, run[0].dst) && run[0].wire == [] && Start(run[0], run[1])
    requires run[|run| - 1] == System(sender.State(), wire, receiver.State())
    requires sender.Valid()
    modifies sender, receiver
    ensures SameRam(sender.State(), receiver.State())
  {
    hide Inv, Step, PutBe64, EndsInEos, Records, AfterSending, Sendable, SameRam, NothingDirty, Start, LoadRecord;
    StartEstablishesInv(run[0], run[1]);
    ghost var ms := run[1..];
    forall i | 0 <= i < |ms| - 1 ensures Step(ms[i], ms[i + 1]) { assert Step(run[i + 1], run[i + 2]); }
    RunKeepsInv(ms);
    assert Inv(ms[|ms| - 1]);
    var out, mid, cs := sender.SaveLive(3, limit);
    LastStage(run[|run| - 1], cs);
    assert wire + out == wire + Records(mid, cs) + PutBe64(EOS);
    LoadAll(receiver, wire + out);
  }

  // ----- a whole migration, call by call

  /** What happens between the first and the last stage. */
  datatype Event =
    | GuestWrite(n: nat, p: Page)
    | SaveMore(limit: nat)     // ram_save_live, stage 2
    | LoadSome                 // ram_load

  /** What an event does; cs are the pages a call of ram_save_live sends: as many as the limit allows, or all that are
      dirty. */
  ghost predicate Effect(m: System, e: Event, m': System, cs: seq<Cursor>)
    requires ValidSource(m.src)
  {
    match e
    case GuestWrite(n, p) =>
      m' == if n < |m.src.ram| then m.(src := Written(m.src, n, p)) else m
    case SaveMore(limit) =>
      && Sendable(m.src, cs) && m'.src == AfterSending(m.src, cs) && m'.dst == m.dst
      && m'.wire == m.wire + (Records(m.src, cs) + PutBe64(EOS))
      && (|cs| == limit || (|cs| < limit && NothingDirty(m'.src)))
    case LoadSome =>
      if m.wire == [] then m' == m
      else var r := LoadSection(m.dst, m.wire); r.Done? && m' == m.(dst := r.dest, wire := r.rest)
  }

  /** One call of ram_save_live, whatever pages it sends, leaves a good stream behind. */
  lemma CallKeepsInv(m: System, cs: seq<Cursor>)
    requires ValidSource(m.src) && Inv(m) && Sendable(m.src, cs)
    ensures var w := m.wire + (Records(m.src, cs) + PutBe64(EOS));
      Inv(m.(src := AfterSending(m.src, cs), wire := w)) && EndsInEos(m.dst, w)
  {
    hide Inv, Records, AfterSending, Sendable, PutBe64, LoadRecord, EndsInEos;
    DrainsOf(m.(src := AfterSending(m.src, cs), wire := m.wire + Records(m.src, cs)));
    SendingKeepsInv(m, cs);
    var n := m.(src := AfterSending(m.src, cs), wire := m.wire + Records(m.src, cs));
    EndSectionKeepsInv(n);
    EosEnds(m.dst, n.wire);
    assert n.wire + PutBe64(EOS) == m.wire + (Records(m.src, cs) + PutBe64(EOS));
  }

  lemma DrainsOf(m: System)
    ensures Inv(m) ==> Drain(m.dst, m.wire).Drained?
  {}

  /** One call of ram_load on such a stream. */
  lemma {:induction false} SectionKeepsInv(m: System)
    requires Inv(m) && LoadSection(m.dst, m.wire).Done?
    ensures var r := LoadSection(m.dst, m.wire); Inv(m.(dst := r.dest, wire := r.rest))
    decreases |m.wire|
  {
    hide Inv, LoadRecord;
    var r := LoadRecord(m.dst, m.wire);
    RecordShrinks(m.dst, m.wire);
    var n := m.(dst := r.dest, wire := r.rest);
    ReceiveKeepsInv(m, n);
    if !r.eos { SectionKeepsInv(n); }
  }

  /** ram_save_live with stage 1 on machines that fit, then guest writes, calls with stage 2 and calls of
      ram_load in any order, then stage 3 and a receiver that reads the rest: both RAMs are equal. */
  method Migrate(sender: RamSender, receiver: RamReceiver, events: seq<Event>, limit: nat)
    returns (ghost ms: seq<System>)
    requires Fit(sender.State(), receiver.State())
    modifies sender, receiver
    ensures SameRam(sender.State(), receiver.State())
    ensures |ms| == |events| + 1 && ms[0].src.ram == old(sender.ram) && ms[0].dst == old(receiver.State())
    ensures forall i :: 0 <= i < |events| ==> Happens(ms[i], events[i], ms[i + 1])
    ensures sender.ram == ms[|events|].src.ram
  {
    hide Inv, PutBe64, Drain, EndsInEos, Records, AfterSending, Sendable, SameRam, NothingDirty, Fit, LoadRecord,
      SizeHeader, LoadSection, Effect;
    var wire := First(sender, receiver, limit);
    ms := [System(sender.State(), wire, receiver.State())];
    for i := 0 to |events|
      invariant sender.Valid() && Inv(System(sender.State(), wire, receiver.State()))
      invariant wire == [] || EndsInEos(receiver.State(), wire)
      invariant |ms| == i + 1 && ms[i] == System(sender.State(), wire, receiver.State())
      invariant ms[0].src.ram == old(sender.ram) && ms[0].dst == old(receiver.State())
      invariant forall j :: 0 <= j < i ==> Happens(ms[j], events[j], ms[j + 1])
    {
      ghost var cs;
      wire, cs := Between(sender, receiver, wire, events[i]);
      ms := ms + [System(sender.State(), wire, receiver.State())];
    }
    ghost var m := System(sender.State(), wire, receiver.State());
    var out, mid, cs := sender.SaveLive(3, limit);
    LastStage(m, cs);
    assert wire + out == wire + Records(mid, cs) + PutBe64(EOS);
    LoadAll(receiver, wire + out);
  }

  ghost predicate Happens(m: System, e: Event, m': System) {
    ValidSource(m.src) && exists cs :: Effect(m, e, m', cs)
  }

  method First(sender: RamSender, receiver: RamReceiver, limit: nat) returns (wire: seq<Byte>)
    requires Fit(sender.State(), receiver.State())
    modifies sender
    ensures sender.Valid() && Inv(System(sender.State(), wire, receiver.State()))
    ensures EndsInEos(receiver.State(), wire) && sender.ram == old(sender.ram)
  {
    hide Inv, PutBe64, EndsInEos, Records, AfterSending, Sendable, NothingDirty, LoadRecord, SizeHeader, Begun,
      ValidBlocks, ValidDest, Matched;
    ghost var m := System(sender.State(), [], receiver.State());
    var out, mid, cs := sender.SaveLive(1, limit);
    ghost var n := System(mid, SizeHeader(mid.blocks), receiver.State());
    assert [] + SizeHeader(mid.blocks) == SizeHeader(mid.blocks);
    StartIs(m, n);
    StartEstablishesInv(m, n);
    CallKeepsInv(n, cs);
    assert n.wire + (Records(mid, cs) + PutBe64(EOS)) == out;
    wire := out;
  }

  lemma StartIs(m: System, n: System)
    requires Begun(m.src, n.src) && (forall i :: 0 <= i < |n.src.blocks| ==> |n.src.blocks[i].id| < 256)
    requires n.wire == m.wire + SizeHeader(n.src.blocks) && n.dst == m.dst
    ensures Start(m, n)
  {}

  method Between(sender: RamSender, receiver: RamReceiver, wire: seq<Byte>, e: Event)
    returns (wire': seq<Byte>, ghost sent: seq<Cursor>)
    requires sender.Valid() && Inv(System(sender.State(), wire, receiver.State()))
    requires wire == [] || EndsInEos(receiver.State(), wire)
    modifies sender, receiver
    ensures sender.Valid() && Inv(System(sender.State(), wire', receiver.State()))
    ensures wire' == [] || EndsInEos(receiver.State(), wire')
    ensures Effect(System(old(sender.State()), wire, old(receiver.State())), e,
                   System(sender.State(), wire', receiver.State()), sent)
  {
    hide Inv, PutBe64, EndsInEos, Records, AfterSending, Sendable, NothingDirty, LoadRecord, LoadSection;
    ghost var m := System(sender.State(), wire, receiver.State());
    wire', sent := wire, [];
    match e
    case GuestWrite(n, p) =>
      if n < |sender.ram| {
        GuestWriteKeepsInv(m, n, p);
        sender.GuestWrite(n, p);
      }
    case SaveMore(limit) =>
      var out, mid, cs := sender.SaveLive(2, limit);
      CallKeepsInv(m, cs);
      wire', sent := wire + out, cs;
      assert out == Records(mid, cs) + PutBe64(EOS);
    case LoadSome =>
      if wire != [] {
        SectionReturns(m.dst, wire);
        SectionKeepsInv(m);
        var r, rest := receiver.Load(wire);
        wire' := rest;
      }
  }
}
