/** A running guest under migration: translated code, dirty flags and TLBs on the sending side together with the
    stream and the receiver (qemu/exec.c, qemu/arch_init.c:113-336).  Both parts share guest memory and its dirty
    bytes; the model shows that the emulator marks what migration relies on, and that migration clears flags the way
    the emulator relies on. */
module LiveGuest {
  import opened Common
  import opened Bytes
  import opened RamList
  import RamSave
  import RamLoad
  import Migration
  import TbCache
  import Smc

  datatype Live = Live(m: Smc.Machine, blocks: seq<RamBlock>, last: Option<Cursor>, wire: seq<Byte>, dst: RamLoad.Dest)

  function Src(l: Live): RamSave.Source { RamSave.Source(l.blocks, l.m.ram, l.m.dirty, l.last) }

  function Sys(l: Live): Migration.System { Migration.System(Src(l), l.wire, l.dst) }

  const MIGRATION_FLAG: DirtyByte := DirtyByte(false, false, true, false)

  datatype Act =
    | Guest(a: Smc.Action)    // anything the emulator does, but for clearing migration flags
    | Begin                   // ram_save_live, stage 1
    | Send(c: Cursor)         // ram_save_block
    | EndSection
    | Receive                 // one record of ram_load

  ghost predicate Step(l: Live, act: Act, l': Live) {
    match act
    case Guest(a) =>
      Smc.Step(l.m, a, l'.m) && (a.Reset? ==> !a.flags.migration) && l' == l.(m := l'.m)
    case Begin =>
      Migration.Start(Sys(l), Sys(l')) && Smc.Becomes(l'.m, l.m.(dirty := l'.m.dirty))
    case Send(c) =>
      && RamSave.ValidSource(Src(l)) && RamSave.FirstDirty(Src(l), c)
      && Smc.Step(l.m, Smc.Reset({PageNo(l.blocks, c)}, MIGRATION_FLAG), l'.m)
      && l' == l.(m := l'.m, last := Some(c), wire := l.wire + RamSave.PageRecord(Src(l), c))
    case EndSection => Migration.EndSection(Sys(l), Sys(l')) && l'.m == l.m
    case Receive => Migration.Receive(Sys(l), Sys(l')) && l'.m == l.m
  }

  /** Every page of guest memory belongs to a block of the list. */
  ghost predicate Listed(l: Live) {
    forall p :: 0 <= p < |l.m.ram| ==> Smc.InList(l.blocks, p)
  }

  ghost predicate Inv(l: Live) {
    Smc.Inv(l.m) && Migration.Inv(Sys(l)) && Listed(l)
  }

  /** What the emulator needs for the step, and for stage 1 that no page with code lacks the migration flag. */
  ghost predicate Safe(l: Live, act: Act) {
    match act
    case Guest(a) => Smc.Safe(l.m, a)
    case Begin =>
      forall c :: At(l.blocks, c) && !RamSave.Dirty(Src(l), c) ==> TbCache.NoCodeOn(l.m.tbs, PageNo(l.blocks, c))
    case _ => true
  }

  // ----- the emulator marks every write

  /** What a step of the emulator does to a page: it stays, or it is marked; and no migration flag goes away. */
  ghost predicate MarksPage(m: Smc.Machine, m': Smc.Machine, p: nat)
    requires p < |m.ram| == |m.dirty| == |m'.ram| == |m'.dirty|
  {
    && (m.dirty[p].migration ==> m'.dirty[p].migration)
    && (m'.ram[p] == m.ram[p] || m'.dirty[p].migration)
  }

  /** Direct stores too, because their pages have all flags set. */
  lemma EmulatorMarks(m: Smc.Machine, a: Smc.Action, m': Smc.Machine)
    requires Smc.Inv(m) && Smc.Step(m, a, m') && (a.Reset? ==> !a.flags.migration)
    ensures |m'.ram| == |m.ram| == |m.dirty| == |m'.dirty|
    ensures forall p :: 0 <= p < |m.ram| ==> MarksPage(m, m', p)
  {
    hide TbCache.Survivors, TbCache.NoCodeOn, TbCache.ValidBlock, Smc.Current;
  }

  /** A store marks its page and changes no other page and no other page's flags. */
  lemma StoreMarksItsPage(m: Smc.Machine, k: Smc.Key, off: nat, data: seq<Byte>, m': Smc.Machine)
    requires Smc.Inv(m) && Smc.Step(m, Smc.Action.Store(k, off, data), m')
    ensures var p := m.tlb[k].page;
      && p < |m.ram| == |m.dirty| == |m'.ram| == |m'.dirty| && m'.dirty[p].migration
      && m'.ram == m.ram[p := m'.ram[p]] && m'.dirty == m.dirty[p := m'.dirty[p]]
  {
    hide TbCache.Survivors, TbCache.NoCodeOn, TbCache.ValidBlock, Smc.Current;
    var p := m.tlb[k].page;
    assert m.dirty == m.dirty[p := m.dirty[p]];
  }

  // ----- the two parts together

  /** Clearing a page's migration flag through the emulator is what sending the page does. */
  lemma SendClears(l: Live, c: Cursor, m': Smc.Machine)
    requires At(l.blocks, c) && PageNo(l.blocks, c) < |l.m.dirty|
    requires Smc.Step(l.m, Smc.Reset({PageNo(l.blocks, c)}, MIGRATION_FLAG), m')
    ensures m'.ram == l.m.ram && m'.dirty == RamSave.Sent(Src(l), c).dirty
  {
    var n := PageNo(l.blocks, c);
    assert m'.dirty == l.m.dirty[n := l.m.dirty[n].(migration := false)];
  }

  lemma MarkedWrites(l: Live, l': Live)
    requires l' == l.(m := l'.m) && |l'.m.ram| == |l.m.ram| == |l.m.dirty| == |l'.m.dirty|
    requires forall p :: 0 <= p < |l.m.ram| ==> MarksPage(l.m, l'.m, p)
    ensures Migration.GuestWrites(Sys(l), Sys(l'))
  {
    forall n | 0 <= n < |l.m.ram|
      ensures l.m.dirty[n].migration ==> l'.m.dirty[n].migration
      ensures l'.m.ram[n] == l.m.ram[n] || l'.m.dirty[n].migration
    {
      assert MarksPage(l.m, l'.m, n);
    }
  }

  /** Every step of the whole is a step of migration. */
  lemma StepRefines(l: Live, act: Act, l': Live)
    requires Smc.Inv(l.m) && Step(l, act, l')
    ensures Migration.Step(Sys(l), Sys(l'))
  {
    hide Smc.Inv, Smc.Step, RamSave.ValidSource, RamSave.PageRecord, RamSave.FirstDirty, RamLoad.LoadRecord;
    match act
    case Guest(a) =>
      EmulatorMarks(l.m, a, l'.m);
      MarkedWrites(l, l');
    case Begin => assert Migration.Start(Sys(l), Sys(l'));
    case Send(c) =>
      SentPageInside(Src(l), c);
      SendClears(l, c, l'.m);
      assert Migration.SendPage(Sys(l), Sys(l'));
    case EndSection => assert Migration.EndSection(Sys(l), Sys(l'));
    case Receive => assert Migration.Receive(Sys(l), Sys(l'));
  }

  lemma SentPageInside(s: RamSave.Source, c: Cursor)
    requires RamSave.ValidSource(s) && RamSave.FirstDirty(s, c)
    ensures At(s.blocks, c) && PageNo(s.blocks, c) < |s.dirty|
  {}

  lemma CodeIsListed(l: Live)
    requires Smc.Inv(l.m) && Listed(l)
    ensures forall b, p :: b in l.m.tbs && p in TbCache.OnPages(l.m.tbs[b]) ==> Smc.InList(l.blocks, p)
  {
    forall b, p | b in l.m.tbs && p in TbCache.OnPages(l.m.tbs[b]) ensures Smc.InList(l.blocks, p) {
      assert Smc.BlockTracked(l.m.dirty, l.m.tbs[b]);
    }
  }

  /** Every step of the whole is a step of the emulator or leaves it alone, so it keeps the emulator's invariant
      exactly when it is safe. */
  lemma EmulatorKeeps(l: Live, act: Act, l': Live)
    requires Smc.Inv(l.m) && Listed(l) && Step(l, act, l')
    ensures Smc.Inv(l'.m) <==> Safe(l, act)
  {
    hide Smc.Inv, Smc.Step, Smc.Safe, Smc.InList, Listed, RamSave.Begun, TbCache.NoCodeOn, RamSave.ValidSource,
      RamSave.FirstDirty, Migration.Receive;
    match act
    case Guest(a) => Smc.StepKeepsInvExactly(l.m, a, l'.m);
    case Begin =>
      CodeIsListed(l);
      Smc.StageOneExactly(l.m, Src(l), Src(l'));
      Smc.BecomesInv(l'.m, l.m.(dirty := l'.m.dirty));
    case Send(c) =>
      SentPageInside(Src(l), c);
      Smc.StepKeepsInvExactly(l.m, Smc.Reset({PageNo(l.blocks, c)}, MIGRATION_FLAG), l'.m);
      SafeReset(l.m, {PageNo(l.blocks, c)});
    case EndSection =>
    case Receive =>
  }

  lemma SafeReset(m: Smc.Machine, ps: set<nat>)
    ensures Smc.Safe(m, Smc.Reset(ps, MIGRATION_FLAG))
  {}

  lemma ListedStays(l: Live, act: Act, l': Live)
    requires Smc.Inv(l.m) && Step(l, act, l') && Listed(l)
    ensures Listed(l')
  {
    hide Smc.Inv, Smc.Step, Smc.InList, RamSave.PageRecord, RamLoad.LoadRecord, RamSave.FirstDirty, RamSave.ValidSource;
    match act
    case Guest(a) => EmulatorMarks(l.m, a, l'.m);
    case Begin =>
    case Send(c) =>
      SentPageInside(Src(l), c);
      EmulatorMarksReset(l.m, {PageNo(l.blocks, c)}, l'.m);
    case EndSection =>
    case Receive =>
  }

  lemma EmulatorMarksReset(m: Smc.Machine, ps: set<nat>, m': Smc.Machine)
    requires Smc.Step(m, Smc.Reset(ps, MIGRATION_FLAG), m')
    ensures m'.ram == m.ram
  {}

  /** A step keeps both invariants exactly when it is safe. */
  lemma StepKeepsInvExactly(l: Live, act: Act, l': Live)
    requires Inv(l) && Step(l, act, l')
    ensures Inv(l') <==> Safe(l, act)
  {
    hide Smc.Inv, Migration.Inv, Listed, Step, Safe, Migration.Step;
    StepRefines(l, act, l');
    Migration.StepKeepsInv(Sys(l), Sys(l'));
    EmulatorKeeps(l, act, l');
    ListedStays(l, act, l');
  }

  ghost predicate Run(ls: seq<Live>, acts: seq<Act>) {
    |ls| == |acts| + 1 && forall i :: 0 <= i < |acts| ==> Step(ls[i], acts[i], ls[i + 1])
  }

  /** Before a migration: a coherent machine, and a receiver with the same blocks. */
  ghost predicate Fresh(l: Live) {
    Smc.Inv(l.m) && Listed(l) && Migration.Fit(Src(l), l.dst) && l.wire == []
  }

  lemma FirstStep(l: Live, l': Live)
    requires Fresh(l) && Step(l, Begin, l') && Safe(l, Begin)
    ensures Inv(l')
  {
    hide Smc.Inv, Listed, Safe, RamSave.Begun, Smc.Becomes, Migration.Inv;
    EmulatorKeeps(l, Begin, l');
    ListedStays(l, Begin, l');
    Migration.StartEstablishesInv(Sys(l), Sys(l'));
  }

  /** Every run that begins a migration and takes safe steps: all translated code is current, and every page is dirty
      or right once the stream is drained, in every state. */
  lemma {:induction false} RunKeepsInv(ls: seq<Live>, acts: seq<Act>)
    requires Run(ls, acts) && acts != [] && acts[0] == Begin && Fresh(ls[0])
    requires forall i :: 0 <= i < |acts| ==> Safe(ls[i], acts[i])
    ensures forall i :: 0 < i < |ls| ==> Inv(ls[i]) && Smc.Coherent(ls[i].m)
    decreases |acts|
  {
    hide Step, Safe, Fresh, Smc.Inv, Migration.Inv, Listed;
    var n := |acts| - 1;
    if n == 0 {
      FirstStep(ls[0], ls[1]);
    } else {
      RunKeepsInv(ls[..n + 1], acts[..n]);
      assert Inv(ls[..n + 1][n]);
      StepKeepsInvExactly(ls[n], acts[n], ls[n + 1]);
    }
    forall i | 0 < i < |ls| ensures Inv(ls[i]) && Smc.Coherent(ls[i].m) {
      if i <= n { assert Inv(ls[..n + 1][i]); }
      InvIsCoherent(ls[i]);
    }
  }

  lemma InvIsCoherent(l: Live)
    ensures Inv(l) ==> Smc.Coherent(l.m)
  {}

  /** So when the guest is stopped after such a run, the last stage makes both memories equal. */
  lemma Finish(ls: seq<Live>, acts: seq<Act>, cs: seq<Cursor>)
    requires Run(ls, acts) && acts != [] && acts[0] == Begin && Fresh(ls[0])
    requires forall i :: 0 <= i < |acts| ==> Safe(ls[i], acts[i])
    requires var s := Src(ls[|acts|]);
      RamSave.ValidSource(s) && RamSave.Sendable(s, cs) && RamSave.NothingDirty(RamSave.AfterSending(s, cs))
    ensures var l := ls[|acts|];
      var w := l.wire + RamSave.Records(Src(l), cs) + PutBe64(RamSave.EOS);
      && RamLoad.Drain(l.dst, w).Drained?
      && Migration.SameRam(RamSave.AfterSending(Src(l), cs), RamLoad.Drain(l.dst, w).dest)
  {
    hide Smc.Inv, Migration.Inv, Listed, Step, Safe, Fresh, RamSave.Sendable, RamSave.AfterSending, RamSave.Records,
      RamSave.NothingDirty, Migration.SameRam, RamLoad.Drain, PutBe64;
    RunKeepsInv(ls, acts);
    assert Inv(ls[|acts|]);
    Migration.LastStage(Sys(ls[|acts|]), cs);
  }

  // ----- what goes wrong otherwise

  /** A store straight to memory is kept by migration exactly when the page is dirty already or does not change. */
  lemma DirectStoreExactly(l: Live, k: Smc.Key, off: nat, data: seq<Byte>)
    requires Migration.Inv(Sys(l)) && k in l.m.tlb && l.m.tlb[k].page < |l.m.ram| && off + |data| <= PAGE
    requires Smc.InList(l.blocks, l.m.tlb[k].page)
    ensures var p, l' := l.m.tlb[k].page, l.(m := Smc.FastStore(l.m, k, off, data));
      p < |l.m.dirty| && (Migration.Inv(Sys(l')) <==> l.m.dirty[p].migration || l'.m.ram[p] == l.m.ram[p])
  {
    hide Smc.Poke, RamLoad.Drain, RamSave.ValidSource, RamLoad.ValidDest, Migration.Matched;
    var p, l' := l.m.tlb[k].page, l.(m := Smc.FastStore(l.m, k, off, data));
    PokedPages(l.m.ram, p, off, data);
    SourceSizes(Src(l));
    if l.m.dirty[p].migration || l'.m.ram[p] == l.m.ram[p] {
      Migration.GuestWritesKeepInv(Sys(l), Src(l'));
    } else {
      var c :| At(l.blocks, c) && PageNo(l.blocks, c) == p;
      var d := RamLoad.Drain(l.dst, l.wire).dest;
      assert !RamSave.Dirty(Src(l), c) && Migration.SourcePage(Src(l), c) == Migration.DestPage(Src(l), d, c);
    }
  }

  lemma SourceSizes(s: RamSave.Source)
    requires RamSave.ValidSource(s)
    ensures |s.ram| == |s.dirty|
  {}

  lemma PokedPages(ram: seq<Page>, p: nat, off: nat, data: seq<Byte>)
    requires p < |ram| && off + |data| <= PAGE
    ensures var r := Smc.Poke(ram, p, off, data);
      |r| == |ram| && forall n :: 0 <= n < |ram| && n != p ==> r[n] == ram[n]
  {}

  /** Two modes of CPU 0 that map virtual page 5 to different pages, both clean, and a receiver that has both. */
  function TwoModes(): Live {
    var zero: Page := seq(PAGE, _ => 0);
    var clean := ALL_DIRTY.(migration := false);
    var block := RamBlock([1], 0, 2);
    Live(Smc.Machine(map[], [zero, zero], [clean, clean],
                     map[Smc.Key(0, 0, 5) := Smc.NotDirty(5, 0), Smc.Key(0, 1, 5) := Smc.NotDirty(5, 1)], {}),
         [block], Some(Cursor(0, 0)), [], RamLoad.Dest([block], [zero, zero], Some(0)))
  }

  lemma TwoModesIsGood()
    ensures Inv(TwoModes())
  {
    var l := TwoModes();
    assert ValidBlock(l.blocks[0], 2);
    assert Base(l.blocks, 1) == Base(l.blocks, 0) + 2;
    assert Migration.HasBlock(l.dst.blocks, l.blocks[0]);
    forall p | 0 <= p < 2 ensures Smc.InList(l.blocks, p) {
      assert At(l.blocks, Cursor(0, p)) && PageNo(l.blocks, Cursor(0, p)) == p;
    }
  }

  /** A store that is not safe can make migration lose the next one: it goes straight to a page that is clean. */
  lemma UnsafeStoreLosesWrite()
    ensures var l, k, j := TwoModes(), Smc.Key(0, 0, 5), Smc.Key(0, 1, 5);
      var l1 := l.(m := Smc.SlowStore(l.m, k, 0, [7]));
      var l2 := l1.(m := Smc.FastStore(l1.m, j, 0, [7]));
      && Inv(l) && !Safe(l, Guest(Smc.Action.Store(k, 0, [7])))
      && Step(l, Guest(Smc.Action.Store(k, 0, [7])), l1) && Step(l1, Guest(Smc.Action.Store(j, 0, [7])), l2)
      && !Migration.Inv(Sys(l2))
  {
    hide Migration.Inv, RamLoad.Drain, Smc.Inv, Listed;
    TwoModesIsGood();
    var l, k, j := TwoModes(), Smc.Key(0, 0, 5), Smc.Key(0, 1, 5);
    var l1 := l.(m := Smc.SlowStore(l.m, k, 0, [7]));
    assert l.m.tlb[j] == Smc.NotDirty(5, 1) && l1.m.tlb[j] == Smc.Fast(5, 1);
    assert Step(l, Guest(Smc.Action.Store(k, 0, [7])), l1);
    StoreKeepsMigration(l, k, 0, [7], l1);
    assert At(l1.blocks, Cursor(0, 1)) && PageNo(l1.blocks, Cursor(0, 1)) == 1;
    DirectStoreExactly(l1, j, 0, [7]);
    assert Smc.Poke(l1.m.ram, 1, 0, [7])[1][0] == 7;
  }

  /** Migration survives any store from a good state; it is the emulator's invariant that may not. */
  lemma StoreKeepsMigration(l: Live, k: Smc.Key, off: nat, data: seq<Byte>, l': Live)
    requires Inv(l) && Step(l, Guest(Smc.Action.Store(k, off, data)), l')
    ensures Migration.Inv(Sys(l')) && Listed(l')
  {
    hide Smc.Inv, Migration.Inv, Listed, Step, Migration.Step;
    StepRefines(l, Guest(Smc.Action.Store(k, off, data)), l');
    Migration.StepKeepsInv(Sys(l), Sys(l'));
    ListedStays(l, Guest(Smc.Action.Store(k, off, data)), l');
  }
}
