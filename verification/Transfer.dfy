/** A whole migration over its file: the bytes of ram_save_live pass through QEMUFile and the rate-limited file to the
    channel, and ram_load reads what the channel has delivered (qemu/arch_init.c:251-458, qemu/savevm.c:438-511,
    qemu/buffered_file.c). */
module Transfer {
  import opened Common
  import opened Bytes
  import opened RamList
  import opened RamSave
  import opened RamLoad
  import opened Migration
  import BufferedFile
  import opened QemuFile

  /** What can happen between the first and the last stage. */
  datatype Happening =
    | Writes(n: nat, p: Page)   // the guest writes a page
    | Save(limit: nat)          // ram_save_live, stage 2
    | Tick                      // buffered_rate_tick
    | Notify                    // qemu_file_put_notify: the channel can take more
    | Load                      // ram_load, once a whole section has arrived

  // ----- reading a section that has arrived

  lemma RecordRest(d: Dest, w: seq<Byte>)
    requires LoadRecord(d, w).Done?
    ensures var r := LoadRecord(d, w).rest; |r| <= |w| && r == w[|w| - |r|..]
  {
    hide GetSizes, FromBigEndian, GetHost, PutPage;
    HeaderRest(d, w);
    var h := GetHeader(d, w);
    if Has(h.flags, COMPRESS) || Has(h.flags, PAGE_DATA) { HostRest(d, h.flags, h.rest); }
  }

  lemma HostRest(d: Dest, flags: nat, w: seq<Byte>)
    ensures var r := GetHost(d, flags, w).rest; |r| <= |w| && r == w[|w| - |r|..]
  {
    hide CString, Find;
    assert w[0..] == w;
  }

  lemma HeaderRest(d: Dest, w: seq<Byte>)
    requires GetHeader(d, w).Header?
    ensures var r := GetHeader(d, w).rest; |r| <= |w| && r == w[|w| - |r|..]
  {
    hide GetSizes, FromBigEndian;
    var v := FromBigEndian(w[..8]);
    if Has(v % PAGE, MEM_SIZE) { SizesRest(d, v / PAGE * PAGE, w[8..]); }
  }

  lemma {:induction false} SizesRest(d: Dest, total: nat, w: seq<Byte>)
    requires GetSizes(d, total, w).SizesOk?
    ensures var r := GetSizes(d, total, w).rest; |r| <= |w| && r == w[|w| - |r|..]
    decreases |w|
  {
    hide FromBigEndian, CString, Find;
    if total != 0 {
      var rest := GetName(w).rest;
      SizesRest(d, (total - FromBigEndian(rest[..8])) % TWO64, rest[8..]);
    } else {
      assert w[0..] == w;
    }
  }

  lemma NothingToLoad(d: Dest)
    ensures LoadSection(d, []).Bad?
  {}

  /** A section leaves a tail of the stream. */
  lemma {:induction false} SectionRest(d: Dest, w: seq<Byte>)
    requires LoadSection(d, w).Done?
    ensures var r := LoadSection(d, w).rest; |r| <= |w| && r == w[|w| - |r|..]
    decreases |w|
  {
    hide LoadRecord;
    var r := LoadRecord(d, w);
    RecordRest(d, w);
    RecordShrinks(d, w);
    if !r.eos { SectionRest(r.dest, r.rest); }
  }

  /** A section that has arrived reads the same whatever is still to come. */
  lemma {:induction false} SectionThenMore(d: Dest, w: seq<Byte>, x: seq<Byte>)
    requires LoadSection(d, w).Done?
    ensures LoadSection(d, w + x) == LoadSection(d, w).(rest := LoadSection(d, w).rest + x)
    decreases |w|
  {
    hide LoadRecord;
    var r := LoadRecord(d, w);
    RecordThenMore(d, w, x);
    RecordShrinks(d, w);
    if !r.eos { SectionThenMore(r.dest, r.rest, x); }
  }

  // ----- the run

  /** Without an error, the bytes on their way are the wire of a migration that is in order. */
  ghost predicate Good(sender: RamSender, receiver: RamReceiver, file: WriteFile)
    requires file.Valid()
    reads sender, receiver, file, file.buf, file.under, file.under.buffer, file.under.channel
  {
    && sender.Valid()
    && (!file.under.hasError ==>
        && Inv(System(sender.State(), file.Bytes(), receiver.State()))
        && (file.Bytes() == [] || EndsInEos(receiver.State(), file.Bytes())))
  }

  /** The receiver reads a section if one has arrived, and nothing else changes. */
  ghost predicate ReadEffect(d: Dest, f: BufferedFile.File, d': Dest, f': BufferedFile.File) {
    var r := LoadSection(d, f.delivered);
    if f.error || !r.Done? then d' == d && f' == f else d' == r.dest && f' == f.(delivered := r.rest)
  }

  method Start(sender: RamSender, receiver: RamReceiver, file: WriteFile, limit: nat)
    requires Fit(sender.State(), receiver.State()) && file.Valid() && file.Bytes() == []
    modifies sender, file, file.buf, file.under, file.under.buffer, file.under.channel
    ensures file.Valid() && (file.under.buffer == old(file.under.buffer) || fresh(file.under.buffer))
    ensures Good(sender, receiver, file) && sender.ram == old(sender.ram)
  {
    hide Inv, Fit, EndsInEos;
    var out := First(sender, receiver, limit);
    file.Put(out);
    assert [] + out == out;
  }

  method One(sender: RamSender, receiver: RamReceiver, file: WriteFile, e: Happening) returns (ghost sent: seq<Cursor>)
    requires file.Valid() && Good(sender, receiver, file)
    modifies sender, receiver, file, file.buf, file.under, file.under.buffer, file.under.channel
    ensures file.Valid() && (file.under.buffer == old(file.under.buffer) || fresh(file.under.buffer))
    ensures Good(sender, receiver, file)
    ensures !e.Load? ==> receiver.State() == old(receiver.State())
    ensures e.Writes? ==> file.under.F() == old(file.under.F())
    ensures e.Writes? ==>
      sender.State() ==
        if e.n < |old(sender.ram)| then Written(old(sender.State()), e.n, e.p) else old(sender.State())
    ensures e.Save? ==>
      && Sendable(old(sender.State()), sent) && sender.State() == AfterSending(old(sender.State()), sent)
      && (|sent| == e.limit || (|sent| < e.limit && NothingDirty(sender.State())))
      && (!file.under.hasError ==>
          file.Bytes() == old(file.Bytes()) + (Records(old(sender.State()), sent) + PutBe64(EOS)))
    ensures !e.Writes? && !e.Save? ==> sender.State() == old(sender.State())
    ensures e.Tick? ==> file.under.F() == BufferedFile.AfterTick(old(file.under.F()))
    ensures e.Notify? ==> file.under.F() == BufferedFile.AfterPut(old(file.under.F()), [])
    ensures e.Load? ==> ReadEffect(old(receiver.State()), old(file.under.F()), receiver.State(), file.under.F())
  {
    hide Inv, EndsInEos, PutBe64, Records, AfterSending, Sendable, NothingDirty, LoadRecord, LoadSection,
      BufferedFile.AfterPut, BufferedFile.AfterTick, BufferedFile.Stream, BufferedFile.InOrder;
    ghost var m := System(sender.State(), file.Bytes(), receiver.State());
    sent := [];
    match e
    case Writes(n, p) =>
      if n < |sender.ram| {
        if !file.under.hasError { GuestWriteKeepsInv(m, n, p); }
        sender.GuestWrite(n, p);
      }
    case Save(limit) =>
      var out, mid, cs := sender.SaveLive(2, limit);
      sent := cs;
      assert out == Records(mid, cs) + PutBe64(EOS);
      if !file.under.hasError { CallKeepsInv(m, cs); }
      file.Put(out);
    case Tick =>
      ghost var f := file.under.F();
      file.under.RateTick();
      if !file.under.hasError { BufferedFile.OpKeepsStream(f, BufferedFile.Tick); }
      Whole(BufferedFile.Stream(f));
    case Notify =>
      ghost var f := file.under.F();
      var _ := file.under.PutBuffer([]);
      if !file.under.hasError { BufferedFile.NoErrorInOrder(f, []); ErrorsStay(f, []); }
      Whole(BufferedFile.Stream(f));
    case Load =>
      Read(sender, receiver, file);
  }

  /** ram_load, once a whole section has arrived. */
  method Read(sender: RamSender, receiver: RamReceiver, file: WriteFile)
    requires file.Valid() && Good(sender, receiver, file)
    modifies receiver, file.under.channel
    ensures file.Valid() && Good(sender, receiver, file)
    ensures ReadEffect(old(receiver.State()), old(file.under.F()), receiver.State(), file.under.F())
  {
    hide Inv, EndsInEos, LoadRecord, LoadSection;
    var arrived, d := file.under.channel.delivered, Dest(receiver.blocks, receiver.ram, receiver.block);
    ghost var m := System(sender.State(), file.Bytes(), receiver.State());
    var r := LoadSection(d, arrived);
    if !r.Done? || file.under.hasError { return; }
    NothingToLoad(d);
    SectionRest(d, arrived);
    ghost var later := file.under.Pending() + file.buf[..file.bufIndex];
    assert file.Bytes() == arrived + later;
    SectionThenMore(d, arrived, later);
    SectionKeepsInv(m);
    SectionReturns(d, m.wire);
    var _, rest := receiver.Load(arrived);
    var _ := file.under.channel.Take(|arrived| - |rest|);
    assert file.Bytes() == r.rest + later;
  }

  /** Guest memory after the writes among the happenings. */
  function RamAfter(ram: seq<Page>, happenings: seq<Happening>): seq<Page> {
    if happenings == [] then ram
    else
      var r, e := RamAfter(ram, happenings[..|happenings| - 1]), happenings[|happenings| - 1];
      if e.Writes? && e.n < |r| then r[e.n := e.p] else r
  }

  /** The whole of it.  In every run without an error the bytes that are delivered and not yet read, pending and
      collected make up the wire of a migration in order; and when the channel has taken everything after the last
      stage, the receiver ends up with the sender's memory. */
  method Migrate(sender: RamSender, receiver: RamReceiver, file: WriteFile, happenings: seq<Happening>, limit: nat)
    returns (done: bool)
    requires Fit(sender.State(), receiver.State()) && file.Valid() && file.Bytes() == []
    modifies sender, receiver, file, file.buf, file.under, file.under.buffer, file.under.channel
    ensures file.Valid()
    ensures done ==> SameRam(sender.State(), receiver.State())
    ensures !done && !file.under.hasError ==> Good(sender, receiver, file)
    ensures sender.ram == RamAfter(old(sender.ram), happenings)
  {
    hide Inv, EndsInEos, Fit, PutBe64, Records, AfterSending, Sendable, NothingDirty, LoadRecord, LoadSection, Drain,
      SameRam, BufferedFile.Stream;
    Start(sender, receiver, file, limit);
    for i := 0 to |happenings|
      invariant file.Valid() && (file.under.buffer == old(file.under.buffer) || fresh(file.under.buffer))
      invariant Good(sender, receiver, file) && sender.ram == RamAfter(old(sender.ram), happenings[..i])
    {
      assert happenings[..i + 1][..i] == happenings[..i];
      ghost var _ := One(sender, receiver, file, happenings[i]);
    }
    assert happenings[..|happenings|] == happenings;
    done := Finish(sender, receiver, file, limit);
  }

  /** The last stage, with the guest stopped, and the close of the file. */
  method Finish(sender: RamSender, receiver: RamReceiver, file: WriteFile, limit: nat) returns (done: bool)
    requires file.Valid() && Good(sender, receiver, file)
    modifies sender, receiver, file, file.buf, file.under, file.under.buffer, file.under.channel
    ensures file.Valid()
    ensures done ==> SameRam(sender.State(), receiver.State())
    ensures !done && !file.under.hasError ==> Good(sender, receiver, file)
    ensures sender.ram == old(sender.ram)
  {
    hide Inv, EndsInEos, PutBe64, Records, AfterSending, Sendable, NothingDirty, LoadRecord, LoadSection, Drain,
      SameRam, BufferedFile.Stream;
    ghost var m := System(sender.State(), file.Bytes(), receiver.State());
    var out, mid, cs := sender.SaveLive(3, limit);
    if !file.under.hasError {
      LastStage(m, cs);
      CallKeepsInv(m, cs);
      assert out == Records(mid, cs) + PutBe64(EOS);
      assert m.wire + out == m.wire + Records(mid, cs) + PutBe64(EOS);
    }
    file.Put(out);
    done := file.Close();
    Whole(BufferedFile.Stream(file.under.F()));
    assert file.buf[..0] == [];
    if done {
      LoadAll(receiver, file.under.channel.delivered);
    }
  }
}
