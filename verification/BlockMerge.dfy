/** Sorting and merging of write requests (qemu/block.c:2282-2372). */
module BlockMerge {
  import opened Common
  import opened Bytes
  import opened Iovec

  const IOV_MAX: nat := 1024

  datatype Request = Request(sector: nat, nbSectors: nat, iov: Iov)

  ghost predicate ValidRequest(r: Request) { |Flatten(r.iov)| == SECTOR * r.nbSectors }

  /** bdrv_merge_requests of the driver: whether a gap between two requests may be filled with zeros. */
  type Driver = (Request, Request) -> bool

  function End(r: Request): nat { r.sector + r.nbSectors }

  ghost predicate Sorted(rs: seq<Request>) {
    forall i, j :: 0 <= i < j < |rs| ==> rs[i].sector <= rs[j].sector
  }

  // ----- what a list of writes does to the disk

  ghost predicate Writes(r: Request, pos: nat) { SECTOR * r.sector <= pos < SECTOR * End(r) }

  ghost predicate AllValid(rs: seq<Request>) { forall i :: 0 <= i < |rs| ==> ValidRequest(rs[i]) }

  ghost function ByteOf(r: Request, pos: nat): Byte
    requires ValidRequest(r) && Writes(r, pos)
  {
    Flatten(r.iov)[pos - SECTOR * r.sector]
  }

  /** The byte that the writes, done in order, leave at pos; None when none of them writes there. */
  ghost function Written(rs: seq<Request>, pos: nat): Option<Byte>
    requires AllValid(rs)
  {
    if rs == [] then None
    else if Writes(rs[|rs| - 1], pos) then Some(ByteOf(rs[|rs| - 1], pos))
    else Written(rs[..|rs| - 1], pos)
  }

  // ----- merging

  predicate ShouldMerge(drv: Driver, a: Request, b: Request) {
    (b.sector <= End(a) || drv(a, b)) && |a.iov| + |b.iov| + 1 <= IOV_MAX
  }

  /** The vector of the merged request: the first one cut where the second starts, zeros if there
      is a gap, then all of the second. */
  function MergedIov(a: Request, b: Request): Iov
    requires a.sector <= b.sector
  {
    Pieces(a.iov, 0, SECTOR * (b.sector - a.sector))
    + (if b.sector > End(a) then [Zeros(SECTOR * (b.sector - End(a)))] else [])
    + Pieces(b.iov, 0, |Flatten(b.iov)|)
  }

  function Zeros(n: nat): seq<Byte> { seq(n, _ => 0) }

  function Merged(a: Request, b: Request): Request
    requires a.sector <= b.sector
  {
    Request(a.sector, |Flatten(MergedIov(a, b))| / SECTOR, MergedIov(a, b))
  }

  /** One turn of the loop, on the requests kept so far. */
  function MergeStep(drv: Driver, kept: seq<Request>, r: Request): (out: seq<Request>)
    requires kept != [] ==> kept[|kept| - 1].sector <= r.sector
    ensures out != []
  {
    if kept != [] && ShouldMerge(drv, kept[|kept| - 1], r)
    then kept[..|kept| - 1] + [Merged(kept[|kept| - 1], r)]
    else kept + [r]
  }

  ghost predicate Ready(kept: seq<Request>, rs: seq<Request>) {
    && AllValid(kept) && Sorted(kept) && (kept == [] <==> rs == [])
    && (rs != [] ==> kept[|kept| - 1].sector <= rs[|rs| - 1].sector && End(kept[|kept| - 1]) == End(rs[|rs| - 1]))
  }

  /** The requests that remain after merging. */
  ghost function MergeAll(drv: Driver, rs: seq<Request>): (kept: seq<Request>)
    requires Sorted(rs) && AllValid(rs)
    ensures Ready(kept, rs)
  {
    if rs == [] then []
    else
      var kept := MergeAll(drv, rs[..|rs| - 1]);
      StepReady(drv, kept, rs[..|rs| - 1], rs[|rs| - 1]);
      assert rs[..|rs| - 1] + [rs[|rs| - 1]] == rs;
      MergeStep(drv, kept, rs[|rs| - 1])
  }

  /** No vector is too long for the host. */
  ghost predicate ShortVectors(rs: seq<Request>) { forall i :: 0 <= i < |rs| ==> |rs[i].iov| <= 1024 }

  lemma {:induction false} MergeKeepsVectorsShort(drv: Driver, rs: seq<Request>)
    requires Sorted(rs) && AllValid(rs) && ShortVectors(rs)
    ensures ShortVectors(MergeAll(drv, rs))
    decreases |rs|
  {
    hide MergeAll, Merged, Sorted, AllValid;
    if rs == [] {
      MergeNothing(drv);
    } else {
      var init, r := rs[..|rs| - 1], rs[|rs| - 1];
      assert rs == init + [r];
      MergeAllLast(drv, init, r);
      MergeKeepsVectorsShort(drv, init);
      var kept := MergeAll(drv, init);
      if kept != [] { MergedLength(kept[|kept| - 1], r); }
    }
  }

  lemma MergeNothing(drv: Driver)
    ensures Sorted([]) && AllValid([]) && MergeAll(drv, []) == []
  {
  }

  lemma MergedLength(a: Request, b: Request)
    requires a.sector <= b.sector
    ensures |Merged(a, b).iov| <= |a.iov| + |b.iov| + 1
  {}

  lemma MergedData(a: Request, b: Request)
    requires ValidRequest(a) && ValidRequest(b) && a.sector <= b.sector
    ensures Flatten(MergedIov(a, b)) ==
            Flatten(a.iov)[..Min(SECTOR * (b.sector - a.sector), SECTOR * a.nbSectors)]
            + (if b.sector > End(a) then Zeros(SECTOR * (b.sector - End(a))) else [])
            + Flatten(b.iov)
    ensures ValidRequest(Merged(a, b)) && End(Merged(a, b)) == End(b)
  {
    hide Pieces, Zeros, Flatten;
    var first := Pieces(a.iov, 0, SECTOR * (b.sector - a.sector));
    var gap := if b.sector > End(a) then [Zeros(SECTOR * (b.sector - End(a)))] else [];
    var second := Pieces(b.iov, 0, |Flatten(b.iov)|);
    PiecesAreSlice(a.iov, 0, SECTOR * (b.sector - a.sector));
    PiecesAreSlice(b.iov, 0, |Flatten(b.iov)|);
    FlattenConcat(first + gap, second);
    FlattenConcat(first, gap);
    FlattenGap(gap);
    ZerosLength(SECTOR * (if b.sector > End(a) then b.sector - End(a) else 0));
    assert |Flatten(MergedIov(a, b))| == SECTOR * (End(b) - a.sector);
  }

  lemma FlattenGap(gap: Iov)
    requires |gap| <= 1
    ensures Flatten(gap) == if gap == [] then [] else gap[0]
  {
    if gap != [] {
      assert gap[1..] == [];
    }
  }

  lemma ZerosLength(n: nat)
    ensures |Zeros(n)| == n
  {}

  lemma StepReady(drv: Driver, kept: seq<Request>, rs: seq<Request>, r: Request)
    requires Ready(kept, rs) && ValidRequest(r) && Sorted(rs + [r])
    ensures kept != [] ==> kept[|kept| - 1].sector <= r.sector
    ensures Ready(MergeStep(drv, kept, r), rs + [r])
  {
    hide ValidRequest, MergedIov, Flatten, ShouldMerge;
    if rs != [] {
      assert (rs + [r])[|rs| - 1].sector <= (rs + [r])[|rs|].sector;
      MergedData(kept[|kept| - 1], r);
    }
  }

  lemma MergeAllLast(drv: Driver, init: seq<Request>, r: Request)
    requires Sorted(init + [r]) && AllValid(init + [r])
    ensures Sorted(init) && AllValid(init) && ValidRequest(r)
    ensures var kept := MergeAll(drv, init);
            && AllValid(kept) && (kept == [] <==> init == []) && (kept != [] ==> kept[|kept| - 1].sector <= r.sector)
            && (init != [] ==> End(kept[|kept| - 1]) == End(init[|init| - 1]))
            && MergeAll(drv, init + [r]) == MergeStep(drv, kept, r)
  {
    var rs := init + [r];
    assert rs[..|init|] == init && rs[|init|] == r;
    forall i | 0 <= i < |init| ensures ValidRequest(init[i]) { assert rs[i] == init[i]; }
    StepReady(drv, MergeAll(drv, init), init, r);
  }

  // ----- what one merge does to the written bytes

  lemma MergedBytes(a: Request, b: Request, pos: nat)
    requires ValidRequest(a) && ValidRequest(b) && a.sector <= b.sector
    ensures ValidRequest(Merged(a, b))
    ensures Writes(Merged(a, b), pos) <==> SECTOR * a.sector <= pos < SECTOR * End(b)
    ensures Writes(b, pos) ==> ByteOf(Merged(a, b), pos) == ByteOf(b, pos)
    ensures Writes(a, pos) && pos < SECTOR * b.sector ==> ByteOf(Merged(a, b), pos) == ByteOf(a, pos)
    ensures SECTOR * End(a) <= pos < SECTOR * b.sector ==> ByteOf(Merged(a, b), pos) == 0
  {
    MergedData(a, b);
  }

  lemma WrittenLast(init: seq<Request>, r: Request, pos: nat)
    requires AllValid(init) && ValidRequest(r)
    ensures AllValid(init + [r])
    ensures Written(init + [r], pos) == if Writes(r, pos) then Some(ByteOf(r, pos)) else Written(init, pos)
  {
    assert (init + [r])[..|init|] == init;
  }

  /** Position pos is filled with a zero when a and r are merged over a gap. */
  ghost predicate Filled(a: Request, r: Request, pos: nat) { SECTOR * End(a) <= pos < SECTOR * r.sector }

  /** Position pos is cut off a when r, which ends before it, is merged into it. */
  ghost predicate CutOff(a: Request, r: Request, pos: nat) { SECTOR * End(r) <= pos < SECTOR * End(a) }

  lemma StepWritten(drv: Driver, kept: seq<Request>, r: Request, pos: nat)
    requires AllValid(kept) && ValidRequest(r) && kept != [] && kept[|kept| - 1].sector <= r.sector
    ensures AllValid(MergeStep(drv, kept, r))
    ensures var a, merge := kept[|kept| - 1], ShouldMerge(drv, kept[|kept| - 1], r);
            Written(MergeStep(drv, kept, r), pos) ==
              if Writes(r, pos) then Some(ByteOf(r, pos))
              else if merge && Filled(a, r, pos) then Some(0)
              else if merge && CutOff(a, r, pos) then Written(kept[..|kept| - 1], pos)
              else Written(kept, pos)
  {
    var a, init := kept[|kept| - 1], kept[..|kept| - 1];
    if ShouldMerge(drv, a, r) {
      MergedBytes(a, r, pos);
      WrittenLast(init, Merged(a, r), pos);
      assert init + [a] == kept;
      WrittenLast(init, a, pos);
    } else {
      WrittenLast(kept, r, pos);
    }
  }

  lemma {:induction false} NotWrittenBeyond(rs: seq<Request>, pos: nat)
    requires AllValid(rs) && forall i :: 0 <= i < |rs| ==> SECTOR * End(rs[i]) <= pos
    ensures Written(rs, pos).None?
  {
    if rs != [] { NotWrittenBeyond(rs[..|rs| - 1], pos); }
  }

  // ----- requests whose ends do not decrease

  ghost predicate EndsGrow(rs: seq<Request>) {
    forall i, j :: 0 <= i < j < |rs| ==> End(rs[i]) <= End(rs[j])
  }

  /** pos lies in a gap before some request that the driver agreed to merge. */
  ghost predicate InAgreedGap(drv: Driver, rs: seq<Request>, pos: nat)
    requires Sorted(rs) && AllValid(rs)
  {
    exists i :: 0 < i < |rs| && AgreedGap(drv, rs, i, pos)
  }

  ghost predicate AgreedGap(drv: Driver, rs: seq<Request>, i: nat, pos: nat)
    requires Sorted(rs) && AllValid(rs) && 0 < i < |rs|
  {
    var kept := MergeAll(drv, rs[..i]);
    drv(kept[|kept| - 1], rs[i]) && Filled(rs[i - 1], rs[i], pos)
  }

  /** Merging keeps the meaning of the writes: every byte written stays written with the same
      value, and only gaps the driver agreed to become zero. */
  lemma {:induction false} MergeKeepsWrites(drv: Driver, rs: seq<Request>, pos: nat)
    requires Sorted(rs) && AllValid(rs) && EndsGrow(rs)
    ensures Written(MergeAll(drv, rs), pos) == Written(rs, pos)
            || (Written(rs, pos).None? && Written(MergeAll(drv, rs), pos) == Some(0) && InAgreedGap(drv, rs, pos))
    decreases |rs|
  {
    hide MergedIov, Flatten, Pieces, Merged;
    if |rs| > 0 {
      var init, r := rs[..|rs| - 1], rs[|rs| - 1];
      assert init + [r] == rs;
      MergeKeepsWrites(drv, init, pos);
      var kept := MergeAll(drv, init);
      WrittenLast(init, r, pos);
      if kept != [] {
        StepWritten(drv, kept, r, pos);
        if Filled(kept[|kept| - 1], r, pos) {
          NotWrittenBeyond(init, pos);
          if drv(kept[|kept| - 1], r) { assert AgreedGap(drv, rs, |init|, pos); }
        }
        GapStays(drv, init, r, pos);
      }
    }
  }

  lemma GapStays(drv: Driver, init: seq<Request>, r: Request, pos: nat)
    requires Sorted(init + [r]) && Sorted(init) && AllValid(init) && AllValid(init + [r])
    ensures InAgreedGap(drv, init, pos) ==> InAgreedGap(drv, init + [r], pos)
  {
    if InAgreedGap(drv, init, pos) {
      var i :| 0 < i < |init| && AgreedGap(drv, init, i, pos);
      assert (init + [r])[..i] == init[..i];
      assert AgreedGap(drv, init + [r], i, pos);
    }
  }

  // ----- any requests, any driver

  /** Request i is merged into what was kept before it, and pos is cut off by that or lies in the gap. */
  ghost predicate Hurt(drv: Driver, rs: seq<Request>, i: nat, pos: nat)
    requires Sorted(rs) && AllValid(rs) && 0 < i < |rs|
  {
    var kept := MergeAll(drv, rs[..i]);
    ShouldMerge(drv, kept[|kept| - 1], rs[i]) && (CutOff(rs[i - 1], rs[i], pos) || Filled(rs[i - 1], rs[i], pos))
  }

  /** Nothing after request i writes pos or hurts it again. */
  ghost predicate HurtLast(drv: Driver, rs: seq<Request>, i: nat, pos: nat)
    requires Sorted(rs) && AllValid(rs) && 0 < i < |rs|
  {
    Hurt(drv, rs, i, pos) && forall j :: i < j < |rs| ==> !Writes(rs[j], pos) && !Hurt(drv, rs, j, pos)
  }

  /** What is left at pos then: a zero in a gap, and under a tail that is cut off whatever was kept below it. */
  ghost function Remains(drv: Driver, rs: seq<Request>, i: nat, pos: nat): Option<Byte>
    requires Sorted(rs) && AllValid(rs) && 0 < i < |rs|
  {
    var kept := MergeAll(drv, rs[..i]);
    if Filled(rs[i - 1], rs[i], pos) then Some(0) else Written(kept[..|kept| - 1], pos)
  }

  /** One more request: it writes pos, or hurts it, or leaves it as it was. */
  lemma HurtStep(drv: Driver, init: seq<Request>, r: Request, pos: nat)
    requires init != [] && Sorted(init + [r]) && AllValid(init + [r])
    ensures Sorted(init) && AllValid(init)
    ensures var rs, n := init + [r], |init|;
      Written(MergeAll(drv, rs), pos) ==
        if Writes(r, pos) then Some(ByteOf(r, pos))
        else if Hurt(drv, rs, n, pos) then Remains(drv, rs, n, pos)
        else Written(MergeAll(drv, init), pos)
  {
    hide MergeAll, MergeStep, Written, Merged, ShouldMerge;
    MergeAllLast(drv, init, r);
    var rs, kept := init + [r], MergeAll(drv, init);
    assert rs[..|init|] == init;
    StepWritten(drv, kept, r, pos);
  }

  lemma HurtBefore(drv: Driver, init: seq<Request>, r: Request, i: nat, pos: nat)
    requires 0 < i < |init| && Sorted(init) && AllValid(init) && Sorted(init + [r]) && AllValid(init + [r])
    ensures Hurt(drv, init + [r], i, pos) == Hurt(drv, init, i, pos)
    ensures Remains(drv, init + [r], i, pos) == Remains(drv, init, i, pos)
  {
    assert (init + [r])[..i] == init[..i];
  }

  lemma HurtLastBefore(drv: Driver, init: seq<Request>, r: Request, i: nat, pos: nat)
    requires 0 < i < |init| && Sorted(init) && AllValid(init) && Sorted(init + [r]) && AllValid(init + [r])
    ensures HurtLast(drv, init + [r], i, pos) <==>
      HurtLast(drv, init, i, pos) && !Writes(r, pos) && !Hurt(drv, init + [r], |init|, pos)
  {
    hide Hurt, Writes, Sorted, AllValid;
    var rs := init + [r];
    forall j | 0 < j < |init| ensures Hurt(drv, rs, j, pos) == Hurt(drv, init, j, pos) && rs[j] == init[j] {
      HurtBefore(drv, init, r, j, pos);
    }
    if HurtLast(drv, rs, i, pos) {
      assert !Writes(rs[|init|], pos);
      forall j | i < j < |init| ensures !Writes(init[j], pos)
          && !Hurt(drv, init, j, pos) { assert !Writes(rs[j], pos); }
    }
    if HurtLast(drv, init, i, pos) && !Writes(r, pos) && !Hurt(drv, rs, |init|, pos) {
      forall j | i < j < |rs| ensures !Writes(rs[j], pos) && !Hurt(drv, rs, j, pos) {
        if j < |init| { assert !Writes(init[j], pos); }
      }
    }
  }

  /** What the merged requests leave at pos, for any driver and vectors of any length. */
  lemma {:induction false} MergeExactly(drv: Driver, rs: seq<Request>, pos: nat)
    requires Sorted(rs) && AllValid(rs)
    ensures (forall i :: 0 < i < |rs| ==> !HurtLast(drv, rs, i, pos)) ==>
      Written(MergeAll(drv, rs), pos) == Written(rs, pos)
    ensures forall i :: 0 < i < |rs| && HurtLast(drv, rs, i, pos) ==>
      Written(MergeAll(drv, rs), pos) == Remains(drv, rs, i, pos)
    decreases |rs|
  {
    if |rs| <= 1 {
      if rs != [] { MergeOne(drv, rs); }
    } else {
      var init, r := rs[..|rs| - 1], rs[|rs| - 1];
      assert init + [r] == rs;
      assert Sorted(init) && AllValid(init);
      MergeExactly(drv, init, pos);
      MergeExactlyStep(drv, init, r, pos);
    }
  }

  lemma MergeOne(drv: Driver, rs: seq<Request>)
    requires Sorted(rs) && AllValid(rs) && |rs| == 1
    ensures MergeAll(drv, rs) == rs
  {
    assert rs[..0] == [];
  }

  lemma MergeExactlyStep(drv: Driver, init: seq<Request>, r: Request, pos: nat)
    requires init != [] && Sorted(init) && AllValid(init) && Sorted(init + [r]) && AllValid(init + [r])
    requires (forall i :: 0 < i < |init| ==> !HurtLast(drv, init, i, pos)) ==>
      Written(MergeAll(drv, init), pos) == Written(init, pos)
    requires forall i :: 0 < i < |init| && HurtLast(drv, init, i, pos) ==>
      Written(MergeAll(drv, init), pos) == Remains(drv, init, i, pos)
    ensures var rs := init + [r];
      && ((forall i :: 0 < i < |rs| ==> !HurtLast(drv, rs, i, pos)) ==>
          Written(MergeAll(drv, rs), pos) == Written(rs, pos))
      && forall i :: 0 < i < |rs| && HurtLast(drv, rs, i, pos) ==>
          Written(MergeAll(drv, rs), pos) == Remains(drv, rs, i, pos)
  {
    hide Written, MergeAll, Sorted, AllValid, Remains;
    var rs, n := init + [r], |init|;
    assert ValidRequest(rs[n]) by { assert AllValid(rs); LastValid(rs); }
    HurtStep(drv, init, r, pos);
    WrittenLast(init, r, pos);
    forall i | 0 < i < n
      ensures HurtLast(drv, rs, i, pos) <==> HurtLast(drv, init, i, pos) && !Writes(r, pos) && !Hurt(drv, rs, n, pos)
      ensures Remains(drv, rs, i, pos) == Remains(drv, init, i, pos)
    {
      HurtLastBefore(drv, init, r, i, pos);
      HurtBefore(drv, init, r, i, pos);
    }
    assert HurtLast(drv, rs, n, pos) <==> Hurt(drv, rs, n, pos);
    SortedStep(rs, n);
  }

  lemma LastValid(rs: seq<Request>)
    requires AllValid(rs) && rs != []
    ensures ValidRequest(rs[|rs| - 1])
  {}

  lemma SortedStep(rs: seq<Request>, i: nat)
    requires Sorted(rs) && 0 < i < |rs|
    ensures rs[i - 1].sector <= rs[i].sector
  {}

  /** Merging keeps all writes exactly when nothing is hurt, or what remains happens to be the byte written. */
  lemma MergeKeepsWritesExactly(drv: Driver, rs: seq<Request>)
    requires Sorted(rs) && AllValid(rs)
    ensures (forall pos: nat :: SameAt(drv, rs, pos)) <==>
      forall pos: nat, i: nat :: 0 < i < |rs| && HurtLast(drv, rs, i, pos) ==>
          Remains(drv, rs, i, pos) == Written(rs, pos)
  {
    hide Written, MergeAll, Sorted, AllValid, Remains, HurtLast;
    forall pos: nat
      ensures SameAt(drv, rs, pos) <==>
        forall i: nat :: 0 < i < |rs| && HurtLast(drv, rs, i, pos) ==> Remains(drv, rs, i, pos) == Written(rs, pos)
    {
      MergeExactly(drv, rs, pos);
    }
  }

  /** A caller's view: where no later request ends before its predecessor without pos being written again,
      pos keeps its byte, unless it lies in a gap the driver agreed to fill and becomes zero. */
  lemma NoTailLost(drv: Driver, rs: seq<Request>, pos: nat)
    requires Sorted(rs) && AllValid(rs) && !Lost(rs, pos)
    ensures
      || Written(MergeAll(drv, rs), pos) == Written(rs, pos)
      || (Written(MergeAll(drv, rs), pos) == Some(0) && InAgreedGap(drv, rs, pos))
    ensures (forall a, b :: !drv(a, b)) ==> Written(MergeAll(drv, rs), pos) == Written(rs, pos)
  {
    hide Written, MergeAll, AllValid, Sorted;
    MergeExactly(drv, rs, pos);
    forall i | 0 < i < |rs| && HurtLast(drv, rs, i, pos) ensures AgreedGap(drv, rs, i, pos) {
      assert !LostAt(rs, i, pos);
      KeptEnd(drv, rs, i);
    }
  }

  lemma KeptEnd(drv: Driver, rs: seq<Request>, i: nat)
    requires Sorted(rs) && AllValid(rs) && 0 < i < |rs|
    ensures var kept := MergeAll(drv, rs[..i]); kept != [] && End(kept[|kept| - 1]) == End(rs[i - 1])
  {}

  // ----- when only touching requests are merged and no vector gets too long

  /** The number of vector elements of all requests. */
  function Elements(rs: seq<Request>): nat {
    if rs == [] then 0 else Elements(rs[..|rs| - 1]) + |rs[|rs| - 1].iov|
  }

  /** pos is cut off by a request that ends before its predecessor, and no later request writes it. */
  ghost predicate Lost(rs: seq<Request>, pos: nat) {
    exists i :: 0 < i < |rs| && LostAt(rs, i, pos)
  }

  ghost predicate LostAt(rs: seq<Request>, i: nat, pos: nat)
    requires 0 < i < |rs|
  {
    CutOff(rs[i - 1], rs[i], pos) && forall j :: i < j < |rs| ==> !Writes(rs[j], pos)
  }

  lemma LostStep(init: seq<Request>, r: Request, pos: nat)
    requires init != []
    ensures Lost(init + [r], pos) <==> (Lost(init, pos) && !Writes(r, pos)) || CutOff(init[|init| - 1], r, pos)
  {
    var rs, n := init + [r], |init|;
    if i :| 0 < i < |rs| && LostAt(rs, i, pos) {
      if i < n {
        assert !Writes(rs[n], pos);
        forall j | i < j < n ensures !Writes(init[j], pos) { assert !Writes(rs[j], pos); }
        assert LostAt(init, i, pos);
      }
    }
    if CutOff(init[n - 1], r, pos) { assert LostAt(rs, n, pos); }
    if Lost(init, pos) && !Writes(r, pos) {
      var i :| 0 < i < |init| && LostAt(init, i, pos);
      forall j | i < j < |rs| ensures !Writes(rs[j], pos) { if j < n { assert !Writes(init[j], pos); } }
      assert LostAt(rs, i, pos);
    }
  }

  /** The kept requests do not touch each other, and the last one is not too long. */
  ghost predicate Apart(kept: seq<Request>, rs: seq<Request>) {
    && (forall i, j :: 0 <= i < j < |kept| ==> End(kept[i]) < kept[j].sector)
    && (kept != [] ==> |kept[|kept| - 1].iov| <= Elements(rs))
  }

  lemma StepApart(drv: Driver, kept: seq<Request>, rs: seq<Request>, r: Request)
    requires Apart(kept, rs) && Ready(kept, rs) && ValidRequest(r) && Sorted(rs + [r])
    requires Elements(rs + [r]) < IOV_MAX && forall a, b :: !drv(a, b)
    ensures kept != [] ==> kept[|kept| - 1].sector <= r.sector
    ensures Apart(MergeStep(drv, kept, r), rs + [r])
  {
    assert (rs + [r])[..|rs|] == rs;
    if kept != [] { assert (rs + [r])[|rs| - 1].sector <= (rs + [r])[|rs|].sector; }
  }

  lemma {:induction false} AllApart(drv: Driver, rs: seq<Request>)
    requires Sorted(rs) && AllValid(rs) && Elements(rs) < IOV_MAX && forall a, b :: !drv(a, b)
    ensures Apart(MergeAll(drv, rs), rs)
    decreases |rs|
  {
    if rs != [] {
      var init, r := rs[..|rs| - 1], rs[|rs| - 1];
      assert init + [r] == rs;
      AllApart(drv, init);
      StepApart(drv, MergeAll(drv, init), init, r);
    }
  }

  /** What merging does to the written bytes, exactly: a lost byte is not written at all, and
      every other byte is what the requests one after the other leave. */
  lemma {:induction false} SmallBatchExactly(drv: Driver, rs: seq<Request>, pos: nat)
    requires Sorted(rs) && AllValid(rs) && Elements(rs) < IOV_MAX && forall a, b :: !drv(a, b)
    ensures Written(MergeAll(drv, rs), pos) == if Lost(rs, pos) then None else Written(rs, pos)
    decreases |rs|
  {
    if |rs| > 1 {
      var init, r := rs[..|rs| - 1], rs[|rs| - 1];
      assert init + [r] == rs;
      SmallBatchExactly(drv, init, pos);
      ExactStep(drv, init, r, pos);
    }
  }

  lemma ExactStep(drv: Driver, init: seq<Request>, r: Request, pos: nat)
    requires init != [] && Sorted(init + [r]) && AllValid(init + [r]) && Sorted(init) && AllValid(init)
    requires Elements(init + [r]) < IOV_MAX && forall a, b :: !drv(a, b)
    requires Written(MergeAll(drv, init), pos) == if Lost(init, pos) then None else Written(init, pos)
    ensures Written(MergeAll(drv, init + [r]), pos) == if Lost(init + [r], pos) then None else Written(init + [r], pos)
  {
    hide MergeAll, Lost, MergeStep, Sorted, AllValid, Written;
    MergeAllLast(drv, init, r);
    assert (init + [r])[..|init|] == init;
    AllApart(drv, init);
    var kept := MergeAll(drv, init);
    var a := kept[|kept| - 1];
    WrittenLast(init, r, pos);
    LostStep(init, r, pos);
    StepWritten(drv, kept, r, pos);
    if CutOff(a, r, pos) { CutOffIsLost(kept, init, pos); }
  }

  lemma CutOffIsLost(kept: seq<Request>, rs: seq<Request>, pos: nat)
    requires AllValid(kept) && kept != [] && Apart(kept, rs) && pos >= SECTOR * kept[|kept| - 1].sector
    ensures AllValid(kept[..|kept| - 1]) && Written(kept[..|kept| - 1], pos).None?
  {
    NotWrittenBeyond(kept[..|kept| - 1], pos);
  }

  lemma LostIsWrong(drv: Driver, rs: seq<Request>, pos: nat)
    requires Sorted(rs) && AllValid(rs) && Elements(rs) < IOV_MAX && forall a, b :: !drv(a, b)
    ensures Written(MergeAll(drv, rs), pos) == Written(rs, pos) <==> !Lost(rs, pos)
  {
    hide MergeAll, Written, Elements, Flatten;
    SmallBatchExactly(drv, rs, pos);
    if Lost(rs, pos) {
      var i :| 0 < i < |rs| && LostAt(rs, i, pos);
      assert rs[i - 1].sector <= rs[i].sector;
      StillWritten(rs, i - 1, pos);
    }
  }

  /** The merged requests leave the same byte at pos as the requests one after the other. */
  ghost predicate SameAt(drv: Driver, rs: seq<Request>, pos: nat)
    requires Sorted(rs) && AllValid(rs)
  {
    Written(MergeAll(drv, rs), pos) == Written(rs, pos)
  }

  /** So merging keeps the meaning of the writes exactly when every tail that is cut off is
      rewritten by a later request. */
  lemma SmallBatchKeepsWrites(drv: Driver, rs: seq<Request>)
    requires Sorted(rs) && AllValid(rs) && Elements(rs) < IOV_MAX && forall a, b :: !drv(a, b)
    ensures (forall pos: nat :: SameAt(drv, rs, pos)) <==> (forall pos: nat :: !Lost(rs, pos))
  {
    forall pos: nat ensures SameAt(drv, rs, pos) <==> !Lost(rs, pos) { LostIsWrong(drv, rs, pos); }
  }

  lemma {:induction false} StillWritten(rs: seq<Request>, i: nat, pos: nat)
    requires AllValid(rs) && i < |rs| && Writes(rs[i], pos)
    ensures Written(rs, pos).Some?
    decreases |rs|
  {
    if !Writes(rs[|rs| - 1], pos) { StillWritten(rs[..|rs| - 1], i, pos); }
  }

  /** A request of one sector inside a request of two: the second sector of the longer one is
      never written. */
  lemma ShorterRequestLosesTail(drv: Driver, x: seq<Byte>, y: seq<Byte>)
    requires |x| == 2 * SECTOR && |y| == SECTOR
    ensures var rs := [Request(0, 2, [x]), Request(0, 1, [y])];
            && Sorted(rs) && AllValid(rs)
            && Written(rs, SECTOR) == Some(x[SECTOR]) && Written(MergeAll(drv, rs), SECTOR) == None
  {
    hide MergeAll, Flatten, Elements;
    var a, b := Request(0, 2, [x]), Request(0, 1, [y]);
    FlattenGap([x]);
    FlattenGap([y]);
    assert [a, b] == [a] + [b] && [a, b][..1] == [a] && [a][..0] == [];
    WrittenLast([a], b, SECTOR);
    WrittenLast([], a, SECTOR);
    MergeOne(drv, [a]);
    HurtStep(drv, [a], b, SECTOR);
  }

  // ----- the code

  /** The body of the merge branch: builds the vector of the merged request. */
  method BuildMerged(a: Request, b: Request) returns (r: Request)
    requires a.sector <= b.sector
    ensures r == Merged(a, b)
  {
    var qiov := new QemuIovec();
    qiov.Concat(a.iov, SECTOR * (b.sector - a.sector));
    assert qiov.iov == Pieces(a.iov, 0, SECTOR * (b.sector - a.sector));
    if b.sector > End(a) {
      qiov.Add(Zeros(SECTOR * (b.sector - End(a))));
    }
    qiov.Concat(b.iov, |Flatten(b.iov)|);
    assert qiov.iov == MergedIov(a, b);
    r := Request(a.sector, qiov.size / SECTOR, qiov.iov);
  }

  /** r in its place among sorted requests. */
  function Inserted(rs: seq<Request>, r: Request): seq<Request> {
    if rs == [] || rs[|rs| - 1].sector <= r.sector then rs + [r]
    else Inserted(rs[..|rs| - 1], r) + [rs[|rs| - 1]]
  }

  lemma AppendSorted(rs: seq<Request>, r: Request)
    requires Sorted(rs) && (rs == [] || rs[|rs| - 1].sector <= r.sector)
    ensures Sorted(rs + [r])
  {
    forall i | 0 <= i < |rs| ensures rs[i].sector <= r.sector { assert rs[i].sector <= rs[|rs| - 1].sector; }
  }

  lemma SortedInit(rs: seq<Request>)
    requires Sorted(rs) && rs != []
    ensures rs == rs[..|rs| - 1] + [rs[|rs| - 1]] && Sorted(rs[..|rs| - 1])
    ensures |rs| > 1 ==> rs[..|rs| - 1][|rs| - 2].sector <= rs[|rs| - 1].sector
  {}

  lemma {:induction false} InsertedIsSorted(rs: seq<Request>, r: Request)
    requires Sorted(rs)
    ensures var t := Inserted(rs, r);
      && Sorted(t) && multiset(t) == multiset(rs) + multiset{r} && |t| == |rs| + 1
      && t[|t| - 1] == if rs == [] || rs[|rs| - 1].sector <= r.sector then r else rs[|rs| - 1]
  {
    hide Sorted;
    if rs == [] || rs[|rs| - 1].sector <= r.sector {
      AppendSorted(rs, r);
    } else {
      var init, last := rs[..|rs| - 1], rs[|rs| - 1];
      SortedInit(rs);
      InsertedIsSorted(init, r);
      AppendSorted(Inserted(init, r), last);
    }
  }

  lemma SameRequests(rs: seq<Request>, ts: seq<Request>)
    requires multiset(rs) == multiset(ts) && AllValid(rs)
    ensures AllValid(ts)
  {
    forall i | 0 <= i < |ts| ensures ValidRequest(ts[i]) {
      assert ts[i] in multiset(rs);
    }
  }

  lemma SameVectors(rs: seq<Request>, ts: seq<Request>)
    requires multiset(rs) == multiset(ts) && ShortVectors(rs)
    ensures ShortVectors(ts)
  {
    forall i | 0 <= i < |ts| ensures |ts[i].iov| <= 1024 {
      assert ts[i] in multiset(rs);
    }
  }

  /** What qsort promises with multiwrite_req_compare: the same requests, by start sector.  Requests with equal start
      sectors may come in any order there. */
  method SortRequests(reqs: array<Request>)
    modifies reqs
    ensures Sorted(reqs[..]) && multiset(reqs[..]) == multiset(old(reqs[..]))
  {
    hide Sorted, Inserted;
    var s := [];
    SortedNothing();
    for i := 0 to reqs.Length
      invariant |s| == i && Sorted(s) && multiset(s) == multiset(reqs[..i]) && reqs[..] == old(reqs[..])
    {
      InsertedIsSorted(s, reqs[i]);
      assert reqs[..i + 1] == reqs[..i] + [reqs[i]];
      s := Inserted(s, reqs[i]);
    }
    assert reqs[..reqs.Length] == reqs[..];
    forall i | 0 <= i < reqs.Length { reqs[i] := s[i]; }
    assert reqs[..] == s;
  }

  lemma SortedNothing()
    ensures Sorted([])
  {}

  /** One turn of the loop: request i goes into the last one kept, or is kept itself. */
  method MergeTurn(drv: Driver, reqs: array<Request>, outidx: nat, i: nat) returns (out: nat)
    requires outidx < i < reqs.Length && reqs[outidx].sector <= reqs[i].sector
    modifies reqs
    ensures out <= i && reqs[..out + 1] == MergeStep(drv, old(reqs[..outidx + 1]), old(reqs[i]))
    ensures forall j :: i < j < reqs.Length ==> reqs[j] == old(reqs[j])
    ensures var a, b := old(reqs[outidx]), old(reqs[i]);
      if (b.sector <= a.sector + a.nbSectors || drv(a, b)) && |a.iov| + |b.iov| + 1 <= 1024 then out == outidx
      else out == outidx + 1
  {
    hide Merged;
    ghost var kept := reqs[..outidx + 1];
    assert kept[|kept| - 1] == reqs[outidx];
    out := outidx;
    var merge := reqs[i].sector <= End(reqs[outidx]);
    if !merge { merge := drv(reqs[outidx], reqs[i]); }
    if |reqs[outidx].iov| + |reqs[i].iov| + 1 > IOV_MAX { merge := false; }
    if merge {
      var r := BuildMerged(reqs[outidx], reqs[i]);
      reqs[outidx] := r;
      assert reqs[..out + 1] == kept[..|kept| - 1] + [r];
    } else {
      out := outidx + 1;
      reqs[out] := reqs[i];
      assert reqs[..out + 1] == kept + [old(reqs[i])];
    }
  }

  /** multiwrite_merge: sorts, merges in place and returns how many requests remain. */
  method MultiwriteMerge(drv: Driver, reqs: array<Request>) returns (n: nat, ghost rs: seq<Request>)
    requires reqs.Length > 0 && AllValid(reqs[..])
    modifies reqs
    ensures Sorted(rs) && AllValid(rs) && multiset(rs) == multiset(old(reqs[..]))
    ensures n <= reqs.Length && reqs[..n] == MergeAll(drv, rs)
    ensures ShortVectors(old(reqs[..])) ==> ShortVectors(reqs[..n])
  {
    hide MergeAll, Sorted, AllValid, Ready, ShortVectors;
    SortRequests(reqs);
    rs := reqs[..];
    SameRequests(old(reqs[..]), rs);
    var outidx := 0;
    MergeFirst(drv, rs);
    for i := 1 to reqs.Length
      invariant 0 <= outidx < i && forall j :: i <= j < |rs| ==> reqs[j] == rs[j]
      invariant Sorted(rs[..i]) && AllValid(rs[..i]) && reqs[..outidx + 1] == MergeAll(drv, rs[..i])
    {
      MergeNext(drv, rs, i);
      assert reqs[..outidx + 1][outidx] == reqs[outidx] && reqs[i] == rs[i];
      outidx := MergeTurn(drv, reqs, outidx, i);
    }
    assert rs[..reqs.Length] == rs;
    n := outidx + 1;
    if ShortVectors(old(reqs[..])) {
      SameVectors(old(reqs[..]), rs);
      MergeKeepsVectorsShort(drv, rs);
    }
  }

  lemma MergeFirst(drv: Driver, rs: seq<Request>)
    requires rs != [] && Sorted(rs) && AllValid(rs)
    ensures Sorted(rs[..1]) && AllValid(rs[..1]) && MergeAll(drv, rs[..1]) == rs[..1]
  {
    assert rs[..1][..0] == [];
  }

  lemma MergeNext(drv: Driver, rs: seq<Request>, i: nat)
    requires 0 < i < |rs| && Sorted(rs) && AllValid(rs)
    ensures Sorted(rs[..i]) && AllValid(rs[..i]) && Sorted(rs[..i + 1]) && AllValid(rs[..i + 1])
    ensures var kept := MergeAll(drv, rs[..i]);
            kept != [] && kept[|kept| - 1].sector <= rs[i].sector
                && MergeAll(drv, rs[..i + 1]) == MergeStep(drv, kept, rs[i])
  {
    assert rs[..i] + [rs[i]] == rs[..i + 1];
    MergeAllLast(drv, rs[..i], rs[i]);
  }
}
