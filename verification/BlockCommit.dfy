/** Committing an overlay image into its backing file (qemu/block.c:755-863). */
module BlockCommit {
  import opened Common
  import opened Bytes

  const COMMIT_BUF_SECTORS: nat := 2048

  type Sector = s: seq<Byte> | |s| == 512 witness seq(512, _ => 0)

  /** A sector of equal bytes. */
  function Full(b: Byte): Sector { seq(512, _ => b) }

  /** Sector i of the backing file; zeros past its end. */
  function Below(backing: seq<Sector>, i: nat): Sector { if i < |backing| then backing[i] else Full(0) }

  /** What the guest sees: the overlay where it is allocated, else the backing file, else zeros. */
  function View(overlay: seq<Option<Sector>>, backing: seq<Sector>): (v: seq<Sector>)
    ensures |v| == |overlay|
  {
    seq(|overlay|, i requires 0 <= i < |overlay| =>
      if overlay[i].Some? then overlay[i].value else Below(backing, i))
  }

  /** bdrv_is_allocated answers with runs that are not empty and uniform. */
  ghost predicate RunsOk(overlay: seq<Option<Sector>>, run: nat -> nat) {
    forall s: nat :: s < |overlay| ==>
      && 1 <= run(s) <= COMMIT_BUF_SECTORS && s + run(s) <= |overlay|
      && forall i :: s <= i < s + run(s) ==> overlay[i].Some? == overlay[s].Some?
  }

  /** Every allocated sector lies on the backing file and can be transferred. */
  ghost predicate Transfers(overlay: seq<Option<Sector>>, size: nat, broken: set<nat>) {
    forall i :: 0 <= i < |overlay| && overlay[i].Some? ==> i < size && i !in broken
  }

  /** The backing file alone shows the image v. */
  ghost predicate Holds(backing: seq<Sector>, v: seq<Sector>) {
    forall i :: 0 <= i < |v| ==> v[i] == Below(backing, i)
  }

  /** The allocated sectors, and no others, have been copied. */
  ghost predicate CopiedDown(overlay: seq<Option<Sector>>, backing: seq<Sector>, backing': seq<Sector>) {
    && |backing'| == |backing|
    && forall i :: 0 <= i < |backing| ==>
        backing'[i] == if i < |overlay| && overlay[i].Some? then overlay[i].value else backing[i]
  }

  /** Only allocated sectors differ, so the guest sees no difference. */
  lemma SameView(overlay: seq<Option<Sector>>, backing: seq<Sector>, backing': seq<Sector>)
    requires |backing'| == |backing|
    requires forall i :: 0 <= i < |backing| && !(i < |overlay| && overlay[i].Some?) ==> backing'[i] == backing[i]
    ensures View(overlay, backing') == View(overlay, backing)
  {}

  lemma ViewOfRun(overlay: seq<Option<Sector>>, backing: seq<Sector>, s: nat, n: nat)
    requires s + n <= |overlay| && forall i :: s <= i < s + n ==> overlay[i].Some?
    ensures forall i :: s <= i < s + n ==> View(overlay, backing)[s..s + n][i - s] == overlay[i].value
  {}

  lemma CopiedHolds(overlay: seq<Option<Sector>>, backing: seq<Sector>, backing': seq<Sector>)
    requires CopiedDown(overlay, backing, backing')
    requires forall i :: 0 <= i < |overlay| && overlay[i].Some? ==> i < |backing|
    ensures Holds(backing', View(overlay, backing'))
  {}

  /** What the calls of bdrv_commit outside the image files return: opening the backing file for writing and again
      for reading, and bdrv_make_empty.  Each is 0 or an error. */
  datatype Calls = Calls(openRw: int, openRo: int, makeEmpty: int)

  ghost predicate ValidCalls(c: Calls) { c.openRw <= 0 && c.openRo <= 0 && c.makeEmpty <= 0 }

  class CowDevice {
    var overlay: seq<Option<Sector>>
    var backing: seq<Sector>
    var hasMedium: bool          // drv is not NULL
    var hasBacking: bool         // backing_hd is not NULL
    var keepReadOnly: bool       // backing_hd->keep_read_only
    const ro: bool               // backing_hd->read_only, as bdrv_open leaves it
    const canMakeEmpty: bool     // the driver has bdrv_make_empty

    constructor (overlay: seq<Option<Sector>>, backing: seq<Sector>, ro: bool, canMakeEmpty: bool)
      ensures this.overlay == overlay && this.backing == backing && this.ro == ro && this.canMakeEmpty == canMakeEmpty
      ensures hasMedium && hasBacking && !keepReadOnly
    {
      this.overlay, this.backing, this.ro, this.canMakeEmpty := overlay, backing, ro, canMakeEmpty;
      hasMedium, hasBacking, keepReadOnly := true, true, false;
    }

    ghost function Image(): seq<Sector>
      reads this
    {
      View(overlay, backing)
    }

    /** bdrv_commit gets as far as copying. */
    ghost predicate Copies(calls: Calls)
      reads this
    {
      hasMedium && hasBacking && !keepReadOnly && (ro ==> calls.openRw == 0)
    }

    /** Everything is copied and the overlay emptied if it can be. */
    ghost predicate Commits(calls: Calls, broken: set<nat>)
      reads this
    {
      Transfers(overlay, |backing|, broken) && (canMakeEmpty ==> calls.makeEmpty == 0)
    }

    /** bdrv_write to the backing file: nothing past its end; a sector that cannot be written ends it half way. */
    method WriteBacking(sector: nat, data: seq<Sector>, broken: set<nat>) returns (ret: int)
      modifies this`backing
      ensures ret == 0 <==> sector + |data| <= |backing| && forall i :: sector <= i < sector + |data| ==> i !in broken
      ensures ret == 0 || ret == -EIO
      ensures |backing| == |old(backing)|
      ensures forall i :: 0 <= i < |backing| && !(sector <= i < sector + |data|) ==> backing[i] == old(backing)[i]
      ensures ret == 0 ==> forall i :: sector <= i < sector + |data| ==> backing[i] == data[i - sector]
    {
      if sector + |data| > |backing| { return -EIO; }
      for k := 0 to |data|
        invariant |backing| == |old(backing)| && forall i :: sector <= i < sector + k ==> i !in broken
        invariant forall i :: 0 <= i < |backing| ==>
            backing[i] == if sector <= i < sector + k then data[i - sector] else old(backing)[i]
      {
        if sector + k in broken { return -EIO; }
        backing := backing[sector + k := data[k]];
      }
      return 0;
    }

    /** The loop of bdrv_commit. */
    method CopyDown(run: nat -> nat, broken: set<nat>) returns (ret: int)
      requires RunsOk(overlay, run)
      modifies this`backing
      ensures Image() == old(Image()) && |backing| == |old(backing)|
      ensures ret == if Transfers(overlay, |backing|, broken) then 0 else -EIO
      ensures ret == 0 ==> Holds(backing, Image()) && CopiedDown(overlay, old(backing), backing)
    {
      hide View, Holds;
      var sector := 0;
      while sector < |overlay|
        invariant sector <= |overlay| && |backing| == |old(backing)|
        invariant forall i :: 0 <= i < sector && overlay[i].Some? ==> i < |backing| && i !in broken
        invariant forall i :: 0 <= i < |backing| ==>
            backing[i] == if i < sector && overlay[i].Some? then overlay[i].value else old(backing)[i]
        decreases |overlay| - sector
      {
        var n := run(sector);
        if overlay[sector].Some? {
          ViewOfRun(overlay, backing, sector, n);
          var buf := View(overlay, backing)[sector..sector + n];
          ret := WriteBacking(sector, buf, broken);
          if ret != 0 {
            assert overlay[sector + n - 1].Some?;
            SameView(overlay, old(backing), backing);
            return;
          }
        }
        sector := sector + n;
      }
      SameView(overlay, old(backing), backing);
      CopiedHolds(overlay, old(backing), backing);
      ret := 0;
    }

    /** bdrv_commit: whatever happens, the guest's view stays.  If the backing file was open read-only, the result of
        opening it again replaces the result of the copy. */
    method Commit(run: nat -> nat, broken: set<nat>, calls: Calls) returns (ret: int)
      requires RunsOk(overlay, run) && ValidCalls(calls)
      modifies this
      ensures Image() == old(Image()) && |backing| == |old(backing)|
      ensures !old(Copies(calls)) ==>
        && overlay == old(overlay) && backing == old(backing)
        && ret == if !old(hasMedium) then -ENOMEDIUM else if !old(hasBacking) then -ENOTSUP
                  else if old(keepReadOnly) then -EACCES
                  else if calls.openRo < 0 then calls.openRo else calls.openRw
      ensures old(Copies(calls)) ==>
        ret == if ro then calls.openRo
               else if !old(Transfers(overlay, |backing|, broken)) then -EIO
               else if canMakeEmpty then calls.makeEmpty else 0
      ensures old(Copies(calls)) && old(Transfers(overlay, |backing|, broken)) ==>
        Holds(backing, Image()) && CopiedDown(old(overlay), old(backing), backing)
      ensures if old(Copies(calls)) && old(Commits(calls, broken)) && canMakeEmpty
              then forall i :: 0 <= i < |overlay| ==> overlay[i].None?
              else overlay == old(overlay)
      ensures old(Copies(calls)) ==> (ret == 0 <==> if ro then calls.openRo == 0 else old(Commits(calls, broken)))
      ensures keepReadOnly == old(keepReadOnly)
      ensures hasBacking == (old(hasBacking) && !(old(hasMedium) && !old(keepReadOnly) && ro && calls.openRo < 0))
      ensures hasMedium == (old(hasMedium) && !(old(hasBacking) && !old(keepReadOnly) && ro && calls.openRo < 0))
    {
      if !hasMedium { return -ENOMEDIUM; }
      if !hasBacking { return -ENOTSUP; }
      if keepReadOnly { return -EACCES; }
      if ro && calls.openRw < 0 {
        if calls.openRo < 0 {
          hasBacking, hasMedium := false, false;
          return calls.openRo;
        }
        return calls.openRw;
      }
      ret := CopyDown(run, broken);
      if ret == 0 && canMakeEmpty {
        ret := calls.makeEmpty;
        if ret == 0 { overlay := seq(|overlay|, _ => None); }
      }
      if ro {
        ret := calls.openRo;
        if ret < 0 {
          hasBacking, hasMedium := false, false;
          return;
        }
        keepReadOnly := false;
      }
    }
  }

  /** One allocated sector and an empty backing file: bdrv_commit returns 0, and the sector is not in the backing
      file. */
  method FailureHidden() returns (ret: int, backing: seq<Sector>)
    ensures ret == 0 && !Holds(backing, View([Some(Full(1))], []))
  {
    var d := new CowDevice([Some(Full(1))], [], true, true);
    ret := d.Commit(_ => 1, {}, Calls(0, 0, 0));
    backing := d.backing;
    assert Full(1)[0] != Full(0)[0];
    assert View([Some(Full(1))], [])[0] == Full(1);
  }
}
