/** Reading, editing and writing archives through a file object. */
module CpioFile {
  import opened Common
  import opened Cpio
  import opened CpioArchive

  /** A file opened for reading. */
  class StringIo {
    const data: string
    var pos: nat

    constructor (data: string)
      ensures Valid() && Rest() == data
    {
      this.data := data;
      pos := 0;
    }

    ghost predicate Valid()
      reads this
    {
      pos <= |data|
    }

    ghost function Rest(): string
      requires Valid()
      reads this
    {
      data[pos..]
    }

    /** At the end of the file the result is short. */
    method Read(n: nat) returns (r: string)
      requires Valid()
      modifies this
      ensures Valid() && r == Clip(old(Rest()), 0, n) && Rest() == Drop(old(Rest()), n)
    {
      var end := Min(pos + n, |data|);
      r := data[pos..end];
      pos := end;
    }

    method ReadAll() returns (r: string)
      requires Valid()
      modifies this
      ensures Valid() && r == old(Rest()) && Rest() == ""
    {
      r := data[pos..];
      pos := |data|;
    }
  }

  lemma DropClip(s: string, a: nat, n: nat)
    ensures Clip(Drop(s, a), 0, n) == Clip(s, a, a + n) && Drop(Drop(s, a), n) == Drop(s, a + n)
  {}

  /** C2P on field i of the entry that starts at s. */
  method ReadField(fp: StringIo, ghost s: string, ghost i: nat) returns (r: Result<nat>)
    requires fp.Valid() && fp.Rest() == Drop(s, 6 + 8 * i)
    modifies fp
    ensures fp.Valid() && fp.Rest() == Drop(s, 14 + 8 * i) && r == Field(s, i)
  {
    hide Drop, Clip;
    DropClip(s, 6 + 8 * i, 8);
    var t := fp.Read(8);
    return ParseHex(t);
  }

  /** A read and the padding after it. */
  method ReadPadded(fp: StringIo, size: nat, skew: nat) returns (r: Result<string>)
    requires fp.Valid()
    modifies fp
    ensures fp.Valid()
    ensures var s := old(fp.Rest());
      match PaddedRead(s, size, skew) {
        case Err => r == Err
        case Ok(m) => r == Ok(s[..m]) && fp.Rest() == s[m..]
      }
  {
    ghost var s := fp.Rest();
    var t := fp.Read(size);
    ghost var n := |t|;
    while (skew + |t|) % 4 != 0
      invariant fp.Valid() && n <= |t| <= PadLen(n, skew) && |t| <= |s|
      invariant t == s[..|t|] && fp.Rest() == s[|t|..]
      decreases PadLen(n, skew) - |t|
    {
      var c := fp.Read(1);
      if c == "" {
        return Err;
      }
      t := t + c;
    }
    return Ok(t);
  }

  lemma EveryField(s: string)
    requires Field(s, 0).Ok? && Field(s, 1).Ok? && Field(s, 2).Ok? && Field(s, 3).Ok? && Field(s, 4).Ok?
    requires Field(s, 5).Ok? && Field(s, 6).Ok? && Field(s, 7).Ok? && Field(s, 8).Ok? && Field(s, 9).Ok?
    requires Field(s, 10).Ok? && Field(s, 11).Ok? && Field(s, 12).Ok?
    ensures FieldsOk(s)
  {
    hide Field;
  }

  /** The fixed part of an entry. */
  method ReadHeader(fp: StringIo) returns (r: Result<Entry>)
    requires fp.Valid()
    modifies fp
    ensures fp.Valid()
    ensures var s := old(fp.Rest());
      if HeaderOk(s) then r == Ok(HeaderEntry(s, "", "")) && fp.Rest() == Drop(s, 110)
      else r == Err
  {
    hide Field, Drop, Clip, StringIo.Rest;
    ghost var s := fp.Rest();
    var magic := fp.Read(6);
    if magic != MAGIC {
      return Err;
    }
    var ino :- ReadField(fp, s, 0);
    var mode :- ReadField(fp, s, 1);
    var uid :- ReadField(fp, s, 2);
    var gid :- ReadField(fp, s, 3);
    var nlink :- ReadField(fp, s, 4);
    var mtime :- ReadField(fp, s, 5);
    var filesize :- ReadField(fp, s, 6);
    var devmajor :- ReadField(fp, s, 7);
    var devminor :- ReadField(fp, s, 8);
    var rdevmajor :- ReadField(fp, s, 9);
    var rdevminor :- ReadField(fp, s, 10);
    var namesize :- ReadField(fp, s, 11);
    var check :- ReadField(fp, s, 12);
    EveryField(s);
    return Ok(Entry(ino, mode, uid, gid, nlink, mtime, filesize, devmajor, devminor, rdevmajor, rdevminor,
                    namesize, check, "", ""));
  }

  predicate HeaderOk(s: string) { Clip(s, 0, 6) == MAGIC && FieldsOk(s) }

  /** The parser in the order the reader works. */
  lemma ParseSteps(s: string)
    ensures !HeaderOk(s) ==> ParseEntry(s) == Err
    ensures HeaderOk(s) ==>
      var d, body := HeaderEntry(s, "", ""), Drop(s, 110);
      match PaddedRead(body, d.namesize, 2)
      case Err => ParseEntry(s) == Err
      case Ok(n) =>
        match PaddedRead(body[n..], d.filesize, 0)
        case Err => ParseEntry(s) == Err
        case Ok(f) => ParseEntry(s) == Ok((d.(name := body[..n], file := body[n..][..f]), body[n..][f..]))
  {
    hide Field, Drop, Clip, PadLen;
    if HeaderOk(s) {
      var body := Drop(s, 110);
      var n := PaddedRead(body, Field(s, 11).value, 2);
      if n.Ok? {
        var f := PaddedRead(body[n.value..], Field(s, 6).value, 0);
        if f.Ok? {
          Slices(body, n.value, f.value);
        }
      }
    }
  }

  lemma Slices(s: string, n: nat, f: nat)
    requires n + f <= |s|
    ensures s[n..][..f] == s[n..n + f] && s[n..][f..] == s[n + f..]
  {}

  /** CPIO2Python_all. */
  method ReadEntry(fp: StringIo) returns (r: Result<Entry>)
    requires fp.Valid()
    modifies fp
    ensures fp.Valid()
    ensures match ParseEntry(old(fp.Rest())) {
        case Err => r == Err
        case Ok((e, rest)) => r == Ok(e) && fp.Rest() == rest
      }
  {
    hide ParseEntry, PaddedRead, HeaderEntry, HeaderOk, Drop, StringIo.Rest;
    ParseSteps(fp.Rest());
    var d :- ReadHeader(fp);
    var name :- ReadPadded(fp, d.namesize, 2);
    d := d.(name := name);
    var data :- ReadPadded(fp, d.filesize, 0);
    d := d.(file := data);
    return Ok(d);
  }

  // ----- archives

  function Prepend(fs: seq<Entry>, r: Result<(seq<Entry>, string)>): Result<(seq<Entry>, string)> {
    match r
    case Err => Err
    case Ok((es, tail)) => Ok((fs + es, tail))
  }

  lemma PrependNothing(r: Result<(seq<Entry>, string)>)
    ensures Prepend([], r) == r
  {
    match r
    case Err =>
    case Ok((es, tail)) => assert [] + es == es;
  }

  /** Parsing one entry moves it from the input to the list. */
  lemma PrependStep(fs: seq<Entry>, s: string)
    requires ParseEntry(s).Ok?
    ensures var (e, rest) := ParseEntry(s).value;
      |rest| < |s| &&
      Prepend(fs, ParseArchive(s)) == if IsTrailer(e) then Ok((fs + [e], rest))
          else Prepend(fs + [e], ParseArchive(rest))
  {
    hide ParseEntry, IsTrailer;
    EntryIsLong(s);
    var (e, rest) := ParseEntry(s).value;
    match ParseArchive(rest)
    case Err =>
    case Ok((es, tail)) => assert fs + ([e] + es) == (fs + [e]) + es;
  }

  class Archive {
    var files: seq<Entry>
    var finalPadding: string

    constructor ()
      ensures files == [] && finalPadding == ""
    {
      files, finalPadding := [], "";
    }

    /** Entries up to the trailer, then the rest of the file. */
    method Load(fp: StringIo) returns (ok: bool)
      requires fp.Valid()
      modifies this, fp
      ensures fp.Valid()
      ensures match ParseArchive(old(fp.Rest())) {
          case Err => !ok
          case Ok((es, tail)) => ok && files == es && finalPadding == tail
        }
    {
      hide ParseEntry, ParseArchive, IsTrailer, StringIo.Rest;
      ghost var all := ParseArchive(fp.Rest());
      files := [];
      PrependNothing(all);
      while true
        invariant fp.Valid() && all == Prepend(files, ParseArchive(fp.Rest()))
        decreases |fp.Rest()|
      {
        ghost var s := fp.Rest();
        ParseFails(s);
        var d := ReadEntry(fp);
        if d == Err {
          return false;
        }
        PrependStep(files, s);
        files := files + [d.value];
        if TRAILER <= d.value.name {
          TrailerName(d.value);
          break;
        }
        TrailerName(d.value);
      }
      finalPadding := fp.ReadAll();
      return true;
    }

    method SetOwner(uid: nat, gid: nat)
      modifies this
      ensures |files| == |old(files)| && finalPadding == old(finalPadding)
      ensures forall i :: 0 <= i < |files| ==> files[i] == old(files)[i].(uid := uid, gid := gid)
    {
      for i := 0 to |files|
        invariant |files| == |old(files)| && finalPadding == old(finalPadding)
        invariant forall j :: 0 <= j < i ==> files[j] == old(files)[j].(uid := uid, gid := gid)
        invariant forall j :: i <= j < |files| ==> files[j] == old(files)[j]
      {
        files := files[i := files[i].(uid := uid, gid := gid)];
      }
    }

    /** Fails when there is no console entry. */
    method AddConsoleDevice() returns (ok: bool)
      modifies this
      ensures var k := FirstConsole(old(files));
        ok == (k < |old(files)|) && files == if ok then old(files)[k := Console(old(files)[k])] else old(files)
      ensures ok ==> var k := FirstConsole(old(files));
        && files[k].mode == 8576 && files[k].rdevmajor == 5 && files[k].rdevminor == 1
        && files[k].name == old(files)[k].name && files[k].file == old(files)[k].file
      ensures finalPadding == old(finalPadding)
    {
      hide IsConsole, FirstConsole;
      for i := 0 to |files|
        invariant files == old(files) && finalPadding == old(finalPadding)
        invariant forall j :: 0 <= j < i ==> !IsConsole(files[j])
      {
        if IsConsole(files[i]) {
          files := files[i := Console(files[i])];
          return true;
        }
      }
      return false;
    }

    method WriteAs() returns (out: string)
      ensures out == PrintAll(files) + finalPadding
    {
      hide PrintEntry;
      out := "";
      for i := 0 to |files|
        invariant out == PrintAll(files[..i])
      {
        PrintAllSplit(files[..i + 1], i);
        assert files[..i + 1][..i] == files[..i] && files[..i + 1][i + 1..] == [];
        out := out + PrintEntry(files[i]);
      }
      assert files[..|files|] == files;
      out := out + finalPadding;
    }
  }

  lemma ParseFails(s: string)
    ensures ParseEntry(s) == Err ==> ParseArchive(s) == Err
  {}

  lemma TrailerName(e: Entry)
    ensures IsTrailer(e) <==> TRAILER <= e.name
  {}

  /** The ramdisk: parse, turn the first dev/console into a device node, write. */
  method BiffInitrd(data: string) returns (r: Result<string>)
    ensures r.Ok? <==> ParseArchive(data).Ok? && FirstConsole(ParseArchive(data).value.0) < |ParseArchive(data).value.0|
    ensures r.Ok? ==> |r.value| == |data|
    ensures r.Ok? && LowerHeaders(data) ==>
      var es := ParseArchive(data).value.0;
      SameBut(data, r.value, |PrintAll(es[..FirstConsole(es)])|)
    ensures r.Ok? ==>
      var es := ParseArchive(data).value.0;
      var base := |PrintAll(es[..FirstConsole(es)])|;
      && |r.value| >= base + 110 && r.value[base + 14..base + 22] == "00002180"
      && r.value[base + 78..base + 86] == "00000005" && r.value[base + 86..base + 94] == "00000001"
  {
    hide ParseArchive, PrintAll, LowerHeaders, FirstConsole, Console, SameBut, Terminated;
    var fp := new StringIo(data);
    var cpio := new Archive();
    var ok := cpio.Load(fp);
    if !ok {
      return Err;
    }
    ghost var es := cpio.files;
    ArchiveReprint(data);
    ok := cpio.AddConsoleDevice();
    if !ok {
      return Err;
    }
    var out := cpio.WriteAs();
    ghost var k := FirstConsole(es);
    ParsedIsSmall(data, k);
    ConsoleBytes(es, k);
    ConsoleInArchive(es, k, cpio.finalPadding);
    SameThenTail(PrintAll(es), PrintAll(cpio.files), cpio.finalPadding, |PrintAll(es[..k])|);
    return Ok(out);
  }

  lemma SameThenTail(a: string, b: string, tail: string, base: nat)
    requires SameBut(a, b, base)
    ensures |a| == |b| && SameBut(a + tail, b + tail, base)
  {}
}
