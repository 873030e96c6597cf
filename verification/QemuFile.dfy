/** The write side of QEMUFile, which collects what is put and hands it on in blocks (qemu/savevm.c:158-190,
    438-453, 487-511), over the rate-limited file. */
module QemuFile {
  import opened Common
  import opened Bytes
  import opened BufferedFile

  const IO_BUF_SIZE: nat := 32768

  class WriteFile {
    const under: QemuFileBuffered
    const buf: array<Byte>
    var bufIndex: nat
    var hasError: bool

    ghost predicate Valid()
      reads this, under
    {
      && under.Valid() && buf.Length == IO_BUF_SIZE && bufIndex < IO_BUF_SIZE && under.buffer != buf
      && (hasError ==> under.hasError)
    }

    constructor (under: QemuFileBuffered)
      requires under.Valid()
      ensures Valid() && this.under == under && fresh(buf) && bufIndex == 0 && !hasError
    {
      this.under, buf, bufIndex, hasError := under, new Byte[IO_BUF_SIZE], 0, false;
    }

    /** Every byte on its way: delivered and not read yet, pending in the file below, and collected here. */
    ghost function Bytes(): seq<Byte>
      requires Valid()
      reads this, buf, under, under.buffer, under.channel
    {
      Stream(under.F()) + buf[..bufIndex]
    }

    /** qemu_fflush */
    method Fflush()
      requires under.Valid() && buf.Length == IO_BUF_SIZE && bufIndex <= IO_BUF_SIZE && under.buffer != buf
      requires hasError ==> under.hasError
      modifies this, under, under.buffer, under.channel
      ensures Valid() && (under.buffer == old(under.buffer) || fresh(under.buffer)) && bufIndex == 0
      ensures old(under.hasError) ==> under.hasError
      ensures !under.hasError ==> Stream(under.F()) == old(Stream(under.F()) + buf[..bufIndex])
    {
      hide AfterPut, InOrder, Stream;
      if bufIndex > 0 {
        ghost var f := under.F();
        var len := under.PutBuffer(buf[..bufIndex]);
        if len <= 0 { hasError := true; }
        bufIndex := 0;
        ErrorsStay(f, buf[..old(bufIndex)]);
        if !under.hasError { NoErrorInOrder(f, buf[..old(bufIndex)]); }
      }
      Whole(old(Stream(under.F())));
    }

    /** qemu_put_buffer: without an error everything put is on its way, in order. */
    method Put(data: seq<Byte>)
      requires Valid()
      modifies this, buf, under, under.buffer, under.channel
      ensures Valid() && (under.buffer == old(under.buffer) || fresh(under.buffer))
      ensures old(under.hasError) ==> under.hasError
      ensures !under.hasError ==> Bytes() == old(Bytes()) + data && bufIndex == (old(bufIndex) + |data|) % 32768
    {
      hide Stream;
      var done := 0;
      ghost var start := Bytes();
      Whole(start);
      assert data[..0] == [];
      while !hasError && done < |data|
        invariant 0 <= done <= |data| && Valid() && (under.buffer == old(under.buffer) || fresh(under.buffer))
        invariant old(under.hasError) ==> under.hasError
        invariant !under.hasError ==> Bytes() == start + data[..done] && bufIndex == (old(bufIndex) + done) % 32768
        decreases |data| - done
      {
        done := PutPart(data, done, start);
      }
      assert data[..|data|] == data;
    }

    /** One turn: as much as fits, and a flush when the buffer is full. */
    method PutPart(data: seq<Byte>, done: nat, ghost start: seq<Byte>) returns (done': nat)
      requires Valid() && done < |data| && (!under.hasError ==> Bytes() == start + data[..done])
      modifies this, buf, under, under.buffer, under.channel
      ensures Valid() && (under.buffer == old(under.buffer) || fresh(under.buffer)) && done < done' <= |data|
      ensures old(under.hasError) ==> under.hasError
      ensures !under.hasError ==> Bytes() == start + data[..done']
      ensures bufIndex == (old(bufIndex) + (done' - done)) % 32768
    {
      hide Stream;
      var l := Min(IO_BUF_SIZE - bufIndex, |data| - done);
      ghost var s, b := Stream(under.F()), buf[..bufIndex];
      CopyIn(data[done..done + l]);
      done' := done + l;
      Regroup(s, b, start, data, done, done');
      if bufIndex >= IO_BUF_SIZE {
        Fflush();
        assert buf[..0] == [];
        Whole(Stream(under.F()));
      }
    }

    /** memcpy */
    method CopyIn(part: seq<Byte>)
      requires under.Valid() && buf.Length == IO_BUF_SIZE && bufIndex + |part| <= IO_BUF_SIZE && under.buffer != buf
      modifies this`bufIndex, buf
      ensures bufIndex == old(bufIndex) + |part| && buf[..bufIndex] == old(buf[..bufIndex]) + part
      ensures under.F() == old(under.F())
    {
      ghost var b := buf[..bufIndex];
      for i := 0 to |part|
        invariant bufIndex == old(bufIndex) && buf[..bufIndex + i] == b + part[..i]
        invariant under.F() == old(under.F())
      {
        buf[bufIndex + i] := part[i];
      }
      bufIndex := bufIndex + |part|;
      assert part[..|part|] == part;
    }

    /** qemu_fclose up to the close of the channel: flush, and flush again below until nothing is pending.  The file
        below waits for the channel; done tells whether the channel took everything before its answers ended. */
    method Close() returns (done: bool)
      requires Valid()
      modifies this, under, under.buffer, under.channel
      ensures Valid() && (under.buffer == old(under.buffer) || fresh(under.buffer)) && bufIndex == 0
      ensures old(under.hasError) ==> under.hasError
      ensures !under.hasError ==> Stream(under.F()) == old(Bytes())
      ensures done ==> !under.hasError && under.channel.delivered == old(Bytes())
      ensures done || under.hasError || under.channel.replies == []
    {
      hide Stream, Flushed;
      Fflush();
      while !under.hasError && under.bufferSize > 0 && under.channel.replies != []
        invariant Valid() && (under.buffer == old(under.buffer) || fresh(under.buffer)) && bufIndex == 0
        invariant old(under.hasError) ==> under.hasError
        invariant !under.hasError ==> Stream(under.F()) == old(Bytes())
        decreases |under.channel.replies|
      {
        FlushKeepsStream(under.F());
        FlushUsesReply(under.F());
        under.Flush();
      }
      done := !under.hasError && under.bufferSize == 0;
      if done { NothingPending(under.F()); }
    }
  }

  lemma ErrorsStay(f: File, data: seq<Byte>)
    ensures f.error ==> AfterPut(f, data).error
  {}

  lemma Whole(s: seq<Byte>)
    ensures s + [] == s
  {}

  lemma Regroup(s: seq<Byte>, b: seq<Byte>, start: seq<Byte>, data: seq<Byte>, done: nat, done': nat)
    requires done <= done' <= |data|
    ensures s + b == start + data[..done] ==> s + (b + data[done..done']) == start + data[..done']
  {
    if s + b == start + data[..done] {
      assert s + (b + data[done..done']) == (s + b) + data[done..done'];
      assert data[..done] + data[done..done'] == data[..done'];
      assert (start + data[..done]) + data[done..done'] == start + (data[..done] + data[done..done']);
    }
  }

  lemma FlushUsesReply(f: File)
    requires !f.error && f.pending != [] && f.replies != []
    ensures |Flushed(f).replies| < |f.replies|
  {
    FewerReplies(f.replies, |f.pending|);
  }

  lemma {:induction false} FewerReplies(replies: seq<int>, len: nat)
    ensures |Flushing(replies, len).replies| <= |replies|
    ensures len > 0 && replies != [] ==> |Flushing(replies, len).replies| < |replies|
    decreases len
  {
    if len > 0 {
      var a := Answer(replies, len);
      if a > 0 { FewerReplies(Later(replies), len - a); }
    }
  }

  lemma NothingPending(f: File)
    requires f.pending == []
    ensures Stream(f) == f.delivered
  {
    Whole(f.delivered);
  }
}
