/** The rate-limited output buffer between migration and its channel (qemu/buffered_file.c). */
module BufferedFile {
  import opened Common
  import opened Bytes

  /** The put_buffer callback: a channel that answers each call with a number it was given
      beforehand: an error, -EAGAIN, or how many bytes it is ready to take. */
  class Channel {
    var delivered: seq<Byte>
    var replies: seq<int>

    method Put(data: seq<Byte>) returns (ret: int)
      modifies this
      ensures ret == Answer(old(replies), |data|) && replies == Later(old(replies))
      ensures delivered == old(delivered) + data[..if ret > 0 then ret else 0]
    {
      ret := -EAGAIN;
      if replies != [] {
        ret := if replies[0] > |data| then |data| else replies[0];
        replies := replies[1..];
      }
      delivered := delivered + data[..if ret > 0 then ret else 0];
    }

    /** The other end reads n bytes. */
    method Take(n: nat) returns (data: seq<Byte>)
      requires n <= |delivered|
      modifies this`delivered
      ensures data + delivered == old(delivered) && |data| == n
    {
      data, delivered := delivered[..n], delivered[n..];
    }
  }

  function Answer(replies: seq<int>, len: nat): (a: int)
    ensures a <= len || a == -EAGAIN
  {
    if replies == [] then -EAGAIN else if replies[0] > len then len else replies[0]
  }

  function Later(replies: seq<int>): seq<int> { if replies == [] then [] else replies[1..] }

  // ----- what the two loops do, given the channel's next replies

  datatype Ending = Through | Limited | Frozen | Failed

  /** How many bytes went out, how the loop ended, and the replies that are left. */
  datatype Sent = Sent(n: nat, ending: Ending, replies: seq<int>)

  /** The loop of buffered_flush over len bytes. */
  function Flushing(replies: seq<int>, len: nat): (r: Sent)
    ensures r.n <= len && (r.ending == Through <==> r.n == len) && r.ending != Limited
    decreases len
  {
    if len == 0 then Sent(0, Through, replies)
    else
      var a := Answer(replies, len);
      if a == -EAGAIN then Sent(0, Frozen, Later(replies))
      else if a <= 0 then Sent(0, Failed, Later(replies))
      else var r := Flushing(Later(replies), len - a); r.(n := r.n + a)
  }

  /** The loop of buffered_put_buffer over len bytes, with xfer bytes sent in this period already. */
  function Putting(replies: seq<int>, len: nat, xfer: nat, limit: nat): (r: Sent)
    ensures r.n <= len && (r.ending == Through <==> r.n == len)
    decreases len
  {
    if len == 0 then Sent(0, Through, replies)
    else if xfer > limit then Sent(0, Limited, replies)
    else
      var a := Answer(replies, len);
      if a == -EAGAIN then Sent(0, Frozen, Later(replies))
      else if a <= 0 then Sent(0, Failed, Later(replies))
      else var r := Putting(Later(replies), len - a, xfer + a, limit); r.(n := r.n + a)
  }

  lemma FlushingStep(replies: seq<int>, len: nat)
    requires len > 0
    ensures var a := Answer(replies, len);
      Flushing(replies, len) ==
        if a == -EAGAIN then Sent(0, Frozen, Later(replies)) else if a <= 0 then Sent(0, Failed, Later(replies))
        else var r := Flushing(Later(replies), len - a); r.(n := r.n + a)
  {}

  lemma PuttingStep(replies: seq<int>, len: nat, xfer: nat, limit: nat)
    requires len > 0 && xfer <= limit
    ensures var a := Answer(replies, len);
      Putting(replies, len, xfer, limit) ==
        if a == -EAGAIN then Sent(0, Frozen, Later(replies)) else if a <= 0 then Sent(0, Failed, Later(replies))
        else var r := Putting(Later(replies), len - a, xfer + a, limit); r.(n := r.n + a)
  {}

  lemma LoopsEnd(replies: seq<int>, len: nat, xfer: nat, limit: nat)
    ensures Flushing(replies, 0) == Sent(0, Through, replies) == Putting(replies, 0, xfer, limit)
    ensures len > 0 && xfer > limit ==> Putting(replies, len, xfer, limit) == Sent(0, Limited, replies)
  {}

  /** The bytes that replies take. */
  function Sum(replies: seq<int>): int { if replies == [] then 0 else replies[0] + Sum(replies[1..]) }

  predicate AllPositive(replies: seq<int>) { forall i :: 0 <= i < |replies| ==> replies[i] > 0 }

  lemma {:induction false} SumIsPositive(s: seq<int>)
    requires AllPositive(s)
    ensures Sum(s) >= |s|
  {
    if s != [] { SumIsPositive(s[1..]); }
  }

  lemma {:induction false} FlushingOn(good: seq<int>, w: seq<int>, len: nat)
    requires AllPositive(good) && 0 <= Sum(good) < len
    ensures var r := Flushing(w, len - Sum(good)); Flushing(good + w, len) == r.(n := r.n + Sum(good))
    decreases |good|
  {
    if good == [] {
      assert [] + w == w;
    } else {
      assert (good + w)[1..] == good[1..] + w;
      SumIsPositive(good[1..]);
      FlushingOn(good[1..], w, len - good[0]);
    }
  }

  /** What a flush makes of the channel's replies: it goes on while the channel takes bytes, until all are out, and
      stops at the first reply that takes none; only -EAGAIN, or no reply at all, is not a failure. */
  lemma FlushingMeans(good: seq<int>, last: int, rest: seq<int>, len: nat)
    requires AllPositive(good) && 0 <= Sum(good) < len
    ensures last >= len - Sum(good) ==> Flushing(good + ([last] + rest), len) == Sent(len, Through, rest)
    ensures last == -11 ==> Flushing(good + ([last] + rest), len) == Sent(Sum(good), Frozen, rest)
    ensures last <= 0 && last != -11 ==> Flushing(good + ([last] + rest), len) == Sent(Sum(good), Failed, rest)
    ensures Flushing(good + [], len) == Sent(Sum(good), Frozen, [])
  {
    FlushingOn(good, [last] + rest, len);
    FlushingOn(good, [], len);
    assert ([last] + rest)[1..] == rest;
  }

  lemma PrefixSums(good: seq<int>, xfer: nat, limit: nat)
    requires good != [] && forall i :: 0 <= i < |good| ==> xfer + Sum(good[..i]) <= limit
    ensures xfer <= limit && forall i :: 0 <= i < |good[1..]| ==> xfer + good[0] + Sum(good[1..][..i]) <= limit
  {
    assert xfer + Sum(good[..0]) <= limit;
    forall i | 0 <= i < |good[1..]| ensures xfer + good[0] + Sum(good[1..][..i]) <= limit {
      assert good[..i + 1][1..] == good[1..][..i];
    }
  }

  lemma {:induction false} PuttingOn(good: seq<int>, w: seq<int>, len: nat, xfer: nat, limit: nat)
    requires AllPositive(good) && 0 <= Sum(good) < len
    requires forall i :: 0 <= i < |good| ==> xfer + Sum(good[..i]) <= limit
    ensures var r := Putting(w, len - Sum(good), xfer + Sum(good), limit);
      Putting(good + w, len, xfer, limit) == r.(n := r.n + Sum(good))
    decreases |good|
  {
    hide Putting;
    if good == [] {
      assert [] + w == w;
    } else {
      assert (good + w)[1..] == good[1..] + w;
      SumIsPositive(good[1..]);
      PrefixSums(good, xfer, limit);
      PuttingStep(good + w, len, xfer, limit);
      PuttingOn(good[1..], w, len - good[0], xfer + good[0], limit);
    }
  }

  /** The same for a put, which also stops once more than the limit has been sent in the period. */
  lemma PuttingMeans(good: seq<int>, last: int, rest: seq<int>, len: nat, xfer: nat, limit: nat)
    requires AllPositive(good) && 0 <= Sum(good) < len
    requires forall i :: 0 <= i < |good| ==> xfer + Sum(good[..i]) <= limit
    ensures var r := Putting(good + ([last] + rest), len, xfer, limit);
      if xfer + Sum(good) > limit then r == Sent(Sum(good), Limited, [last] + rest)
      else if last >= len - Sum(good) then r == Sent(len, Through, rest)
      else if last == -11 then r == Sent(Sum(good), Frozen, rest)
      else last <= 0 ==> r == Sent(Sum(good), Failed, rest)
    ensures xfer + Sum(good) <= limit ==> Putting(good + [], len, xfer, limit) == Sent(Sum(good), Frozen, [])
  {
    PuttingOn(good, [last] + rest, len, xfer, limit);
    PuttingOn(good, [], len, xfer, limit);
    assert ([last] + rest)[1..] == rest;
  }

  // ----- the file as a value

  datatype File = File(replies: seq<int>, delivered: seq<Byte>, pending: seq<Byte>, error: bool, frozen: bool,
                       xfer: nat, limit: nat)

  function Flushed(f: File): File {
    if f.error then f
    else
      var r := Flushing(f.replies, |f.pending|);
      f.(replies := r.replies, delivered := f.delivered + f.pending[..r.n], pending := f.pending[r.n..],
         error := r.ending == Failed, frozen := f.frozen || r.ending == Frozen)
  }

  /** buffered_put_buffer: unfreeze, flush, hand over data directly, buffer the rest. */
  function AfterPut(f: File, data: seq<Byte>): File {
    if f.error then f
    else
      var g := Flushed(f.(frozen := false));
      if g.frozen then g.(pending := g.pending + data)
      else
        var r := Putting(g.replies, |data|, g.xfer, g.limit);
        g.(replies := r.replies, delivered := g.delivered + data[..r.n], xfer := g.xfer + r.n,
           frozen := r.ending == Frozen, error := g.error || r.ending == Failed,
           pending := if r.ending == Failed then g.pending else g.pending + data[r.n..])
  }

  function AfterTick(f: File): File {
    if f.error || f.frozen then f else Flushed(f.(xfer := 0))
  }

  /** buffered_rate_limit: the sender should stop for now. */
  predicate Stop(f: File) { !f.error && (f.frozen || f.xfer > f.limit) }

  function Stream(f: File): seq<Byte> { f.delivered + f.pending }

  lemma Around(d: seq<Byte>, kept: seq<Byte>, data: seq<Byte>, n: nat)
    requires n <= |data|
    ensures (d + data[..n]) + (kept + data[n..]) == (d + kept) + data <==> data[..n] + kept == kept + data[..n]
  {
    var u, v := (d + data[..n]) + (kept + data[n..]), (d + kept) + data;
    var k := |d| + n + |kept|;
    assert u == d + (data[..n] + kept) + data[n..] && v == d + (kept + data[..n]) + data[n..];
    assert u[|d|..k] == data[..n] + kept && v[|d|..k] == kept + data[..n];
  }

  lemma FlushKeepsStream(f: File)
    ensures Stream(Flushed(f)) == Stream(f)
  {
    if !f.error {
      var n := Flushing(f.replies, |f.pending|).n;
      assert (f.delivered + f.pending[..n]) + f.pending[n..] == f.delivered + f.pending;
    }
  }

  /** Before the call: the flush of what is pending freezes, or the put does not fail and, if the flush
      fails, the bytes that overtake the pending ones happen to commute with them. */
  predicate InOrder(f: File, data: seq<Byte>) {
    if f.error then data == []
    else
      var a := Flushing(f.replies, |f.pending|);
      a.ending == Frozen ||
      (var b := Putting(a.replies, |data|, f.xfer, f.limit);
       var kept := f.pending[a.n..];
       b.ending != Failed && (a.ending == Failed ==> data[..b.n] + kept == kept + data[..b.n]))
  }

  /** A put keeps the bytes in order, and takes all of its data, exactly in that case. */
  lemma PutInOrderExactly(f: File, data: seq<Byte>)
    ensures Stream(AfterPut(f, data)) == Stream(f) + data <==> InOrder(f, data)
  {
    if f.error {
      assert Stream(f) + data == Stream(f) <==> data == [] by {
        if Stream(f) + data == Stream(f) { assert |data| == 0; }
        if data == [] { assert Stream(f) + [] == Stream(f); }
      }
    } else {
      var g := Flushed(f.(frozen := false));
      FlushKeepsStream(f.(frozen := false));
      if g.frozen {
        assert g.delivered + (g.pending + data) == (g.delivered + g.pending) + data;
      } else {
        var r := Putting(g.replies, |data|, g.xfer, g.limit);
        Around(g.delivered, g.pending, data, r.n);
        if r.ending == Failed {
          assert |Stream(AfterPut(f, data))| < |Stream(f) + data|;
        } else if !g.error {
          assert g.pending == [];
          assert data[..r.n] + [] == [] + data[..r.n];
        }
      }
    }
  }

  /** One byte is pending, the flush fails and the channel then takes a byte: the new byte overtakes it. */
  lemma NewByteOvertakes()
    ensures var f := File([-5, 1], [], [1], false, false, 0, 10);
      var g := AfterPut(f, [2]);
      g.delivered == [2] && g.pending == [1] && g.error && !InOrder(f, [2])
  {
    hide Flushing, Putting;
    var f := File([-5, 1], [], [1], false, false, 0, 10);
    FlushFails();
    assert Flushing(f.replies, |f.pending|) == Sent(0, Failed, [1]);
    var g := Flushed(f.(frozen := false));
    assert g == File([1], [], [1], true, false, 0, 10);
    PutTakesOne();
    var h := AfterPut(f, [2]);
    assert h.pending == [1] + [2][1..] == [1] && h.delivered == [] + [2][..1] == [2];
    PutInOrderExactly(f, [2]);
    assert Stream(h)[0] == 2 && (Stream(f) + [2])[0] == 1;
  }

  lemma FlushFails()
    ensures Flushing([-5, 1], 1) == Sent(0, Failed, [1])
  {
    assert Later([-5, 1]) == [1];
  }

  lemma PutTakesOne()
    ensures Putting([1], 1, 0, 10) == Sent(1, Through, [])
  {
    assert Answer([1], 1) == 1 && Later([1]) == [];
    assert Putting([], 0, 1, 10) == Sent(0, Through, []);
  }

  /** So without an error order is kept. */
  lemma NoErrorInOrder(f: File, data: seq<Byte>)
    requires !AfterPut(f, data).error
    ensures Stream(AfterPut(f, data)) == Stream(f) + data
  {
    PutInOrderExactly(f, data);
  }

  // ----- rate limiting

  lemma {:induction false} PuttingBound(replies: seq<int>, len: nat, xfer: nat, limit: nat)
    ensures xfer > limit ==> Putting(replies, len, xfer, limit).n == 0
    ensures len > 0 && xfer <= limit ==>
      var r := Putting(replies, len, xfer, limit); r.n > 0 || r.ending == Frozen || r.ending == Failed
  {}

  /** What the answer of buffered_rate_limit means for a put.  When it says stop because of the limit, no byte of
      the data goes out; when it does not say stop, a byte does, or output freezes, or the file fails.  Either
      way a put exceeds the limit by no more than its own length. */
  lemma StopMeans(f: File, data: seq<Byte>)
    requires !f.error && data != []
    ensures var g := AfterPut(f, data);
      && (f.xfer > f.limit ==> g.xfer == f.xfer)
      && (!Stop(f) ==> g.xfer > f.xfer || g.frozen || g.error)
      && (f.xfer <= f.limit ==> g.xfer <= f.limit + |data|)
      && g.limit == f.limit
  {
    var g := Flushed(f.(frozen := false));
    PuttingBound(g.replies, |data|, g.xfer, g.limit);
  }

  lemma DeliveredMore(d: seq<Byte>, b: seq<Byte>, offset: nat, n: nat)
    requires offset + n <= |b|
    ensures (d + b[..offset]) + b[offset..][..n] == d + b[..offset + n]
  {}

  class QemuFileBuffered {
    const channel: Channel
    var hasError: bool
    var freezeOutput: bool
    var bytesXfer: nat
    var xferLimit: nat
    var buffer: array<Byte>  // its length is buffer_capacity
    var bufferSize: nat

    ghost predicate Valid()
      reads this
    {
      bufferSize <= buffer.Length
    }

    /** Bytes accepted and not yet delivered. */
    ghost function Pending(): seq<Byte>
      requires Valid()
      reads this, buffer
    {
      buffer[..bufferSize]
    }

    constructor (channel: Channel, bytesPerSec: nat)
      ensures Valid() && Pending() == [] && this.channel == channel && !hasError && fresh(buffer)
      ensures xferLimit == bytesPerSec / 10 && bytesXfer == 0 && !freezeOutput
    {
      this.channel := channel;
      hasError, freezeOutput, bytesXfer, xferLimit := false, false, 0, bytesPerSec / 10;
      buffer, bufferSize := new Byte[0], 0;
    }

    /** The buffer grows by what does not fit and 1024 more. */
    method Grow(n: nat)
      requires Valid()
      modifies this`buffer
      ensures Valid() && fresh(buffer) && Pending() == old(Pending()) && buffer.Length == old(buffer.Length) + n + 1024
    {
      var tmp := new Byte[buffer.Length + n + 1024];
      for i := 0 to bufferSize
        invariant buffer == old(buffer) && forall j :: 0 <= j < i ==> tmp[j] == buffer[j]
      {
        tmp[i] := buffer[i];
      }
      buffer := tmp;
    }

    method Append(data: seq<Byte>)
      requires Valid()
      modifies this`buffer, this`bufferSize, buffer
      ensures Valid() && Pending() == old(Pending()) + data
      ensures buffer == old(buffer) || fresh(buffer)
    {
      if |data| > buffer.Length - bufferSize {
        Grow(|data|);
      }
      ghost var before := Pending();
      for i := 0 to |data|
        invariant bufferSize == old(bufferSize) && bufferSize + |data| <= buffer.Length
        invariant buffer == old(buffer) || fresh(buffer)
        invariant buffer[..bufferSize + i] == before + data[..i]
      {
        buffer[bufferSize + i] := data[i];
      }
      bufferSize := bufferSize + |data|;
      assert data[..|data|] == data;
    }

    /** memmove of the unsent part to the front. */
    method DropFront(n: nat)
      requires Valid() && n <= bufferSize
      modifies this`bufferSize, buffer
      ensures Valid() && Pending() == old(Pending())[n..]
    {
      ghost var before := buffer[..bufferSize];
      for i := 0 to bufferSize - n
        invariant bufferSize == old(bufferSize)
        invariant forall j :: 0 <= j < i ==> buffer[j] == before[n + j]
        invariant forall j :: i <= j < bufferSize ==> buffer[j] == before[j]
      {
        buffer[i] := buffer[n + i];
      }
      bufferSize := bufferSize - n;
    }

    ghost function F(): File
      requires Valid()
      reads this, buffer, channel
    {
      File(channel.replies, channel.delivered, Pending(), hasError, freezeOutput, bytesXfer, xferLimit)
    }

    /** The loop of buffered_flush: offset bytes of the buffer have gone out. */
    method SendBuffered() returns (offset: nat)
      requires Valid() && !hasError
      modifies this`hasError, this`freezeOutput, channel
      ensures var r := Flushing(old(channel.replies), bufferSize);
        && offset == r.n && channel.replies == r.replies && hasError == (r.ending == Failed)
        && freezeOutput == (old(freezeOutput) || r.ending == Frozen)
        && channel.delivered == old(channel.delivered) + Pending()[..r.n]
    {
      hide Flushing;
      offset := 0;
      ghost var before, sent := Pending(), channel.delivered;
      while offset < bufferSize
        invariant offset <= bufferSize && channel.delivered == sent + before[..offset]
        invariant freezeOutput == old(freezeOutput) && !hasError
        invariant var r := Flushing(channel.replies, bufferSize - offset);
          r.(n := r.n + offset) == Flushing(old(channel.replies), bufferSize)
      {
        var rest := buffer[offset..bufferSize];
        assert rest == before[offset..];
        FlushingStep(channel.replies, bufferSize - offset);
        var ret := channel.Put(rest);
        if ret == -EAGAIN {
          freezeOutput := true;
          break;
        }
        if ret <= 0 {
          hasError := true;
          break;
        } else {
          DeliveredMore(sent, before, offset, ret);
          offset := offset + ret;
        }
      }
      LoopsEnd(channel.replies, 0, 0, 0);
    }

    /** Delivers buffered bytes in order; none is lost, also when the channel fails. */
    method Flush()
      requires Valid()
      modifies this`hasError, this`freezeOutput, this`bufferSize, buffer, channel
      ensures Valid() && F() == Flushed(old(F()))
    {
      if hasError { return; }
      var offset := SendBuffered();
      DropFront(offset);
    }

    /** The loop of buffered_put_buffer that hands data to the channel directly. */
    method PutDirect(data: seq<Byte>) returns (offset: int)
      requires !freezeOutput
      modifies this`hasError, this`freezeOutput, this`bytesXfer, channel
      ensures var r := Putting(old(channel.replies), |data|, old(bytesXfer), xferLimit);
        && offset == (if r.ending == Failed then -EINVAL else r.n) && channel.replies == r.replies
        && hasError == (old(hasError) || r.ending == Failed) && freezeOutput == (r.ending == Frozen)
        && bytesXfer == old(bytesXfer) + r.n && channel.delivered == old(channel.delivered) + data[..r.n]
    {
      hide Putting;
      offset := 0;
      ghost var before := channel.delivered;
      while !freezeOutput && offset < |data|
        invariant 0 <= offset <= |data| && channel.delivered == before + data[..offset]
        invariant !freezeOutput && hasError == old(hasError) && bytesXfer == old(bytesXfer) + offset
        invariant var r := Putting(channel.replies, |data| - offset, bytesXfer, xferLimit);
          r.(n := r.n + offset) == Putting(old(channel.replies), |data|, old(bytesXfer), xferLimit)
        decreases |data| - offset
      {
        LoopsEnd(channel.replies, |data| - offset, bytesXfer, xferLimit);
        if bytesXfer > xferLimit { break; }
        PuttingStep(channel.replies, |data| - offset, bytesXfer, xferLimit);
        var ret := channel.Put(data[offset..]);
        if ret == -EAGAIN {
          freezeOutput := true;
          break;
        }
        if ret <= 0 {
          hasError := true;
          return -EINVAL;
        }
        DeliveredMore(before, data, offset, ret);
        offset, bytesXfer := offset + ret, bytesXfer + ret;
      }
      LoopsEnd(channel.replies, |data| - offset, bytesXfer, xferLimit);
    }

    /** buffered_put_buffer: refines AfterPut; order is kept exactly under InOrder. */
    method PutBuffer(data: seq<Byte>) returns (ret: int)
      requires Valid()
      modifies this, buffer, channel
      ensures Valid() && (buffer == old(buffer) || fresh(buffer))
      ensures F() == AfterPut(old(F()), data)
      ensures Stream(F()) == Stream(old(F())) + data <==> InOrder(old(F()), data)
      ensures ret == |data| || (ret == -EINVAL && hasError)
      ensures !hasError ==> ret == |data|
    {
      hide Flushing, Putting, InOrder;
      ghost var f := F();
      PutInOrderExactly(f, data);
      if hasError { return -EINVAL; }
      freezeOutput := false;
      Flush();
      ghost var g := F();
      var offset := 0;
      if !freezeOutput {
        offset := PutDirect(data);
        assert Pending() == g.pending;
      }
      if offset >= 0 {
        Append(data[offset..]);
        offset := |data|;
      }
      ret := offset;
    }

    /** buffered_rate_tick, up to the client's put_ready. */
    method RateTick()
      requires Valid()
      modifies this`hasError, this`freezeOutput, this`bytesXfer, this`bufferSize, buffer, channel
      ensures Valid() && F() == AfterTick(old(F()))
      ensures if old(hasError) || old(freezeOutput) then F() == old(F()) else bytesXfer == 0
      ensures channel.delivered + Pending() == old(channel.delivered + Pending())
    {
      if hasError { return; }
      if freezeOutput { return; }
      bytesXfer := 0;
      FlushKeepsStream(F());
      Flush();
    }

    /** buffered_rate_limit: whether the sender should stop for now; StopMeans says what that means. */
    method RateLimit() returns (stop: bool)
      requires Valid()
      ensures stop == Stop(F())
      ensures stop <==> !hasError && (freezeOutput || bytesXfer > xferLimit)
    {
      if hasError { return false; }
      if freezeOutput { return true; }
      return bytesXfer > xferLimit;
    }
  }

  datatype Op = Put(data: seq<Byte>) | Tick

  /** Every byte handed over by a list of operations, in order. */
  function Accepted(ops: seq<Op>): seq<Byte> {
    if ops == [] then []
    else Accepted(ops[..|ops| - 1]) + match ops[|ops| - 1] case Put(data) => data case Tick => []
  }

  function After(f: File, op: Op): File {
    match op
    case Put(data) => AfterPut(f, data)
    case Tick => AfterTick(f)
  }

  lemma OpKeepsStream(f: File, op: Op)
    requires !After(f, op).error
    ensures !f.error && Stream(After(f, op)) == Stream(f) + match op case Put(data) => data case Tick => []
  {
    match op
    case Put(data) => NoErrorInOrder(f, data);
    case Tick =>
      FlushKeepsStream(f.(xfer := 0));
      assert Stream(f) + [] == Stream(f);
  }

  /** FIFO and lossless over every run that ends without an error: what the channel has
      received, followed by what is buffered, is everything that was put. */
  method RunOps(f: QemuFileBuffered, ops: seq<Op>)
    requires f.Valid() && f.channel.delivered == [] && f.Pending() == []
    modifies f, f.buffer, f.channel
    ensures f.Valid()
    ensures !f.hasError ==> f.channel.delivered + f.Pending() == Accepted(ops)
  {
    hide AfterPut, AfterTick, InOrder;
    for i := 0 to |ops|
      invariant f.Valid() && (f.buffer == old(f.buffer) || fresh(f.buffer))
      invariant !f.hasError ==> Stream(f.F()) == Accepted(ops[..i])
    {
      assert ops[..i + 1][..i] == ops[..i] && ops[..i + 1][i] == ops[i];
      ghost var g := f.F();
      match ops[i] {
        case Put(data) =>
          var _ := f.PutBuffer(data);
        case Tick =>
          f.RateTick();
      }
      if !f.hasError {
        OpKeepsStream(g, ops[i]);
      }
    }
    assert ops[..|ops|] == ops;
  }

  function Concat(chunks: seq<seq<Byte>>): seq<Byte> {
    if chunks == [] then [] else Concat(chunks[..|chunks| - 1]) + chunks[|chunks| - 1]
  }

  /** The loop of a rate-limited sender: chunks of at most size bytes go out until the file says stop.  It stops
      early only if output is frozen or the limit is passed, and the limit is passed by at most one chunk. */
  method PutUntilStop(f: QemuFileBuffered, chunks: seq<seq<Byte>>, ghost size: nat) returns (n: nat)
    requires f.Valid() && !f.hasError && forall i :: 0 <= i < |chunks| ==> 0 < |chunks[i]| <= size
    modifies f, f.buffer, f.channel
    ensures f.Valid() && n <= |chunks|
    ensures n < |chunks| ==> Stop(f.F())
    ensures f.xferLimit == old(f.xferLimit) && f.bytesXfer <= Max(old(f.bytesXfer), f.xferLimit + size)
    ensures !f.hasError ==> Stream(f.F()) == Stream(old(f.F())) + Concat(chunks[..n])
  {
    hide AfterPut, InOrder;
    n := 0;
    var stop := f.RateLimit();
    assert Stream(f.F()) + [] == Stream(f.F());
    while !stop && n < |chunks|
      invariant f.Valid() && (f.buffer == old(f.buffer) || fresh(f.buffer)) && n <= |chunks| && stop == Stop(f.F())
      invariant f.xferLimit == old(f.xferLimit) && f.bytesXfer <= Max(old(f.bytesXfer), f.xferLimit + size)
      invariant !f.hasError ==> Stream(f.F()) == Stream(old(f.F())) + Concat(chunks[..n])
    {
      ghost var g := f.F();
      var _ := f.PutBuffer(chunks[n]);
      ChunkPut(g, f.F(), Stream(old(f.F())), chunks, n);
      n := n + 1;
      stop := f.RateLimit();
    }
  }

  lemma ChunkPut(g: File, h: File, start: seq<Byte>, chunks: seq<seq<Byte>>, n: nat)
    requires n < |chunks| && chunks[n] != [] && !Stop(g) && h == AfterPut(g, chunks[n])
    requires !g.error ==> Stream(g) == start + Concat(chunks[..n])
    ensures h.limit == g.limit && (h.xfer == g.xfer || h.xfer <= g.limit + |chunks[n]|)
    ensures !h.error ==> Stream(h) == start + Concat(chunks[..n + 1])
  {
    if !g.error {
      StopMeans(g, chunks[n]);
    }
    if !h.error {
      NoErrorInOrder(g, chunks[n]);
      assert chunks[..n + 1][..n] == chunks[..n] && chunks[..n + 1][n] == chunks[n];
      assert (start + Concat(chunks[..n])) + chunks[n] == start + (Concat(chunks[..n]) + chunks[n]);
    }
  }
}
