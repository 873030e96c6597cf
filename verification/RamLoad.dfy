/** The receiving side of live RAM migration (qemu/arch_init.c:338-458), for version 4 streams. */
module RamLoad {
  import opened Common
  import opened Bytes
  import opened RamList
  import opened RamSave

  /** The receiver's own block list and pages, and the block its last named record chose. */
  datatype Dest = Dest(blocks: seq<RamBlock>, ram: seq<Page>, cur: Option<nat>)

  ghost predicate ValidDest(d: Dest) {
    ValidBlocks(d.blocks, |d.ram|) && (d.cur.Some? ==> d.cur.value < |d.blocks|)
  }

  /** Bad is -EINVAL, or -EIO for a stream that ends early.  Stray is a page written to memory that is not
      the page's: past the end of its block, or through a null pointer.  The code has no test for that, and
      what it does afterwards is not part of this model. */
  datatype Loaded = Bad | Stray | Done(dest: Dest, rest: seq<Byte>, eos: bool)

  datatype Named = NoName | Named(name: seq<Byte>, rest: seq<Byte>)
  datatype Host = NoHost(rest: seq<Byte>) | Host(b: nat, rest: seq<Byte>)
  datatype Sizes = SizesBad | SizesOk(rest: seq<Byte>)

  /** The C string held in a buffer: what precedes its first zero byte. */
  function CString(s: seq<Byte>): seq<Byte> {
    if s == [] || s[0] == 0 then [] else [s[0]] + CString(s[1..])
  }

  function GetName(w: seq<Byte>): Named {
    if |w| == 0 || |w| <= w[0] then NoName else Named(CString(w[1..1 + w[0]]), w[1 + w[0]..])
  }

  lemma {:induction false} CStringStops(a: seq<Byte>, b: seq<Byte>)
    requires 0 !in a
    ensures CString(a + [0] + b) == a
  {
    if a == [] {
      assert [] + [0] + b == [0] + b;
    } else {
      assert (a + [0] + b)[1..] == a[1..] + [0] + b;
      CStringStops(a[1..], b);
    }
  }

  /** A zero byte ends a name, though the stream goes on behind the announced length. */
  lemma NameStopsAtZero(a: seq<Byte>, b: seq<Byte>, x: seq<Byte>)
    requires 0 !in a && |a| + 1 + |b| < 256
    ensures GetName([|a| + 1 + |b|] + (a + [0] + b) + x) == Named(a, x)
  {
    var n, id := |a| + 1 + |b|, a + [0] + b;
    var w := [n] + id + x;
    assert w[1..1 + w[0]] == id && w[1 + w[0]..] == x;
    CStringStops(a, b);
  }

  predicate Has(flags: nat, flag: nat)
    requires flag > 0
  {
    flags / flag % 2 == 1
  }

  /** host_from_stream_offset: the block a page record is for. */
  function GetHost(d: Dest, flags: nat, w: seq<Byte>): Host {
    if Has(flags, CONTINUE) then
      if d.cur.Some? then Host(d.cur.value, w) else NoHost(w)
    else
      match GetName(w)
      case NoName => NoHost([])
      case Named(name, rest) =>
        match Find(d.blocks, name)
        case None => NoHost(rest)
        case Some(b) => Host(b, rest)
  }

  /** The loop that checks the sender's block list against the receiver's. */
  function GetSizes(d: Dest, total: nat, w: seq<Byte>): Sizes
    decreases |w|
  {
    if total == 0 then SizesOk(w)
    else
      match GetName(w)
      case NoName => SizesBad
      case Named(name, rest) =>
        if |rest| < 8 then SizesBad
        else
          var length := FromBigEndian(rest[..8]);
          match Find(d.blocks, name)
          case None => SizesBad
          case Some(b) =>
            if d.blocks[b].pages * PAGE != length then SizesBad
            else GetSizes(d, (total - length) % TWO64, rest[8..])
  }

  /** Page k of block b is there. */
  predicate InBlock(d: Dest, b: nat, k: nat) {
    b < |d.blocks| && k < d.blocks[b].pages && d.blocks[b].first + k < |d.ram|
  }

  function PutPage(d: Dest, b: nat, k: nat, p: Page): Dest
    requires InBlock(d, b, k)
  {
    d.(ram := d.ram[d.blocks[b].first + k := p], cur := Some(b))
  }

  /** The part of a record after its first word.  The byte of a uniform page is written even when the stream
      has ended before it, and the bytes of any other page as far as the stream goes. */
  function LoadPayload(d: Dest, k: nat, flags: nat, w: seq<Byte>): Loaded {
    if Has(flags, COMPRESS) then
      match GetHost(d, flags, w)
      case NoHost(_) => Bad
      case Host(b, rest) =>
        if !InBlock(d, b, k) then Stray
        else if rest == [] then Bad
        else Done(PutPage(d, b, k, seq(PAGE, _ => rest[0])), rest[1..], Has(flags, EOS))
    else if Has(flags, PAGE_DATA) then
      match GetHost(d, flags, w)
      case NoHost(rest) => if rest == [] then Bad else Stray
      case Host(b, rest) =>
        if rest == [] then Bad
        else if !InBlock(d, b, k) then Stray
        else if |rest| < PAGE then Bad
        else Done(PutPage(d, b, k, rest[..PAGE]), rest[PAGE..], Has(flags, EOS))
    else Done(d, w, Has(flags, EOS))
  }

  /** The first word of a record and, with a size header, the block list behind it. */
  datatype Header = NoHeader | Header(k: nat, flags: nat, rest: seq<Byte>)

  function GetHeader(d: Dest, w: seq<Byte>): Header {
    if |w| < 8 then NoHeader
    else
      var v := FromBigEndian(w[..8]);
      var k, flags := v / PAGE, v % PAGE;
      if Has(flags, MEM_SIZE) then
        match GetSizes(d, k * PAGE, w[8..])
        case SizesBad => NoHeader
        case SizesOk(rest) => Header(k, flags, rest)
      else Header(k, flags, w[8..])
  }

  /** One turn of the loop of ram_load. */
  function LoadRecord(d: Dest, w: seq<Byte>): Loaded {
    match GetHeader(d, w)
    case NoHeader => Bad
    case Header(k, flags, rest) => LoadPayload(d, k, flags, rest)
  }

  // ----- what is read does not depend on what follows it

  lemma NameThenMore(w: seq<Byte>, x: seq<Byte>)
    requires GetName(w).Named?
    ensures GetName(w + x) == GetName(w).(rest := GetName(w).rest + x) && |GetName(w).rest| < |w|
  {
    assert (w + x)[1..1 + w[0]] == w[1..1 + w[0]];
    assert (w + x)[1 + w[0]..] == w[1 + w[0]..] + x;
  }

  lemma HostThenMore(d: Dest, flags: nat, w: seq<Byte>, x: seq<Byte>)
    requires GetHost(d, flags, w).Host?
    ensures GetHost(d, flags, w + x) == GetHost(d, flags, w).(rest := GetHost(d, flags, w).rest + x)
  {
    if !Has(flags, CONTINUE) { NameThenMore(w, x); }
  }

  lemma {:induction false} SizesThenMore(d: Dest, total: nat, w: seq<Byte>, x: seq<Byte>)
    requires GetSizes(d, total, w).SizesOk?
    ensures GetSizes(d, total, w + x) == SizesOk(GetSizes(d, total, w).rest + x)
    decreases |w|
  {
    hide GetName, FromBigEndian;
    if total != 0 {
      NameThenMore(w, x);
      var rest := GetName(w).rest;
      assert (rest + x)[..8] == rest[..8] && (rest + x)[8..] == rest[8..] + x;
      SizesThenMore(d, (total - FromBigEndian(rest[..8])) % TWO64, rest[8..], x);
    }
  }

  lemma PayloadThenMore(d: Dest, k: nat, flags: nat, w: seq<Byte>, x: seq<Byte>)
    requires LoadPayload(d, k, flags, w).Done?
    ensures LoadPayload(d, k, flags, w + x) ==
            LoadPayload(d, k, flags, w).(rest := LoadPayload(d, k, flags, w).rest + x)
  {
    if Has(flags, COMPRESS) || Has(flags, PAGE_DATA) {
      HostThenMore(d, flags, w, x);
      var rest := GetHost(d, flags, w).rest;
      if Has(flags, COMPRESS) {
        assert (rest + x)[1..] == rest[1..] + x && (rest + x)[0] == rest[0];
        assert seq(PAGE, _ => (rest + x)[0]) == seq(PAGE, _ => rest[0]);
      } else {
        assert (rest + x)[..PAGE] == rest[..PAGE] && (rest + x)[PAGE..] == rest[PAGE..] + x;
      }
    }
  }

  lemma HeaderThenMore(d: Dest, w: seq<Byte>, x: seq<Byte>)
    requires GetHeader(d, w).Header?
    ensures GetHeader(d, w + x) == GetHeader(d, w).(rest := GetHeader(d, w).rest + x)
  {
    assert (w + x)[..8] == w[..8] && (w + x)[8..] == w[8..] + x;
    var v := FromBigEndian(w[..8]);
    if Has(v % PAGE, MEM_SIZE) {
      SizesThenMore(d, v / PAGE * PAGE, w[8..], x);
    }
  }

  lemma RecordThenMore(d: Dest, w: seq<Byte>, x: seq<Byte>)
    requires LoadRecord(d, w).Done?
    ensures LoadRecord(d, w + x) == LoadRecord(d, w).(rest := LoadRecord(d, w).rest + x)
  {
    hide GetHeader, LoadPayload;
    HeaderThenMore(d, w, x);
    var h := GetHeader(d, w);
    PayloadThenMore(d, h.k, h.flags, h.rest, x);
  }

  // ----- progress

  lemma {:induction false} SizesShrink(d: Dest, total: nat, w: seq<Byte>)
    requires GetSizes(d, total, w).SizesOk?
    ensures |GetSizes(d, total, w).rest| <= |w|
    decreases |w|
  {
    if total != 0 {
      var rest := GetName(w).rest;
      SizesShrink(d, (total - FromBigEndian(rest[..8])) % TWO64, rest[8..]);
    }
  }

  lemma RecordShrinks(d: Dest, w: seq<Byte>)
    requires LoadRecord(d, w).Done?
    ensures |LoadRecord(d, w).rest| < |w|
  {
    var v := FromBigEndian(w[..8]);
    if Has(v % PAGE, MEM_SIZE) { SizesShrink(d, v / PAGE * PAGE, w[8..]); }
    var h := GetHeader(d, w);
    assert |h.rest| < |w|;
  }

  // ----- records that stray

  /** The record asks for a page that is not there: its block is known and the page is past its end, or its
      block is not known and it carries bytes of a page. */
  predicate AsksForStray(d: Dest, w: seq<Byte>) {
    match GetHeader(d, w)
    case NoHeader => false
    case Header(k, flags, rest) =>
      var host := GetHost(d, flags, rest);
      if Has(flags, COMPRESS) then host.Host? && host.b < |d.blocks| && d.blocks[host.b].pages <= k
      else
        Has(flags, PAGE_DATA) && host.rest != []
        && (host.Host? ==> host.b < |d.blocks| && d.blocks[host.b].pages <= k)
  }

  lemma HostIsBlock(d: Dest, flags: nat, w: seq<Byte>)
    requires ValidDest(d) && GetHost(d, flags, w).Host?
    ensures GetHost(d, flags, w).b < |d.blocks|
    ensures forall k: nat :: InBlock(d, GetHost(d, flags, w).b, k) <==> k < d.blocks[GetHost(d, flags, w).b].pages
  {
    var b := GetHost(d, flags, w).b;
    assert ValidBlock(d.blocks[b], |d.ram|);
  }

  /** ram_load writes outside guest memory exactly for such records; any other record keeps the receiver
      consistent, its block list unchanged, and changes at most the page it is for. */
  lemma RecordKeepsValid(d: Dest, w: seq<Byte>)
    requires ValidDest(d)
    ensures LoadRecord(d, w).Stray? <==> AsksForStray(d, w)
    ensures LoadRecord(d, w).Done? ==>
      var d' := LoadRecord(d, w).dest;
      ValidDest(d') && d'.blocks == d.blocks && exists n: nat :: OnlyPage(d.ram, d'.ram, n)
  {
    hide ValidBlocks, GetHeader, GetHost;
    match GetHeader(d, w)
    case NoHeader =>
    case Header(k, flags, rest) =>
      var host := GetHost(d, flags, rest);
      if host.Host? {
        HostIsBlock(d, flags, rest);
      }
      if LoadRecord(d, w).Done? {
        var d' := LoadRecord(d, w).dest;
        assert OnlyPage(d.ram, d'.ram, if host.Host? then d.blocks[host.b].first + k else 0);
      }
  }

  predicate OnlyPage(r: seq<Page>, r': seq<Page>, n: nat) {
    |r| == |r'| && forall i :: 0 <= i < |r| && i != n ==> r[i] == r'[i]
  }

  /** A record for the page behind the last one of the remembered block strays. */
  lemma PastTheBlockStrays(d: Dest, b: nat, k: nat, x: seq<Byte>)
    requires ValidDest(d) && d.cur == Some(b) && d.blocks[b].pages <= k && k * PAGE + CONTINUE + COMPRESS < TWO64
    ensures LoadRecord(d, PutBe64(k * PAGE + CONTINUE + COMPRESS) + x) == Stray
  {
    hide PutBe64, FromBigEndian;
    var v := k * PAGE + CONTINUE + COMPRESS;
    Be64ThenMore(v, x);
    assert v / PAGE == k && v % PAGE == CONTINUE + COMPRESS;
  }

  /** One page of memory, and a record for the page behind it. */
  lemma StrayRecord()
    ensures var d := Dest([RamBlock([1], 0, 1)], [seq(PAGE, _ => 0)], Some(0));
      ValidDest(d) && LoadRecord(d, PutBe64(PAGE + CONTINUE + COMPRESS) + [7]) == Stray
  {
    hide LoadRecord, PutBe64;
    var d := Dest([RamBlock([1], 0, 1)], [seq(PAGE, _ => 0)], Some(0));
    assert ValidBlock(d.blocks[0], 1);
    PastTheBlockStrays(d, 0, 1, [7]);
  }

  /** So does a page's data while no block is remembered. */
  lemma NoBlockStrays(d: Dest, k: nat, x: seq<Byte>)
    requires d.cur.None? && x != [] && k * PAGE + CONTINUE + PAGE_DATA < TWO64
    ensures LoadRecord(d, PutBe64(k * PAGE + CONTINUE + PAGE_DATA) + x) == Stray
  {
    hide PutBe64, FromBigEndian;
    var v := k * PAGE + CONTINUE + PAGE_DATA;
    Be64ThenMore(v, x);
    assert v / PAGE == k && v % PAGE == CONTINUE + PAGE_DATA;
  }

  datatype Drained = DrainBad | Drained(dest: Dest)

  /** The receiver after it has read all of w, section after section. */
  function Drain(d: Dest, w: seq<Byte>): Drained
    decreases |w|
  {
    if w == [] then Drained(d)
    else
      match LoadRecord(d, w)
      case Bad => DrainBad
      case Stray => DrainBad
      case Done(d', rest, _) =>
        RecordShrinks(d, w);
        Drain(d', rest)
  }

  /** Reading a longer stream is reading its first part and then the rest. */
  lemma {:induction false} DrainAppend(d: Dest, w: seq<Byte>, x: seq<Byte>)
    requires Drain(d, w).Drained?
    ensures Drain(d, w + x) == Drain(Drain(d, w).dest, x)
    decreases |w|
  {
    if w == [] {
      assert w + x == x;
    } else {
      RecordThenMore(d, w, x);
      RecordShrinks(d, w);
      DrainAppend(LoadRecord(d, w).dest, LoadRecord(d, w).rest, x);
    }
  }

  /** One call of ram_load: records up to and including the end-of-section mark. */
  function LoadSection(d: Dest, w: seq<Byte>): Loaded
    decreases |w|
  {
    match LoadRecord(d, w)
    case Bad => Bad
    case Stray => Stray
    case Done(d', rest, eos) =>
      RecordShrinks(d, w);
      if eos then Done(d', rest, true) else LoadSection(d', rest)
  }

  /** Reading section by section or record by record ends in the same place. */
  lemma {:induction false} DrainSection(d: Dest, w: seq<Byte>)
    requires LoadSection(d, w).Done?
    ensures Drain(d, w) == Drain(LoadSection(d, w).dest, LoadSection(d, w).rest)
    decreases |w|
  {
    var r := LoadRecord(d, w);
    RecordShrinks(d, w);
    if !r.eos { DrainSection(r.dest, r.rest); }
  }

  class RamReceiver {
    var blocks: seq<RamBlock>
    var ram: seq<Page>
    var block: Option<nat>  // the static in host_from_stream_offset

    ghost function State(): Dest
      reads this
    {
      Dest(blocks, ram, block)
    }

    method FindBlock(id: seq<Byte>) returns (b: nat)
      ensures b <= |blocks|
      ensures Find(blocks, id) == if b < |blocks| then Some(b) else None
    {
      b := 0;
      while b < |blocks| && blocks[b].id != id
        invariant b <= |blocks| && FindFrom(blocks, id, b) == Find(blocks, id)
      {
        b := b + 1;
      }
    }

    method HostFromStreamOffset(flags: nat, w: seq<Byte>) returns (found: bool, rest: seq<Byte>)
      modifies this`block
      ensures rest == GetHost(old(State()), flags, w).rest
      ensures found == GetHost(old(State()), flags, w).Host?
      ensures found ==> block.Some? && block.value == GetHost(old(State()), flags, w).b
    {
      rest := w;
      if Has(flags, CONTINUE) {
        found := block.Some?;
        return;
      }
      var n := GetName(w);
      if n.NoName? { return false, []; }
      rest := n.rest;
      var b := FindBlock(n.name);
      found := b < |blocks|;
      block := if found then Some(b) else None;
    }

    method SyncBlockList(bytes: nat, w: seq<Byte>) returns (ok: bool, rest: seq<Byte>)
      ensures ok == GetSizes(State(), bytes, w).SizesOk?
      ensures ok ==> GetSizes(State(), bytes, w) == SizesOk(rest)
    {
      var total: nat := bytes;
      rest := w;
      while total != 0
        invariant GetSizes(State(), bytes, w) == GetSizes(State(), total, rest)
        decreases |rest|
      {
        var n := GetName(rest);
        if n.NoName? || |n.rest| < 8 { return false, rest; }
        var length := FromBigEndian(n.rest[..8]);
        var b := FindBlock(n.name);
        if b == |blocks| || blocks[b].pages * PAGE != length { return false, rest; }
        total, rest := (total - length) % TWO64, n.rest[8..];
      }
      ok := true;
    }

    /** memset or qemu_get_buffer into host + offset of the current block; the outcome of a write that is
        not in the block is Strayed, and nothing more is said about it. */
    method StorePage(k: nat, p: Page) returns (r: Outcome)
      requires block.Some?
      modifies this`ram
      ensures r == if InBlock(old(State()), block.value, k) then Ok else Strayed
      ensures r == Ok ==> State() == PutPage(old(State()), block.value, k, p)
    {
      if block.value < |blocks| && k < blocks[block.value].pages && blocks[block.value].first + k < |ram| {
        ram := ram[blocks[block.value].first + k := p];
        return Ok;
      }
      return Strayed;
    }

    method LoadPage(k: nat, flags: nat, w: seq<Byte>) returns (r: Outcome, rest: seq<Byte>)
      modifies this`block, this`ram
      ensures Matches(r, State(), rest, Has(flags, EOS), LoadPayload(old(State()), k, flags, w))
    {
      r, rest := Ok, w;
      var found: bool;
      if Has(flags, COMPRESS) {
        found, rest := HostFromStreamOffset(flags, w);
        if !found { return Failed, rest; }
        r := StorePage(k, seq(PAGE, _ => if rest == [] then 0 else rest[0]));  // qemu_get_byte at the end gives 0
        if r == Ok && rest == [] { return Failed, rest; }
        rest := if rest == [] then [] else rest[1..];
      } else if Has(flags, PAGE_DATA) {
        found, rest := HostFromStreamOffset(flags, w);
        if rest == [] { return Failed, rest; }
        if !found { return Strayed, rest; }
        if |rest| < PAGE {
          r := if InBlock(Dest(blocks, ram, block), block.value, k) then Failed else Strayed;
          return;
        }
        r := StorePage(k, rest[..PAGE]);
        rest := rest[PAGE..];
      }
    }

    /** ram_load: Failed is -EINVAL, or -EIO for a truncated stream. */
    method Load(stream: seq<Byte>) returns (r: Outcome, rest: seq<Byte>)
      modifies this`block, this`ram
      ensures Matches(r, State(), rest, true, LoadSection(old(State()), stream))
    {
      hide LoadPayload, FromBigEndian;
      rest := stream;
      var flags := 0;
      while true
        invariant LoadSection(old(State()), stream) == LoadSection(State(), rest)
        decreases |rest|
      {
        ghost var d, w := State(), rest;
        if |rest| < 8 { return Failed, rest; }
        var v := FromBigEndian(rest[..8]);
        var k := v / PAGE;
        flags := v % PAGE;
        rest := rest[8..];
        if Has(flags, MEM_SIZE) {
          var ok: bool;
          ok, rest := SyncBlockList(k * PAGE, rest);
          if !ok { return Failed, rest; }
        }
        assert GetHeader(d, w) == Header(k, flags, rest);
        r, rest := LoadPage(k, flags, rest);
        if r != Ok { return; }
        assert LoadRecord(d, w) == Done(State(), rest, Has(flags, EOS));
        RecordShrinks(d, w);
        if Has(flags, EOS) { return; }
      }
    }
  }

  datatype Outcome = Ok | Failed | Strayed

  /** The outcome of a method and the state it leaves are what the decoder says. */
  ghost predicate Matches(r: Outcome, d: Dest, rest: seq<Byte>, eos: bool, l: Loaded) {
    match l
    case Bad => r == Failed
    case Stray => r == Strayed
    case Done(_, _, _) => r == Ok && l == Done(d, rest, eos)
  }
}
