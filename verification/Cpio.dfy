/** The newc archive reader and writer of the ramdisk script. */
module Cpio {
  import opened Common

  /** Err stands for a raised exception, or for a padding loop that meets the end of the file. */
  datatype Result<+T> = Ok(value: T) | Err {
    predicate IsFailure() { Err? }
    function PropagateFailure<U>(): Result<U>
      requires IsFailure()
    {
      Err
    }
    function Extract(): T
      requires !IsFailure()
    {
      value
    }
  }

  // ----- hexadecimal numbers

  function DigitChar(d: nat): char
    requires d < 16
  {
    "0123456789abcdef"[d]
  }

  predicate LowerDigit(c: char) { '0' <= c <= '9' || 'a' <= c <= 'f' }

  predicate HexDigit(c: char) { LowerDigit(c) || 'A' <= c <= 'F' }

  function DigitValue(c: char): (d: nat)
    requires HexDigit(c)
    ensures d < 16
  {
    if '0' <= c <= '9' then (c as int) - ('0' as int)
    else if 'a' <= c <= 'f' then 10 + (c as int) - ('a' as int)
    else 10 + (c as int) - ('A' as int)
  }

  lemma DigitRoundTrip(d: nat, c: char)
    ensures d < 16 ==> LowerDigit(DigitChar(d)) && DigitValue(DigitChar(d)) == d
    ensures HexDigit(c) ==> (DigitChar(DigitValue(c)) == c <==> LowerDigit(c))
  {}

  /** Lower-case digits, zero-padded to at least n of them. */
  function Hex(v: nat, n: nat): (s: string)
    ensures |s| >= n
    decreases v + n
  {
    if v == 0 && n == 0 then ""
    else Hex(v / 16, if n == 0 then 0 else n - 1) + [DigitChar(v % 16)]
  }

  predicate AllHex(s: string) { forall i :: 0 <= i < |s| ==> HexDigit(s[i]) }

  predicate AllLower(s: string) { forall i :: 0 <= i < |s| ==> LowerDigit(s[i]) }

  function FromHex(s: string): nat
    requires AllHex(s)
  {
    if s == "" then 0 else 16 * FromHex(s[..|s| - 1]) + DigitValue(s[|s| - 1])
  }

  function Pow16(n: nat): (r: nat)
    ensures r > 0
  {
    if n == 0 then 1 else 16 * Pow16(n - 1)
  }

  /** Printing and reading back. */
  lemma {:induction false} HexRoundTrip(v: nat, n: nat)
    requires v < Pow16(n)
    ensures var s := Hex(v, n); |s| == n && AllLower(s) && FromHex(s) == v
    decreases n
  {
    if n > 0 {
      HexRoundTrip(v / 16, n - 1);
      DigitRoundTrip(v % 16, 'a');
      var s := Hex(v, n);
      assert s[..n - 1] == Hex(v / 16, n - 1);
    }
  }

  lemma HexStep(v: nat, n: nat)
    requires n > 0
    ensures Hex(v, n) == Hex(v / 16, n - 1) + [DigitChar(v % 16)]
  {}

  lemma PlaceValue(v: nat, n: nat)
    requires n > 0
    ensures Pow16(n) == 16 * Pow16(n - 1) && (v < Pow16(n) ==> v / 16 < Pow16(n - 1)) && Pow16(0) == 1
  {}

  /** Place i of n holds the digit of weight 16^(n - 1 - i). */
  lemma {:induction false} HexPlaces(v: nat, n: nat, i: nat)
    requires v < Pow16(n) && i < n
    ensures |Hex(v, n)| == n && Hex(v, n)[i] == "0123456789abcdef"[v / Pow16(n - 1 - i) % 16]
    decreases n
  {
    hide Hex, FromHex, AllLower, Pow16;
    PlaceValue(v, n);
    HexStep(v, n);
    HexRoundTrip(v, n);
    if i < n - 1 {
      HexPlaces(v / 16, n - 1, i);
      PlaceValue(v, n - 1 - i);
      DivTwice(v, Pow16(n - 2 - i));
    }
  }

  lemma DivTwice(v: nat, p: nat)
    requires p > 0
    ensures v / 16 / p == v / (16 * p)
  {
    var q, r := v / 16 / p, v / 16 % p;
    assert v / 16 == q * p + r;
    assert v == 16 * (q * p + r) + v % 16 == q * (16 * p) + (16 * r + v % 16);
    assert 16 * r + v % 16 < 16 * p;
    DivUnique(v, 16 * p, q, 16 * r + v % 16);
  }

  lemma DivUnique(v: nat, d: nat, q: nat, r: nat)
    requires v == q * d + r && r < d
    ensures v / d == q
  {
    var k, m := v / d, v % d;
    assert v == k * d + m;
    assert (q - k) * d == q * d - k * d && (k - q) * d == k * d - q * d;
    if q > k {
      AtLeastOnce(q - k, d);
    } else if k > q {
      AtLeastOnce(k - q, d);
    }
  }

  lemma AtLeastOnce(n: nat, d: nat)
    requires n > 0
    ensures n * d >= d
  {}

  /** Reading and printing back: the same digits exactly when they were lower case. */
  lemma {:induction false} HexReprint(s: string)
    requires AllHex(s)
    ensures FromHex(s) < Pow16(|s|)
    ensures Hex(FromHex(s), |s|) == s <==> AllLower(s)
  {
    if s != "" {
      var n := |s| - 1;
      var v := FromHex(s);
      HexReprint(s[..n]);
      DigitRoundTrip(0, s[n]);
      assert v / 16 == FromHex(s[..n]) && v % 16 == DigitValue(s[n]);
      assert s == s[..n] + [s[n]];
      assert AllLower(s) <==> AllLower(s[..n]) && LowerDigit(s[n]);
      HexRoundTrip(v / 16, n);
      var h := Hex(v, n + 1);
      assert h == Hex(v / 16, n) + [DigitChar(v % 16)] && |Hex(v / 16, n)| == n;
      assert h == s <==> h[..n] == s[..n] && h[n] == s[n];
    }
  }

  // ----- entries

  datatype Entry = Entry(ino: nat, mode: nat, uid: nat, gid: nat, nlink: nat, mtime: nat, filesize: nat,
                         devmajor: nat, devminor: nat, rdevmajor: nat, rdevminor: nat, namesize: nat, check: nat,
                         name: string, file: string)

  function Fields(e: Entry): (f: seq<nat>)
    ensures |f| == 13
  {
    [e.ino, e.mode, e.uid, e.gid, e.nlink, e.mtime, e.filesize, e.devmajor, e.devminor,
     e.rdevmajor, e.rdevminor, e.namesize, e.check]
  }

  const MAGIC := "070701"

  function PrintFields(f: seq<nat>): string {
    if f == [] then "" else PrintFields(f[..|f| - 1]) + Hex(f[|f| - 1], 8)
  }

  /** The bytes of one entry; name and file carry their own padding. */
  function PrintEntry(e: Entry): string { MAGIC + PrintFields(Fields(e)) + e.name + e.file }

  function PrintAll(es: seq<Entry>): string {
    if es == [] then "" else PrintEntry(es[0]) + PrintAll(es[1..])
  }

  // ----- reading; a read at the end of the file returns what is left

  function Drop(s: string, a: nat): string { s[Min(a, |s|)..] }

  function Clip(s: string, a: nat, b: nat): string
    requires a <= b
  {
    s[Min(a, |s|)..Min(b, |s|)]
  }

  function ParseHex(s: string): Result<nat> {
    if s != "" && AllHex(s) then Ok(FromHex(s)) else Err
  }

  /** Header field i. */
  function Field(s: string, i: nat): Result<nat> { ParseHex(Clip(s, 6 + 8 * i, 14 + 8 * i)) }

  function PadLen(n: nat, skew: nat): (m: nat)
    ensures n <= m < n + 4 && (m + skew) % 4 == 0
  {
    n + (4 - (n + skew) % 4) % 4
  }

  /** How much a read of size bytes and the padding after it take. */
  function PaddedRead(s: string, size: nat, skew: nat): Result<nat> {
    var m := PadLen(Min(size, |s|), skew);
    if m <= |s| then Ok(m) else Err
  }

  predicate FieldsOk(s: string) { forall i :: 0 <= i < 13 ==> Field(s, i).Ok? }

  function HeaderEntry(s: string, name: string, file: string): (e: Entry)
    requires FieldsOk(s)
    ensures e.name == name && e.file == file
  {
    Entry(Field(s, 0).value, Field(s, 1).value, Field(s, 2).value, Field(s, 3).value, Field(s, 4).value,
          Field(s, 5).value, Field(s, 6).value, Field(s, 7).value, Field(s, 8).value, Field(s, 9).value,
          Field(s, 10).value, Field(s, 11).value, Field(s, 12).value, name, file)
  }

  /** One entry and what follows it. */
  function ParseEntry(s: string): Result<(Entry, string)> {
    if Clip(s, 0, 6) != MAGIC || !FieldsOk(s) then Err
    else
      var body := Drop(s, 110);
      var n :- PaddedRead(body, Field(s, 11).value, 2);
      var f :- PaddedRead(body[n..], Field(s, 6).value, 0);
      Ok((HeaderEntry(s, body[..n], body[n..n + f]), body[n + f..]))
  }

  lemma EntryIsLong(s: string)
    requires ParseEntry(s).Ok?
    ensures |s| >= 110 && |ParseEntry(s).value.1| < |s|
  {
    hide FieldsOk, Field, HeaderEntry, FromHex;
    assert |Drop(s, 110)| > 0;
  }

  // ----- printing and then parsing

  lemma EightDigits()
    ensures Pow16(8) == TWO32
  {
    assert Pow16(4) == 0x1_0000;
  }

  /** Each printed field stands in its own eight places. */
  lemma {:induction false} PrintedField(f: seq<nat>, i: nat)
    requires i < |f| && forall j :: 0 <= j < |f| ==> f[j] < TWO32
    ensures |PrintFields(f)| == 8 * |f| && PrintFields(f)[8 * i..8 * i + 8] == Hex(f[i], 8)
  {
    hide Hex;
    var n := |f| - 1;
    EightDigits();
    HexRoundTrip(f[n], 8);
    if n > 0 {
      PrintedField(f[..n], if i < n then i else 0);
    }
    if i < n {
      var p := PrintFields(f[..n]);
      assert PrintFields(f)[8 * i..8 * i + 8] == p[8 * i..8 * i + 8];
    }
  }

  predicate WellFormed(e: Entry) {
    && (forall i :: 0 <= i < 13 ==> Fields(e)[i] < TWO32)
    && |e.name| == PadLen(e.namesize, 2)
    && |e.file| == PadLen(e.filesize, 0)
  }

  /** The header of a printed entry, whatever follows. */
  lemma PrintedHeader(f: seq<nat>, rest: string, i: nat)
    requires |f| == 13 && i < 13 && forall j :: 0 <= j < 13 ==> f[j] < TWO32
    ensures var s := MAGIC + PrintFields(f) + rest;
      |s| == 110 + |rest| && Drop(s, 110) == rest && Clip(s, 0, 6) == MAGIC && Field(s, i) == Ok(f[i])
  {
    hide Hex, PrintFields, FromHex;
    PrintedField(f, i);
    EightDigits();
    HexRoundTrip(f[i], 8);
    var h := PrintFields(f);
    var s := MAGIC + h + rest;
    assert Clip(s, 6 + 8 * i, 14 + 8 * i) == h[8 * i..8 * i + 8];
  }

  lemma PrintedBody(name: string, file: string, tail: string)
    ensures var body, n, f := name + file + tail, |name|, |file|;
      body[..n] == name && body[n..n + f] == file && body[n + f..] == tail && |body[n..]| == f + |tail|
  {}

  lemma PrintedShape(e: Entry, tail: string)
    ensures PrintEntry(e) + tail == MAGIC + PrintFields(Fields(e)) + (e.name + e.file + tail)
  {
    hide PrintFields, Fields;
    var h := MAGIC + PrintFields(Fields(e));
    assert h + e.name + e.file + tail == h + (e.name + e.file + tail);
  }

  /** An entry is its header fields, its name and its file. */
  lemma FromFields(s: string, e: Entry)
    requires FieldsOk(s) && forall i :: 0 <= i < 13 ==> Field(s, i) == Ok(Fields(e)[i])
    ensures HeaderEntry(s, e.name, e.file) == e
  {
    hide Field;
    var f := Fields(e);
    assert Field(s, 0) == Ok(f[0]) && Field(s, 1) == Ok(f[1]) && Field(s, 2) == Ok(f[2]) && Field(s, 3) == Ok(f[3]);
    assert Field(s, 4) == Ok(f[4]) && Field(s, 5) == Ok(f[5]) && Field(s, 6) == Ok(f[6]) && Field(s, 7) == Ok(f[7]);
    assert Field(s, 8) == Ok(f[8]) && Field(s, 9) == Ok(f[9]) && Field(s, 10) == Ok(f[10]);
    assert Field(s, 11) == Ok(f[11]) && Field(s, 12) == Ok(f[12]);
  }

  lemma PaddedExactly(s: string, size: nat, skew: nat)
    requires PadLen(size, skew) <= |s|
    ensures PaddedRead(s, size, skew) == Ok(PadLen(size, skew))
  {}

  /** A printed entry parses back, and the parser stops where it ends. */
  lemma EntryRoundTrip(e: Entry, tail: string)
    requires WellFormed(e)
    ensures ParseEntry(PrintEntry(e) + tail) == Ok((e, tail))
  {
    hide PrintFields, PrintEntry, Field, Drop, Clip, HeaderEntry, PaddedRead, PadLen;
    var f := Fields(e);
    var body := e.name + e.file + tail;
    var s := MAGIC + PrintFields(f) + body;
    PrintedShape(e, tail);
    forall i | 0 <= i < 13
      ensures Field(s, i) == Ok(f[i])
    {
      PrintedHeader(f, body, i);
    }
    PrintedHeader(f, body, 0);
    FromFields(s, e);
    PrintedBody(e.name, e.file, tail);
    PaddedExactly(body, e.namesize, 2);
    PaddedExactly(body[|e.name|..], e.filesize, 0);
    assert Field(s, 11) == Ok(f[11]) && Field(s, 6) == Ok(f[6]);
  }

  /** Where each field of an entry stands. */
  lemma EntryLayout(e: Entry)
    requires forall i :: 0 <= i < 13 ==> Fields(e)[i] < TWO32
    ensures var s := PrintEntry(e);
      && |s| == 110 + |e.name| + |e.file| && s[..6] == "070701" && s[110..] == e.name + e.file
      && s[6..14] == Hex(e.ino, 8) && s[14..22] == Hex(e.mode, 8) && s[22..30] == Hex(e.uid, 8)
      && s[30..38] == Hex(e.gid, 8) && s[38..46] == Hex(e.nlink, 8) && s[46..54] == Hex(e.mtime, 8)
      && s[54..62] == Hex(e.filesize, 8) && s[62..70] == Hex(e.devmajor, 8) && s[70..78] == Hex(e.devminor, 8)
      && s[78..86] == Hex(e.rdevmajor, 8) && s[86..94] == Hex(e.rdevminor, 8) && s[94..102] == Hex(e.namesize, 8)
      && s[102..110] == Hex(e.check, 8)
  {
    hide Hex, PrintFields, PrintEntry;
    EntryField(e, 0);
    EntryField(e, 1);
    EntryField(e, 2);
    EntryField(e, 3);
    EntryField(e, 4);
    EntryField(e, 5);
    EntryField(e, 6);
    EntryField(e, 7);
    EntryField(e, 8);
    EntryField(e, 9);
    EntryField(e, 10);
    EntryField(e, 11);
    EntryField(e, 12);
  }

  lemma EntryField(e: Entry, i: nat)
    requires i < 13 && forall j :: 0 <= j < 13 ==> Fields(e)[j] < TWO32
    ensures var s := PrintEntry(e);
      && |s| == 110 + |e.name| + |e.file| && s[..6] == "070701" && s[110..] == e.name + e.file
      && s[6 + 8 * i..14 + 8 * i] == Hex(Fields(e)[i], 8)
  {
    hide Hex, PrintFields, Fields;
    var h, s := PrintFields(Fields(e)), PrintEntry(e);
    PrintedField(Fields(e), i);
    assert s == "070701" + h + (e.name + e.file);
    assert s[6..110] == h;
    SliceOfSlice(s, 6, 110, 8 * i, 8 * i + 8);
  }

  /** Every entry of an archive ends on a multiple of four, and so does its name. */
  lemma EntryAligned(s: string)
    requires ParseEntry(s).Ok?
    ensures var e := ParseEntry(s).value.0; (110 + |e.name|) % 4 == 0 && |e.file| % 4 == 0
  {
    hide Field, FromHex, Clip, Drop, PaddedRead;
    var body := Drop(s, 110);
    PaddedAligned(body, Field(s, 11).value, 2);
    var n := PaddedRead(body, Field(s, 11).value, 2).value;
    PaddedAligned(body[n..], Field(s, 6).value, 0);
  }

  lemma PaddedAligned(s: string, size: nat, skew: nat)
    requires PaddedRead(s, size, skew).Ok?
    ensures var n := PaddedRead(s, size, skew).value; n <= |s| && (n + skew) % 4 == 0
  {}

  // ----- parsing and then printing

  /** h holds the digits of the numbers f, eight each. */
  ghost predicate Spells(f: seq<nat>, h: string) {
    |h| == 8 * |f| &&
    forall i :: 0 <= i < |f| ==> AllHex(h[8 * i..8 * i + 8]) && f[i] == FromHex(h[8 * i..8 * i + 8])
  }

  lemma SpellsSplits(f: seq<nat>, h: string)
    requires Spells(f, h) && f != []
    ensures var n := |f| - 1;
      && |h| == 8 * n + 8 && Spells(f[..n], h[..8 * n]) && h == h[..8 * n] + h[8 * n..]
      && AllHex(h[8 * n..]) && f[n] == FromHex(h[8 * n..])
  {
    hide AllHex, FromHex;
    var n := |f| - 1;
    assert h[8 * n..8 * n + 8] == h[8 * n..];
    forall i | 0 <= i < n ensures h[..8 * n][8 * i..8 * i + 8] == h[8 * i..8 * i + 8] {
      SliceOfSlice(h, 0, 8 * n, 8 * i, 8 * i + 8);
      assert h[0..8 * n] == h[..8 * n];
    }
  }

  lemma {:induction false} FieldsReprint(f: seq<nat>, h: string)
    requires Spells(f, h)
    ensures |PrintFields(f)| == |h| && (PrintFields(f) == h <==> AllLower(h))
  {
    hide Hex, FromHex, AllHex;
    if f != [] {
      hide Spells, AllLower;
      var n := |f| - 1;
      SpellsSplits(f, h);
      var init, last := h[..8 * n], h[8 * n..];
      FieldsReprint(f[..n], init);
      HexReprint(last);
      HexRoundTrip(f[n], 8);
      LowerSplits(init, last);
      SameSplits(PrintFields(f[..n]), Hex(f[n], 8), init, last);
    }
  }

  lemma LowerSplits(a: string, b: string)
    ensures AllLower(a + b) <==> AllLower(a) && AllLower(b)
  {
    if AllLower(a + b) {
      assert forall i :: 0 <= i < |a| ==> (a + b)[i] == a[i];
      assert forall i :: 0 <= i < |b| ==> (a + b)[|a| + i] == b[i];
    }
  }

  lemma SameSplits(a: string, b: string, c: string, d: string)
    requires |a| == |c|
    ensures a + b == c + d <==> a == c && b == d
  {
    if a + b == c + d {
      assert a == (a + b)[..|a|] && b == (a + b)[|a|..];
      assert c == (c + d)[..|a|] && d == (c + d)[|a|..];
    }
  }

  lemma HeaderFields(s: string, name: string, file: string, i: nat)
    requires FieldsOk(s) && i < 13
    ensures Field(s, i) == Ok(Fields(HeaderEntry(s, name, file))[i])
  {
    hide Field;
  }

  /** A parsed entry's fields are the header's digits. */
  lemma ParsedFields(s: string, i: nat)
    requires ParseEntry(s).Ok? && i < 13
    ensures |s| >= 110 && ParseHex(s[6..110][8 * i..8 * i + 8]) == Ok(Fields(ParseEntry(s).value.0)[i])
  {
    hide ParseHex, HeaderEntry, Fields, FieldsOk, PadLen, Drop;
    EntryIsLong(s);
    var e := ParseEntry(s).value.0;
    HeaderFields(s, e.name, e.file, i);
    assert s[6..110][8 * i..8 * i + 8] == Clip(s, 6 + 8 * i, 14 + 8 * i);
  }

  lemma ParsedShape(s: string)
    requires ParseEntry(s).Ok?
    ensures var (e, rest) := ParseEntry(s).value;
      |s| >= 110 && s == MAGIC + s[6..110] + (e.name + e.file + rest)
  {
    EntryIsLong(s);
    SplitHeader(s);
    SplitBody(s);
  }

  lemma SplitHeader(s: string)
    requires |s| >= 110
    ensures s == Clip(s, 0, 6) + s[6..110] + Drop(s, 110)
  {}

  lemma SplitBody(s: string)
    requires ParseEntry(s).Ok?
    ensures var (e, rest) := ParseEntry(s).value; e.name + e.file + rest == Drop(s, 110)
  {
    hide Field, Drop, Clip, PadLen;
    var body := Drop(s, 110);
    var n := PaddedRead(body, Field(s, 11).value, 2).value;
    var f := PaddedRead(body[n..], Field(s, 6).value, 0).value;
    assert body[..n] + body[n..n + f] + body[n + f..] == body;
  }

  lemma Between(m: string, h: string, k: string, body: string)
    requires |h| == |k|
    ensures m + h + body == m + k + body <==> h == k
  {
    assert (m + h + body)[|m|..|m| + |h|] == h && (m + k + body)[|m|..|m| + |h|] == k;
  }

  /** Writing a parsed entry reproduces its bytes exactly when its header digits were lower case. */
  lemma EntryReprint(s: string)
    requires ParseEntry(s).Ok?
    ensures var (e, rest) := ParseEntry(s).value;
      |s| >= 110 && |PrintEntry(e) + rest| == |s| && (PrintEntry(e) + rest == s <==> AllLower(s[6..110]))
  {
    hide Hex, PrintFields, FromHex, ParseEntry;
    EntryIsLong(s);
    ParsedShape(s);
    var (e, rest) := ParseEntry(s).value;
    var h, body := s[6..110], e.name + e.file + rest;
    forall i | 0 <= i < 13
      ensures AllHex(h[8 * i..8 * i + 8]) && Fields(e)[i] == FromHex(h[8 * i..8 * i + 8])
    {
      ParsedFields(s, i);
    }
    FieldsReprint(Fields(e), h);
    Between(MAGIC, PrintFields(Fields(e)), h, body);
    assert PrintEntry(e) + rest == MAGIC + PrintFields(Fields(e)) + body;
  }
}
