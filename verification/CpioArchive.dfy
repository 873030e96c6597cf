/** Whole archives: entries up to the trailer, then whatever padding follows. */
module CpioArchive {
  import opened Common
  import opened Cpio

  const TRAILER := "TRAILER!!!"

  predicate IsTrailer(e: Entry) { TRAILER <= e.name }

  function ParseArchive(s: string): Result<(seq<Entry>, string)>
    decreases |s|
  {
    match ParseEntry(s)
    case Err => Err
    case Ok((e, rest)) =>
      EntryIsLong(s);
      if IsTrailer(e) then Ok(([e], rest))
      else match ParseArchive(rest)
        case Err => Err
        case Ok((es, tail)) => Ok(([e] + es, tail))
  }

  /** One trailer, at the end. */
  predicate Terminated(es: seq<Entry>) {
    es != [] && IsTrailer(es[|es| - 1]) && forall i :: 0 <= i < |es| - 1 ==> !IsTrailer(es[i])
  }

  predicate AllWellFormed(es: seq<Entry>) { forall i :: 0 <= i < |es| ==> WellFormed(es[i]) }

  /** Parsing what was written gives back the entries and the tail. */
  lemma {:induction false} ArchiveRoundTrip(es: seq<Entry>, tail: string)
    requires Terminated(es) && AllWellFormed(es)
    ensures ParseArchive(PrintAll(es) + tail) == Ok((es, tail))
  {
    hide PrintEntry, ParseEntry, WellFormed, IsTrailer;
    var rest := PrintAll(es[1..]) + tail;
    assert PrintAll(es) + tail == PrintEntry(es[0]) + rest;
    EntryRoundTrip(es[0], rest);
    if |es| == 1 {
      assert rest == tail && es == [es[0]];
    } else {
      ArchiveRoundTrip(es[1..], tail);
      assert es == [es[0]] + es[1..];
    }
  }

  /** Every header met while parsing is in lower case. */
  predicate LowerHeaders(s: string)
    requires ParseArchive(s).Ok?
    decreases |s|
  {
    EntryIsLong(s);
    var (e, rest) := ParseEntry(s).value;
    AllLower(s[6..110]) && (IsTrailer(e) || LowerHeaders(rest))
  }

  lemma Prefixed(a: string, b: string, c: string, d: string)
    requires |a| == |c|
    ensures a + b == c + d <==> a == c && b == d
  {
    assert (a + b)[..|a|] == a && (a + b)[|a|..] == b && (c + d)[..|a|] == c && (c + d)[|a|..] == d;
  }

  lemma PrintFirst(es: seq<Entry>, tail: string)
    requires es != []
    ensures PrintAll(es) + tail == PrintEntry(es[0]) + (PrintAll(es[1..]) + tail)
  {
    hide PrintEntry;
  }

  lemma NothingPrinted(tail: string)
    ensures PrintAll([]) + tail == tail
  {}

  lemma OneTrailer(es: seq<Entry>)
    requires es != [] && if IsTrailer(es[0]) then es == [es[0]] else Terminated(es[1..])
    ensures Terminated(es)
  {
    hide IsTrailer;
    assert forall i :: 0 < i < |es| ==> es[i] == es[1..][i - 1];
  }

  /** The last entry, and no other, is named as the trailer. */
  lemma TrailerNamed(es: seq<Entry>)
    requires Terminated(es)
    ensures forall i :: 0 <= i < |es| ==>
        (i == |es| - 1 <==> |es[i].name| >= 10 && es[i].name[..10] == "TRAILER!!!")
  {
    hide IsTrailer;
    forall i | 0 <= i < |es|
      ensures i == |es| - 1 <==> |es[i].name| >= 10 && es[i].name[..10] == "TRAILER!!!"
    {
      TrailerStarts(es[i]);
    }
  }

  /** Writing a parsed archive reproduces it byte for byte exactly when its headers are in lower case. */
  lemma {:induction false} ArchiveReprint(s: string)
    requires ParseArchive(s).Ok?
    ensures var (es, tail) := ParseArchive(s).value;
      && Terminated(es) && |PrintAll(es) + tail| == |s| && (PrintAll(es) + tail == s <==> LowerHeaders(s))
      && forall i :: 0 <= i < |es| ==>
          (i == |es| - 1 <==> |es[i].name| >= 10 && es[i].name[..10] == "TRAILER!!!")
    decreases |s|
  {
    hide PrintEntry, ParseEntry, IsTrailer, PrintAll, Terminated;
    EntryIsLong(s);
    EntryReprint(s);
    var (e, rest) := ParseEntry(s).value;
    var (es, tail) := ParseArchive(s).value;
    PrintFirst(es, tail);
    if IsTrailer(e) {
      assert es[1..] == [];
      NothingPrinted(tail);
    } else {
      ArchiveReprint(rest);
      assert es[1..] == ParseArchive(rest).value.0;
      var n := |s| - |rest|;
      EntrySuffix(s);
      assert s == s[..n] + rest;
      Prefixed(PrintEntry(e), PrintAll(es[1..]) + tail, s[..n], rest);
      Prefixed(PrintEntry(e), rest, s[..n], rest);
    }
    OneTrailer(es);
    TrailerNamed(es);
  }

  lemma TrailerStarts(e: Entry)
    ensures IsTrailer(e) <==> |e.name| >= 10 && e.name[..10] == "TRAILER!!!"
  {}

  lemma EntrySuffix(s: string)
    requires ParseEntry(s).Ok?
    ensures var rest := ParseEntry(s).value.1; |rest| <= |s| && s[|s| - |rest|..] == rest
  {
    ParsedShape(s);
  }

  // ----- the console device

  function StripNul(s: string): string {
    if s == "" then "" else (if s[0] == '\0' then "" else [s[0]]) + StripNul(s[1..])
  }

  predicate IsConsole(e: Entry) { StripNul(e.name) == "dev/console" }

  /** The console entry is the one whose name, without the padding, is dev/console. */
  lemma ConsoleIsNamed(e: Entry, base: string, n: nat)
    requires e.name == base + seq(n, _ => '\0') && '\0' !in base
    ensures IsConsole(e) <==> base == "dev/console"
  {
    StripPadding(base, n);
  }

  lemma {:induction false} StripPadding(base: string, n: nat)
    requires '\0' !in base
    ensures StripNul(base + seq(n, _ => '\0')) == base
    decreases |base| + n
  {
    var s := base + seq(n, _ => '\0');
    if base != "" {
      assert s[1..] == base[1..] + seq(n, _ => '\0');
      StripPadding(base[1..], n);
      assert base == [base[0]] + base[1..];
    } else if n > 0 {
      assert s[1..] == "" + seq(n - 1, _ => '\0');
      StripPadding("", n - 1);
    }
  }

  function Console(e: Entry): Entry { e.(rdevmajor := 5, rdevminor := 1, mode := 8576) }

  /** The index of the first console entry, or the number of entries. */
  function FirstConsole(es: seq<Entry>): (k: nat)
    ensures k <= |es| && (k < |es| ==> IsConsole(es[k])) && forall i :: 0 <= i < k ==> !IsConsole(es[i])
  {
    if es == [] then 0 else if IsConsole(es[0]) then 0 else 1 + FirstConsole(es[1..])
  }

  predicate SmallFields(e: Entry) { forall i :: 0 <= i < 13 ==> Fields(e)[i] < TWO32 }

  /** The places of mode, rdevmajor and rdevminor in an entry at base. */
  predicate DeviceByte(base: nat, j: nat) { base + 14 <= j < base + 22 || base + 78 <= j < base + 94 }

  ghost predicate SameBut(a: string, b: string, base: nat) {
    |a| == |b| && forall j: nat :: j < |a| && !DeviceByte(base, j) ==> a[j] == b[j]
  }

  lemma ConsoleFields(e: Entry, j: nat)
    requires SmallFields(e) && j < 104 && !DeviceByte(0, j + 6)
    ensures |PrintFields(Fields(e))| == |PrintFields(Fields(Console(e)))| == 104
    ensures PrintFields(Fields(e))[j] == PrintFields(Fields(Console(e)))[j]
  {
    hide Hex, PrintFields;
    var i := j / 8;
    var f, g := Fields(e), Fields(Console(e));
    PrintedField(f, i);
    forall n | 0 <= n < 13
      ensures g[n] < TWO32
    {
      assert g[n] == f[n] || g[n] == 8576 || g[n] == 5 || g[n] == 1;
    }
    PrintedField(g, i);
    assert f[i] == g[i];
    assert PrintFields(f)[j] == PrintFields(f)[8 * i..8 * i + 8][j - 8 * i];
    assert PrintFields(g)[j] == PrintFields(g)[8 * i..8 * i + 8][j - 8 * i];
  }

  lemma ConsoleEntryBytes(e: Entry)
    requires SmallFields(e)
    ensures SameBut(PrintEntry(e), PrintEntry(Console(e)), 0)
  {
    hide PrintFields, SmallFields, Fields;
    var p, q := PrintFields(Fields(e)), PrintFields(Fields(Console(e)));
    ConsoleFields(e, 0);
    var a, b := PrintEntry(e), PrintEntry(Console(e));
    forall j: nat | j < |a| && !DeviceByte(0, j)
      ensures a[j] == b[j]
    {
      if 6 <= j < 110 {
        ConsoleFields(e, j - 6);
        assert a[j] == p[j - 6] && b[j] == q[j - 6];
      }
    }
  }

  lemma SevenZeros()
    ensures Hex(0, 4) == "0000" && Hex(0, 7) == "0000000"
  {
    hide Hex;
    assert Hex(0, 0) == "" by { NoDigits(); }
    HexStep(0, 1);
    HexStep(0, 2);
    HexStep(0, 3);
    HexStep(0, 4);
    HexStep(0, 5);
    HexStep(0, 6);
    HexStep(0, 7);
  }

  lemma NoDigits()
    ensures Hex(0, 0) == ""
  {}

  lemma DeviceDigits()
    ensures Hex(8576, 8) == "00002180" && Hex(5, 8) == "00000005" && Hex(1, 8) == "00000001"
  {
    hide Hex;
    SevenZeros();
    HexStep(2, 5);
    HexStep(33, 6);
    HexStep(536, 7);
    HexStep(8576, 8);
    HexStep(5, 8);
    HexStep(1, 8);
  }

  /** A console entry is printed as a character device, owner bits included, with major number 5 and minor number 1. */
  lemma ConsoleDigits(e: Entry)
    requires SmallFields(e)
    ensures var s := PrintEntry(Console(e));
      |s| >= 110 && s[14..22] == "00002180" && s[78..86] == "00000005" && s[86..94] == "00000001"
  {
    hide Hex, PrintEntry;
    DeviceDigits();
    var c := Console(e);
    forall n | 0 <= n < 13 ensures Fields(c)[n] < TWO32 {
      assert Fields(c)[n] == Fields(e)[n] || Fields(c)[n] == 8576 || Fields(c)[n] == 5 || Fields(c)[n] == 1;
    }
    EntryLayout(c);
  }

  lemma {:induction false} PrintAllSplit(es: seq<Entry>, k: nat)
    requires k < |es|
    ensures PrintAll(es) == PrintAll(es[..k]) + PrintEntry(es[k]) + PrintAll(es[k + 1..])
  {
    hide PrintEntry;
    if k == 0 {
      assert es[..0] == [];
    } else {
      PrintAllSplit(es[1..], k - 1);
      assert es[1..][..k - 1] == es[..k][1..] && es[1..][k..] == es[k + 1..];
      assert PrintAll(es[..k]) == PrintEntry(es[0]) + PrintAll(es[..k][1..]);
    }
  }

  lemma SameInside(before: string, a: string, b: string, after: string)
    requires SameBut(a, b, 0)
    ensures SameBut(before + a + after, before + b + after, |before|)
  {
    var x, y := before + a + after, before + b + after;
    forall j: nat | j < |x| && !DeviceByte(|before|, j)
      ensures x[j] == y[j]
    {
      if |before| <= j < |before| + |a| {
        assert !DeviceByte(0, j - |before|);
        assert x[j] == a[j - |before|] && y[j] == b[j - |before|];
      }
    }
  }

  /** Turning an entry into the console device moves no byte and changes none outside its device fields. */
  lemma ConsoleBytes(es: seq<Entry>, k: nat)
    requires k < |es| && SmallFields(es[k])
    ensures SameBut(PrintAll(es), PrintAll(es[k := Console(es[k])]), |PrintAll(es[..k])|)
  {
    hide PrintEntry, SmallFields, Console, PrintAll, SameBut;
    var fs := es[k := Console(es[k])];
    PrintAllSplit(es, k);
    PrintAllSplit(fs, k);
    assert fs[..k] == es[..k] && fs[k + 1..] == es[k + 1..];
    ConsoleEntryBytes(es[k]);
    SameInside(PrintAll(es[..k]), PrintEntry(es[k]), PrintEntry(fs[k]), PrintAll(es[k + 1..]));
  }

  /** And its digits are in the archive. */
  lemma ConsoleInArchive(es: seq<Entry>, k: nat, tail: string)
    requires k < |es| && SmallFields(es[k])
    ensures var s, base := PrintAll(es[k := Console(es[k])]) + tail, |PrintAll(es[..k])|;
      && |s| >= base + 110 && s[base + 14..base + 22] == "00002180" && s[base + 78..base + 86] == "00000005"
      && s[base + 86..base + 94] == "00000001"
  {
    hide PrintEntry, SmallFields, Console, PrintAll;
    var fs := es[k := Console(es[k])];
    PrintAllSplit(fs, k);
    assert fs[..k] == es[..k];
    ConsoleDigits(es[k]);
    var a, b, c := PrintAll(es[..k]), PrintEntry(fs[k]), PrintAll(fs[k + 1..]);
    var s := PrintAll(fs) + tail;
    assert s == a + b + (c + tail);
    assert s[|a|..|a| + |b|] == b;
    SliceOfSlice(s, |a|, |a| + |b|, 14, 22);
    SliceOfSlice(s, |a|, |a| + |b|, 78, 86);
    SliceOfSlice(s, |a|, |a| + |b|, 86, 94);
  }

  lemma EntryIsSmall(s: string)
    requires ParseEntry(s).Ok?
    ensures SmallFields(ParseEntry(s).value.0)
  {
    hide ParseEntry, Fields, FromHex;
    forall i | 0 <= i < 13
      ensures Fields(ParseEntry(s).value.0)[i] < TWO32
    {
      ParsedFields(s, i);
      HexReprint(s[6..110][8 * i..8 * i + 8]);
      EightDigits();
    }
  }

  /** Eight digits never exceed 32 bits. */
  lemma {:induction false} ParsedIsSmall(s: string, k: nat)
    requires ParseArchive(s).Ok? && k < |ParseArchive(s).value.0|
    ensures SmallFields(ParseArchive(s).value.0[k])
    decreases |s|
  {
    hide ParseEntry, SmallFields, IsTrailer;
    EntryIsLong(s);
    EntryIsSmall(s);
    if k > 0 {
      ParsedIsSmall(ParseEntry(s).value.1, k - 1);
    }
  }
}
