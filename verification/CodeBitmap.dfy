/** The self-modifying-code bitmap of a page: one bit per byte of the page (qemu/exec.c:914-939,
    1133-1137).  A byte of the bitmap is its eight bits, least significant first. */
module CodeBitmap {

  type Bits8 = b: seq<bool> | |b| == 8 witness seq(8, _ => false)

  const NO_BITS: Bits8 := seq(8, _ => false)
  const ALL_BITS: Bits8 := seq(8, _ => true)  // 0xff

  function Or(a: Bits8, b: Bits8): Bits8 { seq(8, i requires 0 <= i < 8 => a[i] || b[i]) }

  /** The bits from lo on and below hi: (0xff << lo) & ~(0xff << hi). */
  function Mask(lo: nat, hi: nat): Bits8 { seq(8, i => lo <= i < hi) }

  function Bit(tab: seq<Bits8>, k: nat): bool
    requires k < 8 * |tab|
  {
    tab[k / 8][k % 8]
  }

  /** set_bits: sets the bits of [start, start + len) and changes no other. */
  method SetBits(tab: array<Bits8>, start: nat, len: nat)
    requires start + len <= 8 * tab.Length
    modifies tab
    ensures forall k :: 0 <= k < 8 * tab.Length ==>
              Bit(tab[..], k) == (Bit(old(tab[..]), k) || start <= k < start + len)
  {
    var end, i := start + len, start / 8;
    if start / 8 == end / 8 {
      if start < end {
        tab[i] := Or(tab[i], Mask(start % 8, end % 8));
      }
    } else {
      tab[i] := Or(tab[i], Mask(start % 8, 8));
      i := i + 1;
      var from, end1 := (start + 8) / 8 * 8, end / 8 * 8;
      while from < end1
        invariant from == 8 * i && start / 8 < i <= end / 8
        invariant forall j :: 0 <= j < tab.Length ==>
                    tab[j] == if j == start / 8 then Or(old(tab[j]), Mask(start % 8, 8))
                              else if start / 8 < j < i then ALL_BITS else old(tab[j])
      {
        tab[i] := ALL_BITS;
        i, from := i + 1, from + 8;
      }
      if from < end {
        tab[i] := Or(tab[i], Mask(0, end % 8));
      }
    }
  }

  /** The test of the fast path: some bit of [offset, offset + len) is set, as far as the byte
      that holds bit offset goes. */
  predicate Hit(tab: seq<Bits8>, offset: nat, len: nat)
    requires offset < 8 * |tab|
  {
    exists i :: offset % 8 <= i < 8 && i < offset % 8 + len && tab[offset / 8][i]
  }

  lemma PairInOneByte(offset: nat)
    requires offset % 2 == 0
    ensures offset % 8 + 2 <= 8
  {}

  lemma FourInOneByte(offset: nat)
    requires offset % 4 == 0
    ensures offset % 8 + 4 <= 8
  {}

  lemma AlignedInOneByte(offset: nat, len: nat)
    requires len in {1, 2, 4, 8} && offset % len == 0
    ensures offset % 8 + len <= 8
  {
    if len == 2 {
      PairInOneByte(offset);
    } else if len == 4 {
      FourInOneByte(offset);
    }
  }

  lemma SameByte(offset: nat, k: nat)
    requires offset <= k < offset / 8 * 8 + 8
    ensures k / 8 == offset / 8 && k % 8 == offset % 8 + (k - offset)
  {}

  /** For an aligned access of 1, 2, 4 or 8 bytes the test looks at all its bits. */
  lemma HitIsExact(tab: seq<Bits8>, offset: nat, len: nat)
    requires len in {1, 2, 4, 8} && offset % len == 0 && offset + len <= 8 * |tab|
    ensures Hit(tab, offset, len) <==> exists k :: offset <= k < offset + len && Bit(tab, k)
  {
    AlignedInOneByte(offset, len);
    var lo, hi := offset, offset + len;
    if k :| lo <= k < hi && Bit(tab, k) {
      SameByte(offset, k);
      assert tab[offset / 8][k % 8];
    }
    if i :| offset % 8 <= i < 8 && i < offset % 8 + len && tab[offset / 8][i] {
      SameByte(offset, offset / 8 * 8 + i);
      assert Bit(tab, offset / 8 * 8 + i);
    }
  }
}
