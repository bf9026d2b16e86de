/** The classic PC MBR layout that `write_mbr` produces inside the 512-byte
    boot sector: four 16-byte partition records from offset 446, then the
    boot signature 0xAA55 (stored little-endian) at offset 510. Sizes and
    LBAs are clamped to the 32-bit fields. */
module Layout {
  import opened Types

  const SECTOR_SIZE: nat := 512
  const TABLE_OFFSET: nat := 446
  const ENTRY_SIZE: nat := 16
  const SIGNATURE_OFFSET: nat := 510
  const BOOT_FLAG: byte := 0x80

  /** The 32-bit clamp: values beyond the field saturate (with a warning). */
  function Clamp32(x: u64): (r: u32)
    ensures r <= x
    ensures x <= MAX_U32 ==> r == x
    ensures x > MAX_U32 ==> r == MAX_U32
  {
    if x > MAX_U32 then MAX_U32 else x
  }

  /** `end_lba + 1 - start_lba` in UINT64 arithmetic. */
  function SizeOf(p: MbrPart): u64 {
    Wrap64(p.endLba + 1 - p.startLba)
  }

  /** A UINT32 field as the little-endian machine stores it. */
  function LE32(x: u32): (b: seq<byte>)
    ensures |b| == 4
  {
    [x % 0x100, x / 0x100 % 0x100, x / 0x1_0000 % 0x100, x / 0x100_0000]
  }

  /** Reading a little-endian UINT32 field back. */
  function DecodeLE32(b: seq<byte>): nat
    requires |b| == 4
  {
    b[0] as nat + 0x100 * (b[1] as nat) + 0x1_0000 * (b[2] as nat) + 0x100_0000 * (b[3] as nat)
  }

  lemma LE32RoundTrip(x: u32)
    ensures DecodeLE32(LE32(x)) == x
  {
    var q1 := x / 0x100;
    var q2 := q1 / 0x100;
    var q3 := q2 / 0x100;
    assert x == x % 0x100 + 0x100 * q1;
    assert q1 == q1 % 0x100 + 0x100 * q2;
    assert q2 == q2 % 0x100 + 0x100 * q3;
    assert x / 0x1_0000 == q2;
    assert x / 0x100_0000 == q3;
  }

  /** A populated record: flags, CHS start `FE FF FF` (LBA addressing), type,
      CHS end `FE FF FF`, start LBA and size. */
  function EntryBytes(flags: byte, mbrType: byte, start: u32, size: u32): (e: seq<byte>)
    ensures |e| == ENTRY_SIZE
  {
    [flags, 0xFE, 0xFF, 0xFF, mbrType, 0xFE, 0xFF, 0xFF] + LE32(start) + LE32(size)
  }

  /** An unused record: all sixteen bytes zero. */
  function ZeroEntry(): (e: seq<byte>)
    ensures |e| == ENTRY_SIZE
  {
    seq(ENTRY_SIZE, _ => 0)
  }

  /** The first of the `count` candidates from `k` on whose index is `i`. */
  function FindCandidate(cand: seq<MbrPart>, count: nat, i: nat, k: nat): (r: Option<nat>)
    requires count <= |cand|
    ensures r.Some? ==> (k <= r.value < count && cand[r.value].index == i
      && forall j :: k <= j < r.value ==> cand[j].index != i)
    ensures r.None? ==> forall j :: k <= j < count ==> cand[j].index != i
    decreases count - k
  {
    if k >= count then None
    else if cand[k].index == i then Some(k)
    else FindCandidate(cand, count, i, k + 1)
  }

  /** Slot `i` is written from an active candidate. */
  predicate SlotActive(cand: seq<MbrPart>, count: nat, i: nat)
    requires count <= |cand|
  {
    var f := FindCandidate(cand, count, i, 0);
    f.Some? && cand[f.value].active
  }

  /** Some slot before `i` was written from an active candidate (and has
      used up the boot flag). */
  predicate ActiveBefore(cand: seq<MbrPart>, count: nat, i: nat)
    requires count <= |cand|
  {
    i > 0 && (ActiveBefore(cand, count, i - 1) || SlotActive(cand, count, i - 1))
  }

  /** `ActiveBefore` is "some slot before `i` is active". */
  lemma {:induction false} ActiveBeforeMeaning(cand: seq<MbrPart>, count: nat, i: nat)
    requires count <= |cand|
    ensures ActiveBefore(cand, count, i) <==> exists j :: 0 <= j < i && SlotActive(cand, count, j)
  {
    if i > 0 {
      ActiveBeforeMeaning(cand, count, i - 1);
      if ActiveBefore(cand, count, i) && !SlotActive(cand, count, i - 1) {
        var j :| 0 <= j < i - 1 && SlotActive(cand, count, j);
        assert 0 <= j < i;
      }
    }
  }

  /** The record slot `i` gets. */
  function SlotBytes(cand: seq<MbrPart>, count: nat, i: nat): (e: seq<byte>)
    requires count <= |cand|
    ensures |e| == ENTRY_SIZE
    ensures e[0] == BOOT_FLAG <==> SlotActive(cand, count, i) && !ActiveBefore(cand, count, i)
    ensures e[0] == 0 || e[0] == BOOT_FLAG
  {
    match FindCandidate(cand, count, i, 0)
    case None => ZeroEntry()
    case Some(k) =>
      var p := cand[k];
      EntryBytes(if p.active && !ActiveBefore(cand, count, i) then BOOT_FLAG else 0,
                 p.mbrType, Clamp32(p.startLba), Clamp32(SizeOf(p)))
  }

  /** The records of slots 0..n-1. */
  function TableBytes(cand: seq<MbrPart>, count: nat, n: nat): (b: seq<byte>)
    requires count <= |cand|
    ensures |b| == ENTRY_SIZE * n
  {
    if n == 0 then [] else TableBytes(cand, count, n - 1) + SlotBytes(cand, count, n - 1)
  }

  /** The sector `write_mbr` hands to the disk, given the sector it read. */
  function Image(base: seq<byte>, cand: seq<MbrPart>, count: nat): (s: seq<byte>)
    requires |base| == SECTOR_SIZE && count <= |cand|
    ensures |s| == SECTOR_SIZE
    ensures s[..TABLE_OFFSET] == base[..TABLE_OFFSET]
    ensures s[SIGNATURE_OFFSET] == 0x55 && s[SIGNATURE_OFFSET + 1] == 0xAA
  {
    base[..TABLE_OFFSET] + TableBytes(cand, count, 4) + [0x55, 0xAA]
  }

  lemma TableBytesSlot(cand: seq<MbrPart>, count: nat, n: nat, i: nat)
    requires count <= |cand| && i < n
    ensures TableBytes(cand, count, n)[ENTRY_SIZE * i..ENTRY_SIZE * i + ENTRY_SIZE] == SlotBytes(cand, count, i)
  {
    var tb: nat -> seq<byte> := k => TableBytes(cand, count, k);
    var sb: nat -> seq<byte> := k => SlotBytes(cand, count, k);
    assert forall k: nat :: tb(k + 1) == tb(k) + sb(k);
    JoinedSlot(tb, sb, n, i);
  }

  /** Record `i` of the first `n` records joined, for any way of computing
      the records (`sb`) and their joins (`tb`). */
  lemma {:induction false} JoinedSlot(tb: nat -> seq<byte>, sb: nat -> seq<byte>, n: nat, i: nat)
    requires forall k: nat :: |sb(k)| == ENTRY_SIZE
    requires forall k: nat :: tb(k + 1) == tb(k) + sb(k)
    requires |tb(0)| == 0 && i < n
    ensures |tb(n)| == ENTRY_SIZE * n
    ensures tb(n)[ENTRY_SIZE * i..ENTRY_SIZE * i + ENTRY_SIZE] == sb(i)
  {
    var m := n - 1;
    assert tb(m + 1) == tb(m) + sb(m);
    if m == 0 {
      assert tb(m) == [];
      ConcatEntry(tb(n), tb(m), sb(m), m, i, sb(i));
    } else if i < m {
      JoinedSlot(tb, sb, m, i);
      ConcatEntry(tb(n), tb(m), sb(m), m, i, sb(i));
    } else {
      JoinedSlot(tb, sb, m, 0);
      ConcatEntry(tb(n), tb(m), sb(m), m, i, sb(i));
    }
  }

  /** Record `i` of `whole == prev + last`, where `prev` holds `m` records:
      record `i` of `prev` when `i < m`, else `last`. The records are plain
      values here, so nothing about how they are computed gets in the way. */
  lemma ConcatEntry(whole: seq<byte>, prev: seq<byte>, last: seq<byte>, m: nat, i: nat, target: seq<byte>)
    requires whole == prev + last && |prev| == ENTRY_SIZE * m && |last| == ENTRY_SIZE && i <= m
    requires i < m ==> prev[ENTRY_SIZE * i..ENTRY_SIZE * i + ENTRY_SIZE] == target
    requires i == m ==> last == target
    ensures whole[ENTRY_SIZE * i..ENTRY_SIZE * i + ENTRY_SIZE] == target
  {
    var lo := ENTRY_SIZE * i;
    if i < m {
      assert lo + ENTRY_SIZE <= |prev|;
      SliceOfPrefix(prev, last, lo, lo + ENTRY_SIZE);
    } else {
      assert lo == |prev|;
    }
  }

  lemma SliceOfPrefix(a: seq<byte>, b: seq<byte>, lo: nat, hi: nat)
    requires lo <= hi <= |a|
    ensures (a + b)[lo..hi] == a[lo..hi]
  {
  }

  /** The sector written back: the 446 bytes of boot code as read, slot `i`'s
      record at 446 + 16 i, and the signature bytes 0x55 0xAA at 510. */
  lemma ImageLayout(base: seq<byte>, cand: seq<MbrPart>, count: nat)
    requires |base| == SECTOR_SIZE && count <= |cand|
    ensures var s := Image(base, cand, count);
      && s[..TABLE_OFFSET] == base[..TABLE_OFFSET]
      && s[SIGNATURE_OFFSET] == 0x55 && s[SIGNATURE_OFFSET + 1] == 0xAA
      && forall i :: 0 <= i < 4 ==>
           s[TABLE_OFFSET + ENTRY_SIZE * i..TABLE_OFFSET + ENTRY_SIZE * i + ENTRY_SIZE] == SlotBytes(cand, count, i)
  {
    var s := Image(base, cand, count);
    var t := TableBytes(cand, count, 4);
    forall i | 0 <= i < 4
      ensures s[TABLE_OFFSET + ENTRY_SIZE * i..TABLE_OFFSET + ENTRY_SIZE * i + ENTRY_SIZE] == SlotBytes(cand, count, i)
    {
      TableBytesSlot(cand, count, 4, i);
      assert s[TABLE_OFFSET + ENTRY_SIZE * i..TABLE_OFFSET + ENTRY_SIZE * i + ENTRY_SIZE]
          == t[ENTRY_SIZE * i..ENTRY_SIZE * i + ENTRY_SIZE];
    }
  }

  /** Each record read back: a slot no candidate claims is all zero; a
      populated slot carries `FE FF FF` CHS fields, its type, and start and
      size fields that decode to the values clamped to 0xFFFFFFFF; its flag
      byte is 0x80 exactly when its candidate is active and no earlier slot
      took the flag, else 0. */
  lemma RecordFields(base: seq<byte>, cand: seq<MbrPart>, count: nat, i: nat)
    requires |base| == SECTOR_SIZE && count <= |cand| && i < 4
    ensures var e := Image(base, cand, count)[TABLE_OFFSET + ENTRY_SIZE * i..TABLE_OFFSET + ENTRY_SIZE * i + ENTRY_SIZE];
      match FindCandidate(cand, count, i, 0)
      case None => forall b :: 0 <= b < ENTRY_SIZE ==> e[b] == 0
      case Some(k) =>
        && e[0] == (if cand[k].active && !ActiveBefore(cand, count, i) then BOOT_FLAG else 0)
        && e[1..4] == [0xFE, 0xFF, 0xFF] && e[4] == cand[k].mbrType && e[5..8] == [0xFE, 0xFF, 0xFF]
        && DecodeLE32(e[8..12]) == (if cand[k].startLba > MAX_U32 then MAX_U32 else cand[k].startLba)
        && DecodeLE32(e[12..16]) == (if SizeOf(cand[k]) > MAX_U32 then MAX_U32 else SizeOf(cand[k]))
  {
    ImageLayout(base, cand, count);
    var e := SlotBytes(cand, count, i);
    assert Image(base, cand, count)[TABLE_OFFSET + ENTRY_SIZE * i..TABLE_OFFSET + ENTRY_SIZE * i + ENTRY_SIZE] == e;
    match FindCandidate(cand, count, i, 0)
    case None =>
      assert e == ZeroEntry();
    case Some(k) =>
      var p := cand[k];
      EntryFields(if p.active && !ActiveBefore(cand, count, i) then BOOT_FLAG else 0,
                  p.mbrType, Clamp32(p.startLba), Clamp32(SizeOf(p)));
  }

  /** The fields of one populated record, read back. */
  lemma EntryFields(flags: byte, mbrType: byte, start: u32, size: u32)
    ensures var e := EntryBytes(flags, mbrType, start, size);
      && e[0] == flags && e[1..4] == [0xFE, 0xFF, 0xFF] && e[4] == mbrType && e[5..8] == [0xFE, 0xFF, 0xFF]
      && DecodeLE32(e[8..12]) == start && DecodeLE32(e[12..16]) == size
  {
    var e := EntryBytes(flags, mbrType, start, size);
    LE32RoundTrip(start);
    LE32RoundTrip(size);
    assert e[8..12] == LE32(start);
    assert e[12..16] == LE32(size);
  }

  /** At most one record carries the boot flag. */
  lemma AtMostOneBootFlag(base: seq<byte>, cand: seq<MbrPart>, count: nat, i: nat, j: nat)
    requires |base| == SECTOR_SIZE && count <= |cand| && i < j < 4
    ensures var s := Image(base, cand, count);
      !(s[TABLE_OFFSET + ENTRY_SIZE * i] == BOOT_FLAG && s[TABLE_OFFSET + ENTRY_SIZE * j] == BOOT_FLAG)
  {
    RecordFields(base, cand, count, i);
    RecordFields(base, cand, count, j);
    var s := Image(base, cand, count);
    var ei := s[TABLE_OFFSET + ENTRY_SIZE * i..TABLE_OFFSET + ENTRY_SIZE * i + ENTRY_SIZE];
    var ej := s[TABLE_OFFSET + ENTRY_SIZE * j..TABLE_OFFSET + ENTRY_SIZE * j + ENTRY_SIZE];
    assert ei[0] == s[TABLE_OFFSET + ENTRY_SIZE * i];
    assert ej[0] == s[TABLE_OFFSET + ENTRY_SIZE * j];
    if ei[0] == BOOT_FLAG && ej[0] == BOOT_FLAG {
      assert SlotActive(cand, count, i);
      ActiveBeforeMeaning(cand, count, j);
      assert false;
    }
  }
}
