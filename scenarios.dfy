/** Worked examples of `analyze` on concrete disks: what the candidate table
    is for a typical dual-boot layout and for an explicit selection. */
module Scenarios {
  import opened Types
  import opened Hex
  import opened Classify
  import opened Compose
  import opened Layout

  /** A 2,000,000-sector disk with an ESP (LBA 34..1000, FAT32 inside) and a
      BASIC_DATA partition (LBA 1001..1999966, NTFS inside). */
  const EspGpt: seq<GptPart> := [
    GptPart(34, 1000, GptPartType(Other, TYPE_ESP), 0),
    GptPart(1001, 1999966, GptPartType(BasicData, 0), 0)
  ]

  function EspDetect(lba: u64): byte {
    if lba == 34 then TYPE_FAT32_LBA else if lba == 1001 then 0x07 else 0
  }

  /** Auto-fill on that disk skips the ESP, puts the NTFS partition in slot
      1, covers LBA 1..1000 (the gap before it, ESP included) with the
      protective slot 0 and the 33 sectors after it with a trailing
      protective slot; the empty MBR must be rewritten. */
  lemma EspDiskAutoFill()
    ensures CandidateTable(EspGpt, ZeroTable(), 0, [], 2000000, EspDetect, true, false)
      == Ok(Table([MbrPart(0, 1, 1000, TYPE_PROTECTIVE, false),
                   MbrPart(1, 1001, 1999966, 0x07, false),
                   MbrPart(2, 1999967, 1999999, TYPE_PROTECTIVE, false),
                   Unused], 3))
    ensures AnalyzeOutcome(EspGpt, ZeroTable(), 0, [], 2000000, EspDetect, true, false) == Rewrite
  {
    var gpt := Classified(EspGpt, EspDetect);
    var e0 := EspGpt[0].(mbrType := TYPE_ESP);
    var e1 := EspGpt[1].(mbrType := 0x07);
    assert gpt == [e0, e1] by {
      assert EspDetect(34) == TYPE_FAT32_LBA && EspDetect(1001) == 0x07;
      assert ClassifyEntry(EspGpt[0], false, EspDetect(34)) == TYPE_ESP;
      assert ClassifyEntry(EspGpt[1], true, EspDetect(1001)) == 0x07;
      var tail := EspGpt[1..];
      assert tail == [EspGpt[1]] && tail[1..] == [];
      assert ClassifyFrom(tail[1..], true, EspDetect) == [];
      assert ClassifyFrom(tail, true, EspDetect) == [e1];
      assert ClassifyFrom(EspGpt, false, EspDetect) == [e0] + ClassifyFrom(tail, true, EspDetect);
    }
    var slot := MbrPart(1, 1001, 1999966, 0x07, false);
    assert AutoFill(gpt, ZeroTable(), 0) == [slot] by {
      assert AutoFillStart(gpt) == 1;
      assert ResolvedSlot(1, gpt[1], 0, false, ZeroTable(), 0) == slot;
      assert AutoFillFrom(gpt, 1, [], ZeroTable(), 0) == AutoFillFrom(gpt, 2, [slot], ZeroTable(), 0);
    }
    assert DataSlots(gpt, ZeroTable(), 0, [], false) == Ok([slot]);
    assert MinStart([slot]) == 1001 && MaxEnd([slot]) == 1999966;
    var p := MbrPart(0, 1, 1000, TYPE_PROTECTIVE, false);
    var f := MbrPart(2, 1999967, 1999999, TYPE_PROTECTIVE, false);
    assert ProtectiveSlot([slot], 2000000) == p;
    assert HasFiller([slot], 2000000, true) && FillerSlot([slot], 2000000) == f;
    assert seq(1, _ => Unused) == [Unused];
    assert BuildTable([slot], 2000000, true) == Table([p, slot, f, Unused], 3);
    assert SlotDiffers(p, ZeroTable()[0]);
  }

  /** A single partition at LBA 2048..204799 on a disk that ends there. */
  const OneGpt: seq<GptPart> := [GptPart(2048, 204799, GptPartType(Data, TYPE_LINUX), 0)]

  function NothingDetected(lba: u64): byte {
    0
  }

  /** The argument "1+af" puts partition 1 in slot 1, active, with type
      0xAF; slot 0 covers LBA 1..2047 and no filler fits. */
  lemma ActiveForcedSelection()
    ensures CandidateTable(OneGpt, ZeroTable(), 0, ["1+af"], 204800, NothingDetected, true, false)
      == Ok(Table([MbrPart(0, 1, 2047, TYPE_PROTECTIVE, false),
                   MbrPart(1, 2048, 204799, 0xAF, true),
                   Unused, Unused], 2))
  {
    var gpt := Classified(OneGpt, NothingDetected);
    assert gpt == [OneGpt[0].(mbrType := TYPE_LINUX)] by {
      assert ClassifyFrom(OneGpt[1..], false, NothingDetected) == [];
    }
    var slot := MbrPart(1, 2048, 204799, 0xAF, true);
    SelectOnePlusAf(gpt);
    assert DataSlots(gpt, ZeroTable(), 0, ["1+af"], false) == Ok([slot]);
    assert MinStart([slot]) == 2048 && MaxEnd([slot]) == 204799;
    var p := MbrPart(0, 1, 2047, TYPE_PROTECTIVE, false);
    assert ProtectiveSlot([slot], 204800) == p;
    assert !HasFiller([slot], 204800, true);
    assert seq(2, _ => Unused) == [Unused, Unused];
    assert BuildTable([slot], 204800, true) == Table([p, slot, Unused, Unused], 2);
  }

  /** The token "1+af": partition 1, active, type 0xAF. */
  lemma ParseOnePlusAf()
    ensures ParseToken("1+af", 0, 1) == Ok(Parsed(1, true, 0xAF, 1))
  {
    assert Separator("1+af") == Some(1);
    assert NumberText("1+af") == "1";
    assert PartNumber("1+af") == 1;
    assert TypeText("1+af") == "af";
    assert ParseHex("af") == HexOk(0xAF);
  }

  lemma SelectOnePlusAf(gpt: seq<GptPart>)
    requires gpt == [OneGpt[0].(mbrType := TYPE_LINUX)]
    ensures SelectFrom(["1+af"], [], 0, gpt, ZeroTable(), 0) == Ok([MbrPart(1, 2048, 204799, 0xAF, true)])
  {
    var slot := MbrPart(1, 2048, 204799, 0xAF, true);
    ParseOnePlusAf();
    assert !Clashes([], gpt[0]);
    assert ResolvedSlot(1, gpt[0], 0xAF, true, ZeroTable(), 0) == slot;
    assert [] + [slot] == [slot];
    assert SelectToken("1+af", [], 0, gpt, ZeroTable(), 0) == Ok(([slot], 1));
    assert ["1+af"][1..] == [];
  }

  /** The record `write_mbr` stores for slot 1 of that table: boot flag,
      LBA-mode CHS placeholders, type 0xAF, start 2048 and size 202752,
      little-endian. */
  lemma ActiveForcedRecord()
    ensures SlotBytes([MbrPart(0, 1, 2047, TYPE_PROTECTIVE, false), MbrPart(1, 2048, 204799, 0xAF, true), Unused, Unused], 2, 1)
      == [0x80, 0xFE, 0xFF, 0xFF, 0xAF, 0xFE, 0xFF, 0xFF, 0x00, 0x08, 0x00, 0x00, 0x00, 0x18, 0x03, 0x00]
  {
    var t := [MbrPart(0, 1, 2047, TYPE_PROTECTIVE, false), MbrPart(1, 2048, 204799, 0xAF, true), Unused, Unused];
    assert FindCandidate(t, 2, 0, 0) == Some(0);
    assert FindCandidate(t, 2, 1, 0) == Some(1);
    assert !ActiveBefore(t, 2, 1) by {
      assert !SlotActive(t, 2, 0);
    }
    assert SizeOf(t[1]) == 202752;
    assert LE32(2048) == [0x00, 0x08, 0x00, 0x00];
    assert LE32(202752) == [0x00, 0x18, 0x03, 0x00];
  }
}
