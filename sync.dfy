/** The synchronisation run itself: the globals of the gptsync core and the
    procedures that read and update them in place. Every procedure is proved
    against the functions of `Validate`, `Classify`, `Compose` and `Layout`.
    What the platform layer supplies (the tables it read, the disk size,
    file-system detection, the sector it reads, the status of every disk
    access and the user's answer) enters as parameters. */
module Sync {
  import opened Types
  import opened Hex
  import opened Classify
  import opened Validate
  import opened Compose
  import opened Layout

  /** Entry `j` passes the per-entry checks of `check_gpt`: its range is not
      inverted, it overlaps no other entry and its kind is not FATAL. */
  predicate EntrySound(parts: seq<GptPart>, j: nat)
    requires j < |parts|
  {
    && parts[j].startLba <= parts[j].endLba
    && (forall k :: 0 <= k < |parts| && k != j ==> !Overlap(parts[j], parts[k]))
    && parts[j].partType.kind != Fatal
  }

  class GptSync {
    /** `gpt_parts` / `gpt_part_count`: the GPT as read; the classification
        pass rewrites each entry's MBR type in place. */
    const gptParts: array<GptPart>
    /** `mbr_parts`: the current MBR's four slots (unpopulated ones zeroed). */
    const mbrParts: seq<MbrPart>
    /** `mbr_part_count` */
    const mbrPartCount: nat
    /** `new_mbr_parts`: the candidate table being composed. */
    const newMbrParts: array<MbrPart>
    /** `new_mbr_part_count` */
    var newMbrPartCount: nat
    /** `sector`: the buffer the boot sector is read into and written from. */
    const sector: array<byte>
    /** `fill_mbr`: append a trailing protective slot when one is free. */
    const fillMbr: bool
    /** `create_empty_mbr`: protective slot only. */
    const createEmptyMbr: bool

    predicate Valid()
      reads this
    {
      && |mbrParts| == 4 && mbrPartCount <= 4
      && newMbrParts.Length == 4 && newMbrPartCount <= 4
      && sector.Length == SECTOR_SIZE
    }

    /** The state at the start of a run: the tables as read, the options as
        parsed, and the zero-initialised candidate table and sector buffer. */
    constructor (gpt: seq<GptPart>, mbr: seq<MbrPart>, mbrCount: nat, fill: bool, createEmpty: bool)
      requires |mbr| == 4 && mbrCount <= 4
      ensures Valid()
      ensures gptParts[..] == gpt && mbrParts == mbr && mbrPartCount == mbrCount
      ensures fillMbr == fill && createEmptyMbr == createEmpty
      ensures newMbrParts[..] == ZeroTable() && newMbrPartCount == 0
      ensures fresh(gptParts) && fresh(newMbrParts) && fresh(sector)
    {
      gptParts := new GptPart[|gpt|](i requires 0 <= i < |gpt| => gpt[i]);
      mbrParts := mbr;
      mbrPartCount := mbrCount;
      newMbrParts := new MbrPart[4](_ => Unused);
      newMbrPartCount := 0;
      sector := new byte[SECTOR_SIZE](_ => 0);
      fillMbr := fill;
      createEmptyMbr := createEmpty;
    }

    // -------------------------------------------------------------------
    // check_gpt, check_mbr
    // -------------------------------------------------------------------

    /** `check_gpt`: accepts exactly a valid GPT; otherwise names the first
        failing check in the order the scan performs them. */
    method CheckGpt() returns (v: GptVerdict)
      requires Valid()
      ensures v == GptOk <==> GptTableValid(gptParts[..])
      ensures v == NoPartitions <==> gptParts.Length == 0
      ensures v.Inverted? ==>
                && v.i < gptParts.Length
                && (forall j :: 0 <= j < v.i ==> EntrySound(gptParts[..], j))
                && gptParts[v.i].endLba < gptParts[v.i].startLba
      ensures v.Overlapping? ==>
                && v.i < gptParts.Length && v.k < gptParts.Length && v.i != v.k
                && (forall j :: 0 <= j < v.i ==> EntrySound(gptParts[..], j))
                && gptParts[v.i].startLba <= gptParts[v.i].endLba
                && Overlap(gptParts[v.i], gptParts[v.k])
                && (forall k :: 0 <= k < v.k && k != v.i ==> !Overlap(gptParts[v.i], gptParts[k]))
      ensures v.FatalKind? ==>
                && v.i < gptParts.Length
                && (forall j :: 0 <= j < v.i ==> EntrySound(gptParts[..], j))
                && gptParts[v.i].startLba <= gptParts[v.i].endLba
                && (forall k :: 0 <= k < gptParts.Length && k != v.i ==> !Overlap(gptParts[v.i], gptParts[k]))
                && gptParts[v.i].partType.kind == Fatal
      ensures v == NoDataPartitions ==>
                && gptParts.Length > 0
                && (forall j :: 0 <= j < gptParts.Length ==> EntrySound(gptParts[..], j))
                && (forall j :: 0 <= j < gptParts.Length ==> !IsDataKind(gptParts[j].partType.kind))
    {
      var n := gptParts.Length;
      if n == 0 {
        return NoPartitions;
      }
      var foundData := false;
      var i := 0;
      while i < n
        invariant 0 <= i <= n
        invariant forall j :: 0 <= j < i ==> EntrySound(gptParts[..], j)
        invariant foundData <==> exists j :: 0 <= j < i && IsDataKind(gptParts[j].partType.kind)
      {
        if gptParts[i].endLba < gptParts[i].startLba {
          return Inverted(i);
        }
        var k := 0;
        while k < n
          invariant 0 <= k <= n
          invariant forall k' :: 0 <= k' < k && k' != i ==> !Overlap(gptParts[i], gptParts[k'])
        {
          if k != i && !(gptParts[i].startLba > gptParts[k].endLba || gptParts[k].startLba > gptParts[i].endLba) {
            assert gptParts[..][i] == gptParts[i] && gptParts[..][k] == gptParts[k];
            return Overlapping(i, k);
          }
          k := k + 1;
        }
        if gptParts[i].partType.kind == Fatal {
          return FatalKind(i);
        }
        if gptParts[i].partType.kind == Data || gptParts[i].partType.kind == BasicData {
          foundData := true;
        }
        i := i + 1;
      }
      assert forall j :: 0 <= j < n ==> gptParts[..][j] == gptParts[j];
      if !foundData {
        return NoDataPartitions;
      }
      ghost var parts := gptParts[..];
      forall j, k | 0 <= j < n && 0 <= k < n && j != k
        ensures !Overlap(parts[j], parts[k])
      {
        assert EntrySound(parts, j);
      }
      forall j | 0 <= j < n
        ensures parts[j].startLba <= parts[j].endLba && parts[j].partType.kind != Fatal
      {
        assert EntrySound(parts, j);
      }
      return GptOk;
    }

    /** `check_mbr`: accepts exactly an MBR without extended partitions
        among its populated slots; otherwise names the first one. */
    method CheckMbr() returns (v: MbrVerdict)
      requires Valid()
      ensures v == MbrOk <==> !HasExtended(mbrParts, mbrPartCount)
      ensures v.ExtendedFound? ==>
                && v.i < mbrPartCount && IsExtendedType(mbrParts[v.i].mbrType)
                && forall j :: 0 <= j < v.i ==> !IsExtendedType(mbrParts[j].mbrType)
    {
      var i := 0;
      while i < mbrPartCount
        invariant 0 <= i <= mbrPartCount
        invariant forall j :: 0 <= j < i ==> !IsExtendedType(mbrParts[j].mbrType)
      {
        var t := mbrParts[i].mbrType;
        if t == TYPE_EXTENDED || t == TYPE_EXTENDED_LBA || t == TYPE_LINUX_EXTENDED {
          return ExtendedFound(i);
        }
        i := i + 1;
      }
      return MbrOk;
    }

    // -------------------------------------------------------------------
    // analyze and its steps
    // -------------------------------------------------------------------

    /** The classification loop of `analyze`: every entry's MBR type is set
        as `Classified` says, nothing else changes. */
    method Classify(detect: u64 -> byte)
      modifies gptParts
      ensures gptParts[..] == Classified(old(gptParts[..]), detect)
    {
      ghost var parts := gptParts[..];
      var haveEsp := false;
      var i := 0;
      while i < gptParts.Length
        invariant 0 <= i <= gptParts.Length
        invariant forall j :: i <= j < gptParts.Length ==> gptParts[j] == parts[j]
        invariant Classified(parts, detect) == gptParts[..i] + ClassifyFrom(parts[i..], haveEsp, detect)
      {
        var p := gptParts[i];
        var t := p.partType.mbrType;
        if p.partType.kind == BasicData {
          var d := detect(p.startLba);
          if d != 0 {
            t := d;
          } else {
            t := TYPE_FAT32;
          }
        } else if t == TYPE_ESP {
          var d := detect(p.startLba);
          if !haveEsp && (d == TYPE_FAT12 || d == TYPE_FAT16_LBA || d == TYPE_FAT32_LBA) {
            // a legitimate ESP keeps its type
          } else if d != 0 {
            t := d;
          } else if haveEsp {
            t := TYPE_LINUX;
          }
        }
        assert t == ClassifyEntry(p, haveEsp, detect(p.startLba));
        ClassifyStep(parts, i, gptParts[..i], haveEsp, detect);
        ghost var done := gptParts[..i];
        gptParts[i] := p.(mbrType := t);
        assert gptParts[..i + 1] == done + [p.(mbrType := t)];
        if t == TYPE_ESP {
          haveEsp := true;
        }
        i := i + 1;
      }
      assert gptParts[..i] == gptParts[..];
    }

    /** `add_gpt_partition_to_mbr`: slot `slot` of the candidate becomes GPT
        entry `gi` with the type `ResolvedType` gives; no other slot changes. */
    method AddGptPartitionToMbr(slot: nat, gi: nat, force: byte, active: bool)
      requires Valid() && slot < 4 && gi < gptParts.Length
      modifies newMbrParts
      ensures newMbrParts[..] == old(newMbrParts[..])[slot := ResolvedSlot(slot, gptParts[gi], force, active, mbrParts, mbrPartCount)]
    {
      var gp := gptParts[gi];
      newMbrParts[slot] := MbrPart(slot, gp.startLba, gp.endLba, if force != 0 then force else gp.mbrType, active);
      ghost var first := FirstStartMatch(mbrParts, mbrPartCount, gp.startLba, 0);
      var k := 0;
      while k < mbrPartCount
        invariant 0 <= k <= mbrPartCount
        invariant first == FirstStartMatch(mbrParts, mbrPartCount, gp.startLba, k)
        invariant newMbrParts[..] == old(newMbrParts[..])[slot := MbrPart(slot, gp.startLba, gp.endLba, if force != 0 then force else gp.mbrType, active)]
      {
        if mbrParts[k].startLba == gp.startLba {
          // keep the current type when nothing was determined
          if newMbrParts[slot].mbrType == 0 {
            newMbrParts[slot] := newMbrParts[slot].(mbrType := mbrParts[k].mbrType);
          }
          break;
        }
        k := k + 1;
      }
      if newMbrParts[slot].mbrType == 0 {
        newMbrParts[slot] := newMbrParts[slot].(mbrType := TYPE_UNUSED_FALLBACK);
      }
    }

    /** The checks of the argument loop of `analyze` that come before the
        GPT entry is looked at: separator, partition number, active count and
        forced type, exactly as `ParseToken` says. */
    method ParseArgument(tok: string, countActive: nat) returns (r: Result<Parsed, Reason>)
      ensures r == ParseToken(tok, countActive, gptParts.Length)
    {
      var sep := Separator(tok);
      var numberText := NumberText(tok);
      var part := Atoi(numberText);
      if part < 1 || part > gptParts.Length {
        return Err(BadPartNumber(numberText));
      }
      var active := false;
      var countActive' := countActive;
      if sep.Some? && tok[sep.value] == '+' {
        active := true;
        countActive' := countActive' + 1;
        if countActive' == 2 {
          return Err(TwoActive);
        }
      }
      var forceType: byte := 0;
      if sep.Some? && sep.value + 1 < |tok| {
        var typeText := tok[sep.value + 1..];
        var status;
        status, forceType := Xtoi(typeText, forceType);
        if status != XTOI_OK {
          return Err(BadHexType(typeText, status));
        }
      }
      assert forceType == (var tt := TypeText(tok); if tt != "" then ParseHex(tt).value else 0);
      return Ok(Parsed(part, active, forceType, countActive'));
    }

    /** One selection argument (the body of the argument loop of `analyze`):
        either it is rejected for the reason `SelectToken` gives, or its slot
        is appended after the slots in use and nothing else changes. */
    method AddToken(tok: string, countActive: nat) returns (err: Option<Reason>, countActive': nat)
      requires Valid() && 1 <= newMbrPartCount < 4
      modifies this, newMbrParts
      ensures Valid()
      ensures var step := SelectToken(tok, old(newMbrParts[1..newMbrPartCount]), countActive, gptParts[..], mbrParts, mbrPartCount);
        && (err.None? <==> step.Ok?)
        && (err.Some? ==> step == Err(err.value))
        && (step.Ok? ==>
              && newMbrPartCount == old(newMbrPartCount) + 1
              && newMbrParts[1..newMbrPartCount] == step.value.0 && countActive' == step.value.1
              && newMbrParts[0] == old(newMbrParts[0])
              && (forall k :: newMbrPartCount <= k < 4 ==> newMbrParts[k] == old(newMbrParts[k])))
    {
      ghost var slots := newMbrParts[1..newMbrPartCount];
      var parsed := ParseArgument(tok, countActive);
      if parsed.Err? {
        return Some(parsed.error), countActive;
      }
      var p := parsed.value;
      var gp := gptParts[p.part - 1];
      // a partition may not be added twice
      var k := 1;
      while k < newMbrPartCount
        invariant 1 <= k <= newMbrPartCount
        invariant forall j :: 1 <= j < k ==> newMbrParts[j].startLba != gp.startLba && newMbrParts[j].endLba != gp.endLba
      {
        if newMbrParts[k].startLba == gp.startLba || newMbrParts[k].endLba == gp.endLba {
          assert slots[k - 1] == newMbrParts[k];
          return Some(AlreadyAdded(p.part)), countActive;
        }
        k := k + 1;
      }
      assert !Clashes(slots, gp) by {
        forall j | 0 <= j < |slots|
          ensures slots[j].startLba != gp.startLba && slots[j].endLba != gp.endLba
        {
          assert slots[j] == newMbrParts[j + 1];
        }
      }
      ghost var slot := ResolvedSlot(|slots| + 1, gp, p.force, p.active, mbrParts, mbrPartCount);
      AddGptPartitionToMbr(newMbrPartCount, p.part - 1, p.force, p.active);
      newMbrPartCount := newMbrPartCount + 1;
      assert newMbrParts[1..newMbrPartCount] == slots + [slot];
      return None, p.countActive;
    }

    /** The explicit selection (`analyze` with partition arguments): either
        the selection is rejected for the reason `SelectFrom` gives, or the
        selected slots follow the protective slot and nothing else changes. */
    method SelectExplicit(tokens: seq<string>) returns (err: Option<Reason>)
      requires Valid() && newMbrPartCount == 1 && |tokens| <= 3
      modifies this, newMbrParts
      ensures Valid()
      ensures var sel := SelectFrom(tokens, [], 0, gptParts[..], mbrParts, mbrPartCount);
        && (err.None? <==> sel.Ok?)
        && (err.Some? ==> sel == Err(err.value))
        && (sel.Ok? ==>
              && newMbrPartCount == 1 + |sel.value|
              && newMbrParts[1..newMbrPartCount] == sel.value
              && newMbrParts[0] == old(newMbrParts[0])
              && (forall k :: newMbrPartCount <= k < 4 ==> newMbrParts[k] == old(newMbrParts[k])))
    {
      ghost var gpt := gptParts[..];
      ghost var sel := SelectFrom(tokens, [], 0, gpt, mbrParts, mbrPartCount);
      ghost var slots: seq<MbrPart> := [];
      var countActive: nat := 0;
      var i := 0;
      assert newMbrParts[1..newMbrPartCount] == slots;
      while i < |tokens|
        invariant 0 <= i <= |tokens|
        invariant Valid() && newMbrPartCount == 1 + i
        invariant newMbrParts[1..newMbrPartCount] == slots
        invariant sel == SelectFrom(tokens[i..], slots, countActive, gpt, mbrParts, mbrPartCount)
        invariant newMbrParts[0] == old(newMbrParts[0])
        invariant forall k :: newMbrPartCount <= k < 4 ==> newMbrParts[k] == old(newMbrParts[k])
      {
        ghost var step := SelectToken(tokens[i], slots, countActive, gpt, mbrParts, mbrPartCount);
        assert tokens[i..][0] == tokens[i] && tokens[i..][1..] == tokens[i + 1..];
        SelectFromUnfold(tokens[i..], slots, countActive, gpt, mbrParts, mbrPartCount);
        var err1, countActive' := AddToken(tokens[i], countActive);
        if err1.Some? {
          return err1;
        }
        slots := step.value.0;
        countActive := countActive';
        i := i + 1;
      }
      assert tokens[i..] == [];
      return None;
    }

    /** Auto-fill (`analyze` without partition arguments): the slots after
        the protective one are `AutoFill`'s, and nothing else changes. */
    method AutoFillSlots()
      requires Valid() && newMbrPartCount == 1 && gptParts.Length > 0
      modifies this, newMbrParts
      ensures Valid()
      ensures var data := AutoFill(gptParts[..], mbrParts, mbrPartCount);
        && newMbrPartCount == 1 + |data|
        && newMbrParts[1..newMbrPartCount] == data
        && newMbrParts[0] == old(newMbrParts[0])
        && (forall k :: newMbrPartCount <= k < 4 ==> newMbrParts[k] == old(newMbrParts[k]))
    {
      ghost var gpt := gptParts[..];
      var i := if gptParts[0].mbrType == TYPE_ESP then 1 else 0;
      while i < gptParts.Length && newMbrPartCount < 4
        invariant i <= gptParts.Length
        invariant Valid() && 1 <= newMbrPartCount
        invariant AutoFill(gpt, mbrParts, mbrPartCount) == AutoFillFrom(gpt, i, newMbrParts[1..newMbrPartCount], mbrParts, mbrPartCount)
        invariant newMbrParts[0] == old(newMbrParts[0])
        invariant (forall k :: newMbrPartCount <= k < 4 ==> newMbrParts[k] == old(newMbrParts[k]))
        decreases gptParts.Length - i
      {
        ghost var slots := newMbrParts[1..newMbrPartCount];
        AddGptPartitionToMbr(newMbrPartCount, i, 0, false);
        newMbrPartCount := newMbrPartCount + 1;
        assert newMbrParts[1..newMbrPartCount] == slots + [ResolvedSlot(|slots| + 1, gpt[i], 0, false, mbrParts, mbrPartCount)];
        i := i + 1;
      }
    }

    /** The extent scan of `analyze`: the lowest start and highest end of the
        data slots, or the whole disk when there are none. */
    method Extents(blockCount: u64) returns (minStart: u64, maxEnd: u64)
      requires Valid() && blockCount > 0 && 1 <= newMbrPartCount
      ensures minStart == MinStartLba(newMbrParts[1..newMbrPartCount], blockCount)
      ensures maxEnd == MaxEndLba(newMbrParts[1..newMbrPartCount], blockCount)
    {
      var lastDiskLba := blockCount - 1;
      if newMbrPartCount == 1 {
        // only the protective slot: take the whole disk
        minStart := lastDiskLba + 1;
        maxEnd := lastDiskLba + 1;
        return;
      }
      minStart := newMbrParts[1].startLba;
      maxEnd := newMbrParts[1].endLba;
      assert newMbrParts[1..2] == [newMbrParts[1]];
      var k := 2;
      while k < newMbrPartCount
        invariant 2 <= k <= newMbrPartCount
        invariant minStart == MinStart(newMbrParts[1..k])
        invariant maxEnd == MaxEnd(newMbrParts[1..k])
      {
        assert newMbrParts[1..k + 1][..k - 1] == newMbrParts[1..k];
        if maxEnd < newMbrParts[k].endLba {
          maxEnd := newMbrParts[k].endLba;
        }
        if minStart > newMbrParts[k].startLba {
          minStart := newMbrParts[k].startLba;
        }
        k := k + 1;
      }
    }

    /** The comparison of `analyze`: a rewrite is needed exactly when some of
        the four candidate slots differs from the current slot. */
    method Compare() returns (differ: bool)
      requires Valid()
      ensures differ <==> TablesDiffer(newMbrParts[..], mbrParts)
    {
      differ := false;
      var i := 0;
      while i < 4
        invariant 0 <= i <= 4
        invariant !differ
        invariant forall j :: 0 <= j < i ==> !SlotDiffers(newMbrParts[j], mbrParts[j])
      {
        var a := newMbrParts[i];
        var b := mbrParts[i];
        if a.index != b.index || a.startLba != b.startLba || a.endLba != b.endLba ||
           a.mbrType != b.mbrType || a.active != b.active {
          differ := true;
          assert newMbrParts[..][i] == a;
          break;
        }
        i := i + 1;
      }
    }

    /** The data slots of `analyze`: none for a protective-only MBR, the
        explicit selection when arguments were given, auto-fill otherwise. */
    method ComposeData(tokens: seq<string>) returns (err: Option<Reason>)
      requires Valid() && newMbrPartCount == 1 && |tokens| <= 3 && gptParts.Length > 0
      modifies this, newMbrParts
      ensures Valid()
      ensures var d := DataSlots(gptParts[..], mbrParts, mbrPartCount, tokens, createEmptyMbr);
        && (err.None? <==> d.Ok?)
        && (err.Some? ==> d == Err(err.value))
        && (d.Ok? ==>
              && newMbrPartCount == 1 + |d.value|
              && newMbrParts[1..newMbrPartCount] == d.value
              && newMbrParts[0] == old(newMbrParts[0])
              && (forall k :: newMbrPartCount <= k < 4 ==> newMbrParts[k] == old(newMbrParts[k])))
    {
      err := None;
      if !createEmptyMbr {
        if tokens != [] {
          err := SelectExplicit(tokens);
        } else {
          AutoFillSlots();
        }
      }
    }

    /** The end of composition in `analyze`: after the data slots, a
        trailing protective slot when one is free, filling is on and the data
        end before the last LBA; then slot 0 made protective up to the first
        data slot. The result is `BuildTable` of the data slots. */
    method Finish(blockCount: u64)
      requires Valid() && blockCount > 0 && 1 <= newMbrPartCount
      requires newMbrParts[0] == Unused && forall k :: newMbrPartCount <= k < 4 ==> newMbrParts[k] == Unused
      modifies this, newMbrParts
      ensures Valid()
      ensures var t := BuildTable(old(newMbrParts[1..newMbrPartCount]), blockCount, fillMbr);
        newMbrParts[..] == t.slots && newMbrPartCount == t.count
    {
      ghost var data := newMbrParts[1..newMbrPartCount];
      var lastDiskLba := blockCount - 1;
      var minStart, maxEnd := Extents(blockCount);

      // the rest of the disk as a second protective area
      if newMbrPartCount < 4 && maxEnd < lastDiskLba && fillMbr {
        newMbrParts[newMbrPartCount] := MbrPart(newMbrPartCount, maxEnd + 1, lastDiskLba, TYPE_PROTECTIVE, false);
        newMbrPartCount := newMbrPartCount + 1;
      }

      // slot 0: EFI protective up to the first data slot
      newMbrParts[0] := newMbrParts[0].(index := 0, startLba := 1, endLba := Wrap64(minStart as int - 1), mbrType := TYPE_PROTECTIVE);

      ghost var t := BuildTable(data, blockCount, fillMbr);
      forall k | 0 <= k < 4 ensures newMbrParts[k] == t.slots[k] {
        BuildTableSlot(data, blockCount, fillMbr, k);
      }
      assert newMbrParts[..] == t.slots;
    }

    /** `analyze`: decides as `AnalyzeOutcome` says; the GPT entries end
        classified; when the candidate is complete it is `CandidateTable`'s. */
    method Analyze(tokens: seq<string>, blockCount: u64, detect: u64 -> byte) returns (outcome: Outcome)
      requires Valid() && |tokens| <= 3 && newMbrParts[..] == ZeroTable()
      modifies this, gptParts, newMbrParts
      ensures Valid()
      ensures outcome == AnalyzeOutcome(old(gptParts[..]), mbrParts, mbrPartCount, tokens, blockCount, detect, fillMbr, createEmptyMbr)
      ensures blockCount > 0 && gptParts.Length > 0 ==> gptParts[..] == Classified(old(gptParts[..]), detect)
      ensures blockCount == 0 || gptParts.Length == 0 ==> gptParts[..] == old(gptParts[..])
      ensures var c := CandidateTable(old(gptParts[..]), mbrParts, mbrPartCount, tokens, blockCount, detect, fillMbr, createEmptyMbr);
        c.Ok? ==> newMbrParts[..] == c.value.slots && newMbrPartCount == c.value.count
    {
      ghost var gpt0 := gptParts[..];
      newMbrPartCount := 0;
      if blockCount == 0 {
        return Stop(NoDiskSize);
      }
      if gptParts.Length == 0 {
        return Stop(NoGptPartitions);
      }
      Classify(detect);
      ClassifiedLength(gpt0, detect);

      newMbrPartCount := 1;
      var err := ComposeData(tokens);
      if err.Some? {
        return Stop(err.value);
      }
      ghost var data := newMbrParts[1..newMbrPartCount];
      Finish(blockCount);
      assert CandidateTable(gpt0, mbrParts, mbrPartCount, tokens, blockCount, detect, fillMbr, createEmptyMbr)
          == Ok(BuildTable(data, blockCount, fillMbr));

      var differ := Compare();
      if !differ {
        return Stop(Synchronized);
      }
      return Rewrite;
    }

    // -------------------------------------------------------------------
    // write_mbr
    // -------------------------------------------------------------------

    /** Store one 16-byte partition record at offset `off` of the sector. */
    method PutEntry(off: nat, e: seq<byte>)
      requires sector.Length == SECTOR_SIZE && |e| == ENTRY_SIZE && off + ENTRY_SIZE <= SECTOR_SIZE
      modifies sector
      ensures sector[..] == old(sector[..])[..off] + e + old(sector[..])[off + ENTRY_SIZE..]
    {
      forall b | 0 <= b < ENTRY_SIZE {
        sector[off + b] := e[b];
      }
    }

    /** The record `write_mbr` writes for slot `i`: zero when no candidate
        has that index, else the first such candidate's with the 32-bit
        clamp applied; `active` is 0x80 until a slot has taken the boot flag,
        and is 0 from then on. */
    method SlotEntry(i: nat, active: byte) returns (entry: seq<byte>, active': byte)
      requires Valid() && i < 4
      requires active == if ActiveBefore(newMbrParts[..], newMbrPartCount, i) then 0 else BOOT_FLAG
      ensures entry == SlotBytes(newMbrParts[..], newMbrPartCount, i)
      ensures active' == if ActiveBefore(newMbrParts[..], newMbrPartCount, i + 1) then 0 else BOOT_FLAG
    {
      ghost var cand := newMbrParts[..];
      ghost var count := newMbrPartCount;
      var k := 0;
      while k < newMbrPartCount
        invariant 0 <= k <= newMbrPartCount
        invariant FindCandidate(cand, count, i, 0) == FindCandidate(cand, count, i, k)
      {
        if newMbrParts[k].index == i {
          break;
        }
        k := k + 1;
      }
      active' := active;
      if k >= newMbrPartCount {
        // unused entry
        entry := ZeroEntry();
      } else {
        var p := newMbrParts[k];
        var flags: byte := 0;
        if p.active {
          flags := active';
          active' := 0;
        }
        var lba := p.startLba;
        if lba > MAX_U32 {
          lba := MAX_U32;
        }
        var size := Wrap64(p.endLba + 1 - p.startLba);
        if size > MAX_U32 {
          size := MAX_U32;
        }
        entry := EntryBytes(flags, p.mbrType, lba, size);
      }
    }

    /** `write_mbr`: when the read succeeds, the sector handed to the disk
        is `Image` of the sector read and the candidate table, and the status
        is the write's; a failed read is returned as is and nothing is
        written. */
    method WriteMbr(readStatus: nat, diskSector: seq<byte>, writeStatus: nat) returns (status: nat, written: Option<seq<byte>>)
      requires Valid() && |diskSector| == SECTOR_SIZE
      modifies sector
      ensures readStatus != 0 ==> status == readStatus && written == None && sector[..] == old(sector[..])
      ensures readStatus == 0 ==>
                && status == writeStatus
                && sector[..] == Image(diskSector, newMbrParts[..], newMbrPartCount)
                && written == Some(sector[..])
    {
      if readStatus != 0 {
        return readStatus, None;
      }
      // read_sector(0, sector)
      forall b | 0 <= b < SECTOR_SIZE {
        sector[b] := diskSector[b];
      }
      assert sector[..] == diskSector;
      sector[SIGNATURE_OFFSET] := 0x55;
      sector[SIGNATURE_OFFSET + 1] := 0xAA;
      ghost var cand := newMbrParts[..];
      ghost var count := newMbrPartCount;
      assert sector[..] == PartialImage(diskSector, cand, count, 0);

      var active: byte := BOOT_FLAG;
      var i := 0;
      while i < 4
        invariant 0 <= i <= 4
        invariant sector[..] == PartialImage(diskSector, cand, count, i)
        invariant active == if ActiveBefore(cand, count, i) then 0 else BOOT_FLAG
      {
        var entry;
        entry, active := SlotEntry(i, active);
        PutEntry(TABLE_OFFSET + ENTRY_SIZE * i, entry);
        SpliceEntry(diskSector, cand, count, i);
        i := i + 1;
      }
      assert PartialImage(diskSector, cand, count, 4) == Image(diskSector, cand, count);
      return writeStatus, Some(sector[..]);
    }

    // -------------------------------------------------------------------
    // gptsync
    // -------------------------------------------------------------------

    /** `gptsync`: the MBR is written only when both tables were read, the
        GPT is valid, the MBR has no extended partition, `analyze` asks for
        a rewrite, the prompt succeeded and the user agreed and the sector
        was read; it is then written as `Image` of the candidate table. A
        failed table read gives status 1, every refusal of a check or of
        `analyze` gives 1, a declined prompt gives 0. */
    method Run(readGptStatus: nat, readMbrStatus: nat, tokens: seq<string>, blockCount: u64, detect: u64 -> byte,
               confirmStatus: nat, proceed: bool, readStatus: nat, diskSector: seq<byte>, writeStatus: nat)
      returns (status: nat, written: Option<seq<byte>>)
      requires Valid() && |tokens| <= 3 && |diskSector| == SECTOR_SIZE && newMbrParts[..] == ZeroTable()
      modifies this, gptParts, newMbrParts, sector
      ensures readGptStatus != 0 || readMbrStatus != 0 ==> status == 1 && written == None
      ensures var reached := readGptStatus == 0 && readMbrStatus == 0 && GptTableValid(old(gptParts[..]))
                             && !HasExtended(mbrParts, mbrPartCount);
        var rewrite := reached &&
          AnalyzeOutcome(old(gptParts[..]), mbrParts, mbrPartCount, tokens, blockCount, detect, fillMbr, createEmptyMbr) == Rewrite;
        && (!rewrite ==> status == 1 && written == None)
        && (rewrite && confirmStatus != 0 ==> status == confirmStatus && written == None)
        && (rewrite && confirmStatus == 0 && !proceed ==> status == 0 && written == None)
        && (rewrite && confirmStatus == 0 && proceed && readStatus != 0 ==> status == readStatus && written == None)
        && (rewrite && confirmStatus == 0 && proceed && readStatus == 0 ==>
              (var t := CandidateTable(old(gptParts[..]), mbrParts, mbrPartCount, tokens, blockCount, detect, fillMbr, createEmptyMbr).value;
               status == writeStatus && written == Some(Image(diskSector, t.slots, t.count))))
    {
      if readGptStatus != 0 || readMbrStatus != 0 {
        return 1, None;
      }
      var gptVerdict := CheckGpt();
      if gptVerdict != GptOk {
        return 1, None;
      }
      var mbrVerdict := CheckMbr();
      if mbrVerdict != MbrOk {
        return 1, None;
      }
      var outcome := Analyze(tokens, blockCount, detect);
      if outcome != Rewrite {
        return 1, None;
      }
      if confirmStatus != 0 || !proceed {
        return confirmStatus, None;
      }
      status, written := WriteMbr(readStatus, diskSector, writeStatus);
    }
  }

  /** One step of the classification pass, on the sequence it builds. */
  lemma ClassifyStep(parts: seq<GptPart>, i: nat, done: seq<GptPart>, haveEsp: bool, detect: u64 -> byte)
    requires i < |parts| && Classified(parts, detect) == done + ClassifyFrom(parts[i..], haveEsp, detect)
    ensures var q := parts[i].(mbrType := ClassifyEntry(parts[i], haveEsp, detect(parts[i].startLba)));
      Classified(parts, detect) == (done + [q]) + ClassifyFrom(parts[i + 1..], haveEsp || q.mbrType == TYPE_ESP, detect)
  {
    assert parts[i..][0] == parts[i] && parts[i..][1..] == parts[i + 1..];
  }

  /** The sector `write_mbr` is building once the signature and the records
      of slots 0..i-1 are stored. */
  function PartialImage(disk: seq<byte>, cand: seq<MbrPart>, count: nat, i: nat): (s: seq<byte>)
    requires |disk| == SECTOR_SIZE && count <= |cand| && i <= 4
  {
    disk[..TABLE_OFFSET] + TableBytes(cand, count, i) + disk[TABLE_OFFSET + ENTRY_SIZE * i..SIGNATURE_OFFSET] + [0x55, 0xAA]
  }

  /** Overwriting the 16 bytes after a table prefix `t` of `i` records with
      `e`, in a sector laid out as boot code, table prefix, old bytes and
      signature. */
  lemma SpliceInto(disk: seq<byte>, t: seq<byte>, e: seq<byte>, i: nat)
    requires |disk| == SECTOR_SIZE && i < 4 && |t| == ENTRY_SIZE * i && |e| == ENTRY_SIZE
    ensures var off := TABLE_OFFSET + ENTRY_SIZE * i;
      var s := disk[..TABLE_OFFSET] + t + disk[off..SIGNATURE_OFFSET] + [0x55, 0xAA];
      s[..off] + e + s[off + ENTRY_SIZE..]
        == disk[..TABLE_OFFSET] + (t + e) + disk[off + ENTRY_SIZE..SIGNATURE_OFFSET] + [0x55, 0xAA]
  {
    var off := TABLE_OFFSET + ENTRY_SIZE * i;
    var a := disk[..TABLE_OFFSET] + t;
    var r := disk[off..SIGNATURE_OFFSET];
    var s := a + r + [0x55, 0xAA];
    assert s[..off] == a;
    assert s[off + ENTRY_SIZE..] == r[ENTRY_SIZE..] + [0x55, 0xAA];
    assert r[ENTRY_SIZE..] == disk[off + ENTRY_SIZE..SIGNATURE_OFFSET];
  }

  /** Storing record `i` in the sector being built gives the next partial
      image. */
  lemma SpliceEntry(disk: seq<byte>, cand: seq<MbrPart>, count: nat, i: nat)
    requires |disk| == SECTOR_SIZE && count <= |cand| && i < 4
    ensures var s := PartialImage(disk, cand, count, i);
      var off := TABLE_OFFSET + ENTRY_SIZE * i;
      s[..off] + SlotBytes(cand, count, i) + s[off + ENTRY_SIZE..] == PartialImage(disk, cand, count, i + 1)
  {
    SpliceInto(disk, TableBytes(cand, count, i), SlotBytes(cand, count, i), i);
  }
}
