/** Type classification: the MBR type byte each GPT entry is given before
    the hybrid table is composed (the first loop of `analyze`). File-system
    detection is an input, `detect`, from a partition's start LBA to the MBR
    type its signature suggests (0 when nothing is recognised). */
module Classify {
  import opened Types

  /** FAT12, FAT16-LBA and FAT32-LBA signatures, the ones that make an ESP
      look legitimate. */
  predicate IsFatType(t: byte) {
    t == TYPE_FAT12 || t == TYPE_FAT16_LBA || t == TYPE_FAT32_LBA
  }

  /** The type one entry ends with, given whether an ESP was seen before it
      and what detection found at its start. */
  function ClassifyEntry(p: GptPart, haveEsp: bool, detected: byte): (t: byte)
    ensures haveEsp && t == TYPE_ESP ==> detected == TYPE_ESP
    ensures p.partType.kind == BasicData || p.partType.mbrType != 0 ==> t != 0
    ensures p.partType.kind != BasicData && p.partType.mbrType != TYPE_ESP ==> t == p.partType.mbrType
  {
    var seed := p.partType.mbrType;
    if p.partType.kind == BasicData then
      if detected != 0 then detected else TYPE_FAT32
    else if seed == TYPE_ESP then
      if !haveEsp && IsFatType(detected) then seed
      else if detected != 0 then detected
      else if haveEsp then TYPE_LINUX
      else seed
    else seed
  }

  /** The classification pass from some entry on, carrying `have_esp`. */
  function ClassifyFrom(parts: seq<GptPart>, haveEsp: bool, detect: u64 -> byte): seq<GptPart>
  {
    if parts == [] then []
    else
      var t := ClassifyEntry(parts[0], haveEsp, detect(parts[0].startLba));
      [parts[0].(mbrType := t)] + ClassifyFrom(parts[1..], haveEsp || t == TYPE_ESP, detect)
  }

  /** The whole pass, which starts with no ESP seen. */
  function Classified(parts: seq<GptPart>, detect: u64 -> byte): seq<GptPart>
  {
    ClassifyFrom(parts, false, detect)
  }

  /** Some entry of `s` has ended as an ESP. */
  predicate EspIn(s: seq<GptPart>) {
    exists j :: 0 <= j < |s| && s[j].mbrType == TYPE_ESP
  }

  lemma {:induction false} ClassifyFromAt(parts: seq<GptPart>, haveEsp: bool, detect: u64 -> byte, i: nat)
    requires i < |parts|
    ensures |ClassifyFrom(parts, haveEsp, detect)| == |parts|
    ensures var r := ClassifyFrom(parts, haveEsp, detect);
      r[i] == parts[i].(mbrType := ClassifyEntry(parts[i], haveEsp || EspIn(r[..i]), detect(parts[i].startLba)))
  {
    var r := ClassifyFrom(parts, haveEsp, detect);
    var t := ClassifyEntry(parts[0], haveEsp, detect(parts[0].startLba));
    var rest := ClassifyFrom(parts[1..], haveEsp || t == TYPE_ESP, detect);
    assert r == [parts[0].(mbrType := t)] + rest;
    if i == 0 {
      if |parts| > 1 {
        ClassifyFromAt(parts[1..], haveEsp || t == TYPE_ESP, detect, 0);
      }
      assert r[..0] == [];
    } else {
      ClassifyFromAt(parts[1..], haveEsp || t == TYPE_ESP, detect, i - 1);
      assert r[..i] == [r[0]] + rest[..i - 1];
      assert parts[1..][i - 1] == parts[i];
      assert EspIn(r[..i]) <==> t == TYPE_ESP || EspIn(rest[..i - 1]) by {
        if EspIn(rest[..i - 1]) {
          var j :| 0 <= j < i - 1 && rest[..i - 1][j].mbrType == TYPE_ESP;
          assert r[..i][j + 1] == rest[..i - 1][j];
        }
        if EspIn(r[..i]) {
          var j :| 0 <= j < i && r[..i][j].mbrType == TYPE_ESP;
          if j > 0 { assert rest[..i - 1][j - 1] == r[..i][j]; }
        }
      }
    }
  }

  /** What the pass does to entry `i`: extents and type descriptor are kept;
      a BASIC_DATA entry takes the detected type or falls back to FAT32; an
      entry whose descriptor suggests 0xEF stays an ESP only when detection
      found FAT and no earlier entry ended as an ESP, otherwise takes any
      detected type, otherwise becomes Linux when an ESP was seen before;
      every other entry keeps its descriptor's type. `have_esp` at entry `i`
      is exactly "an earlier entry ended as an ESP". */
  lemma ClassifiedEntry(parts: seq<GptPart>, detect: u64 -> byte, i: nat)
    requires i < |parts|
    ensures var r := Classified(parts, detect);
      && |r| == |parts|
      && r[i].startLba == parts[i].startLba && r[i].endLba == parts[i].endLba
      && r[i].partType == parts[i].partType
    ensures var r := Classified(parts, detect); var d := detect(parts[i].startLba);
      var seen := EspIn(r[..i]); var p := parts[i].partType;
      && (p.kind == BasicData ==> r[i].mbrType == (if d != 0 then d else TYPE_FAT32))
      && (p.kind != BasicData && p.mbrType == TYPE_ESP ==>
            if !seen && IsFatType(d) then r[i].mbrType == TYPE_ESP
            else if d != 0 then r[i].mbrType == d
            else r[i].mbrType == (if seen then TYPE_LINUX else TYPE_ESP))
      && (p.kind != BasicData && p.mbrType != TYPE_ESP ==> r[i].mbrType == p.mbrType)
  {
    ClassifyFromAt(parts, false, detect, i);
  }

  /** Once an ESP has been seen, no later entry becomes one, as long as
      detection itself never reports 0xEF. */
  lemma {:induction false} NoEspAfterSeen(parts: seq<GptPart>, detect: u64 -> byte)
    requires forall lba: u64 :: detect(lba) != TYPE_ESP
    ensures forall j :: 0 <= j < |ClassifyFrom(parts, true, detect)| ==>
      ClassifyFrom(parts, true, detect)[j].mbrType != TYPE_ESP
  {
    if parts != [] {
      NoEspAfterSeen(parts[1..], detect);
    }
  }

  predicate AtMostOneEspIn(r: seq<GptPart>) {
    forall i, j :: 0 <= i < j < |r| && r[i].mbrType == TYPE_ESP ==> r[j].mbrType != TYPE_ESP
  }

  /** "No more than one ESP per disk": the pass leaves at most one entry with
      type 0xEF, as long as detection itself never reports 0xEF. */
  lemma {:induction false} AtMostOneEsp(parts: seq<GptPart>, haveEsp: bool, detect: u64 -> byte)
    requires forall lba: u64 :: detect(lba) != TYPE_ESP
    ensures AtMostOneEspIn(ClassifyFrom(parts, haveEsp, detect))
  {
    if parts != [] {
      var t := ClassifyEntry(parts[0], haveEsp, detect(parts[0].startLba));
      var rest := ClassifyFrom(parts[1..], haveEsp || t == TYPE_ESP, detect);
      var r := ClassifyFrom(parts, haveEsp, detect);
      assert r == [parts[0].(mbrType := t)] + rest;
      AtMostOneEsp(parts[1..], haveEsp || t == TYPE_ESP, detect);
      if t == TYPE_ESP {
        NoEspAfterSeen(parts[1..], detect);
      }
      forall i, j | 0 <= i < j < |r| && r[i].mbrType == TYPE_ESP
        ensures r[j].mbrType != TYPE_ESP
      {
        assert r[j] == rest[j - 1];
        if i > 0 {
          assert r[i] == rest[i - 1];
          assert AtMostOneEspIn(rest);
          assert 0 <= i - 1 < j - 1 < |rest| && rest[i - 1].mbrType == TYPE_ESP;
        } else {
          assert t == TYPE_ESP;
          assert rest == ClassifyFrom(parts[1..], true, detect);
          assert rest[j - 1].mbrType != TYPE_ESP;
        }
        assert rest[j - 1].mbrType != TYPE_ESP;
      }
    }
  }
}
