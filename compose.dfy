/** Composition of the candidate hybrid MBR (the body of `analyze` after the
    classification pass): explicit selection or auto-fill of the data slots,
    the type each slot is given, the extents, the optional trailing
    protective filler, the mandatory protective slot 0 and the comparison
    with the current table. Everything here is a function of its inputs; the
    class `Sync.GptSync` runs the same steps in place and is proved equal to
    them. */
module Compose {
  import opened Types
  import opened Hex
  import opened Classify

  /** Why `analyze` stops without proposing a rewrite. */
  datatype Reason =
    | NoDiskSize
    | NoGptPartitions
    | BadPartNumber(text: string)
    | TwoActive
    | BadHexType(text: string, code: nat)
    | AlreadyAdded(part: nat)
    | Synchronized

  datatype Outcome = Rewrite | Stop(reason: Reason)

  /** The candidate table: four slots (the unpopulated ones are `Unused`)
      and the number of populated ones, `new_mbr_part_count`. */
  datatype Table = Table(slots: seq<MbrPart>, count: nat)

  // ---------------------------------------------------------------------
  // Slot type resolution (`add_gpt_partition_to_mbr`)
  // ---------------------------------------------------------------------

  /** The first of the `count` current MBR entries from `k` on that starts at `lba`. */
  function FirstStartMatch(cur: seq<MbrPart>, count: nat, lba: u64, k: nat): (r: Option<nat>)
    requires count <= |cur|
    ensures r.Some? ==> (k <= r.value < count && cur[r.value].startLba == lba
      && forall j :: k <= j < r.value ==> cur[j].startLba != lba)
    ensures r.None? ==> forall j :: k <= j < count ==> cur[j].startLba != lba
    decreases count - k
  {
    if k >= count then None
    else if cur[k].startLba == lba then Some(k)
    else FirstStartMatch(cur, count, lba, k + 1)
  }

  /** The MBR type a new slot gets: the forced type when it is nonzero, else
      the GPT entry's classified type, else (when that is 0) the type of the
      first current MBR entry with the same start, else 0xC0. A forced type
      of 0 is the same as no forced type. */
  function ResolvedType(force: byte, gptType: byte, cur: seq<MbrPart>, count: nat, lba: u64): (t: byte)
    requires count <= |cur|
    ensures t != 0
    ensures force != 0 ==> t == force
    ensures force == 0 && gptType != 0 ==> t == gptType
    ensures force == 0 && gptType == 0 && (forall j :: 0 <= j < count ==> cur[j].startLba != lba) ==>
      t == TYPE_UNUSED_FALLBACK
    ensures force == 0 && gptType == 0 ==> forall j ::
      (0 <= j < count && cur[j].startLba == lba && (forall i :: 0 <= i < j ==> cur[i].startLba != lba)) ==>
        t == (if cur[j].mbrType != 0 then cur[j].mbrType else TYPE_UNUSED_FALLBACK)
  {
    var t0 := if force != 0 then force else gptType;
    if t0 != 0 then t0
    else
      match FirstStartMatch(cur, count, lba, 0)
      case Some(k) => if cur[k].mbrType != 0 then cur[k].mbrType else TYPE_UNUSED_FALLBACK
      case None => TYPE_UNUSED_FALLBACK
  }

  /** The slot `add_gpt_partition_to_mbr` writes at position `slot`. */
  function ResolvedSlot(slot: nat, gp: GptPart, force: byte, active: bool, cur: seq<MbrPart>, count: nat): MbrPart
    requires count <= |cur|
  {
    MbrPart(slot, gp.startLba, gp.endLba, ResolvedType(force, gp.mbrType, cur, count, gp.startLba), active)
  }

  // ---------------------------------------------------------------------
  // Selection tokens: `<n>`, `<n>+`, `<n>-hh`, `<n>+hh`
  // ---------------------------------------------------------------------

  /** `strchr`: the first position of `c` in `s`. */
  function FirstIndexOf(s: string, c: char): (r: Option<nat>)
    ensures r.Some? ==> r.value < |s| && s[r.value] == c && c !in s[..r.value]
    ensures r.None? ==> c !in s
  {
    if s == [] then None
    else if s[0] == c then Some(0)
    else
      match FirstIndexOf(s[1..], c)
      case Some(i) =>
        assert s[..i + 1] == [s[0]] + s[1..][..i];
        Some(i + 1)
      case None =>
        assert s == [s[0]] + s[1..];
        None
  }

  /** The separator of a token: its first '+', or failing that its first '-'. */
  function Separator(tok: string): (r: Option<nat>)
    ensures r.Some? ==> r.value < |tok| && (tok[r.value] == '+' || tok[r.value] == '-')
  {
    match FirstIndexOf(tok, '+')
    case Some(i) => Some(i)
    case None => FirstIndexOf(tok, '-')
  }

  /** The text before the separator (the separator is overwritten with NUL). */
  function NumberText(tok: string): string {
    match Separator(tok)
    case Some(i) => tok[..i]
    case None => tok
  }

  /** The text after the separator: the forced type, when not empty. */
  function TypeText(tok: string): string {
    match Separator(tok)
    case Some(i) => tok[i + 1..]
    case None => ""
  }

  /** The separator is '+': the slot is to be marked active. */
  predicate IsActive(tok: string) {
    Separator(tok).Some? && tok[Separator(tok).value] == '+'
  }

  /** `isspace` in the C locale. */
  predicate IsSpace(c: char) {
    c == ' ' || (9 <= c as int <= 13)
  }

  predicate IsDecimalDigit(c: char) {
    '0' as int <= c as int <= '9' as int
  }

  /** The value of the leading run of decimal digits, accumulated onto `acc`. */
  function DecimalPrefix(s: string, acc: nat): nat {
    if s != [] && IsDecimalDigit(s[0]) then DecimalPrefix(s[1..], 10 * acc + (s[0] as int - '0' as int))
    else acc
  }

  /** `atoi`: leading white space, an optional sign, the leading decimal
      digits; anything else ends the number, and no digits give 0. */
  function Atoi(s: string): int {
    if s != [] && IsSpace(s[0]) then Atoi(s[1..])
    else if s != [] && s[0] == '-' then -(DecimalPrefix(s[1..], 0) as int)
    else if s != [] && s[0] == '+' then DecimalPrefix(s[1..], 0)
    else DecimalPrefix(s, 0)
  }

  /** A string with no decimal digit in it reads as 0, so a token without a
      number names partition 0 and is refused. */
  lemma {:induction false} AtoiNoDigits(s: string)
    requires forall i :: 0 <= i < |s| ==> !IsDecimalDigit(s[i])
    ensures Atoi(s) == 0
  {
    if s != [] && IsSpace(s[0]) {
      AtoiNoDigits(s[1..]);
    } else if s != [] && (s[0] == '-' || s[0] == '+') && |s| > 1 {
      assert !IsDecimalDigit(s[1..][0]);
    }
  }

  function Pow10(n: nat): (p: nat)
    ensures p >= 1
  {
    if n == 0 then 1 else 10 * Pow10(n - 1)
  }

  predicate AllDecimal(d: string) {
    forall i :: 0 <= i < |d| ==> IsDecimalDigit(d[i])
  }

  /** The value of a string of decimal digits, as a sum of digit times place
      value. */
  function DecimalValue(d: string): nat
    requires AllDecimal(d)
  {
    if d == [] then 0 else (d[0] as int - '0' as int) * Pow10(|d| - 1) + DecimalValue(d[1..])
  }

  /** A numeral followed by anything that is not a digit reads as its
      decimal value: the partition number of a token such as "12+af". */
  lemma AtoiDecimal(d: string, rest: string)
    requires d != [] && AllDecimal(d) && (rest == [] || !IsDecimalDigit(rest[0]))
    ensures Atoi(d + rest) == DecimalValue(d)
  {
    assert (d + rest)[0] == d[0];
    DecimalPrefixDigits(d, rest, 0);
  }

  lemma {:induction false} DecimalPrefixDigits(d: string, rest: string, acc: nat)
    requires AllDecimal(d) && (rest == [] || !IsDecimalDigit(rest[0]))
    ensures DecimalPrefix(d + rest, acc) == acc * Pow10(|d|) + DecimalValue(d)
  {
    if d == [] {
      assert d + rest == rest;
    } else {
      var c := d[0] as int - '0' as int;
      assert (d + rest)[0] == d[0] && (d + rest)[1..] == d[1..] + rest;
      DecimalPrefixDigits(d[1..], rest, 10 * acc + c);
      ShiftDecimal(acc, c, Pow10(|d| - 1));
    }
  }

  lemma ShiftDecimal(acc: int, c: int, p: int)
    ensures (10 * acc + c) * p == acc * (10 * p) + c * p
  {
  }

  /** The 1-based GPT partition number a token names. */
  function PartNumber(tok: string): int {
    Atoi(NumberText(tok))
  }

  /** The forced type a token carries: 0 when it has no type text. */
  function ForcedType(tok: string): byte {
    if TypeText(tok) != "" && ParseHex(TypeText(tok)).HexOk? then ParseHex(TypeText(tok)).value else 0
  }

  /** A GPT entry has the same start or the same end as an already added slot. */
  predicate Clashes(slots: seq<MbrPart>, gp: GptPart) {
    exists k :: 0 <= k < |slots| && (slots[k].startLba == gp.startLba || slots[k].endLba == gp.endLba)
  }

  /** What a selection token carries once it has passed the checks that do
      not look at the GPT entry: the 1-based partition number, the active
      flag, the forced type (0 = none) and the new count of active tokens. */
  datatype Parsed = Parsed(part: nat, active: bool, force: byte, countActive: nat)

  /** The checks `analyze` makes on a token before looking at its partition,
      in order: the partition number is in range, it is not a second active
      token, its type text (when not empty) is a valid hex byte. */
  function ParseToken(tok: string, countActive: nat, gptCount: nat): (r: Result<Parsed, Reason>)
    ensures r.Ok? ==> 1 <= r.value.part <= gptCount
    ensures r.Ok? ==> r.value.countActive == if r.value.active then countActive + 1 else countActive
    ensures r.Ok? && r.value.active ==> countActive != 1
  {
    var part := PartNumber(tok);
    if part < 1 || part > gptCount then Err(BadPartNumber(NumberText(tok)))
    else
      var active := IsActive(tok);
      var countActive' := if active then countActive + 1 else countActive;
      if active && countActive' == 2 then Err(TwoActive)
      else
        var typeText := TypeText(tok);
        var hex := if typeText != "" then ParseHex(typeText) else HexOk(0);
        if hex.HexErr? then Err(BadHexType(typeText, hex.code))
        else Ok(Parsed(part, active, hex.value, countActive'))
  }

  /** One selection token: the checks of `ParseToken`, then the check that
      its partition shares neither start nor end with an added slot. On
      success: the slots with this token's slot appended, and the new count
      of active tokens. */
  function SelectToken(tok: string, slots: seq<MbrPart>, countActive: nat,
                       gpt: seq<GptPart>, cur: seq<MbrPart>, count: nat): (r: Result<(seq<MbrPart>, nat), Reason>)
    requires count <= |cur|
    ensures r.Ok? ==> |r.value.0| == |slots| + 1 && r.value.0[..|slots|] == slots && r.value.0[|slots|].index == |slots| + 1
  {
    match ParseToken(tok, countActive, |gpt|)
    case Err(e) => Err(e)
    case Ok(p) =>
      var gp := gpt[p.part - 1];
      if Clashes(slots, gp) then Err(AlreadyAdded(p.part))
      else Ok((slots + [ResolvedSlot(|slots| + 1, gp, p.force, p.active, cur, count)], p.countActive))
  }

  /** A token is accepted exactly when it is well formed, is not a second
      active token and its partition shares neither start nor end with an
      added slot; it then appends its partition's slot, numbered after the
      added ones, with its forced type and active flag. */
  lemma SelectTokenMeaning(tok: string, slots: seq<MbrPart>, countActive: nat,
                           gpt: seq<GptPart>, cur: seq<MbrPart>, count: nat)
    requires count <= |cur|
    ensures var r := SelectToken(tok, slots, countActive, gpt, cur, count);
      countActive <= 1 ==>
        (r.Ok? <==> TokenWellFormed(tok, gpt) && !(countActive == 1 && IsActive(tok)) && !Clashes(slots, Chosen(tok, gpt)))
    ensures var r := SelectToken(tok, slots, countActive, gpt, cur, count);
      r.Ok? ==>
        && TokenWellFormed(tok, gpt)
        && r.value == (slots + [ResolvedSlot(|slots| + 1, Chosen(tok, gpt), ForcedType(tok), IsActive(tok), cur, count)],
                       if IsActive(tok) then countActive + 1 else countActive)
  {
  }

  /** The explicit selection from token `tokens[0]` on, with the data slots
      added so far and the number of active tokens seen so far. */
  function SelectFrom(tokens: seq<string>, slots: seq<MbrPart>, countActive: nat,
                      gpt: seq<GptPart>, cur: seq<MbrPart>, count: nat): Result<seq<MbrPart>, Reason>
    requires count <= |cur|
    decreases |tokens|
  {
    if tokens == [] then Ok(slots)
    else
      match SelectToken(tokens[0], slots, countActive, gpt, cur, count)
      case Err(e) => Err(e)
      case Ok(next) => SelectFrom(tokens[1..], next.0, next.1, gpt, cur, count)
  }

  /** The selection one token further on. */
  lemma SelectFromUnfold(tokens: seq<string>, slots: seq<MbrPart>, countActive: nat,
                         gpt: seq<GptPart>, cur: seq<MbrPart>, count: nat)
    requires count <= |cur| && tokens != []
    ensures var step := SelectToken(tokens[0], slots, countActive, gpt, cur, count);
      SelectFrom(tokens, slots, countActive, gpt, cur, count)
        == if step.Err? then Err(step.error) else SelectFrom(tokens[1..], step.value.0, step.value.1, gpt, cur, count)
  {
  }

  /** A token that names an existing partition and whose type text, if any, parses. */
  predicate TokenWellFormed(tok: string, gpt: seq<GptPart>) {
    && 1 <= PartNumber(tok) <= |gpt|
    && (TypeText(tok) != "" ==> ParseHex(TypeText(tok)).HexOk?)
  }

  /** The GPT entry a well-formed token selects. */
  function Chosen(tok: string, gpt: seq<GptPart>): GptPart
    requires TokenWellFormed(tok, gpt)
  {
    gpt[PartNumber(tok) - 1]
  }

  /** What makes a selection list acceptable from some point on: every token
      well formed, at most one active token (none if one was already seen),
      and no chosen entry sharing its start or its end with an added slot or
      with another chosen entry. */
  predicate AcceptableFrom(tokens: seq<string>, slots: seq<MbrPart>, countActive: nat, gpt: seq<GptPart>) {
    && (forall j :: 0 <= j < |tokens| ==> TokenWellFormed(tokens[j], gpt))
    && (forall i, j :: 0 <= i < j < |tokens| ==> !(IsActive(tokens[i]) && IsActive(tokens[j])))
    && (countActive >= 1 ==> forall j :: 0 <= j < |tokens| ==> !IsActive(tokens[j]))
    && (forall j :: 0 <= j < |tokens| ==> !Clashes(slots, Chosen(tokens[j], gpt)))
    && (forall i, j :: 0 <= i < j < |tokens| ==>
          Chosen(tokens[i], gpt).startLba != Chosen(tokens[j], gpt).startLba &&
          Chosen(tokens[i], gpt).endLba != Chosen(tokens[j], gpt).endLba)
  }

  /** The slot token `j` occupies when the selection is accepted. */
  function SelectedSlot(tokens: seq<string>, j: nat, base: nat, gpt: seq<GptPart>, cur: seq<MbrPart>, count: nat): MbrPart
    requires j < |tokens| && TokenWellFormed(tokens[j], gpt) && count <= |cur|
  {
    ResolvedSlot(base + j + 1, Chosen(tokens[j], gpt), ForcedType(tokens[j]), IsActive(tokens[j]), cur, count)
  }

  /** The selection is accepted exactly when the token list is acceptable. */
  lemma {:induction false} SelectFromAccepts(tokens: seq<string>, slots: seq<MbrPart>, countActive: nat,
                                             gpt: seq<GptPart>, cur: seq<MbrPart>, count: nat)
    requires count <= |cur| && countActive <= 1
    ensures SelectFrom(tokens, slots, countActive, gpt, cur, count).Ok? <==> AcceptableFrom(tokens, slots, countActive, gpt)
    decreases |tokens|
  {
    if tokens != [] {
      var tok := tokens[0];
      assert AcceptableFrom(tokens, slots, countActive, gpt) ==>
        TokenWellFormed(tok, gpt) && !(countActive == 1 && IsActive(tok)) && !Clashes(slots, Chosen(tok, gpt));
      SelectTokenMeaning(tok, slots, countActive, gpt, cur, count);
      var step := SelectToken(tok, slots, countActive, gpt, cur, count);
      if step.Ok? {
        SelectFromAccepts(tokens[1..], step.value.0, step.value.1, gpt, cur, count);
        var slot := ResolvedSlot(|slots| + 1, Chosen(tok, gpt), ForcedType(tok), IsActive(tok), cur, count);
        if AcceptableFrom(tokens, slots, countActive, gpt) {
          AcceptableRest(tokens, slots, countActive, slot, gpt);
        }
        if AcceptableFrom(tokens[1..], slots + [slot], step.value.1, gpt) {
          AcceptableCons(tokens, slots, countActive, slot, gpt);
        }
      }
    }
  }

  /** An accepted selection keeps the slots added before it and puts the
      tokens in the next slots, in argument order. */
  lemma {:induction false} SelectFromShape(tokens: seq<string>, slots: seq<MbrPart>, countActive: nat,
                                           gpt: seq<GptPart>, cur: seq<MbrPart>, count: nat)
    requires count <= |cur|
    ensures SelectFrom(tokens, slots, countActive, gpt, cur, count).Ok? ==>
      var r := SelectFrom(tokens, slots, countActive, gpt, cur, count).value;
      && |r| == |slots| + |tokens|
      && r[..|slots|] == slots
      && (forall j :: 0 <= j < |tokens| ==> TokenWellFormed(tokens[j], gpt))
      && forall j :: 0 <= j < |tokens| ==> r[|slots| + j] == SelectedSlot(tokens, j, |slots|, gpt, cur, count)
    decreases |tokens|
  {
    if tokens != [] {
      var tok := tokens[0];
      SelectTokenMeaning(tok, slots, countActive, gpt, cur, count);
      var step := SelectToken(tok, slots, countActive, gpt, cur, count);
      if step.Ok? {
        var slots' := step.value.0;
        var slot := ResolvedSlot(|slots| + 1, Chosen(tok, gpt), ForcedType(tok), IsActive(tok), cur, count);
        assert slots' == slots + [slot];
        var rest := tokens[1..];
        SelectFromShape(rest, slots', step.value.1, gpt, cur, count);
        if SelectFrom(rest, slots', step.value.1, gpt, cur, count).Ok? {
          var r := SelectFrom(rest, slots', step.value.1, gpt, cur, count).value;
          assert r[..|slots|] == r[..|slots'|][..|slots|];
          forall j | 0 <= j < |tokens|
            ensures TokenWellFormed(tokens[j], gpt)
            ensures r[|slots| + j] == SelectedSlot(tokens, j, |slots|, gpt, cur, count)
          {
            if j == 0 {
              assert r[|slots|] == r[..|slots'|][|slots|] == slot;
            } else {
              assert rest[j - 1] == tokens[j];
              assert r[|slots'| + (j - 1)] == SelectedSlot(rest, j - 1, |slots'|, gpt, cur, count);
            }
          }
        }
      }
    }
  }

  /** One step of `AcceptableFrom`, forwards: an acceptable list stays
      acceptable without its first token once that token's slot is added.
      Only the extents of the added slot matter. */
  lemma AcceptableRest(tokens: seq<string>, slots: seq<MbrPart>, countActive: nat, slot: MbrPart, gpt: seq<GptPart>)
    requires tokens != [] && AcceptableFrom(tokens, slots, countActive, gpt)
    requires slot.startLba == Chosen(tokens[0], gpt).startLba && slot.endLba == Chosen(tokens[0], gpt).endLba
    ensures AcceptableFrom(tokens[1..], slots + [slot], if IsActive(tokens[0]) then countActive + 1 else countActive, gpt)
  {
    var slots' := slots + [slot];
    var rest := tokens[1..];
    assert forall j :: 0 <= j < |rest| ==> rest[j] == tokens[j + 1];
    forall j | 0 <= j < |rest| ensures !Clashes(slots', Chosen(rest[j], gpt)) {
      var g := Chosen(rest[j], gpt);
      assert g == Chosen(tokens[j + 1], gpt);
      assert !Clashes(slots, g);
      forall k | 0 <= k < |slots'| ensures slots'[k].startLba != g.startLba && slots'[k].endLba != g.endLba {
        if k < |slots| {
          assert slots'[k] == slots[k];
        } else {
          assert slots'[k] == slot;
        }
      }
    }
  }

  /** One step of `AcceptableFrom`, backwards: a first token that passes its
      own checks, followed by a list acceptable after its slot is added,
      makes an acceptable list. */
  lemma AcceptableCons(tokens: seq<string>, slots: seq<MbrPart>, countActive: nat, slot: MbrPart, gpt: seq<GptPart>)
    requires countActive <= 1 && tokens != []
    requires TokenWellFormed(tokens[0], gpt)
    requires !(countActive == 1 && IsActive(tokens[0]))
    requires !Clashes(slots, Chosen(tokens[0], gpt))
    requires slot.startLba == Chosen(tokens[0], gpt).startLba && slot.endLba == Chosen(tokens[0], gpt).endLba
    requires AcceptableFrom(tokens[1..], slots + [slot], if IsActive(tokens[0]) then countActive + 1 else countActive, gpt)
    ensures AcceptableFrom(tokens, slots, countActive, gpt)
  {
    var slots' := slots + [slot];
    var rest := tokens[1..];
    forall j | 0 <= j < |tokens| ensures TokenWellFormed(tokens[j], gpt) {
      if j > 0 { assert tokens[j] == rest[j - 1]; }
    }
    forall i, j | 0 <= i < j < |tokens|
      ensures !(IsActive(tokens[i]) && IsActive(tokens[j]))
      ensures Chosen(tokens[i], gpt).startLba != Chosen(tokens[j], gpt).startLba
      ensures Chosen(tokens[i], gpt).endLba != Chosen(tokens[j], gpt).endLba
    {
      assert tokens[j] == rest[j - 1];
      if i > 0 {
        assert tokens[i] == rest[i - 1];
      } else {
        assert !Clashes(slots', Chosen(rest[j - 1], gpt));
        assert slots'[|slots|] == slot;
      }
    }
    forall j | 0 <= j < |tokens| ensures !Clashes(slots, Chosen(tokens[j], gpt)) {
      if j > 0 {
        assert tokens[j] == rest[j - 1];
        assert !Clashes(slots', Chosen(rest[j - 1], gpt));
        forall k | 0 <= k < |slots| ensures slots[k] == slots'[k] { }
      }
    }
    if countActive >= 1 {
      forall j | 0 <= j < |tokens| ensures !IsActive(tokens[j]) {
        if j > 0 { assert tokens[j] == rest[j - 1]; }
      }
    }
  }

  // ---------------------------------------------------------------------
  // Auto-fill
  // ---------------------------------------------------------------------

  /** The first GPT entry auto-fill considers: entry 0 is skipped when it
      was classified as an ESP. */
  function AutoFillStart(gpt: seq<GptPart>): nat
    requires |gpt| > 0
  {
    if gpt[0].mbrType == TYPE_ESP then 1 else 0
  }

  /** Add GPT entries from `i` on, in order, until four slots are in use. */
  function AutoFillFrom(gpt: seq<GptPart>, i: nat, slots: seq<MbrPart>, cur: seq<MbrPart>, count: nat): seq<MbrPart>
    requires count <= |cur|
    decreases |gpt| - i
  {
    if i < |gpt| && |slots| + 1 < 4 then
      AutoFillFrom(gpt, i + 1, slots + [ResolvedSlot(|slots| + 1, gpt[i], 0, false, cur, count)], cur, count)
    else slots
  }

  function AutoFill(gpt: seq<GptPart>, cur: seq<MbrPart>, count: nat): seq<MbrPart>
    requires |gpt| > 0 && count <= |cur|
  {
    AutoFillFrom(gpt, AutoFillStart(gpt), [], cur, count)
  }

  function Min(a: int, b: int): int {
    if a < b then a else b
  }

  lemma {:induction false} AutoFillFromShape(gpt: seq<GptPart>, i: nat, slots: seq<MbrPart>, cur: seq<MbrPart>, count: nat)
    requires count <= |cur| && |slots| <= 3 && i <= |gpt|
    ensures var r := AutoFillFrom(gpt, i, slots, cur, count);
      && |r| == |slots| + Min(3 - |slots|, |gpt| - i)
      && r[..|slots|] == slots
      && forall k :: |slots| <= k < |r| ==> r[k] == ResolvedSlot(k + 1, gpt[i + k - |slots|], 0, false, cur, count)
    decreases |gpt| - i
  {
    if i < |gpt| && |slots| + 1 < 4 {
      var slots' := slots + [ResolvedSlot(|slots| + 1, gpt[i], 0, false, cur, count)];
      AutoFillFromShape(gpt, i + 1, slots', cur, count);
      var r := AutoFillFrom(gpt, i + 1, slots', cur, count);
      assert r[..|slots|] == r[..|slots'|][..|slots|];
      assert r[|slots|] == r[..|slots'|][|slots|];
    }
  }

  /** Auto-fill: the data slots are the GPT entries from the first one not
      skipped on, in GPT order, at most three of them, in slots 1, 2, 3,
      inactive and with no forced type. */
  lemma AutoFillShape(gpt: seq<GptPart>, cur: seq<MbrPart>, count: nat)
    requires |gpt| > 0 && count <= |cur|
    ensures var s := AutoFillStart(gpt); var r := AutoFill(gpt, cur, count);
      && |r| == Min(3, |gpt| - s)
      && forall k :: 0 <= k < |r| ==> r[k] == ResolvedSlot(k + 1, gpt[s + k], 0, false, cur, count)
  {
    AutoFillFromShape(gpt, AutoFillStart(gpt), [], cur, count);
  }

  // ---------------------------------------------------------------------
  // The data slots, the extents and the finished table
  // ---------------------------------------------------------------------

  /** The data slots: none for an empty (protective-only) MBR, else the
      explicit selection when tokens were given, else auto-fill. */
  function DataSlots(gpt: seq<GptPart>, cur: seq<MbrPart>, count: nat, tokens: seq<string>, createEmpty: bool): (r: Result<seq<MbrPart>, Reason>)
    requires |gpt| > 0 && count <= |cur|
  {
    if createEmpty then Ok([])
    else if tokens != [] then SelectFrom(tokens, [], 0, gpt, cur, count)
    else Ok(AutoFill(gpt, cur, count))
  }

  /** The lowest start among the slots (the scan `analyze` runs). */
  function MinStart(s: seq<MbrPart>): (m: u64)
    requires |s| > 0
    ensures forall k :: 0 <= k < |s| ==> m <= s[k].startLba
    ensures exists k :: 0 <= k < |s| && s[k].startLba == m
  {
    if |s| == 1 then s[0].startLba
    else
      var m := MinStart(s[..|s| - 1]);
      assert forall k :: 0 <= k < |s| - 1 ==> s[..|s| - 1][k] == s[k];
      if m > s[|s| - 1].startLba then s[|s| - 1].startLba else m
  }

  /** The highest end among the slots. */
  function MaxEnd(s: seq<MbrPart>): (m: u64)
    requires |s| > 0
    ensures forall k :: 0 <= k < |s| ==> s[k].endLba <= m
    ensures exists k :: 0 <= k < |s| && s[k].endLba == m
  {
    if |s| == 1 then s[0].endLba
    else
      var m := MaxEnd(s[..|s| - 1]);
      assert forall k :: 0 <= k < |s| - 1 ==> s[..|s| - 1][k] == s[k];
      if m < s[|s| - 1].endLba then s[|s| - 1].endLba else m
  }

  /** `min_start_lba`: the lowest data start, or the whole disk when there
      are no data slots. */
  function MinStartLba(data: seq<MbrPart>, blockCount: u64): u64 {
    if data == [] then blockCount else MinStart(data)
  }

  /** `max_end_lba`, likewise. */
  function MaxEndLba(data: seq<MbrPart>, blockCount: u64): u64 {
    if data == [] then blockCount else MaxEnd(data)
  }

  /** A trailing protective slot is appended. */
  predicate HasFiller(data: seq<MbrPart>, blockCount: u64, fill: bool)
    requires blockCount > 0
  {
    |data| + 1 < 4 && MaxEndLba(data, blockCount) < blockCount - 1 && fill
  }

  function ProtectiveSlot(data: seq<MbrPart>, blockCount: u64): MbrPart {
    MbrPart(0, 1, Wrap64(MinStartLba(data, blockCount) - 1), TYPE_PROTECTIVE, false)
  }

  function FillerSlot(data: seq<MbrPart>, blockCount: u64): MbrPart
    requires blockCount > 0 && MaxEndLba(data, blockCount) < blockCount - 1
  {
    MbrPart(|data| + 1, MaxEndLba(data, blockCount) + 1, blockCount - 1, TYPE_PROTECTIVE, false)
  }

  /** The finished candidate table for the given data slots. */
  function BuildTable(data: seq<MbrPart>, blockCount: u64, fill: bool): (t: Table)
    requires |data| <= 3 && blockCount > 0
    ensures |t.slots| == 4 && |data| < t.count <= 4
    ensures t.slots[0].startLba == 1 && t.slots[0].mbrType == TYPE_PROTECTIVE
  {
    var used := [ProtectiveSlot(data, blockCount)] + data +
      (if HasFiller(data, blockCount, fill) then [FillerSlot(data, blockCount)] else []);
    Table(used + seq(4 - |used|, _ => Unused), |used|)
  }

  /** Four slots made of a head slot, the data slots, an optional tail and
      zeroed padding. */
  lemma PaddedLayout(p: MbrPart, data: seq<MbrPart>, tail: seq<MbrPart>)
    requires 1 + |data| + |tail| <= 4
    ensures var used := [p] + data + tail;
      var s := used + seq(4 - |used|, _ => Unused);
      && |s| == 4 && s[0] == p && s[1..1 + |data|] == data
      && (forall k :: 0 <= k < |tail| ==> s[1 + |data| + k] == tail[k])
      && (forall k :: |used| <= k < 4 ==> s[k] == Unused)
  {
    var used := [p] + data + tail;
    var s := used + seq(4 - |used|, _ => Unused);
    assert s[..|used|] == used;
    assert used[1..1 + |data|] == data;
    forall k | 0 <= k < |tail| ensures s[1 + |data| + k] == tail[k] {
      assert used[1 + |data| + k] == tail[k];
    }
  }

  /** The protective slot 0 runs from LBA 1 up to one before the lowest data
      start, or to the last LBA when there is no data slot. */
  lemma ProtectiveSlotShape(data: seq<MbrPart>, blockCount: u64)
    requires blockCount > 0
    ensures var p := ProtectiveSlot(data, blockCount);
      && p.index == 0 && p.startLba == 1 && p.mbrType == TYPE_PROTECTIVE && !p.active
      && (data == [] ==> p.endLba == blockCount - 1)
      && (data != [] && MinStart(data) > 0 ==>
            (forall k :: 0 <= k < |data| ==> p.endLba < data[k].startLba) &&
            (exists k :: 0 <= k < |data| && p.endLba + 1 == data[k].startLba))
      && (data != [] && MinStart(data) == 0 ==> p.endLba == 0xFFFF_FFFF_FFFF_FFFF)
  {
    if data != [] && MinStart(data) > 0 {
      assert ProtectiveSlot(data, blockCount).endLba == MinStart(data) - 1;
    }
  }

  /** The trailing protective slot covers the rest of the disk after every
      data slot. */
  lemma FillerSlotShape(data: seq<MbrPart>, blockCount: u64)
    requires blockCount > 0 && MaxEndLba(data, blockCount) < blockCount - 1
    ensures var f := FillerSlot(data, blockCount);
      && f.index == 1 + |data| && f.endLba == blockCount - 1 && f.mbrType == TYPE_PROTECTIVE && !f.active
      && (forall k :: 0 <= k < |data| ==> data[k].endLba < f.startLba)
  {
  }

  /** What the finished table looks like: four slots of which `count` are
      populated, the data slots in 1..; slot 0 protective from LBA 1 up to
      one before the lowest data start (to the last LBA when there is no data
      slot); a trailing protective slot exactly when a slot is free, filling
      is on and the data end before the last LBA, and then covering the rest
      of the disk after every data slot; the free slots zeroed. */
  lemma BuildTableShape(data: seq<MbrPart>, blockCount: u64, fill: bool)
    requires |data| <= 3 && blockCount > 0
    ensures var t := BuildTable(data, blockCount, fill);
      && |t.slots| == 4 && 1 <= t.count <= 4
      && t.count == 1 + |data| + (if HasFiller(data, blockCount, fill) then 1 else 0)
      && t.slots[1..1 + |data|] == data
      && (forall k :: t.count <= k < 4 ==> t.slots[k] == Unused)
    ensures var p := BuildTable(data, blockCount, fill).slots[0];
      && p.index == 0 && p.startLba == 1 && p.mbrType == TYPE_PROTECTIVE && !p.active
      && (data == [] ==> p.endLba == blockCount - 1)
      && (data != [] && MinStart(data) > 0 ==>
            (forall k :: 0 <= k < |data| ==> p.endLba < data[k].startLba) &&
            (exists k :: 0 <= k < |data| && p.endLba + 1 == data[k].startLba))
      && (data != [] && MinStart(data) == 0 ==> p.endLba == 0xFFFF_FFFF_FFFF_FFFF)
    ensures var t := BuildTable(data, blockCount, fill);
      HasFiller(data, blockCount, fill) ==>
        var f := t.slots[1 + |data|];
        && f.index == 1 + |data| && f.endLba == blockCount - 1 && f.mbrType == TYPE_PROTECTIVE && !f.active
        && (forall k :: 0 <= k < |data| ==> data[k].endLba < f.startLba)
  {
    var tail := if HasFiller(data, blockCount, fill) then [FillerSlot(data, blockCount)] else [];
    PaddedLayout(ProtectiveSlot(data, blockCount), data, tail);
    ProtectiveSlotShape(data, blockCount);
    if HasFiller(data, blockCount, fill) {
      FillerSlotShape(data, blockCount);
    }
  }

  /** Slot `k` of the finished table. */
  lemma BuildTableSlot(data: seq<MbrPart>, blockCount: u64, fill: bool, k: nat)
    requires |data| <= 3 && blockCount > 0 && k < 4
    ensures var t := BuildTable(data, blockCount, fill);
      t.slots[k] == if k == 0 then ProtectiveSlot(data, blockCount)
                    else if k <= |data| then data[k - 1]
                    else if k == |data| + 1 && HasFiller(data, blockCount, fill) then FillerSlot(data, blockCount)
                    else Unused
  {
  }

  /** The candidate table `analyze` composes from the GPT as read (before
      classification), or the reason it stops first. */
  function CandidateTable(gpt0: seq<GptPart>, cur: seq<MbrPart>, count: nat, tokens: seq<string>,
                          blockCount: u64, detect: u64 -> byte, fill: bool, createEmpty: bool): (r: Result<Table, Reason>)
    requires count <= |cur| && |tokens| <= 3
    ensures blockCount == 0 ==> r == Err(NoDiskSize)
    ensures r.Ok? ==> blockCount > 0 && |gpt0| > 0 && |r.value.slots| == 4 && 1 <= r.value.count <= 4
  {
    if blockCount == 0 then Err(NoDiskSize)
    else if |gpt0| == 0 then Err(NoGptPartitions)
    else
      var gpt := Classified(gpt0, detect);
      ClassifiedLength(gpt0, detect);
      match DataSlots(gpt, cur, count, tokens, createEmpty)
      case Err(e) => Err(e)
      case Ok(data) =>
        DataSlotsBound(gpt, cur, count, tokens, createEmpty);
        Ok(BuildTable(data, blockCount, fill))
  }

  lemma ClassifiedLength(parts: seq<GptPart>, detect: u64 -> byte)
    ensures |Classified(parts, detect)| == |parts|
  {
    if parts != [] {
      ClassifyFromAt(parts, false, detect, 0);
    }
  }

  lemma DataSlotsBound(gpt: seq<GptPart>, cur: seq<MbrPart>, count: nat, tokens: seq<string>, createEmpty: bool)
    requires |gpt| > 0 && count <= |cur| && |tokens| <= 3
    ensures DataSlots(gpt, cur, count, tokens, createEmpty).Ok? ==> |DataSlots(gpt, cur, count, tokens, createEmpty).value| <= 3
  {
    if !createEmpty {
      if tokens != [] {
        SelectFromShape(tokens, [], 0, gpt, cur, count);
      } else {
        AutoFillShape(gpt, cur, count);
      }
    }
  }

  // ---------------------------------------------------------------------
  // The comparison with the current table
  // ---------------------------------------------------------------------

  /** Two slots differ in index, start, end, type or active flag. */
  predicate SlotDiffers(a: MbrPart, b: MbrPart) {
    a.index != b.index || a.startLba != b.startLba || a.endLba != b.endLba ||
    a.mbrType != b.mbrType || a.active != b.active
  }

  /** The candidate differs from the current table in some of the four slots. */
  predicate TablesDiffer(cand: seq<MbrPart>, cur: seq<MbrPart>)
    requires |cand| == 4 && |cur| == 4
  {
    exists i :: 0 <= i < 4 && SlotDiffers(cand[i], cur[i])
  }

  /** What `analyze` decides. */
  function AnalyzeOutcome(gpt0: seq<GptPart>, cur: seq<MbrPart>, count: nat, tokens: seq<string>,
                          blockCount: u64, detect: u64 -> byte, fill: bool, createEmpty: bool): Outcome
    requires |cur| == 4 && count <= 4 && |tokens| <= 3
  {
    match CandidateTable(gpt0, cur, count, tokens, blockCount, detect, fill, createEmpty)
    case Err(e) => Stop(e)
    case Ok(t) =>
      if TablesDiffer(t.slots, cur) then Rewrite else Stop(Synchronized)
  }

  // ---------------------------------------------------------------------
  // What every candidate table looks like
  // ---------------------------------------------------------------------

  /** No two slots both carry the active flag. */
  predicate AtMostOneActive(s: seq<MbrPart>) {
    forall i, j :: 0 <= i < j < |s| && s[i].active ==> !s[j].active
  }

  /** Data slots as composition leaves them: slot `k + 1` holds `data[k]`,
      every one has a type, and at most one is active. */
  predicate DataWellFormed(data: seq<MbrPart>) {
    && (forall k :: 0 <= k < |data| ==> data[k].index == k + 1 && data[k].mbrType != 0)
    && AtMostOneActive(data)
  }

  /** A candidate table as `analyze` leaves it: four slots, the first
      `count` populated, each recording its own position and a nonzero type,
      slot 0 protective from LBA 1 and inactive, the rest zeroed, at most one
      boot flag. */
  predicate TableWellFormed(t: Table) {
    && |t.slots| == 4 && 1 <= t.count <= 4
    && (forall k :: 0 <= k < t.count ==> t.slots[k].index == k && t.slots[k].mbrType != 0)
    && (forall k :: t.count <= k < 4 ==> t.slots[k] == Unused)
    && t.slots[0].mbrType == TYPE_PROTECTIVE && t.slots[0].startLba == 1 && !t.slots[0].active
    && AtMostOneActive(t.slots)
  }

  /** An accepted explicit selection gives well-formed data slots. */
  lemma SelectionWellFormed(tokens: seq<string>, gpt: seq<GptPart>, cur: seq<MbrPart>, count: nat)
    requires count <= |cur|
    ensures SelectFrom(tokens, [], 0, gpt, cur, count).Ok? ==>
      DataWellFormed(SelectFrom(tokens, [], 0, gpt, cur, count).value)
  {
    var d := SelectFrom(tokens, [], 0, gpt, cur, count);
    if d.Ok? {
      SelectFromShape(tokens, [], 0, gpt, cur, count);
      SelectFromAccepts(tokens, [], 0, gpt, cur, count);
      var r := d.value;
      forall k | 0 <= k < |r| ensures r[k].index == k + 1 && r[k].mbrType != 0 && r[k].active == IsActive(tokens[k]) {
        assert r[0 + k] == SelectedSlot(tokens, k, 0, gpt, cur, count);
      }
    }
  }

  /** The data slots either path produces are well formed. */
  lemma DataSlotsWellFormed(gpt: seq<GptPart>, cur: seq<MbrPart>, count: nat, tokens: seq<string>, createEmpty: bool)
    requires |gpt| > 0 && count <= |cur|
    ensures DataSlots(gpt, cur, count, tokens, createEmpty).Ok? ==>
      DataWellFormed(DataSlots(gpt, cur, count, tokens, createEmpty).value)
  {
    if !createEmpty && tokens != [] {
      SelectionWellFormed(tokens, gpt, cur, count);
    } else if !createEmpty {
      AutoFillShape(gpt, cur, count);
    }
  }

  /** Finishing well-formed data slots gives a well-formed table. */
  lemma BuildTableWellFormed(data: seq<MbrPart>, blockCount: u64, fill: bool)
    requires |data| <= 3 && blockCount > 0 && DataWellFormed(data)
    ensures TableWellFormed(BuildTable(data, blockCount, fill))
  {
    var t := BuildTable(data, blockCount, fill);
    BuildTableShape(data, blockCount, fill);
    forall k | 0 <= k < 4
      ensures k < t.count ==> t.slots[k].index == k && t.slots[k].mbrType != 0
      ensures t.slots[k].active <==> 1 <= k <= |data| && data[k - 1].active
    {
      BuildTableSlot(data, blockCount, fill, k);
    }
  }

  /** Every candidate table `analyze` can compose is well formed. */
  lemma CandidateWellFormed(gpt0: seq<GptPart>, cur: seq<MbrPart>, count: nat, tokens: seq<string>,
                            blockCount: u64, detect: u64 -> byte, fill: bool, createEmpty: bool)
    requires count <= |cur| && |tokens| <= 3
    ensures CandidateTable(gpt0, cur, count, tokens, blockCount, detect, fill, createEmpty).Ok? ==>
      TableWellFormed(CandidateTable(gpt0, cur, count, tokens, blockCount, detect, fill, createEmpty).value)
  {
    if blockCount != 0 && |gpt0| != 0 {
      var gpt := Classified(gpt0, detect);
      ClassifiedLength(gpt0, detect);
      DataSlotsBound(gpt, cur, count, tokens, createEmpty);
      DataSlotsWellFormed(gpt, cur, count, tokens, createEmpty);
      if DataSlots(gpt, cur, count, tokens, createEmpty).Ok? {
        BuildTableWellFormed(DataSlots(gpt, cur, count, tokens, createEmpty).value, blockCount, fill);
      }
    }
  }

  // ---------------------------------------------------------------------
  // Running the synchronisation twice
  // ---------------------------------------------------------------------

  /** Every GPT entry has a type descriptor that names an MBR type, or is
      BASIC_DATA (which always ends with one). */
  predicate TypesKnown(gpt0: seq<GptPart>) {
    forall i :: 0 <= i < |gpt0| ==> gpt0[i].partType.kind == BasicData || gpt0[i].partType.mbrType != 0
  }

  /** With known types every classified entry has a nonzero MBR type. */
  lemma ClassifiedTypesNonzero(gpt0: seq<GptPart>, detect: u64 -> byte)
    requires TypesKnown(gpt0)
    ensures |Classified(gpt0, detect)| == |gpt0|
    ensures forall i :: 0 <= i < |gpt0| ==> Classified(gpt0, detect)[i].mbrType != 0
  {
    ClassifiedLength(gpt0, detect);
    forall i | 0 <= i < |gpt0| ensures Classified(gpt0, detect)[i].mbrType != 0 {
      ClassifiedEntry(gpt0, detect, i);
    }
  }

  /** When the GPT entry has a type, the slot does not depend on the current
      MBR. */
  lemma ResolvedSlotIndependent(slot: nat, gp: GptPart, force: byte, active: bool,
                                cur: seq<MbrPart>, count: nat, cur': seq<MbrPart>, count': nat)
    requires count <= |cur| && count' <= |cur'| && gp.mbrType != 0
    ensures ResolvedSlot(slot, gp, force, active, cur, count) == ResolvedSlot(slot, gp, force, active, cur', count')
  {
  }

  lemma {:induction false} SelectFromIndependent(tokens: seq<string>, slots: seq<MbrPart>, countActive: nat, gpt: seq<GptPart>,
                                                 cur: seq<MbrPart>, count: nat, cur': seq<MbrPart>, count': nat)
    requires count <= |cur| && count' <= |cur'|
    requires forall i :: 0 <= i < |gpt| ==> gpt[i].mbrType != 0
    ensures SelectFrom(tokens, slots, countActive, gpt, cur, count) == SelectFrom(tokens, slots, countActive, gpt, cur', count')
    decreases |tokens|
  {
    if tokens != [] {
      var tok := tokens[0];
      SelectTokenMeaning(tok, slots, countActive, gpt, cur, count);
      SelectTokenMeaning(tok, slots, countActive, gpt, cur', count');
      var step := SelectToken(tok, slots, countActive, gpt, cur, count);
      if step.Ok? {
        ResolvedSlotIndependent(|slots| + 1, Chosen(tok, gpt), ForcedType(tok), IsActive(tok), cur, count, cur', count');
        assert step == SelectToken(tok, slots, countActive, gpt, cur', count');
        SelectFromIndependent(tokens[1..], step.value.0, step.value.1, gpt, cur, count, cur', count');
      } else {
        assert SelectToken(tok, slots, countActive, gpt, cur', count') == step;
      }
    }
  }

  lemma {:induction false} AutoFillFromIndependent(gpt: seq<GptPart>, i: nat, slots: seq<MbrPart>,
                                                   cur: seq<MbrPart>, count: nat, cur': seq<MbrPart>, count': nat)
    requires count <= |cur| && count' <= |cur'|
    requires forall i :: 0 <= i < |gpt| ==> gpt[i].mbrType != 0
    ensures AutoFillFrom(gpt, i, slots, cur, count) == AutoFillFrom(gpt, i, slots, cur', count')
    decreases |gpt| - i
  {
    if i < |gpt| && |slots| + 1 < 4 {
      ResolvedSlotIndependent(|slots| + 1, gpt[i], 0, false, cur, count, cur', count');
      AutoFillFromIndependent(gpt, i + 1, slots + [ResolvedSlot(|slots| + 1, gpt[i], 0, false, cur, count)], cur, count, cur', count');
    }
  }

  /** With known types the candidate does not depend on the current MBR. */
  lemma CandidateIndependentOfCurrent(gpt0: seq<GptPart>, cur: seq<MbrPart>, count: nat, cur': seq<MbrPart>, count': nat,
                                      tokens: seq<string>, blockCount: u64, detect: u64 -> byte, fill: bool, createEmpty: bool)
    requires count <= |cur| && count' <= |cur'| && |tokens| <= 3 && TypesKnown(gpt0)
    ensures CandidateTable(gpt0, cur, count, tokens, blockCount, detect, fill, createEmpty)
         == CandidateTable(gpt0, cur', count', tokens, blockCount, detect, fill, createEmpty)
  {
    if blockCount != 0 && |gpt0| != 0 {
      var gpt := Classified(gpt0, detect);
      ClassifiedTypesNonzero(gpt0, detect);
      SelectFromIndependent(tokens, [], 0, gpt, cur, count, cur', count');
      AutoFillFromIndependent(gpt, AutoFillStart(gpt), [], cur, count, cur', count');
      assert DataSlots(gpt, cur, count, tokens, createEmpty) == DataSlots(gpt, cur', count', tokens, createEmpty);
    }
  }

  /** Idempotence: with known types, running `analyze` again on the MBR it
      proposed (same arguments, same disk) finds nothing to change. */
  lemma SecondRunSynchronized(gpt0: seq<GptPart>, cur: seq<MbrPart>, count: nat, tokens: seq<string>,
                              blockCount: u64, detect: u64 -> byte, fill: bool, createEmpty: bool)
    requires |cur| == 4 && count <= 4 && |tokens| <= 3 && TypesKnown(gpt0)
    requires CandidateTable(gpt0, cur, count, tokens, blockCount, detect, fill, createEmpty).Ok?
    ensures var t := CandidateTable(gpt0, cur, count, tokens, blockCount, detect, fill, createEmpty).value;
      |t.slots| == 4 && t.count <= 4 &&
      AnalyzeOutcome(gpt0, t.slots, t.count, tokens, blockCount, detect, fill, createEmpty) == Stop(Synchronized)
  {
    var t := CandidateTable(gpt0, cur, count, tokens, blockCount, detect, fill, createEmpty).value;
    CandidateIndependentOfCurrent(gpt0, cur, count, t.slots, t.count, tokens, blockCount, detect, fill, createEmpty);
    assert !TablesDiffer(t.slots, t.slots);
  }
}
