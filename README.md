# gptsync core in Dafny

gptsync keeps the legacy MBR of a GPT disk in step with the GPT. This is the
"hybrid MBR" that Boot Camp-era Macs need to boot other systems. The core
lives in `gptsync.c`, and this project models it:

- The consistency checks `check_gpt` and `check_mbr`.
- The classification of GPT entries into MBR type bytes. It uses file-system
  detection and keeps at most one ESP.
- The composition of a candidate MBR in `analyze`:
  - explicit selection from command-line arguments such as `2`, `3+`, `1-0c`
    or `1+af`, or auto-fill of up to three GPT entries;
  - the type resolution of `add_gpt_partition_to_mbr`;
  - the protective slot 0 (type 0xEE) and the optional trailing protective
    filler;
  - the comparison with the current MBR.
- The 512-byte boot sector that `write_mbr` writes: four 16-byte records at
  offset 446, 32-bit clamping of start and size, a single boot flag, and the
  0x55 0xAA signature.
- The `gptsync` driver that chains all of these.

The C code keeps its state in file-level globals (`gpt_parts`,
`new_mbr_parts`, `sector`, the counts and the option flags). It updates them
in place, so the model is the class `Sync.GptSync` with those fields. Its
methods follow the C loops step by step. Each method is proved against a
pure function in the modules below, and the properties are proved about
those functions.

| module | file | contents |
|---|---|---|
| `Types` | types.dfy | Fixed-width integers and UINT64 wrap-around, the partition records, the MBR type constants. |
| `Hex` | hex.dfy | `xtoi` as the method `Xtoi`, proved against the function `ParseHex`. |
| `Validate` | validate.dfy | What `check_gpt` and `check_mbr` accept, as predicates. |
| `Classify` | classify.dfy | The classification pass as a function, and the one-ESP property. |
| `Compose` | compose.dfy | Token parsing, selection, auto-fill, extents and the finished table. Also the comparison and the decision of `analyze`, the well-formedness of every candidate, and idempotence. |
| `Layout` | layout.dfy | The on-disk record and sector layout. |
| `Sync` | sync.dfy | The class with the globals, and the imperative procedures. |
| `Scenarios` | scenarios.dfy | Worked examples on concrete disks. |

The platform layer is outside the model. Each of its calls becomes a
parameter:

- `read_gpt`, `read_mbr`: the tables they produce are constructor arguments,
  and their statuses are parameters of `Run`.
- `get_disk_size`: `blockCount`.
- `detect_mbrtype_fs`: `detect`, a function from a start LBA to a type byte,
  with 0 meaning nothing was recognised.
- `input_boolean`: its status and the user's answer.
- `read_sector` and `write_sector`: their statuses and the sector read.

On a 2,000,000-sector disk with an ESP at 34..1000 and NTFS at
1001..1999966, auto-fill skips the ESP. Slot 0 therefore ends at LBA 1000,
one before the lowest data start, and a trailing 0xEE filler covers
1999967..1999999 (`Scenarios.EspDiskAutoFill`).

## Model

| member | source | states |
|---|---|---|
| Types.Wrap64 | gptsync.c:439 | UINT64 subtraction wraps modulo 2^64: values in range are kept, and small negatives become 2^64 minus their magnitude. |
| Hex.Xtoi | gptsync.c:51-99 | Status 1 exactly for the empty string, 2 exactly for more than two characters, 4 exactly when some character is not a hex digit, and 0 otherwise. On success the result is the hex value. On status 4 it is the value of the digits right of the last bad character. On 1 or 2 the result is untouched. The outcome agrees with `ParseHex` in every case. |
| Hex.XtoiStep | gptsync.c:66-84 | One turn of the right-to-left loop adds the digit times its place value, and the running value still fits a byte. |
| Hex.HexValueCons | gptsync.c:66-84 | The value of a digit string is its leading digit times 16^(length of the rest) plus the value of the rest. |
| Hex.HexValueBound | gptsync.c:59-84 | A string of n hex digits has a value below 16^n, so at most two digits fit a UINT8. |
| Hex.LastNonHexUnique | gptsync.c:85-92 | The character the loop stops at is the right-most non-digit. |
| Hex.ParseHexInvertsByteToHex | gptsync.c:51-99 | Every byte written as two lower-case hex digits, the way the proposed table prints a type, parses back to the same byte. |
| Hex.ParseHexExamples | gptsync.c:44-50 | The documented return codes on sample inputs: "" gives 1, "1af" gives 2, "gg" gives 4, and "1f", "A", "af" give their values. |
| Classify.ClassifyEntry | gptsync.c:313-333 | One entry's type: after an ESP was kept, the result is 0xEF only when detection itself reported 0xEF. A BASIC_DATA entry or a descriptor with a nonzero MBR type never ends with type 0. Any entry that is neither BASIC_DATA nor 0xEF keeps its descriptor's type. |
| Classify.ClassifyFromAt | gptsync.c:312-337 | Entry i of the pass from any `have_esp` keeps its extents. Its type is `ClassifyEntry` of the entry, with `have_esp` true exactly when it was already set or an earlier entry ended as 0xEF. |
| Classify.ClassifiedEntry | gptsync.c:313-333 | Per entry of the whole pass. Extents and descriptor are kept. BASIC_DATA takes the detected type, else 0x0B. A 0xEF descriptor stays 0xEF only if detection found FAT12, FAT16-LBA or FAT32-LBA and no earlier ESP was kept. Otherwise it takes the detected type, else 0x83 after an earlier ESP, else 0xEF. Any other entry keeps its descriptor's type. |
| Classify.NoEspAfterSeen | gptsync.c:322-336 | Once an ESP has been kept, no later entry becomes 0xEF, provided detection never reports 0xEF. |
| Classify.AtMostOneEsp | gptsync.c:322-336 | "No more than one ESP per disk": after the pass, no two entries have type 0xEF, provided detection never reports 0xEF. |
| Compose.FirstStartMatch | gptsync.c:267-275 | The first current MBR entry from k on whose start equals the LBA, or none when no such entry exists. |
| Compose.ResolvedType | gptsync.c:264-279 | The slot type is never 0. A nonzero forced type wins. Otherwise a nonzero classified type wins. Otherwise the first current entry with the same start gives its type when that is nonzero. Otherwise the type is 0xC0. |
| Compose.FirstIndexOf | gptsync.c:350-352 | `strchr`: the position of the first occurrence, with no earlier one, or none when the character is absent. |
| Compose.AtoiNoDigits | gptsync.c:359 | `atoi` of a string with no decimal digit is 0, so a token without a number names partition 0 and is refused. |
| Compose.AtoiDecimal | gptsync.c:359 | `atoi` of a numeral followed by a non-digit (the separator, or nothing) is the numeral's decimal value, digit times place value. |
| Compose.ParseToken | gptsync.c:347-380 | The checks made before the entry is looked at. An accepted token names a partition between 1 and the GPT entry count, counts its '+' in the active count, and is never a second '+'. |
| Compose.SelectToken | gptsync.c:346-392 | An accepted token keeps the slots already added and appends exactly one, numbered after them. |
| Compose.SelectTokenMeaning | gptsync.c:346-392 | With at most one active token so far, an argument is accepted exactly when four things hold. Its number is between 1 and the GPT entry count. Any text after the separator is valid hex. It is not a second '+'. Its entry shares neither start nor end with an added slot. An accepted argument appends the slot for its entry, forced type and active flag, and counts a '+'. |
| Compose.SelectFromAccepts | gptsync.c:344-394 | The argument list is accepted exactly when it is acceptable. Every argument is well formed, at most one has '+', and no chosen entry shares a start or an end with an added slot or with another chosen entry. |
| Compose.SelectFromShape | gptsync.c:344-394 | An accepted list keeps the slots already added. Argument j fills slot j+1 in argument order, with its entry's extents, its forced type and its active flag. |
| Compose.AcceptableRest | gptsync.c:346-392 | An acceptable list stays acceptable after its first argument's slot is added. |
| Compose.AcceptableCons | gptsync.c:346-392 | A first argument that passes its checks, followed by a list acceptable after its slot, makes an acceptable list. |
| Compose.AutoFillFromShape | gptsync.c:403-407 | Auto-fill from entry i appends the next entries in GPT order until four slots are used or the GPT runs out. |
| Compose.AutoFillShape | gptsync.c:395-408 | Without arguments, the data slots are the first min(3, n - s) GPT entries from s on, inactive and unforced. Here s is 1 when entry 0 was classified 0xEF, else 0. |
| Compose.MinStart | gptsync.c:416-423 | The scan's minimum is a lower bound of every data start and is attained. |
| Compose.MaxEnd | gptsync.c:416-423 | The scan's maximum is an upper bound of every data end and is attained. |
| Compose.ProtectiveSlotShape | gptsync.c:411-440 | Slot 0 is protective 0xEE from LBA 1. It ends on the last LBA when there is no data slot. Otherwise, when the lowest data start is above 0, it ends just before that start, so it ends before every data slot. A data start of 0 makes the UINT64 `min_start - 1` wrap, and slot 0 then ends at 2^64 - 1. |
| Compose.FillerSlotShape | gptsync.c:426-434 | The trailing filler is protective and inactive, takes the next slot, ends on the last LBA and starts after every data slot. |
| Compose.BuildTable | gptsync.c:411-440 | The finished table has four slots, its count covers slot 0 and every data slot, and slot 0 is protective from LBA 1. |
| Compose.BuildTableShape | gptsync.c:411-440 | The finished table has four slots with the data in slots 1.. and slot 0 protective as above (including the wrap to 2^64 - 1 when some data starts at LBA 0). A filler is added exactly when a slot is free, filling is on and the data end before the last LBA. The count covers them all, and the free slots are zeroed. |
| Compose.BuildTableSlot | gptsync.c:426-440 | Slot k of the finished table: slot 0 is protective, then the data slots, then the filler when one is added, then zeroed slots. |
| Compose.DataSlotsBound | gptsync.c:344-408 | At most three data slots are composed, given at most three arguments. |
| Compose.CandidateTable | gptsync.c:289-440 | No disk size stops the run before anything else. A composed candidate comes from a disk with a size and a GPT with entries, and has four slots with between 1 and 4 populated. |
| Compose.SelectionWellFormed | gptsync.c:344-394 | An accepted selection puts argument j in slot j+1 with a nonzero type, and marks at most one slot active. |
| Compose.DataSlotsWellFormed | gptsync.c:344-408 | Whichever path composed them, data slot k records index k+1 and a nonzero type, and at most one is active. |
| Compose.BuildTableWellFormed | gptsync.c:411-440 | Finishing such data gives a well-formed table. Each populated slot records its own position and a nonzero type. Slot 0 is protective from LBA 1 and inactive. The rest are zeroed, and at most one slot is active. |
| Compose.CandidateWellFormed | gptsync.c:289-440 | Every candidate `analyze` composes is well formed in that sense. |
| Compose.ClassifiedTypesNonzero | gptsync.c:313-337 | When every descriptor names an MBR type (or is BASIC_DATA), every classified type is nonzero. |
| Compose.ResolvedSlotIndependent | gptsync.c:264-279 | With a nonzero classified type, the slot does not depend on the current MBR. |
| Compose.SelectFromIndependent | gptsync.c:344-394 | With nonzero classified types, the explicit selection does not depend on the current MBR. |
| Compose.AutoFillFromIndependent | gptsync.c:395-408 | With nonzero classified types, auto-fill does not depend on the current MBR. |
| Compose.CandidateIndependentOfCurrent | gptsync.c:289-440 | With known types, the candidate (or the reason for stopping) is the same for any current MBR. |
| Compose.SecondRunSynchronized | gptsync.c:442-459 | Idempotence. With known types, running `analyze` again on the MBR it proposed, with the same arguments and disk, ends with "Tables are synchronized". |
| Layout.Clamp32 | gptsync.c:183-195 | A value above 0xFFFFFFFF becomes 0xFFFFFFFF, any other is kept, and the result never exceeds the input. |
| Layout.LE32RoundTrip | gptsync.c:188-195 | The four stored bytes of a UINT32 field read back, little-endian, as the value stored. |
| Layout.FindCandidate | gptsync.c:153-156 | The first candidate from k on whose index is the slot number, or none when there is none. |
| Layout.ActiveBeforeMeaning | gptsync.c:151-172 | The running `active` byte has been used up at slot i exactly when some earlier slot was written from an active candidate. |
| Layout.SlotBytes | gptsync.c:152-197 | Slot i's record is sixteen bytes. Its flag byte is 0 or 0x80, and it is 0x80 exactly when the slot is written from an active candidate and no earlier slot was. |
| Layout.TableBytesSlot | gptsync.c:152-197 | Bytes 16i..16i+15 of the record area are slot i's record. |
| Layout.Image | gptsync.c:143-197 | The sector written is 512 bytes, keeps the 446 bytes of boot code as read, and ends in 0x55 0xAA. |
| Layout.ImageLayout | gptsync.c:143-197 | The sector written keeps the 446 bytes of boot code as read, holds slot i's record at 446 + 16i, and ends in 0x55 0xAA. |
| Layout.EntryFields | gptsync.c:169-195 | A populated record holds the flag, FE FF FF, the type, FE FF FF, and start and size fields that read back as the stored values. |
| Layout.RecordFields | gptsync.c:152-197 | Read back from the sector: a slot no candidate claims is sixteen zero bytes. A populated slot has the flag 0x80 exactly when its candidate is active and no earlier slot took the flag (else 0), the CHS placeholders and its type. Its start and size decode to the values clamped to 0xFFFFFFFF, the size being end + 1 - start in UINT64. |
| Layout.AtMostOneBootFlag | gptsync.c:151-174 | At most one of the four records carries the boot flag 0x80. |
| Scenarios.EspDiskAutoFill | gptsync.c:289-459 | The 2,000,000-sector ESP + NTFS disk with an empty MBR gives [0xEE 1..1000, 0x07 1001..1999966, 0xEE 1999967..1999999, unused] with count 3, and a rewrite is needed. |
| Scenarios.ParseOnePlusAf | gptsync.c:346-380 | "1+af" is partition 1, active, forced type 0xAF. |
| Scenarios.SelectOnePlusAf | gptsync.c:344-394 | Selecting "1+af" from a one-entry GPT gives the single slot (1, 2048..204799, 0xAF, active). |
| Scenarios.ActiveForcedSelection | gptsync.c:289-440 | "1+af" on a one-entry GPT filling the disk gives [0xEE 1..2047, 0xAF 2048..204799 active, unused, unused] with count 2, and no filler. |
| Scenarios.ActiveForcedRecord | gptsync.c:169-195 | The record written for that slot is 80 FE FF FF AF FE FF FF 00 08 00 00 00 18 03 00. |
| Sync.GptSync.constructor | os_unix.c:275-276 | A run starts from the tables as read and the options as parsed, with a zeroed candidate table and sector buffer. |
| Sync.GptSync.CheckGpt | gptsync.c:213-256 | Accepts exactly a valid GPT: non-empty, no inverted range, no two entries overlapping, no FATAL kind, some DATA or BASIC_DATA entry. A refusal names the first failing check in scan order, with every earlier entry sound. |
| Sync.GptSync.CheckMbr | gptsync.c:105-130 | Accepts exactly an MBR whose populated slots contain no 0x05, 0x0F or 0x85. A refusal names the first such slot. |
| Sync.GptSync.Classify | gptsync.c:312-337 | The loop leaves the GPT entries exactly as `Classified` says. |
| Sync.GptSync.AddGptPartitionToMbr | gptsync.c:258-280 | Slot `slot` becomes GPT entry `gi` with the type `ResolvedType` gives, and no other slot changes. |
| Sync.GptSync.ParseArgument | gptsync.c:347-380 | The argument checks before the entry is looked at (number range, second '+', hex type), in the C order, give exactly `ParseToken`'s verdict. |
| Sync.GptSync.AddToken | gptsync.c:346-392 | One argument is either rejected with `SelectToken`'s reason, or its slot is appended and nothing else changes. |
| Sync.GptSync.SelectExplicit | gptsync.c:344-394 | The argument loop succeeds exactly when `SelectFrom` does, and otherwise stops with its reason. On success slots 1.. hold its slots, and slot 0 and the tail are untouched. |
| Sync.GptSync.AutoFillSlots | gptsync.c:395-408 | The auto-fill loop puts exactly `AutoFill`'s slots in slots 1.., and slot 0 and the tail are untouched. |
| Sync.GptSync.Extents | gptsync.c:411-424 | The scan yields the lowest start and highest end of the data slots, or the block count for both when there are none. |
| Sync.GptSync.Compare | gptsync.c:442-454 | A rewrite is flagged exactly when some of the four slots differs from the current one in index, start, end, type or active flag. |
| Sync.GptSync.ComposeData | gptsync.c:344-409 | Slots 1.. end up holding `DataSlots` (none for an empty MBR), or the run stops with its reason. |
| Sync.GptSync.Finish | gptsync.c:411-440 | The candidate becomes `BuildTable` of the data slots. |
| Sync.GptSync.Analyze | gptsync.c:289-459 | The outcome is `AnalyzeOutcome`: stop for no disk size, no GPT entries, a rejected argument, or tables already in sync; otherwise rewrite. The GPT entries end classified, and a complete candidate is `CandidateTable`'s. |
| Sync.GptSync.PutEntry | gptsync.c:159-195 | Sixteen bytes at the offset are replaced, and every other byte of the sector is kept. |
| Sync.GptSync.SlotEntry | gptsync.c:152-197 | The record for slot i is `SlotBytes`. The `active` byte stays 0x80 until a slot takes the flag, and is 0 from then on. |
| Sync.GptSync.WriteMbr | gptsync.c:132-207 | A failed read is returned as is and nothing is written. Otherwise the sector written is `Image` of the sector read and the candidate, and the status is the write's. |
| Sync.GptSync.Run | gptsync.c:484-519 | A failed table read, or any refusal by a check or by `analyze`, gives 1 with nothing written. A failed prompt gives its status, and "no" gives 0, both with nothing written. A failed sector read gives its status. Otherwise `Image` of the sector read and the candidate table is written, and the status is the write's. |

## Left out

- Printing, including the status lines, error messages, the clamp warnings
  and the proposed-table dump at gptsync.c:464-475, is not modelled. The
  type names `mbr_parttype_name` and the GPT type table it reads are not
  part of this model.
- `check_mbr`, refusing at MBR index i, reads `gpt_parts[i].gpt_parttype`
  (gptsync.c:123-124). For i at or beyond the GPT entry count that is not a
  valid entry, which is undefined behaviour in C. The model returns 1 there.
- The commented-out MBR overlap check at gptsync.c:111-119 is not modelled.
- `detect_mbrtype_fs` becomes the parameter `detect`, which returns a byte.
  Its status and file-system name are ignored, as the code ignores them. The
  truncation of its UINTN result to a UINT8 type is not modelled.
- `atoi` is modelled on unbounded integers: optional leading white space and
  sign, then the longest digit prefix. Overflow of an out-of-range numeral
  (undefined in C) is not modelled.
- Arguments are `seq<char>`. A NUL inside an argument cannot occur in C and
  is not treated specially. The argument is not cut in place at the
  separator; the number text is the prefix before it.
- Hex.Xtoi: the length `xtoi` measures with `strlen` is in bytes, while the
  model counts characters. For a type text such as "éa" (three UTF-8 bytes)
  C returns 2 and the model 4. Accept or reject is the same either way,
  because every hex digit is ASCII; only the code reported in `BadHexType`
  differs.
- Sync.GptSync.SelectExplicit: the candidate slots after a rejected argument
  are not specified, because the run stops there and never reads them.
- Sync.GptSync.Analyze: requires the candidate array to be zeroed on entry.
  In C it is static storage and `analyze` runs once per process. It also
  requires at most three arguments, the limit os_unix.c:317 enforces.
- Sync.GptSync.Run: same two requirements as `Analyze`.
- Compose.SecondRunSynchronized: proved only when every GPT entry's type
  descriptor names an MBR type or is BASIC_DATA. Otherwise a type is taken
  from the current MBR, and a data partition starting at LBA 1 would match
  the protective slot on the second run. The second run is also given the
  candidate as composed, not the MBR `read_mbr` would decode from the
  written sector. Start and size are clamped to 0xFFFFFFFF there, so for
  LBAs at or above 2^32 a real second run would see different values.
- Sync.GptSync.WriteMbr: a failed read is modelled as leaving the buffer
  unchanged. A partially filled buffer after a short read is not modelled.
- The 0xAA55 signature and the UINT32 fields are written as a little-endian
  machine stores them. Big-endian hosts are not modelled.
- The platform layer is not part of this model: option parsing, device
  access, `read_gpt`, `read_mbr`, `get_disk_size`, `read_sector`,
  `write_sector` and `input_boolean` in os_unix.c and os_efi.c, and the
  decoding of the on-disk GPT and MBR. Their results and statuses are
  parameters.
