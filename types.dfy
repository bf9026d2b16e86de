/** Shared vocabulary of the gptsync model: fixed-width integers, result
    wrappers and the partition records that the synchronisation logic reads
    and writes. */
module Types {

  /** UINT8 */
  type byte = x: int | 0 <= x < 0x100
  /** UINT32, the width of the LBA and size fields of an on-disk MBR record */
  type u32 = x: int | 0 <= x < 0x1_0000_0000
  /** UINT64, the width of LBAs in memory */
  type u64 = x: int | 0 <= x < 0x1_0000_0000_0000_0000

  const MAX_U32: u32 := 0xFFFF_FFFF

  /** Unsigned 64-bit wrap-around, as C performs it on UINT64 arithmetic. */
  function Wrap64(x: int): (r: u64)
    ensures 0 <= x < 0x1_0000_0000_0000_0000 ==> r == x
    ensures x < 0 && -0x1_0000_0000_0000_0000 <= x ==> r == x + 0x1_0000_0000_0000_0000
  {
    x % 0x1_0000_0000_0000_0000
  }

  datatype Option<+T> = None | Some(value: T)

  datatype Result<+T, +E> = Ok(value: T) | Err(error: E)

  /** The kind of a GPT partition type, as the GPT type table classifies it. */
  datatype GptKind = Fatal | Data | BasicData | Other

  /** A GPT partition type descriptor: its kind and the MBR type byte it
      suggests (0 when the table has none). */
  datatype GptPartType = GptPartType(kind: GptKind, mbrType: byte)

  /** One GPT entry. `mbrType` is the MBR type the classification settles on
      (0 = undetermined). */
  datatype GptPart = GptPart(startLba: u64, endLba: u64, partType: GptPartType, mbrType: byte)

  /** One MBR slot, in memory, before the 32-bit clamp of the on-disk form. */
  datatype MbrPart = MbrPart(index: nat, startLba: u64, endLba: u64, mbrType: byte, active: bool)

  /** The value of a slot nobody wrote: the zero-initialised static record. */
  const Unused := MbrPart(0, 0, 0, 0, false)

  /** The value of a freshly started run's candidate array, and of an MBR with no
      partitions: four zeroed records. */
  function ZeroTable(): (z: seq<MbrPart>)
    ensures |z| == 4 && forall k :: 0 <= k < 4 ==> z[k] == Unused
  {
    [Unused, Unused, Unused, Unused]
  }

  /** MBR type bytes the synchronisation logic names. */
  const TYPE_FAT12: byte := 0x01
  const TYPE_EXTENDED: byte := 0x05
  const TYPE_FAT32: byte := 0x0B
  const TYPE_FAT32_LBA: byte := 0x0C
  const TYPE_FAT16_LBA: byte := 0x0E
  const TYPE_EXTENDED_LBA: byte := 0x0F
  const TYPE_LINUX: byte := 0x83
  const TYPE_LINUX_EXTENDED: byte := 0x85
  const TYPE_UNUSED_FALLBACK: byte := 0xC0
  const TYPE_PROTECTIVE: byte := 0xEE
  const TYPE_ESP: byte := 0xEF
}
