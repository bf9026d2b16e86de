/** The consistency checks run on both tables before anything is composed:
    `check_gpt` and `check_mbr`, as predicates over the tables they read. */
module Validate {
  import opened Types

  /** The closed ranges of two GPT entries intersect (the negation of the
      "disjoint" test `check_gpt` writes out). */
  predicate Overlap(a: GptPart, b: GptPart) {
    !(a.startLba > b.endLba || b.startLba > a.endLba)
  }

  predicate IsDataKind(k: GptKind) {
    k == Data || k == BasicData
  }

  /** A GPT the synchronisation accepts: at least one entry, no inverted
      range, no two distinct entries overlapping, no entry of a FATAL kind
      and at least one DATA or BASIC_DATA entry. */
  predicate GptTableValid(parts: seq<GptPart>) {
    && |parts| > 0
    && (forall i :: 0 <= i < |parts| ==> parts[i].startLba <= parts[i].endLba)
    && (forall i, k :: 0 <= i < |parts| && 0 <= k < |parts| && i != k ==> !Overlap(parts[i], parts[k]))
    && (forall i :: 0 <= i < |parts| ==> parts[i].partType.kind != Fatal)
    && (exists i :: 0 <= i < |parts| && IsDataKind(parts[i].partType.kind))
  }

  /** The legacy extended-partition type codes. */
  predicate IsExtendedType(t: byte) {
    t == TYPE_EXTENDED || t == TYPE_EXTENDED_LBA || t == TYPE_LINUX_EXTENDED
  }

  /** Some of the first `count` current MBR entries is an extended partition. */
  predicate HasExtended(cur: seq<MbrPart>, count: nat)
    requires count <= |cur|
  {
    exists i :: 0 <= i < count && IsExtendedType(cur[i].mbrType)
  }

  /** Why `check_gpt` stops the run (each case prints its own status line). */
  datatype GptVerdict =
    | GptOk
    | NoPartitions
    | Inverted(i: nat)
    | Overlapping(i: nat, k: nat)
    | FatalKind(i: nat)
    | NoDataPartitions

  /** Why `check_mbr` stops the run. */
  datatype MbrVerdict = MbrOk | ExtendedFound(i: nat)
}
