/** Descriptors, completion records, and what one uninterrupted operation does. */
module Operations {
  import opened Memory
  import opened BlockLayout
  import Delta
  import DeltaKernels
  import Dif
  import MemMove
  import RefKernels
  import VectorFill
  import VectorCompare
  import PatternCompare
  import Crc32

  // Execution statuses.
  const PROCESSING: bv8 := 0x00
  const SUCCESS: bv8 := 0x01
  const FALSE_PREDICATE: bv8 := 0x02
  const PAGE_FAULT: bv8 := 0x03
  const BATCH_ERROR: bv8 := 0x05
  const DIF_ERROR: bv8 := 0x09

  datatype Tags = Tags(refTag: bv32, appTag: bv16)

  /** The fields the operations keep in the 32 bytes of a completion record. */
  datatype Record = Record(status: bv8, result: bv8, bytesCompleted: uint32, deltaSize: uint32, crc: bv32,
                           source: Tags, destination: Tags)

  const CLEARED := Record(PROCESSING, 0, 0, 0, 0, Tags(0, 0), Tags(0, 0))

  /** The DIF part of a descriptor: three flag bytes, and tags and mask for each side. */
  datatype DifFields = DifFields(flags: bv8, sourceFlags: bv8, destinationFlags: bv8, source: Dif.Seeds,
                                 destination: Dif.Seeds)

  datatype Descriptor =
    | Nop
    | Drain
    | MemMove(src: nat, dst: nat, size: uint32)
    | Fill(pattern: Word, dst: nat, size: uint32)
    | Compare(src1: nat, src2: nat, size: uint32, expected: bv8, checkResult: bool)
    | ComparePattern(pattern: Word, src: nat, size: uint32, expected: bv8, checkResult: bool)
    | CreateDelta(src1: nat, src2: nat, size: uint32, delta: nat, maxDelta: uint32, expected: bv8, checkResult: bool)
    | ApplyDelta(delta: nat, deltaSize: uint32, dst: nat, size: uint32)
    | Dualcast(src: nat, dst1: nat, dst2: nat, size: uint32)
    | Crc(src: nat, size: uint32, seed: bv32, options: Crc32.Options)
    | CopyCrc(src: nat, dst: nat, size: uint32, seed: bv32, options: Crc32.Options)
    | DifCheck(src: nat, size: uint32, dif: DifFields)
    | DifInsert(src: nat, dst: nat, size: uint32, dif: DifFields)
    | DifStrip(src: nat, dst: nat, size: uint32, dif: DifFields)
    | DifUpdate(src: nat, dst: nat, size: uint32, dif: DifFields)
    | CacheFlush(dst: nat, size: uint32)

  // The job settings the DIF kernels pack: a side an operation does not use is left zero.

  function BlockSize(flags: bv8): Dif.BlockBytes {
    var code := flags & 3;
    if code == 0 then 512 else if code == 1 then 520 else if code == 2 then 4096 else 4104
  }

  function PackedFlags(flags: bv8, sourceFlags: bv8, destinationFlags: bv8): bv32 {
    ((flags as bv32) << 16) | ((destinationFlags as bv32) << 8) | (sourceFlags as bv32)
  }

  const UNUSED := Dif.Seeds(0, 0, 0)

  /** The settings of check and strip. */
  function SourceConfig(dif: DifFields): Dif.Config {
    Dif.Config(BlockSize(dif.flags), PackedFlags(dif.flags, dif.sourceFlags, 0), dif.source, UNUSED)
  }

  function InsertConfig(dif: DifFields): Dif.Config {
    Dif.Config(BlockSize(dif.flags), PackedFlags(dif.flags, 0, dif.destinationFlags), UNUSED, dif.destination)
  }

  function UpdateConfig(dif: DifFields): Dif.Config {
    Dif.Config(BlockSize(dif.flags), PackedFlags(dif.flags, dif.sourceFlags, dif.destinationFlags), dif.source,
               dif.destination)
  }

  // Buffers

  /** The bytes insert writes for size source bytes. */
  function InsertedSize(size: nat, cfg: Dif.Config): nat {
    Offset(Count(size, cfg.blockSize), cfg.Step())
  }

  /** The bytes strip writes for size source bytes. */
  function StrippedSize(size: nat, cfg: Dif.Config): nat {
    Offset(Count(size, cfg.Step()), cfg.blockSize)
  }

  /** Every buffer the operation touches exists, and those it must not confuse are disjoint. */
  predicate Ready(m: seq<Byte>, d: Descriptor) {
    match d
    case Nop => true
    case Drain => true
    case MemMove(src, dst, size) => InBounds(m, src, size) && InBounds(m, dst, size)
    case Fill(_, dst, size) => InBounds(m, dst, size)
    case Compare(src1, src2, size, _, _) => InBounds(m, src1, size) && InBounds(m, src2, size)
    case ComparePattern(_, src, size, _, _) => InBounds(m, src, size)
    case CreateDelta(src1, src2, size, delta, maxDelta, _, _) =>
      && InBounds(m, src1, size) && InBounds(m, src2, size) && InBounds(m, delta, maxDelta)
      && Disjoint(src1, size, delta, maxDelta) && Disjoint(src2, size, delta, maxDelta)
    case ApplyDelta(delta, deltaSize, dst, size) =>
      && InBounds(m, delta, deltaSize) && InBounds(m, dst, size) && Disjoint(delta, deltaSize, dst, size)
      && DeltaKernels.Within(Delta.Decode(Read(m, delta, deltaSize)), size)
    case Dualcast(src, dst1, dst2, size) =>
      && InBounds(m, src, size) && InBounds(m, dst1, size) && InBounds(m, dst2, size)
      && Disjoint(src, size, dst1, size) && Disjoint(src, size, dst2, size) && Disjoint(dst1, size, dst2, size)
    case Crc(src, size, _, _) => InBounds(m, src, size)
    case CopyCrc(src, dst, size, _, _) =>
      InBounds(m, src, size) && InBounds(m, dst, size) && Disjoint(src, size, dst, size)
    case DifCheck(src, size, _) => InBounds(m, src, size)
    case DifInsert(src, dst, size, dif) =>
      var out := InsertedSize(size, InsertConfig(dif));
      InBounds(m, src, size) && InBounds(m, dst, out) && Disjoint(src, size, dst, out)
    case DifStrip(src, dst, size, dif) =>
      var out := StrippedSize(size, SourceConfig(dif));
      InBounds(m, src, size) && InBounds(m, dst, out) && Disjoint(src, size, dst, out)
    case DifUpdate(src, dst, size, dif) =>
      var out := Offset(Count(size, UpdateConfig(dif).Step()), UpdateConfig(dif).Step());
      InBounds(m, src, size) && InBounds(m, dst, out) && Disjoint(src, size, dst, out)
    case CacheFlush(dst, size) => InBounds(m, dst, size)
  }

  // Records

  function PredicateStatus(checkResult: bool, expected: bv8, result: bv8): bv8 {
    if checkResult && expected != result then FALSE_PREDICATE else SUCCESS
  }

  /**
   * Create-delta's predicate: none and all of the three results are their own cases, and otherwise the mask shifted
   * right must equal the result.
   */
  function DeltaStatus(checkResult: bool, expected: bv8, result: bv8): bv8 {
    var mask := expected & 7;
    if !checkResult || mask == 7 || (mask != 0 && mask >> 1 == result) then SUCCESS else FALSE_PREDICATE
  }

  function DifResult(v: Dif.Verdict): bv8 {
    match v
    case Passed => 0
    case Failed(_, faults) => (Dif.FaultBits(faults) & 0xFF) as bv8
  }

  /** The record of a DIF operation that checks its source. */
  function DifRecord(r: Record, v: Dif.Verdict, step: nat, size: uint32): Record
    requires v.Failed? ==> Offset(v.block, step) <= size
  {
    match v
    case Passed => r.(status := SUCCESS, result := 0, bytesCompleted := 0)
    case Failed(k, _) => r.(status := DIF_ERROR, result := DifResult(v), bytesCompleted := Offset(k, step))
  }

  lemma VerdictFits(cfg: Dif.Config, buffer: seq<Byte>)
    ensures var v := Dif.CheckBuffer(cfg, buffer); v.Failed? ==> Offset(v.block, cfg.Step()) <= |buffer|
  {
    var v := Dif.CheckBuffer(cfg, buffer);
    if v.Failed? {
      BlockFits(|buffer|, cfg.Step(), v.block);
    }
  }

  function CheckedRecord(m: seq<Byte>, src: nat, size: uint32, cfg: Dif.Config, r: Record): Record
    requires InBounds(m, src, size)
  {
    VerdictFits(cfg, Read(m, src, size));
    DifRecord(r, Dif.CheckBuffer(cfg, Read(m, src, size)), cfg.Step(), size)
  }

  // Execution

  datatype Outcome = Outcome(memory: seq<Byte>, record: Record)

  function Succeeded(m: seq<Byte>, r: Record): Outcome {
    Outcome(m, r.(status := SUCCESS))
  }

  function Compares(r: Record, c: VectorCompare.Comparison, expected: bv8, checkResult: bool): Record {
    r.(bytesCompleted := c.position, result := c.result, status := PredicateStatus(checkResult, expected, c.result))
  }

  function ExecuteCreateDelta(m: seq<Byte>, d: Descriptor, r: Record): Outcome
    requires d.CreateDelta? && Ready(m, d)
  {
    var notes := DeltaKernels.Difference(m, d.src1, d.src2, d.size);
    var kept := Delta.Kept(notes, d.maxDelta);
    var result := Delta.CreateResult(notes, d.maxDelta);
    Delta.EncodeSize(kept);
    Outcome(Write(m, d.delta, Delta.Encode(kept)),
            r.(deltaSize := Delta.NOTE_SIZE * |kept|, result := result,
               status := DeltaStatus(d.checkResult, d.expected, result)))
  }

  function ExecuteDifInsert(m: seq<Byte>, d: Descriptor, r: Record): Outcome
    requires d.DifInsert? && Ready(m, d)
  {
    var cfg := InsertConfig(d.dif);
    Dif.InsertSize(cfg, Read(m, d.src, d.size));
    Outcome(Write(m, d.dst, Dif.InsertBuffer(cfg, Read(m, d.src, d.size))), r.(status := SUCCESS, bytesCompleted := 0))
  }

  function ExecuteDifStrip(m: seq<Byte>, d: Descriptor, r: Record): Outcome
    requires d.DifStrip? && Ready(m, d)
  {
    var cfg, source := SourceConfig(d.dif), Read(m, d.src, d.size);
    Dif.StripSize(cfg, source);
    Outcome(if Dif.CheckBuffer(cfg, source).Passed? then Write(m, d.dst, Dif.StripBuffer(cfg, source)) else m,
            CheckedRecord(m, d.src, d.size, cfg, r))
  }

  function ExecuteDifUpdate(m: seq<Byte>, d: Descriptor, r: Record): Outcome
    requires d.DifUpdate? && Ready(m, d)
  {
    var cfg, source := UpdateConfig(d.dif), Read(m, d.src, d.size);
    Dif.UpdateSize(cfg, source);
    Outcome(if Dif.CheckBuffer(cfg, source).Passed? then Write(m, d.dst, Dif.UpdateBuffer(cfg, source)) else m,
            CheckedRecord(m, d.src, d.size, cfg, r))
  }

  /** Memory and record after the software kernel has run on them; fields it does not write stay. */
  function Execute(m: seq<Byte>, d: Descriptor, r: Record): Outcome
    requires Ready(m, d)
  {
    match d
    case Nop => Succeeded(m, r)
    case Drain => Succeeded(m, r)
    case MemMove(src, dst, size) => Succeeded(MemMove.Moved(m, src, dst, size), r)
    case Fill(pattern, dst, size) => Succeeded(Write(m, dst, VectorFill.Filled(pattern, size)), r)
    case Compare(src1, src2, size, expected, checkResult) =>
      Outcome(m, Compares(r, VectorCompare.Compared(Read(m, src1, size), Read(m, src2, size)), expected, checkResult))
    case ComparePattern(pattern, src, size, expected, checkResult) =>
      Outcome(m, Compares(r, PatternCompare.PatternCompared(pattern, Read(m, src, size)), expected, checkResult))
    case CreateDelta(_, _, _, _, _, _, _) => ExecuteCreateDelta(m, d, r)
    case ApplyDelta(delta, deltaSize, dst, size) =>
      Succeeded(DeltaKernels.Applied(m, dst, Delta.Decode(Read(m, delta, deltaSize)), size), r)
    case Dualcast(src, dst1, dst2, size) => Succeeded(RefKernels.Dualcasted(m, src, dst1, dst2, size), r)
    case Crc(src, size, seed, options) =>
      Succeeded(m, r.(crc := Crc32.Checksum(Read(m, src, size), seed, options, Crc32.CRC_32C)))
    case CopyCrc(src, dst, size, seed, options) =>
      Succeeded(MemMove.Moved(m, src, dst, size),
                r.(crc := Crc32.Checksum(Read(m, src, size), seed, options, Crc32.CRC_32C)))
    case DifCheck(src, size, dif) => Outcome(m, CheckedRecord(m, src, size, SourceConfig(dif), r))
    case DifInsert(_, _, _, _) => ExecuteDifInsert(m, d, r)
    case DifStrip(_, _, _, _) => ExecuteDifStrip(m, d, r)
    case DifUpdate(_, _, _, _) => ExecuteDifUpdate(m, d, r)
    case CacheFlush(_, _) => Succeeded(m, r)
  }
}
