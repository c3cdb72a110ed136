/** Finishing in software what the accelerator left unfinished on a page fault. */
module Continuation {
  import opened Memory
  import opened BlockLayout
  import opened Operations
  import Results
  import Delta
  import DeltaKernels
  import Dif
  import MemMoveKernel = MemMove
  import RefKernels
  import VectorFill
  import Crc32

  // Rewriting the descriptor

  function WithTags(s: Dif.Seeds, t: Tags): Dif.Seeds {
    s.(refTag := t.refTag, appTag := t.appTag)
  }

  /** update_for_continuation: the descriptor of the part the record does not claim. */
  function Continued(d: Descriptor, r: Record): Descriptor {
    var q := r.bytesCompleted;
    match d
    case Nop => d
    case Drain => d
    case MemMove(src, dst, size) =>
      if r.result == 0 then MemMove(src + q, dst + q, Sub32(size, q)) else MemMove(src, dst, Sub32(size, q))
    case Fill(pattern, dst, size) => Fill(pattern, dst + q, Sub32(size, q))
    case Compare(src1, src2, size, expected, checkResult) =>
      Compare(src1 + q, src2 + q, Sub32(size, q), expected, checkResult)
    case ComparePattern(pattern, src, size, expected, checkResult) =>
      ComparePattern(pattern, src + q, Sub32(size, q), expected, checkResult)
    case CreateDelta(src1, src2, size, delta, maxDelta, expected, checkResult) =>
      CreateDelta(src1 + q, src2 + q, Sub32(size, q), delta + r.deltaSize, Sub32(maxDelta, r.deltaSize), expected,
                  checkResult)
    case ApplyDelta(delta, deltaSize, dst, size) => ApplyDelta(delta + q, Sub32(deltaSize, q), dst, size)
    case Dualcast(src, dst1, dst2, size) => Dualcast(src + q, dst1 + q, dst2 + q, Sub32(size, q))
    case Crc(src, size, _, options) => Crc(src + q, Sub32(size, q), r.crc, options)
    case CopyCrc(src, dst, size, _, options) => CopyCrc(src + q, dst + q, Sub32(size, q), r.crc, options)
    case DifCheck(src, size, dif) => DifCheck(src + q, Sub32(size, q), dif.(source := WithTags(dif.source, r.source)))
    case DifInsert(src, dst, size, dif) =>
      DifInsert(src + q, dst + q, Sub32(size, q), dif.(destination := WithTags(dif.destination, r.destination)))
    case DifStrip(src, dst, size, dif) =>
      DifStrip(src + q, dst + q, Sub32(size, q), dif.(source := WithTags(dif.source, r.source)))
    case DifUpdate(src, dst, size, dif) =>
      DifUpdate(src + q, dst + q, Sub32(size, q),
                dif.(source := WithTags(dif.source, r.source), destination := WithTags(dif.destination, r.destination)))
    case CacheFlush(dst, size) => CacheFlush(dst + q, Sub32(size, q))
  }

  // Merging the records

  function AccumulatedRecord(d: Descriptor, r: Record, previous: Record): Record {
    match d
    case Nop => r
    case Drain => r
    case Compare(_, _, _, _, _) => r.(bytesCompleted := previous.bytesCompleted)
    case CreateDelta(_, _, _, _, _, _, _) =>
      r.(bytesCompleted := Add32(r.bytesCompleted, previous.bytesCompleted),
         deltaSize := Add32(r.deltaSize, previous.deltaSize))
    case _ => r.(bytesCompleted := Add32(r.bytesCompleted, previous.bytesCompleted))
  }

  /** A delta record of whole notes with every offset moved by blocks words. */
  function Rebased(m: seq<Byte>, delta: nat, deltaSize: nat, blocks: nat): (r: seq<Byte>)
    requires InBounds(m, delta, deltaSize) && deltaSize % Delta.NOTE_SIZE == 0
    ensures |r| == |m|
  {
    var moved := Delta.Shifted(Delta.Decode(Read(m, delta, deltaSize)), blocks);
    Delta.EncodeSize(moved);
    Write(m, delta, Delta.Encode(moved))
  }

  predicate RecordInBounds(m: seq<Byte>, d: Descriptor, r: Record) {
    d.CreateDelta? ==> InBounds(m, d.delta, r.deltaSize) && r.deltaSize % Delta.NOTE_SIZE == 0
  }

  /** accumulate_records: only create-delta touches memory, where it moves the notes of the second part. */
  function Accumulated(m: seq<Byte>, d: Descriptor, r: Record, previous: Record): Outcome
    requires RecordInBounds(m, d, r)
  {
    Outcome(if d.CreateDelta? then Rebased(m, d.delta, r.deltaSize, previous.bytesCompleted / 8) else m,
            AccumulatedRecord(d, r, previous))
  }

  lemma ExecutedRecordInBounds(m: seq<Byte>, d: Descriptor, r: Record)
    requires Ready(m, d)
    ensures |Execute(m, d, r).memory| == |m| && RecordInBounds(Execute(m, d, r).memory, d, Execute(m, d, r).record)
  {
    hide Delta.Encode, DeltaKernels.Difference, Dif.InsertBuffer, Dif.StripBuffer, Dif.UpdateBuffer, Dif.CheckBuffer;
  }

  /** The whole continuation: rewrite, run the rest in software, merge. */
  function Resumed(m: seq<Byte>, d: Descriptor, r: Record): Outcome
    requires Ready(m, Continued(d, r))
  {
    var rest := Continued(d, r);
    var o := Execute(m, rest, r);
    ExecutedRecordInBounds(m, rest, r);
    Accumulated(o.memory, rest, o.record, r)
  }

  // What the accelerator may leave behind

  predicate IsPageFault(status: bv8) {
    status & 0x7F == PAGE_FAULT
  }

  /** A page fault on a read or on a write. */
  lemma PageFaultMeans(status: bv8)
    ensures IsPageFault(status) <==> status == 0x03 || status == 0x83
  {
  }

  /** The first q blocks of a DIF source are done: they passed, and the record holds the tags of block q. */
  ghost predicate SourceBlocksDone(m: seq<Byte>, src: nat, size: nat, cfg: Dif.Config, r: Record, q: nat)
    requires InBounds(m, src, size)
  {
    && q <= Count(size, cfg.Step())
    && r.bytesCompleted == Offset(q, cfg.Step())
    && Dif.Check(cfg, Blocks(Read(m, src, size), cfg.Step())[..q]).Passed?
    && r.source == SourceTags(cfg, q)
  }

  function SourceTags(cfg: Dif.Config, q: nat): Tags {
    Tags(Dif.RefTagAt(cfg.source.refTag, Dif.Has(cfg.flags, Dif.SRC_FIX_REF_TAG), q),
         Dif.AppTagAt(cfg.source.appTag, Dif.Has(cfg.flags, Dif.SRC_INC_APP_TAG), q))
  }

  function DestinationTags(cfg: Dif.Config, q: nat): Tags {
    Tags(Dif.RefTagAt(cfg.destination.refTag, Dif.Has(cfg.flags, Dif.DST_FIX_REF_TAG), q),
         Dif.AppTagAt(cfg.destination.appTag, Dif.Has(cfg.flags, Dif.DST_INC_APP_TAG), q))
  }

  /** A forward copy of the buffers, or of a prefix of them, never reads a byte it has written. */
  predicate ForwardSafe(src: nat, dst: nat, size: nat) {
    dst <= src || Disjoint(src, size, dst, size)
  }

  predicate BackwardSafe(src: nat, dst: nat, size: nat) {
    src <= dst || Disjoint(src, size, dst, size)
  }

  /**
   * The accelerator stopped on a page fault: from memory m0 it has done the part of the operation the record claims,
   * and nothing else. A move has done a suffix when the result is not zero, and a prefix otherwise.
   */
  ghost predicate Interrupted(m0: seq<Byte>, d: Descriptor, m1: seq<Byte>, r: Record)
    requires Ready(m0, d)
  {
    var q := r.bytesCompleted;
    && IsPageFault(r.status)
    && match d
       case Nop => m1 == m0
       case Drain => m1 == m0
       case MemMove(src, dst, size) =>
         && q <= size
         && (if r.result == 0 then ForwardSafe(src, dst, size) && m1 == MemMoveKernel.Moved(m0, src, dst, q)
             else BackwardSafe(src, dst, size) && m1 == MemMoveKernel.Moved(m0, src + size - q, dst + size - q, q))
       case Fill(pattern, dst, size) => q <= size && q % 8 == 0 && m1 == Write(m0, dst, VectorFill.Filled(pattern, q))
       case Compare(src1, src2, size, _, _) => q <= size && m1 == m0 && Read(m0, src1, q) == Read(m0, src2, q)
       case ComparePattern(pattern, src, size, _, _) =>
         q <= size && q % 8 == 0 && m1 == m0 && Read(m0, src, q) == VectorFill.Filled(pattern, q)
       case CreateDelta(src1, src2, size, delta, maxDelta, _, _) =>
         && q <= size && q % 8 == 0
         && var front := DeltaKernels.Difference(m0, src1, src2, q);
            && r.deltaSize == Delta.NOTE_SIZE * |front| == |Delta.Encode(front)| <= maxDelta
            && m1 == Write(m0, delta, Delta.Encode(front))
       case ApplyDelta(delta, deltaSize, dst, size) =>
         && q <= deltaSize && q % Delta.NOTE_SIZE == 0
         && m1 == DeltaKernels.Applied(m0, dst, Delta.Decode(Read(m0, delta, deltaSize))[..q / Delta.NOTE_SIZE], size)
       case Dualcast(src, dst1, dst2, size) => q <= size && m1 == RefKernels.Dualcasted(m0, src, dst1, dst2, q)
       case Crc(src, size, seed, options) =>
         q <= size && m1 == m0 && r.crc == Crc32.Checksum(Read(m0, src, q), seed, options, Crc32.CRC_32C)
       case CopyCrc(src, dst, size, seed, options) =>
         && q <= size && m1 == MemMoveKernel.Moved(m0, src, dst, q)
         && r.crc == Crc32.Checksum(Read(m0, src, q), seed, options, Crc32.CRC_32C)
       case DifCheck(src, size, dif) =>
         m1 == m0 && SourceBlocksDone(m0, src, size, SourceConfig(dif), r, Count(q, SourceConfig(dif).Step()))
       case DifInsert(src, dst, size, dif) =>
         var cfg := InsertConfig(dif);
         var n := Count(q, cfg.blockSize);
         && n <= Count(size, cfg.blockSize) && q == Offset(n, cfg.blockSize)
         && r.destination == DestinationTags(cfg, n)
         && PartlyWritten(m0, dst, Dif.Insert(cfg, Blocks(Read(m0, src, size), cfg.blockSize)), n, m1)
       case DifStrip(src, dst, size, dif) =>
         var cfg := SourceConfig(dif);
         var n := Count(q, cfg.Step());
         && SourceBlocksDone(m0, src, size, cfg, r, n)
         && PartlyWritten(m0, dst, Dif.Strip(cfg, Blocks(Read(m0, src, size), cfg.Step())), n, m1)
       case DifUpdate(src, dst, size, dif) =>
         var cfg := UpdateConfig(dif);
         var n := Count(q, cfg.Step());
         && SourceBlocksDone(m0, src, size, cfg, r, n)
         && r.destination == DestinationTags(cfg, n)
         && PartlyWritten(m0, dst, Dif.Update(cfg, Blocks(Read(m0, src, size), cfg.Step())), n, m1)
       case CacheFlush(_, size) => q <= size && m1 == m0
  }

  /** The first n of the output blocks have been written. */
  ghost predicate PartlyWritten(m0: seq<Byte>, dst: nat, out: seq<seq<Byte>>, n: nat, m1: seq<Byte>) {
    n <= |out| && InBounds(m0, dst, |Join(out[..n])|) && m1 == Write(m0, dst, Join(out[..n]))
  }

  // What a caller learns from a record

  /** The fields of a record that answer the operation; the others are zero here. */
  datatype Answer = Answer(status: bv8, result: bv8, position: uint32, deltaSize: uint32, crc: bv32)

  function AnswerOf(d: Descriptor, r: Record): Answer {
    match d
    case Compare(_, _, _, _, _) => Answer(r.status, r.result, 0, 0, 0)
    case ComparePattern(_, _, _, _, _) =>
      Answer(r.status, r.result, if r.result == Results.EQUAL then 0 else r.bytesCompleted, 0, 0)
    case CreateDelta(_, _, _, _, _, _, _) => Answer(r.status, r.result, 0, r.deltaSize, 0)
    case Crc(_, _, _, _) => Answer(r.status, 0, 0, 0, r.crc)
    case CopyCrc(_, _, _, _, _) => Answer(r.status, 0, 0, 0, r.crc)
    case DifCheck(_, _, _) => Answer(r.status, r.result, if r.status == DIF_ERROR then r.bytesCompleted else 0, 0, 0)
    case DifStrip(_, _, _, _) => Answer(r.status, r.result, if r.status == DIF_ERROR then r.bytesCompleted else 0, 0, 0)
    case DifUpdate(_, _, _, _) =>
      Answer(r.status, r.result, if r.status == DIF_ERROR then r.bytesCompleted else 0, 0, 0)
    case _ => Answer(r.status, 0, 0, 0, 0)
  }
}
