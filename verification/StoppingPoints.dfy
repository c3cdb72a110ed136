/** Where the accelerator can stop: the points at which an interruption exists. */
module StoppingPoints {
  import opened Memory
  import opened BlockLayout
  import opened Operations
  import opened Continuation
  import ContinuationDif
  import ContinuationFailing
  import Delta
  import DeltaKernels
  import Dif
  import MemMoveKernel = MemMove
  import RefKernels
  import VectorFill
  import Crc32

  /** The accelerator can have done q bytes of the operation, and no more, when it faults. */
  ghost predicate StoppingPoint(m: seq<Byte>, d: Descriptor, q: uint32)
    requires Ready(m, d)
  {
    match d
    case Nop => true
    case Drain => true
    case MemMove(_, _, size) => q <= size
    case Fill(_, _, size) => q <= size && q % 8 == 0
    case Compare(src1, src2, size, _, _) => q <= size && Read(m, src1, q) == Read(m, src2, q)
    case ComparePattern(pattern, src, size, _, _) =>
      q <= size && q % 8 == 0 && Read(m, src, q) == VectorFill.Filled(pattern, q)
    case CreateDelta(src1, src2, size, _, maxDelta, _, _) =>
      q <= size && q % 8 == 0 && Delta.NOTE_SIZE * |DeltaKernels.Difference(m, src1, src2, q)| <= maxDelta
    case ApplyDelta(_, deltaSize, _, _) => q <= deltaSize && q % Delta.NOTE_SIZE == 0
    case Dualcast(_, _, _, size) => q <= size
    case Crc(_, size, _, _) => q <= size
    case CopyCrc(_, _, size, _, _) => q <= size
    case DifCheck(src, size, dif) => BlocksPass(m, src, size, SourceConfig(dif), q)
    case DifInsert(_, _, size, dif) => q <= size && q % InsertConfig(dif).blockSize == 0
    case DifStrip(src, _, size, dif) => BlocksPass(m, src, size, SourceConfig(dif), q)
    case DifUpdate(src, _, size, dif) => BlocksPass(m, src, size, UpdateConfig(dif), q)
    case CacheFlush(_, size) => q <= size
  }

  /** The first q bytes of a DIF source are whole blocks that pass. */
  predicate BlocksPass(m: seq<Byte>, src: nat, size: nat, cfg: Dif.Config, q: nat)
    requires InBounds(m, src, size)
  {
    q <= size && q % cfg.Step() == 0 && Dif.CheckBuffer(cfg, Read(m, src, q)).Passed?
  }

  /** Whole blocks inside a buffer, by bytes and by number. */
  lemma WholeBlocks(q: nat, size: nat, step: nat)
    requires 0 < step
    ensures q <= size && q % step == 0 <==> Count(q, step) <= Count(size, step) && q == Offset(Count(q, step), step)
  {
    var n, k := Count(size, step), Count(q, step);
    CountSpan(q, step);
    CountSpan(size, step);
    hide Offset, Count;
    if k <= n {
      OffsetMonotone(k, n, step);
    } else {
      OffsetBefore(n, k, step);
      assert size % step < step;
    }
  }

  lemma FirstBlocks(m: seq<Byte>, src: nat, size: nat, step: nat, q: nat)
    requires InBounds(m, src, size) && 0 < step && q <= size && q % step == 0
    ensures Count(q, step) <= Count(size, step)
    ensures Blocks(Read(m, src, q), step) == Blocks(Read(m, src, size), step)[..Count(q, step)]
  {
    WholeBlocks(q, size, step);
    hide Offset, Count, Blocks;
    SliceOfRead(m, src, size, 0, q);
    BlocksBefore(Read(m, src, size), step, Count(q, step));
  }

  lemma BlocksPassIff(m: seq<Byte>, src: nat, size: nat, cfg: Dif.Config, r: Record)
    requires InBounds(m, src, size)
    ensures var k := Count(r.bytesCompleted, cfg.Step());
            SourceBlocksDone(m, src, size, cfg, r, k) <==>
            BlocksPass(m, src, size, cfg, r.bytesCompleted) && r.source == SourceTags(cfg, k)
  {
    var q := r.bytesCompleted;
    WholeBlocks(q, size, cfg.Step());
    if q <= size && q % cfg.Step() == 0 {
      FirstBlocks(m, src, size, cfg.Step(), q);
    }
    hide Offset, Count, Blocks, Dif.Check, SourceTags;
  }

  /** Output blocks up to any one of them can have been written. */
  lemma SomeWritten(m: seq<Byte>, dst: nat, out: seq<seq<Byte>>, step: nat, n: nat) returns (m1: seq<Byte>)
    requires n <= |out| && Uniform(out, step) && InBounds(m, dst, Offset(|out|, step))
    ensures PartlyWritten(m, dst, out, n, m1)
  {
    JoinLength(out[..n], step);
    OffsetMonotone(n, |out|, step);
    hide Offset, Join, Write;
    m1 := Write(m, dst, Join(out[..n]));
  }

  // Interruptions

  lemma DifInterruption(m: seq<Byte>, d: Descriptor, q: uint32) returns (m1: seq<Byte>, r: Record)
    requires (d.DifCheck? || d.DifInsert? || d.DifStrip? || d.DifUpdate?) && Ready(m, d) && StoppingPoint(m, d, q)
    ensures r.bytesCompleted == q && Interrupted(m, d, m1, r)
  {
    hide Dif.Check, Dif.CheckBuffer, Dif.Insert, Dif.Strip, Dif.Update, Blocks, Read, Write, PackedFlags, BlockSize;
    hide Offset, Count, Join, SourceTags, DestinationTags, SourceBlocksDone, PartlyWritten;
    r := CLEARED.(status := PAGE_FAULT, bytesCompleted := q);
    match d
    case DifCheck(src, size, dif) =>
      var cfg := SourceConfig(dif);
      m1, r := m, r.(source := SourceTags(cfg, Count(q, cfg.Step())));
      BlocksPassIff(m, src, size, cfg, r);
    case DifInsert(_, dst, size, dif) =>
      var cfg := InsertConfig(dif);
      WholeBlocks(q, size, cfg.blockSize);
      r := r.(destination := DestinationTags(cfg, Count(q, cfg.blockSize)));
      m1 := SomeWritten(m, dst, ContinuationDif.InsertOut(m, d), cfg.Step(), Count(q, cfg.blockSize));
    case DifStrip(src, dst, size, dif) =>
      var cfg := SourceConfig(dif);
      WholeBlocks(q, size, cfg.Step());
      r := r.(source := SourceTags(cfg, Count(q, cfg.Step())));
      BlocksPassIff(m, src, size, cfg, r);
      m1 := SomeWritten(m, dst, ContinuationDif.StripOut(m, d), cfg.blockSize, Count(q, cfg.Step()));
    case DifUpdate(src, dst, size, dif) =>
      var cfg := UpdateConfig(dif);
      WholeBlocks(q, size, cfg.Step());
      r := r.(source := SourceTags(cfg, Count(q, cfg.Step())),
              destination := DestinationTags(cfg, Count(q, cfg.Step())));
      BlocksPassIff(m, src, size, cfg, r);
      m1 := SomeWritten(m, dst, ContinuationFailing.UpdateOut(m, d), cfg.Step(), Count(q, cfg.Step()));
  }

  /** At every stopping point there is an interruption: a memory and a record that claims exactly those bytes. */
  lemma InterruptionAt(m: seq<Byte>, d: Descriptor, q: uint32) returns (m1: seq<Byte>, r: Record)
    requires Ready(m, d) && StoppingPoint(m, d, q)
    ensures r.bytesCompleted == q && Interrupted(m, d, m1, r)
  {
    hide MemMoveKernel.Moved, VectorFill.Filled, DeltaKernels.Difference, DeltaKernels.Applied, Delta.Encode,
         Delta.DecodeNote, RefKernels.Dualcasted, Crc32.Checksum, Write, Dif.Check, Dif.CheckBuffer, Dif.Insert,
         Dif.Strip, Dif.Update, SourceBlocksDone, PartlyWritten, BlocksPass, Offset;
    m1, r := m, CLEARED.(status := PAGE_FAULT, bytesCompleted := q);
    match d
    case MemMove(src, dst, size) =>
      if ForwardSafe(src, dst, size) {
        m1 := MemMoveKernel.Moved(m, src, dst, q);
      } else {
        m1, r := MemMoveKernel.Moved(m, src + size - q, dst + size - q, q), r.(result := 1);
      }
    case Fill(pattern, dst, _) => m1 := Write(m, dst, VectorFill.Filled(pattern, q));
    case CreateDelta(src1, src2, _, delta, _, _, _) =>
      var front := DeltaKernels.Difference(m, src1, src2, q);
      Delta.EncodeSize(front);
      m1, r := Write(m, delta, Delta.Encode(front)), r.(deltaSize := Delta.NOTE_SIZE * |front|);
    case ApplyDelta(delta, deltaSize, dst, size) =>
      m1 := DeltaKernels.Applied(m, dst, Delta.Decode(Read(m, delta, deltaSize))[..q / Delta.NOTE_SIZE], size);
    case Dualcast(src, dst1, dst2, _) => m1 := RefKernels.Dualcasted(m, src, dst1, dst2, q);
    case Crc(src, _, seed, options) => r := r.(crc := Crc32.Checksum(Read(m, src, q), seed, options, Crc32.CRC_32C));
    case CopyCrc(src, dst, _, seed, options) =>
      m1 := MemMoveKernel.Moved(m, src, dst, q);
      r := r.(crc := Crc32.Checksum(Read(m, src, q), seed, options, Crc32.CRC_32C));
    case DifCheck(_, _, _) => m1, r := DifInterruption(m, d, q);
    case DifInsert(_, _, _, _) => m1, r := DifInterruption(m, d, q);
    case DifStrip(_, _, _, _) => m1, r := DifInterruption(m, d, q);
    case DifUpdate(_, _, _, _) => m1, r := DifInterruption(m, d, q);
    case _ =>
  }

  lemma InterruptedAtPoint(m: seq<Byte>, d: Descriptor, m1: seq<Byte>, r: Record)
    requires Ready(m, d) && Interrupted(m, d, m1, r)
    ensures StoppingPoint(m, d, r.bytesCompleted)
  {
    hide Dif.Check, Dif.CheckBuffer, Dif.Insert, Dif.Strip, Dif.Update, Blocks, Write, PackedFlags, BlockSize;
    hide Offset, Count, Join, SourceTags, DestinationTags, SourceBlocksDone, PartlyWritten, BlocksPass;
    match d
    case DifCheck(src, size, dif) => BlocksPassIff(m, src, size, SourceConfig(dif), r);
    case DifInsert(_, _, size, dif) => WholeBlocks(r.bytesCompleted, size, InsertConfig(dif).blockSize);
    case DifStrip(src, _, size, dif) => BlocksPassIff(m, src, size, SourceConfig(dif), r);
    case DifUpdate(src, _, size, dif) => BlocksPassIff(m, src, size, UpdateConfig(dif), r);
    case _ =>
  }

  /** An interruption that claims q bytes exists exactly when q is a stopping point. */
  lemma InterruptionExists(m: seq<Byte>, d: Descriptor, q: uint32)
    requires Ready(m, d)
    ensures StoppingPoint(m, d, q) <==> exists m1, r :: Interrupted(m, d, m1, r) && r.bytesCompleted == q
  {
    hide Interrupted, StoppingPoint;
    if StoppingPoint(m, d, q) {
      var m1, r := InterruptionAt(m, d, q);
      assert Interrupted(m, d, m1, r);
    }
    forall m1, r | Interrupted(m, d, m1, r) && r.bytesCompleted == q
      ensures StoppingPoint(m, d, q)
    {
      InterruptedAtPoint(m, d, m1, r);
    }
  }
}
