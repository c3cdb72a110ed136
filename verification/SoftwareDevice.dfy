/** The software device: each operation carried out by its kernel. */
module SoftwareDevice {
  import opened Memory
  import opened BlockLayout
  import opened Operations
  import Delta
  import DeltaKernels
  import Dif
  import DifEngine
  import MemMoveKernel = MemMove
  import RefKernels
  import VectorFill
  import VectorCompare
  import PatternCompare
  import Crc32

  /** The processor the dispatcher found: which kernels it has, and how it shifts by the width of a register. */
  datatype Processor = Processor(avx512: bool, countModulo64: bool)

  /** The vector compare ends, and touches only memory that exists. */
  predicate CompareEnds(m: seq<Byte>, cpu: Processor, d: Descriptor)
    requires Ready(m, d)
  {
    d.Compare? && cpu.avx512 ==>
      && InBounds(m, d.src1, VectorCompare.Touched(d.size)) && InBounds(m, d.src2, VectorCompare.Touched(d.size))
      && (d.size < VectorCompare.COMPARE_LIMIT || Read(m, d.src1, TWO_TO_THE_32) != Read(m, d.src2, TWO_TO_THE_32))
  }

  /** The bytes of each source the processor's compare goes over. */
  function ComparedBytes(cpu: Processor, d: Descriptor): nat
    requires d.Compare?
  {
    if cpu.avx512 then VectorCompare.Touched(d.size) else d.size
  }

  /** The vector compare ends with the right answer, and touches only memory that exists. */
  predicate CompareAnswers(m: seq<Byte>, cpu: Processor, d: Descriptor)
    requires Ready(m, d)
  {
    d.Compare? && cpu.avx512 ==>
      && InBounds(m, d.src1, VectorCompare.Touched(d.size)) && InBounds(m, d.src2, VectorCompare.Touched(d.size))
      && (d.size < VectorCompare.COMPARE_LIMIT || Read(m, d.src1, d.size) != Read(m, d.src2, d.size))
  }

  /** The record is that of the bytes the processor's compare goes over, and the right one when that is the same. */
  method RunCompare(mem: array<Byte>, d: Descriptor, r: Record, cpu: Processor) returns (r': Record)
    requires d.Compare? && Ready(mem[..], d) && CompareEnds(mem[..], cpu, d)
    ensures var n := ComparedBytes(cpu, d);
            r' == Compares(r, VectorCompare.Compared(Read(mem[..], d.src1, n), Read(mem[..], d.src2, n)), d.expected,
                           d.checkResult)
    ensures CompareAnswers(mem[..], cpu, d) ==> r' == Execute(mem[..], d, r).record
  {
    hide VectorCompare.Compared, Read;
    var c;
    if cpu.avx512 {
      c := VectorCompare.Compare(mem, d.src1, d.src2, d.size);
      VectorCompare.CompareRightIff(mem[..], d.src1, d.src2, d.size);
    } else {
      c := RefKernels.RefCompare(mem, d.src1, d.src2, d.size);
    }
    r' := Compares(r, c, d.expected, d.checkResult);
  }

  /** A compare that ends with the right answer ends. */
  lemma AnswersEnd(m: seq<Byte>, cpu: Processor, d: Descriptor)
    requires Ready(m, d) && CompareAnswers(m, cpu, d)
    ensures CompareEnds(m, cpu, d)
  {
    if d.Compare? && cpu.avx512 && VectorCompare.COMPARE_LIMIT <= d.size {
      BlockLayout.SliceOfRead(m, d.src1, TWO_TO_THE_32, 0, d.size);
      BlockLayout.SliceOfRead(m, d.src2, TWO_TO_THE_32, 0, d.size);
    }
  }

  method RunComparePattern(mem: array<Byte>, d: Descriptor, r: Record, cpu: Processor) returns (r': Record)
    requires d.ComparePattern? && Ready(mem[..], d)
    ensures r' == Execute(mem[..], d, r).record
  {
    hide PatternCompare.PatternCompared;
    var c;
    if cpu.avx512 {
      c := PatternCompare.ComparePattern(mem, d.pattern, d.src, d.size);
    } else {
      c := PatternCompare.RefComparePattern(mem, d.pattern, d.src, d.size);
    }
    r' := Compares(r, c, d.expected, d.checkResult);
  }

  method RunFill(mem: array<Byte>, d: Descriptor, cpu: Processor)
    requires d.Fill? && Ready(mem[..], d)
    modifies mem
    ensures mem[..] == Write(old(mem[..]), d.dst, VectorFill.Filled(d.pattern, d.size))
  {
    if cpu.avx512 {
      VectorFill.Fill(mem, d.pattern, d.dst, d.size, cpu.countModulo64);
    } else {
      RefKernels.RefFill(mem, d.pattern, d.dst, d.size);
    }
  }

  /** The results a create-delta's three-bit mask lets pass: each mask of one or two bits names one result. */
  predicate ExpectedByMask(checkResult: bool, mask: bv8, result: bv8) {
    || !checkResult || mask == 7
    || (result == 0 && mask == 1)
    || (result == 1 && (mask == 2 || mask == 3))
    || (result == 2 && (mask == 4 || mask == 5))
  }

  lemma DeltaStatusMeans(checkResult: bool, expected: bv8, result: bv8)
    requires result == 0 || result == 1 || result == 2
    ensures DeltaStatus(checkResult, expected, result) ==
            if ExpectedByMask(checkResult, expected & 7, result) then 0x01 else 0x02
  {
  }

  lemma LoopResultMeans(c: DeltaKernels.Creation)
    ensures DeltaKernels.LoopResult(c) == if c.overflowed then 2 else if c.deltaSize == 0 then 0 else 1
  {
  }

  /** kernels::create_delta, wherever the record lies. */
  method RunCreateDelta(mem: array<Byte>, d: Descriptor, r: Record) returns (r': Record)
    requires d.CreateDelta?
    requires InBounds(mem[..], d.src1, d.size) && InBounds(mem[..], d.src2, d.size)
             && InBounds(mem[..], d.delta, d.maxDelta)
    modifies mem
    ensures var c := DeltaKernels.CreateLoop(old(mem[..]), d.src1, d.src2, d.size / 8, d.delta, d.maxDelta);
            var result := DeltaKernels.LoopResult(c);
            && mem[..] == c.memory
            && r' == r.(deltaSize := c.deltaSize, result := result,
                        status := DeltaStatus(d.checkResult, d.expected, result))
    ensures var c := DeltaKernels.CreateLoop(old(mem[..]), d.src1, d.src2, d.size / 8, d.delta, d.maxDelta);
            && r'.result == (if c.overflowed then 2 else if c.deltaSize == 0 then 0 else 1)
            && r'.status == if ExpectedByMask(d.checkResult, d.expected & 7, r'.result) then 0x01 else 0x02
    ensures Ready(old(mem[..]), d) ==> Outcome(mem[..], r') == Execute(old(mem[..]), d, r)
  {
    ghost var loop := DeltaKernels.CreateLoop(mem[..], d.src1, d.src2, d.size / 8, d.delta, d.maxDelta);
    LoopResultMeans(loop);
    DeltaStatusMeans(d.checkResult, d.expected, DeltaKernels.LoopResult(loop));
    hide Write, DeltaKernels.Difference, Delta.Encode, Delta.Kept, Delta.CreateResult, DeltaStatus,
         DeltaKernels.CreateLoop, DeltaKernels.LoopResult;
    ghost var m := mem[..];
    var size, result := DeltaKernels.RefCreateDelta(mem, d.src1, d.src2, d.size, d.delta, d.maxDelta);
    r' := r.(deltaSize := size, result := result, status := DeltaStatus(d.checkResult, d.expected, result));
    if Ready(m, d) {
      DeltaKernels.CreateLoopDisjoint(m, d.src1, d.src2, d.size, d.delta, d.maxDelta);
    }
  }

  method RunCopyCrc(mem: array<Byte>, d: Descriptor, r: Record) returns (r': Record)
    requires d.CopyCrc? && Ready(mem[..], d)
    modifies mem
    ensures Outcome(mem[..], r') == Execute(old(mem[..]), d, r)
  {
    hide Write, Read, Crc32.Checksum;
    ghost var m := mem[..];
    MemMoveKernel.RefMemMove(mem, d.src, d.dst, d.size);
    ReadElsewhere(m, d.dst, Read(m, d.src, d.size), d.src, d.size);
    var crc := Crc32.Calculate(mem, d.src, d.size, d.seed, d.options);
    r' := r.(crc := crc, status := SUCCESS);
  }

  /** The record a DIF kernel writes from its job. */
  method ReportDif(job: DifEngine.DifJob, status: DifEngine.Status, r: Record) returns (r': Record)
    ensures r' == r.(status := if status == DifEngine.Ok then SUCCESS else DIF_ERROR,
                     result := (job.result & 0xFF) as bv8, bytesCompleted := job.offset)
  {
    r' := r.(status := if status == DifEngine.Ok then SUCCESS else DIF_ERROR,
             result := (job.result & 0xFF) as bv8, bytesCompleted := job.offset);
  }

  method RunDifCheck(mem: array<Byte>, d: Descriptor, r: Record) returns (r': Record)
    requires d.DifCheck? && Ready(mem[..], d)
    ensures r' == Execute(mem[..], d, r).record
  {
    hide Dif.CheckBuffer, Dif.FaultBits, Offset, Count, SourceConfig;
    VerdictFits(SourceConfig(d.dif), Read(mem[..], d.src, d.size));
    var job := new DifEngine.DifJob(SourceConfig(d.dif), d.src, 0, d.size);
    var status := job.Check(mem);
    r' := ReportDif(job, status, r);
  }

  method RunDifInsert(mem: array<Byte>, d: Descriptor, r: Record) returns (r': Record)
    requires d.DifInsert? && Ready(mem[..], d)
    modifies mem
    ensures Outcome(mem[..], r') == Execute(old(mem[..]), d, r)
  {
    hide Dif.InsertBuffer, Offset, Count, InsertConfig, Write, Read;
    var job := new DifEngine.DifJob(InsertConfig(d.dif), d.src, d.dst, d.size);
    var status := job.Insert(mem);
    r' := r.(status := if status == DifEngine.Ok then SUCCESS else DIF_ERROR, bytesCompleted := job.offset);
  }

  method RunDifStrip(mem: array<Byte>, d: Descriptor, r: Record) returns (r': Record)
    requires d.DifStrip? && Ready(mem[..], d)
    modifies mem
    ensures Outcome(mem[..], r') == Execute(old(mem[..]), d, r)
  {
    hide Dif.StripBuffer, Dif.CheckBuffer, Dif.FaultBits, Offset, Count, SourceConfig, Write, Read;
    VerdictFits(SourceConfig(d.dif), Read(mem[..], d.src, d.size));
    var job := new DifEngine.DifJob(SourceConfig(d.dif), d.src, d.dst, d.size);
    var status := job.Strip(mem);
    r' := ReportDif(job, status, r);
  }

  method RunDifUpdate(mem: array<Byte>, d: Descriptor, r: Record) returns (r': Record)
    requires d.DifUpdate? && Ready(mem[..], d)
    modifies mem
    ensures Outcome(mem[..], r') == Execute(old(mem[..]), d, r)
  {
    hide Dif.UpdateBuffer, Dif.CheckBuffer, Dif.FaultBits, Offset, Count, UpdateConfig, Write, Read;
    VerdictFits(UpdateConfig(d.dif), Read(mem[..], d.src, d.size));
    var job := new DifEngine.DifJob(UpdateConfig(d.dif), d.src, d.dst, d.size);
    var status := job.Update(mem);
    r' := ReportDif(job, status, r);
  }

  /** software_device::submit: memory and record become those of the operation, whichever kernels the processor has. */
  method Submit(mem: array<Byte>, d: Descriptor, r: Record, cpu: Processor) returns (r': Record)
    requires Ready(mem[..], d) && CompareAnswers(mem[..], cpu, d)
    modifies mem
    ensures Outcome(mem[..], r') == Execute(old(mem[..]), d, r)
  {
    hide Write, Read, MemMoveKernel.Moved, RefKernels.Dualcasted, DeltaKernels.Applied, VectorFill.Filled,
         Crc32.Checksum, ExecuteCreateDelta, ExecuteDifInsert, ExecuteDifStrip, ExecuteDifUpdate, CheckedRecord,
         Compares;
    match d
    case Nop => r' := r.(status := SUCCESS);
    case Drain => r' := r.(status := SUCCESS);
    case MemMove(src, dst, size) =>
      MemMoveKernel.RefMemMove(mem, src, dst, size);
      r' := r.(status := SUCCESS);
    case Fill(_, _, _) =>
      RunFill(mem, d, cpu);
      r' := r.(status := SUCCESS);
    case Compare(_, _, _, _, _) =>
      AnswersEnd(mem[..], cpu, d);
      r' := RunCompare(mem, d, r, cpu);
    case ComparePattern(_, _, _, _, _) => r' := RunComparePattern(mem, d, r, cpu);
    case CreateDelta(_, _, _, _, _, _, _) => r' := RunCreateDelta(mem, d, r);
    case ApplyDelta(delta, deltaSize, dst, size) =>
      DeltaKernels.ApplyLoopWithin(mem[..], delta, dst, deltaSize, size);
      DeltaKernels.RefApplyDelta(mem, delta, dst, deltaSize);
      r' := r.(status := SUCCESS);
    case Dualcast(src, dst1, dst2, size) =>
      RefKernels.RefDualcast(mem, src, dst1, dst2, size);
      r' := r.(status := SUCCESS);
    case Crc(src, size, seed, options) =>
      var crc := Crc32.Calculate(mem, src, size, seed, options);
      r' := r.(crc := crc, status := SUCCESS);
    case CopyCrc(_, _, _, _, _) => r' := RunCopyCrc(mem, d, r);
    case DifCheck(_, _, _) => r' := RunDifCheck(mem, d, r);
    case DifInsert(_, _, _, _) => r' := RunDifInsert(mem, d, r);
    case DifStrip(_, _, _, _) => r' := RunDifStrip(mem, d, r);
    case DifUpdate(_, _, _, _) => r' := RunDifUpdate(mem, d, r);
    case CacheFlush(_, _) => r' := r.(status := SUCCESS);
  }
}
