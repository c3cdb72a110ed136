/** Every operation that can be resumed, in one statement. */
module ContinuationTheorem {
  import opened Memory
  import opened BlockLayout
  import opened Operations
  import opened Continuation
  import opened ContinuationProofs
  import opened ContinuationDelta
  import opened ContinuationDif
  import Dif

  /** A descriptor as validation leaves it: strip's destination is clear of its source by the source's length. */
  predicate Admissible(m: seq<Byte>, d: Descriptor) {
    && Ready(m, d)
    && (d.DifStrip? ==> StripClear(d))
  }

  /** The continuation's buffers exist. Only strip's can pass the end of the caller's. */
  predicate Reaches(m: seq<Byte>, d: Descriptor, q: nat) {
    d.DifStrip? ==> StripReaches(m, d, q)
  }

  /**
   * What is left of an interrupted operation has its buffers within memory and apart where its kernel needs them,
   * always but for a strip whose rest would end beyond memory.
   */
  lemma InterruptedIsReady(m0: seq<Byte>, d: Descriptor, m1: seq<Byte>, r: Record)
    requires Admissible(m0, d) && Interrupted(m0, d, m1, r)
    ensures Ready(m1, Continued(d, r)) <==> Reaches(m0, d, r.bytesCompleted)
  {
    hide Interrupted, Continued, Execute, Resumed, AnswerOf;
    match d
    case Nop => ResumeSimple(m0, d, m1, r);
    case Drain => ResumeSimple(m0, d, m1, r);
    case CacheFlush(_, _) => ResumeSimple(m0, d, m1, r);
    case MemMove(_, _, _) => ResumeMemMove(m0, d, m1, r);
    case Fill(_, _, _) => ResumeFill(m0, d, m1, r);
    case Compare(_, _, _, _, _) => ResumeCompare(m0, d, m1, r);
    case ComparePattern(_, _, _, _, _) => ResumeComparePattern(m0, d, m1, r);
    case CreateDelta(_, _, _, _, _, _, _) => ResumeCreateDelta(m0, d, m1, r);
    case ApplyDelta(_, _, _, _) => ResumeApplyDelta(m0, d, m1, r);
    case Dualcast(_, _, _, _) => ResumeDualcast(m0, d, m1, r);
    case Crc(_, _, _, _) => ResumeCrc(m0, d, m1, r);
    case CopyCrc(_, _, _, _, _) => ResumeCopyCrc(m0, d, m1, r);
    case DifCheck(_, _, _) => ResumeDifCheck(m0, d, m1, r);
    case DifInsert(_, _, _, _) => InterruptedInsertIsReady(m0, d, m1, r);
    case DifStrip(_, _, _, _) => ReadyAfterStrip(m0, d, m1, r);
    case DifUpdate(_, _, _, _) => ResumeDifUpdate(m0, d, m1, r);
  }

  lemma ResumeSimple(m0: seq<Byte>, d: Descriptor, m1: seq<Byte>, r: Record)
    requires (d.Nop? || d.Drain? || d.CacheFlush?) && Ready(m0, d) && Interrupted(m0, d, m1, r)
    ensures Ready(m1, Continued(d, r))
    ensures Resumed(m1, d, r).memory == Execute(m0, d, CLEARED).memory
    ensures AnswerOf(d, Resumed(m1, d, r).record) == AnswerOf(d, Execute(m0, d, CLEARED).record)
  {
    if d.CacheFlush? {
      SubExact(d.size, r.bytesCompleted);
    }
  }

  lemma InterruptedInsertIsReady(m0: seq<Byte>, d: Descriptor, m1: seq<Byte>, r: Record)
    requires d.DifInsert? && Ready(m0, d) && Interrupted(m0, d, m1, r)
    ensures Ready(m1, Continued(d, r))
  {
    hide Dif.Insert, Join, Write, Read, Offset, Count, Blocks, InsertConfig, DestinationTags, Continued;
    var cfg := InsertConfig(d.dif);
    assert |m1| == |m0|;
    ReadyAfterInsert(m0, d, m1, r, Count(r.bytesCompleted, cfg.blockSize), Count(d.size, cfg.blockSize));
  }

  /** The interruptions after which the continuation does all an uninterrupted run does. */
  ghost predicate Resumable(m: seq<Byte>, d: Descriptor, r: Record)
    requires Ready(m, d)
  {
    match d
    case CreateDelta(_, _, size, _, _, _, _) => r.bytesCompleted <= size && NotesContinue(m, d, r.bytesCompleted)
    case DifUpdate(src, _, size, dif) => Dif.CheckBuffer(UpdateConfig(dif), Read(m, src, size)).Passed?
    case DifInsert(_, _, _, _) => false
    case DifStrip(_, _, _, _) => false
    case _ => true
  }

  /**
   * Interrupted and resumed, the operation leaves the memory and gives the answer of one that was never interrupted.
   */
  lemma InterruptedEqualsWhole(m0: seq<Byte>, d: Descriptor, m1: seq<Byte>, r: Record)
    requires Ready(m0, d) && Interrupted(m0, d, m1, r) && Resumable(m0, d, r)
    ensures Ready(m1, Continued(d, r))
    ensures Resumed(m1, d, r).memory == Execute(m0, d, CLEARED).memory
    ensures AnswerOf(d, Resumed(m1, d, r).record) == AnswerOf(d, Execute(m0, d, CLEARED).record)
  {
    hide Interrupted, Continued, Execute, Resumed, NotesContinue;
    match d
    case Nop => ResumeSimple(m0, d, m1, r);
    case Drain => ResumeSimple(m0, d, m1, r);
    case CacheFlush(_, _) => ResumeSimple(m0, d, m1, r);
    case MemMove(_, _, _) => ResumeMemMove(m0, d, m1, r);
    case Fill(_, _, _) => ResumeFill(m0, d, m1, r);
    case Compare(_, _, _, _, _) => ResumeCompare(m0, d, m1, r);
    case ComparePattern(_, _, _, _, _) => ResumeComparePattern(m0, d, m1, r);
    case CreateDelta(_, _, _, _, _, _, _) =>
      ResumeCreateDelta(m0, d, m1, r);
      ResumeCreateDeltaResult(m0, d, m1, r);
    case ApplyDelta(_, _, _, _) => ResumeApplyDelta(m0, d, m1, r);
    case Dualcast(_, _, _, _) => ResumeDualcast(m0, d, m1, r);
    case Crc(_, _, _, _) => ResumeCrc(m0, d, m1, r);
    case CopyCrc(_, _, _, _, _) => ResumeCopyCrc(m0, d, m1, r);
    case DifCheck(_, _, _) => ResumeDifCheck(m0, d, m1, r);
    case DifUpdate(_, _, _, _) => ResumeDifUpdate(m0, d, m1, r);
  }

  /** A kernel always ends with a status of its own, never with a page fault. */
  lemma ResumedStatus(m: seq<Byte>, d: Descriptor, r: Record)
    requires Ready(m, Continued(d, r))
    ensures |Resumed(m, d, r).memory| == |m|
    ensures var status := Resumed(m, d, r).record.status;
            status == SUCCESS || status == FALSE_PREDICATE || status == DIF_ERROR
  {
    var rest := Continued(d, r);
    ExecutedRecordInBounds(m, rest, r);
    ExecutedStatus(m, rest, r);
    hide Execute, Continued, Rebased;
  }

  lemma ExecutedStatus(m: seq<Byte>, d: Descriptor, r: Record)
    requires Ready(m, d)
    ensures var status := Execute(m, d, r).record.status;
            status == SUCCESS || status == FALSE_PREDICATE || status == DIF_ERROR
  {
    hide Dif.CheckBuffer, Dif.InsertBuffer, Dif.StripBuffer, Dif.UpdateBuffer;
  }

  /** Whatever a record held before the kernel ran, its answer is the same. */
  lemma AnswerIgnoresOldRecord(m: seq<Byte>, d: Descriptor, r: Record)
    requires Ready(m, d)
    ensures Execute(m, d, r).memory == Execute(m, d, CLEARED).memory
    ensures AnswerOf(d, Execute(m, d, r).record) == AnswerOf(d, Execute(m, d, CLEARED).record)
  {
    hide Dif.CheckBuffer, Dif.InsertBuffer, Dif.StripBuffer, Dif.UpdateBuffer, SourceConfig, UpdateConfig, InsertConfig,
         Ready, Write, Read, DifResult, PredicateStatus, DeltaStatus, Offset, Count;
  }

  /**
   * Where the kernel leaves the byte count alone, merging adds the accelerator's count to itself, which is what an
   * uninterrupted run reports exactly when that count is zero or wraps to zero.
   */
  lemma ByteCountDoubled(m0: seq<Byte>, d: Descriptor, m1: seq<Byte>, r: Record)
    requires d.MemMove? || d.Fill? || d.CreateDelta? || d.ApplyDelta? || d.Dualcast? || d.Crc? || d.CopyCrc?
             || d.CacheFlush?
    requires Ready(m0, d) && Interrupted(m0, d, m1, r) && Ready(m1, Continued(d, r))
    ensures Resumed(m1, d, r).record.bytesCompleted == Add32(r.bytesCompleted, r.bytesCompleted)
    ensures Resumed(m1, d, r).record.bytesCompleted == Execute(m0, d, CLEARED).record.bytesCompleted <==>
            r.bytesCompleted == 0 || r.bytesCompleted == 0x8000_0000
  {
    DoubleIsZeroIff(r.bytesCompleted);
    hide Add32, Sub32, Interrupted;
  }

  lemma DoubleIsZeroIff(x: uint32)
    ensures Add32(x, x) == 0 <==> x == 0 || x == 0x8000_0000
  {
  }

  /** A flush, its first part and the rest together, goes over the same bytes as the whole. */
  lemma FlushResumes(m: seq<Byte>, d: Descriptor, m1: seq<Byte>, r: Record, p: nat)
    requires d.CacheFlush? && Ready(m, d) && Interrupted(m, d, m1, r)
    ensures var rest := Continued(d, r);
            && rest.CacheFlush?
            && (d.dst <= p < d.dst + d.size <==>
                d.dst <= p < d.dst + r.bytesCompleted || rest.dst <= p < rest.dst + rest.size)
  {
    SubExact(d.size, r.bytesCompleted);
  }

  lemma PassingCount(m: seq<Byte>, d: Descriptor, r: Record)
    requires (d.DifCheck? || d.DifInsert? || d.DifStrip? || d.DifUpdate?) && Ready(m, d)
    ensures var o := Execute(m, d, r); o.record.status == 0x01 ==> o.record.bytesCompleted == 0
  {
    hide Ready, Dif.CheckBuffer, Dif.InsertBuffer, Dif.StripBuffer, Dif.UpdateBuffer, SourceConfig, UpdateConfig,
         InsertConfig, Dif.FaultBits;
  }

  /** The byte count a merged DIF record reports: what the accelerator did, and where a fault was found after that. */
  lemma DifCountsAdd(m0: seq<Byte>, d: Descriptor, m1: seq<Byte>, r: Record)
    requires (d.DifCheck? || d.DifInsert? || d.DifStrip? || d.DifUpdate?) && Ready(m0, d) && Interrupted(m0, d, m1, r)
    requires Ready(m1, Continued(d, r))
    ensures var kernel := Execute(m1, Continued(d, r), r).record;
            && Resumed(m1, d, r).record.bytesCompleted == Add32(kernel.bytesCompleted, r.bytesCompleted)
            && (kernel.status == 0x01 ==> Resumed(m1, d, r).record.bytesCompleted == r.bytesCompleted)
  {
    hide Interrupted, Ready, Execute;
    PassingCount(m1, Continued(d, r), r);
  }
}
