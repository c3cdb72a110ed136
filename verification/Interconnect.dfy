/** Waiting for a job on the automatic path: poll, and finish in software what a page fault left. */
module Interconnect {
  import opened Memory
  import opened Operations
  import opened Continuation
  import opened ContinuationTheorem
  import Delta
  import DeltaKernels
  import ContinuationProofs
  import SoftwareDevice
  import VectorCompare

  predicate Finished(r: Record) {
    r.status != PROCESSING
  }

  /** Written by the accelerator or a kernel, and not a page fault: nothing more will happen to the job. */
  predicate Settled(r: Record) {
    Finished(r) && !IsPageFault(r.status)
  }

  /** What a record that tells of a page fault leaves to do can be run here. */
  predicate CanContinue(m: seq<Byte>, d: Descriptor, r: Record, cpu: SoftwareDevice.Processor) {
    Ready(m, Continued(d, r)) && SoftwareDevice.CompareAnswers(m, cpu, Continued(d, r))
  }

  /** The vector compare's wrapping counter, if it can wrap on what is left, stays within memory. */
  predicate CounterReaches(m: seq<Byte>, d: Descriptor, r: Record, cpu: SoftwareDevice.Processor) {
    d.Compare? && cpu.avx512 && VectorCompare.COMPARE_LIMIT + r.bytesCompleted <= d.size ==>
      && InBounds(m, d.src1 + r.bytesCompleted, TWO_TO_THE_32)
      && InBounds(m, d.src2 + r.bytesCompleted, TWO_TO_THE_32)
  }

  lemma ContinuedCompare(d: Descriptor, r: Record)
    requires d.Compare? && r.bytesCompleted <= d.size
    ensures var q := r.bytesCompleted;
            Continued(d, r) == Compare(d.src1 + q, d.src2 + q, d.size - q, d.expected, d.checkResult)
  {
    ContinuationProofs.SubExact(d.size, r.bytesCompleted);
  }

  /** After a part that agrees, the rests differ when the wholes do. */
  lemma RestDiffers(m: seq<Byte>, src1: nat, src2: nat, size: nat, q: nat)
    requires q <= size && InBounds(m, src1, size) && InBounds(m, src2, size)
    requires Read(m, src1, q) == Read(m, src2, q)
    ensures Read(m, src1, size) == Read(m, src2, size) <==>
            Read(m, src1 + q, size - q) == Read(m, src2 + q, size - q)
  {
    ContinuationProofs.ReadConcat(m, src1, q, size - q);
    ContinuationProofs.ReadConcat(m, src2, q, size - q);
    var x, y := Read(m, src1 + q, size - q), Read(m, src2 + q, size - q);
    assert x == Read(m, src1, size)[q..] && y == Read(m, src2, size)[q..];
    hide Read;
  }

  /** If the whole compare would have answered, the rest does, but for memory at the end of it. */
  lemma RestAnswers(m: seq<Byte>, d: Descriptor, r: Record, cpu: SoftwareDevice.Processor)
    requires d.Compare? && Ready(m, d) && Interrupted(m, d, m, r) && SoftwareDevice.CompareAnswers(m, cpu, d)
    ensures Ready(m, Continued(d, r))
    ensures SoftwareDevice.CompareAnswers(m, cpu, Continued(d, r)) <==> CounterReaches(m, d, r, cpu)
  {
    ContinuedCompare(d, r);
    hide Read, Continued;
    RestDiffers(m, d.src1, d.src2, d.size, r.bytesCompleted);
  }

  /**
   * An interrupted job can be continued exactly when the memory its continuation touches exists, which only a strip and
   * a compare of nearly 2^32 bytes leave open.
   */
  lemma InterruptedCanContinue(m0: seq<Byte>, d: Descriptor, m1: seq<Byte>, r: Record, cpu: SoftwareDevice.Processor)
    requires Admissible(m0, d) && Interrupted(m0, d, m1, r) && SoftwareDevice.CompareAnswers(m0, cpu, d)
    ensures CanContinue(m1, d, r, cpu) <==> Reaches(m0, d, r.bytesCompleted) && CounterReaches(m0, d, r, cpu)
  {
    InterruptedIsReady(m0, d, m1, r);
    if d.Compare? {
      RestAnswers(m0, d, r, cpu);
    }
    hide Interrupted, Ready, Reaches;
  }

  /**
   * A record is finished once its status is not zero, and settled when that is not a page fault on a read or a write.
   */
  lemma FinishedMeans(r: Record)
    ensures Finished(r) <==> r.status != 0
    ensures Settled(r) <==> r.status != 0 && r.status != 0x03 && r.status != 0x83
  {
    PageFaultMeans(r.status);
    hide IsPageFault;
  }

  /** A submitted job: its descriptor and its completion record. */
  class Job {
    const mem: array<Byte>
    var dsc: Descriptor
    var record: Record

    constructor (mem: array<Byte>, dsc: Descriptor)
      ensures this.mem == mem && this.dsc == dsc && record == CLEARED
    {
      this.mem, this.dsc, record := mem, dsc, CLEARED;
    }

    /**
     * automatic::submit: what the accelerator does not take is run in software at once. The record has been zeroed by
     * then if some device was tried, which Probing.Submitter.Submit reports as cleared.
     */
    method Submit(tried: bool, accepted: bool, cpu: SoftwareDevice.Processor)
      requires accepted ==> tried
      requires Ready(mem[..], dsc) && SoftwareDevice.CompareAnswers(mem[..], cpu, dsc)
      modifies this`record, mem
      ensures accepted ==> record == CLEARED && mem[..] == old(mem[..])
      ensures !accepted ==> Settled(record)
      ensures !accepted ==>
                var whole := Execute(old(mem[..]), dsc, CLEARED);
                mem[..] == whole.memory && AnswerOf(dsc, record) == AnswerOf(dsc, whole.record)
    {
      if tried {
        record := CLEARED;
      }
      if !accepted {
        AnswerIgnoresOldRecord(mem[..], dsc, record);
        ExecutedStatus(mem[..], dsc, record);
        hide Execute, Ready, AnswerOf, SoftwareDevice.CompareAnswers;
        record := SoftwareDevice.Submit(mem, dsc, record, cpu);
      }
    }

    /** If the record tells of a page fault, the rest can be run here. */
    ghost predicate Valid(cpu: SoftwareDevice.Processor)
      reads this, mem
    {
      IsPageFault(record.status) ==> CanContinue(mem[..], dsc, record, cpu)
    }

    /** accumulate_records: merges the record with the previous one, and moves create-delta's new notes. */
    method AccumulateRecords(previous: Record)
      requires RecordInBounds(mem[..], dsc, record)
      modifies this`record, mem
      ensures Outcome(mem[..], record) == Accumulated(old(mem[..]), dsc, old(record), previous)
    {
      hide Write, Read, Delta.Encode, Delta.Decode, Delta.Shifted;
      if dsc.CreateDelta? {
        ghost var notes := Delta.Decode(Read(mem[..], dsc.delta, record.deltaSize));
        Delta.EncodeDecode(Read(mem[..], dsc.delta, record.deltaSize));
        DeltaKernels.Rebase(mem, dsc.delta, record.deltaSize, previous.bytesCompleted / 8, notes);
      }
      record := AccumulatedRecord(dsc, record, previous);
    }

    /** The branch both calls take on a page fault. */
    method Continue(cpu: SoftwareDevice.Processor)
      requires IsPageFault(record.status) && Valid(cpu)
      modifies this, mem
      ensures dsc == Continued(old(dsc), old(record))
      ensures Outcome(mem[..], record) == Resumed(old(mem[..]), old(dsc), old(record))
      ensures Settled(record) && Valid(cpu)
    {
      ResumedStatus(mem[..], dsc, record);
      hide Continued, Execute, Ready, Accumulated, SoftwareDevice.CompareAnswers;
      var previous := record;
      ExecutedRecordInBounds(mem[..], Continued(dsc, record), record);
      dsc := Continued(dsc, record);
      record := SoftwareDevice.Submit(mem, dsc, record, cpu);
      AccumulateRecords(previous);
    }

    /** automatic::finished */
    method Poll(cpu: SoftwareDevice.Processor) returns (finished: bool)
      requires Valid(cpu)
      modifies this, mem
      ensures Valid(cpu)
      ensures finished == Finished(record) == Finished(old(record))
      ensures if IsPageFault(old(record.status))
              then dsc == Continued(old(dsc), old(record))
                   && Outcome(mem[..], record) == Resumed(old(mem[..]), old(dsc), old(record))
              else dsc == old(dsc) && record == old(record) && mem[..] == old(mem[..])
      ensures finished ==> Settled(record)
    {
      finished := record.status != PROCESSING;
      if finished && record.status & 0x7F == PAGE_FAULT {
        Continue(cpu);
        finished := record.status != PROCESSING;
      }
    }

    /** automatic::wait, from the moment the record is written. */
    method Wait(cpu: SoftwareDevice.Processor)
      requires Finished(record) && Valid(cpu)
      modifies this, mem
      ensures Valid(cpu) && Settled(record)
      ensures if IsPageFault(old(record.status))
              then dsc == Continued(old(dsc), old(record))
                   && Outcome(mem[..], record) == Resumed(old(mem[..]), old(dsc), old(record))
              else dsc == old(dsc) && record == old(record) && mem[..] == old(mem[..])
    {
      if record.status & 0x7F == PAGE_FAULT {
        Continue(cpu);
      }
    }
  }

  // Runs: the accelerator writes the record once, and the caller polls or waits any number of times.

  /** What a job can be seen in, and how often it has been continued. */
  datatype State = State(memory: seq<Byte>, dsc: Descriptor, record: Record, continuations: nat)

  ghost predicate Initial(s: State) {
    Admissible(s.memory, s.dsc) && s.record == CLEARED && s.continuations == 0
  }

  /** The accelerator writes the record: a page fault claims exactly what is done, any other status ends the job. */
  ghost predicate HardwareWrites(s: State, s': State) {
    && !Finished(s.record) && Finished(s'.record) && s'.dsc == s.dsc && s'.continuations == s.continuations
    && (IsPageFault(s'.record.status) ==> Ready(s.memory, s.dsc) && Interrupted(s.memory, s.dsc, s'.memory, s'.record))
  }

  /** A call of finished, or of wait once the record is written. */
  ghost predicate Call(s: State, s': State) {
    if IsPageFault(s.record.status) then
      && Ready(s.memory, Continued(s.dsc, s.record))
      && var o := Resumed(s.memory, s.dsc, s.record);
         s' == State(o.memory, Continued(s.dsc, s.record), o.record, s.continuations + 1)
    else s' == s
  }

  ghost predicate Next(s: State, s': State) {
    HardwareWrites(s, s') || Call(s, s')
  }

  ghost predicate Run(run: seq<State>) {
    && run != [] && Initial(run[0])
    && forall i :: 0 <= i < |run| - 1 ==> Next(run[i], run[i + 1])
  }

  /** Before the accelerator writes, after a page fault, and after the end. */
  ghost predicate Invariant(start: State, s: State) {
    if !Finished(s.record) then s == start
    else if IsPageFault(s.record.status) then
      && s.dsc == start.dsc && s.continuations == 0 && Ready(start.memory, start.dsc)
      && Interrupted(start.memory, start.dsc, s.memory, s.record)
    else s.continuations <= 1
  }

  lemma NextKeepsInvariant(start: State, s: State, s': State)
    requires Initial(start) && Invariant(start, s) && Next(s, s')
    ensures Invariant(start, s')
    ensures Settled(s.record) ==> s' == s
  {
    hide Interrupted, Resumed, Continued, Ready;
    if Call(s, s') {
      if IsPageFault(s.record.status) {
        ResumedStatus(s.memory, s.dsc, s.record);
      }
    }
  }

  lemma {:induction false} RunKeepsInvariant(run: seq<State>, i: nat)
    requires Run(run) && i < |run|
    ensures Invariant(run[0], run[i])
  {
    hide Initial, Next;
    if i == 0 {
      InitialInvariant(run[0]);
    } else {
      RunKeepsInvariant(run, i - 1);
      assert Next(run[i - 1], run[i - 1 + 1]);
      NextKeepsInvariant(run[0], run[i - 1], run[i]);
    }
  }

  lemma InitialInvariant(s: State)
    requires Initial(s)
    ensures Invariant(s, s)
  {
  }

  /**
   * In a reachable state a call gets stuck only on a faulted job whose continuation would touch memory that does not
   * exist; and then it does.
   */
  lemma CallsNeverStuck(run: seq<State>, i: nat, cpu: SoftwareDevice.Processor)
    requires Run(run) && i < |run| && SoftwareDevice.CompareAnswers(run[0].memory, cpu, run[0].dsc)
    ensures var start, s := run[0], run[i];
            && (!IsPageFault(s.record.status) ==> Call(s, s))
            && (IsPageFault(s.record.status) ==>
                  && (CanContinue(s.memory, s.dsc, s.record, cpu) <==>
                      Reaches(start.memory, start.dsc, s.record.bytesCompleted)
                      && CounterReaches(start.memory, start.dsc, s.record, cpu))
                  && ((exists s' :: Call(s, s')) <==> Reaches(start.memory, start.dsc, s.record.bytesCompleted)))
  {
    hide Next, Interrupted, Resumed, Continued, Ready, Reaches, CounterReaches, SoftwareDevice.CompareAnswers;
    RunKeepsInvariant(run, i);
    var start, s := run[0], run[i];
    if IsPageFault(s.record.status) {
      InterruptedIsReady(start.memory, start.dsc, s.memory, s.record);
      InterruptedCanContinue(start.memory, start.dsc, s.memory, s.record, cpu);
      if Ready(s.memory, Continued(s.dsc, s.record)) {
        var o := Resumed(s.memory, s.dsc, s.record);
        assert Call(s, State(o.memory, Continued(s.dsc, s.record), o.record, s.continuations + 1));
      }
    }
  }

  /** Over any run the continuation happens at most once, and a settled job never changes again. */
  lemma {:induction false} AtMostOneContinuation(run: seq<State>, i: nat, j: nat)
    requires Run(run) && i <= j < |run|
    ensures run[j].continuations <= 1
    ensures Settled(run[i].record) ==> run[j] == run[i]
    decreases j - i
  {
    hide Initial, Next, Interrupted, Continued, Ready;
    RunKeepsInvariant(run, j);
    if i < j && Settled(run[i].record) {
      RunKeepsInvariant(run, i);
      assert Next(run[i], run[i + 1]);
      NextKeepsInvariant(run[0], run[i], run[i + 1]);
      AtMostOneContinuation(run, i + 1, j);
    }
    InitialCount(run[0]);
  }

  lemma InitialCount(s: State)
    requires Initial(s)
    ensures s.continuations == 0
  {
  }

  // What a finished job holds

  /** The accelerator completes with the right answer, or stops where the continuation can take over. */
  ghost predicate Faithful(s: State, s': State) {
    HardwareWrites(s, s') && Ready(s.memory, s.dsc) ==>
      if IsPageFault(s'.record.status) then Resumable(s.memory, s.dsc, s'.record)
      else
        var whole := Execute(s.memory, s.dsc, CLEARED);
        s'.memory == whole.memory && AnswerOf(s.dsc, s'.record) == AnswerOf(s.dsc, whole.record)
  }

  /** Faulted jobs can be resumed, and settled jobs hold what one uninterrupted software run of the descriptor gives. */
  ghost predicate Correct(start: State, s: State)
    requires Ready(start.memory, start.dsc)
  {
    && (IsPageFault(s.record.status) ==> Resumable(start.memory, start.dsc, s.record))
    && (Settled(s.record) ==>
          var whole := Execute(start.memory, start.dsc, CLEARED);
          s.memory == whole.memory && AnswerOf(start.dsc, s.record) == AnswerOf(start.dsc, whole.record))
  }

  lemma NextKeepsCorrect(start: State, s: State, s': State)
    requires Initial(start) && Invariant(start, s) && Correct(start, s) && Next(s, s') && Faithful(s, s')
    ensures Correct(start, s')
  {
    hide Interrupted, Resumed, Continued, Ready, Execute, Resumable, AnswerOf;
    if Call(s, s') {
      if IsPageFault(s.record.status) {
        InterruptedEqualsWhole(start.memory, start.dsc, s.memory, s.record);
        ResumedStatus(s.memory, s.dsc, s.record);
      }
    }
  }

  /** Every finished job of every run, interrupted or not, holds the memory and the answer of one uninterrupted run. */
  lemma {:induction false} RunEndsAsWhole(run: seq<State>, i: nat)
    requires Run(run) && i < |run|
    requires forall k :: 0 <= k < |run| - 1 ==> Faithful(run[k], run[k + 1])
    ensures Admissible(run[0].memory, run[0].dsc)
    ensures Correct(run[0], run[i])
  {
    hide Next, Faithful, Resumable, Execute, AnswerOf, Ready;
    if i > 0 {
      RunEndsAsWhole(run, i - 1);
      RunKeepsInvariant(run, i - 1);
      assert Next(run[i - 1], run[i - 1 + 1]) && Faithful(run[i - 1], run[i - 1 + 1]);
      NextKeepsCorrect(run[0], run[i - 1], run[i]);
    }
  }
}
