/** Interrupted strips and updates whatever their source holds, failing blocks included. */
module ContinuationFailing {
  import opened Memory
  import opened BlockLayout
  import opened Operations
  import opened Continuation
  import opened ContinuationDif
  import Dif

  /** Output already written differs from some content the destination may have had. */
  lemma WrittenShows(m: seq<Byte>, dst: nat, out: seq<seq<Byte>>, step: nat, q: nat)
    returns (m0: seq<Byte>, m1: seq<Byte>)
    requires 0 < q <= |out| && 0 < step && Uniform(out, step) && InBounds(m, dst, Offset(|out|, step))
    ensures |m0| == |m| && (forall p :: 0 <= p < |m| && p != dst ==> m0[p] == m[p])
    ensures PartlyWritten(m0, dst, out, q, m1) && m1 != m0
  {
    JoinLength(out[..q], step);
    OffsetMonotone(q, |out|, step);
    OffsetBefore(0, q, step);
    hide Offset, Join, Write;
    var written := Join(out[..q]);
    m0 := m[dst := if written[0] == 0 then 1 else 0];
    m1 := Write(m0, dst, written);
    WritePointwise(m0, dst, written);
    assert m1[dst] == written[0] != m0[dst];
  }

  lemma SourceKept(m0: seq<Byte>, m: seq<Byte>, src: nat, size: nat, dst: nat)
    requires |m0| == |m| && InBounds(m, src, size) && (forall p :: 0 <= p < |m| && p != dst ==> m0[p] == m[p])
    requires !(src <= dst < src + size)
    ensures SameSource(m0, m, src, size)
  {
    assert forall i :: 0 <= i < size ==> Read(m0, src, size)[i] == Read(m, src, size)[i];
  }

  // Strip

  /** A source of which every block is done passes. */
  lemma AllDonePasses(m: seq<Byte>, src: nat, size: nat, cfg: Dif.Config, r: Record, n: nat)
    requires InBounds(m, src, size) && n == Count(size, cfg.Step()) && SourceBlocksDone(m, src, size, cfg, r, n)
    ensures Dif.CheckBuffer(cfg, Read(m, src, size)).Passed?
  {
    hide Dif.Check, Offset, Count;
    var blocks := Blocks(Read(m, src, size), cfg.Step());
    assert blocks[..n] == blocks;
  }

  /**
   * A strip that resumes into a failing block leaves the accelerator's output, where an uninterrupted one writes
   * nothing.
   */
  lemma FailingStrip(m0: seq<Byte>, d: Descriptor, m1: seq<Byte>, r: Record, q: nat, n: nat)
    requires d.DifStrip? && Ready(m0, d) && StripClear(d) && StripStopped(m0, d, r, q, n)
             && Interrupted(m0, d, m1, r) && StripReaches(m0, d, r.bytesCompleted)
    requires Dif.CheckBuffer(SourceConfig(d.dif), Read(m0, d.src, d.size)).Failed?
    ensures q < n && Ready(m1, Continued(d, r))
    ensures Resumed(m1, d, r).memory == m1 && Execute(m0, d, CLEARED).memory == m0
    ensures PartlyWritten(m0, d.dst, StripOut(m0, d), q, m1)
  {
    hide Dif.Strip, Join, Write, Read, Offset, Count, Blocks, SourceConfig, SourceTags, Dif.Check, Dif.CheckBuffer,
         DifRecord, Continued, AccumulatedRecord;
    var cfg := SourceConfig(d.dif);
    if q == n {
      AllDonePasses(m0, d.src, d.size, cfg, r, n);
      assert false;
    }
    RestBlocks(m0, d.src, d.size, cfg.Step(), q);
    ReadyAfterStrip(m0, d, m1, r);
    ContinuedStrip(d, r);
    StripFits(q, n, d.size, cfg);
    PartlyElsewhere(m0, d.dst, StripOut(m0, d), cfg.blockSize, q, m1, d.src + r.bytesCompleted,
                    d.size - r.bytesCompleted);
    RestVerdict(m0, d.src, d.size, cfg, SourceConfig(Continued(d, r).dif), r, q);
  }

  lemma FailingStripAtStart(m0: seq<Byte>, d: Descriptor, m1: seq<Byte>, r: Record, n: nat)
    requires d.DifStrip? && Ready(m0, d) && StripClear(d) && StripStopped(m0, d, r, 0, n)
             && Interrupted(m0, d, m1, r) && StripReaches(m0, d, r.bytesCompleted)
    requires Dif.CheckBuffer(SourceConfig(d.dif), Read(m0, d.src, d.size)).Failed?
    ensures Ready(m1, Continued(d, r)) && Resumed(m1, d, r).memory == Execute(m0, d, CLEARED).memory
  {
    FailingStrip(m0, d, m1, r, 0, n);
    hide Interrupted, Execute, Resumed, Continued, StripStopped, Dif.CheckBuffer;
    assert StripOut(m0, d)[..0] == [];
    WriteNothing(m0, d.dst);
  }

  lemma InterruptedFailing(m0: seq<Byte>, d: Descriptor, m1: seq<Byte>, r: Record, q: nat, n: nat)
    requires d.DifStrip? && Ready(m0, d) && StripStopped(m0, d, r, q, n)
    ensures Interrupted(m0, d, m1, r) <==> PartlyWritten(m0, d.dst, StripOut(m0, d), q, m1)
  {
    hide Dif.Strip, Join, Write, Read, Offset, Count, Blocks, SourceConfig, SourceTags, Dif.Check, PartlyWritten;
  }

  /** What a strip makes of its source is the same in two memories with the same source. */
  lemma StripCarries(m: seq<Byte>, m0: seq<Byte>, d: Descriptor, r: Record, q: nat, n: nat)
    requires d.DifStrip? && Ready(m, d) && SameSource(m0, m, d.src, d.size) && StripStopped(m, d, r, q, n)
    ensures Ready(m0, d) && StripStopped(m0, d, r, q, n) && StripOut(m0, d) == StripOut(m, d)
  {
    hide Dif.Strip, Read, Offset, Count, Blocks, SourceConfig, SourceTags, Dif.Check;
  }

  lemma StripWritten(m: seq<Byte>, d: Descriptor, r: Record, q: nat, n: nat) returns (m0: seq<Byte>, m1: seq<Byte>)
    requires d.DifStrip? && Ready(m, d) && StripClear(d) && StripStopped(m, d, r, q, n) && 0 < q
    ensures SameSource(m0, m, d.src, d.size) && PartlyWritten(m0, d.dst, StripOut(m, d), q, m1) && m1 != m0
  {
    var cfg := SourceConfig(d.dif);
    hide Dif.Strip, Read, Offset, Count, Blocks, SourceConfig, SourceTags, Dif.Check, PartlyWritten;
    RestBlocks(m, d.src, d.size, cfg.Step(), q);
    SomeSource(d.size, cfg, q);
    m0, m1 := WrittenShows(m, d.dst, StripOut(m, d), cfg.blockSize, q);
    SourceKept(m0, m, d.src, d.size, d.dst);
  }

  lemma FailingStripShows(m: seq<Byte>, d: Descriptor, r: Record, q: nat, n: nat) returns (m0: seq<Byte>, m1: seq<Byte>)
    requires d.DifStrip? && Ready(m, d) && StripClear(d) && StripStopped(m, d, r, q, n) && 0 < q
    requires Dif.CheckBuffer(SourceConfig(d.dif), Read(m, d.src, d.size)).Failed?
    ensures Ready(m0, d) && SameSource(m0, m, d.src, d.size) && Interrupted(m0, d, m1, r)
    ensures Ready(m1, Continued(d, r)) ==> Resumed(m1, d, r).memory != Execute(m0, d, CLEARED).memory
  {
    m0, m1 := StripWritten(m, d, r, q, n);
    StripCarries(m, m0, d, r, q, n);
    hide StripOut, StripStopped, StripClear, PartlyWritten, Read, Interrupted, Continued, Resumed, Execute,
         Dif.CheckBuffer;
    InterruptedFailing(m0, d, m1, r, q, n);
    ReadyAfterStrip(m0, d, m1, r);
    if StripReaches(m0, d, r.bytesCompleted) {
      FailingStrip(m0, d, m1, r, q, n);
    }
  }

  lemma SomeSource(size: nat, cfg: Dif.Config, q: nat)
    requires 0 < q && Offset(q, cfg.Step()) <= size
    ensures 0 < size
  {
  }

  /** Some interruption leaves this record. */
  lemma StripInterrupts(m: seq<Byte>, d: Descriptor, r: Record, q: nat, n: nat) returns (m1: seq<Byte>)
    requires d.DifStrip? && Ready(m, d) && StripStopped(m, d, r, q, n)
    ensures Interrupted(m, d, m1, r)
  {
    var cfg := SourceConfig(d.dif);
    InterruptedFailing(m, d, m, r, q, n);
    hide Dif.Strip, Read, Count, Blocks, SourceConfig, SourceTags, Dif.Check, Interrupted;
    JoinLength(StripOut(m, d)[..q], cfg.blockSize);
    OffsetMonotone(q, n, cfg.blockSize);
    m1 := Write(m, d.dst, Join(StripOut(m, d)[..q]));
    InterruptedFailing(m, d, m1, r, q, n);
  }

  /**
   * Resuming a strip gives what an uninterrupted strip gives, whatever the source holds and whatever the destination
   * held before, exactly when the accelerator stopped before the first block or after the last, and there is memory to
   * continue into.
   */
  lemma StripResumesIff(m: seq<Byte>, d: Descriptor, r: Record, q: nat, n: nat)
    requires d.DifStrip? && Ready(m, d) && StripClear(d) && StripStopped(m, d, r, q, n)
    ensures (q == 0 || q == n) && StripReaches(m, d, r.bytesCompleted) <==>
            forall m0, m1 :: Ready(m0, d) && SameSource(m0, m, d.src, d.size) && Interrupted(m0, d, m1, r) ==>
              Ready(m1, Continued(d, r)) && Resumed(m1, d, r).memory == Execute(m0, d, CLEARED).memory
  {
    hide Execute, Resumed, Continued, Interrupted, Dif.CheckBuffer, Dif.Check, SourceTags, SourceConfig, Offset, Count,
         Blocks, StrippedSize;
    if !StripReaches(m, d, r.bytesCompleted) {
      var m1 := StripInterrupts(m, d, r, q, n);
      ReadyAfterStrip(m, d, m1, r);
    } else if Dif.CheckBuffer(SourceConfig(d.dif), Read(m, d.src, d.size)).Passed? {
      PassingStripResumesIff(m, d, r, q, n);
    } else if q == 0 {
      forall m0, m1 | Ready(m0, d) && SameSource(m0, m, d.src, d.size) && Interrupted(m0, d, m1, r)
        ensures Ready(m1, Continued(d, r)) && Resumed(m1, d, r).memory == Execute(m0, d, CLEARED).memory
      {
        FailingStripAtStart(m0, d, m1, r, n);
      }
    } else {
      var m0, m1 := FailingStripShows(m, d, r, q, n);
      ReadyAfterStrip(m0, d, m1, r);
      FailingStrip(m0, d, m1, r, q, n);
    }
  }

  // Update

  /** The record of an update that stopped after q blocks. */
  ghost predicate UpdateStopped(m: seq<Byte>, d: Descriptor, r: Record, q: nat)
    requires d.DifUpdate? && Ready(m, d)
  {
    var cfg := UpdateConfig(d.dif);
    && IsPageFault(r.status) && q == Count(r.bytesCompleted, cfg.Step())
    && SourceBlocksDone(m, d.src, d.size, cfg, r, q)
    && r.destination == DestinationTags(cfg, q)
  }

  function UpdateOut(m: seq<Byte>, d: Descriptor): (out: seq<seq<Byte>>)
    requires d.DifUpdate? && Ready(m, d)
    ensures |out| == Count(d.size, UpdateConfig(d.dif).Step()) && Uniform(out, UpdateConfig(d.dif).Step())
  {
    Dif.Update(UpdateConfig(d.dif), Blocks(Read(m, d.src, d.size), UpdateConfig(d.dif).Step()))
  }

  lemma InterruptedUpdate(m0: seq<Byte>, d: Descriptor, m1: seq<Byte>, r: Record, q: nat)
    requires d.DifUpdate? && Ready(m0, d) && UpdateStopped(m0, d, r, q)
    ensures Interrupted(m0, d, m1, r) <==> PartlyWritten(m0, d.dst, UpdateOut(m0, d), q, m1)
  {
    hide Dif.Update, Join, Write, Read, Offset, Count, Blocks, UpdateConfig, SourceTags, DestinationTags, Dif.Check;
  }

  lemma FailingUpdateKeepsMemory(m0: seq<Byte>, d: Descriptor)
    requires d.DifUpdate? && Ready(m0, d) && Dif.CheckBuffer(UpdateConfig(d.dif), Read(m0, d.src, d.size)).Failed?
    ensures Execute(m0, d, CLEARED).memory == m0
  {
    hide Dif.CheckBuffer, Dif.UpdateBuffer, DifRecord, Offset, Count, UpdateConfig;
  }

  /** What an update makes of its source is the same in two memories with the same source. */
  lemma UpdateCarries(m: seq<Byte>, m0: seq<Byte>, d: Descriptor, r: Record, q: nat)
    requires d.DifUpdate? && Ready(m, d) && SameSource(m0, m, d.src, d.size) && UpdateStopped(m, d, r, q)
    ensures Ready(m0, d) && UpdateStopped(m0, d, r, q) && UpdateOut(m0, d) == UpdateOut(m, d)
  {
    hide Dif.Update, Read, Offset, Count, Blocks, UpdateConfig, SourceTags, DestinationTags, Dif.Check;
  }

  lemma UpdateWritten(m: seq<Byte>, d: Descriptor, r: Record, q: nat) returns (m0: seq<Byte>, m1: seq<Byte>)
    requires d.DifUpdate? && Ready(m, d) && UpdateStopped(m, d, r, q) && 0 < q
    ensures SameSource(m0, m, d.src, d.size) && PartlyWritten(m0, d.dst, UpdateOut(m, d), q, m1) && m1 != m0
  {
    var cfg := UpdateConfig(d.dif);
    hide Dif.Update, Read, Offset, Count, Blocks, UpdateConfig, SourceTags, DestinationTags, Dif.Check, PartlyWritten;
    RestBlocks(m, d.src, d.size, cfg.Step(), q);
    SomeSource(d.size, cfg, q);
    OffsetPositive(q, |UpdateOut(m, d)|, cfg.Step());
    m0, m1 := WrittenShows(m, d.dst, UpdateOut(m, d), cfg.Step(), q);
    SourceKept(m0, m, d.src, d.size, d.dst);
  }

  lemma FailingUpdateShows(m: seq<Byte>, d: Descriptor, r: Record, q: nat) returns (m0: seq<Byte>, m1: seq<Byte>)
    requires d.DifUpdate? && Ready(m, d) && UpdateStopped(m, d, r, q) && 0 < q
    requires Dif.CheckBuffer(UpdateConfig(d.dif), Read(m, d.src, d.size)).Failed?
    ensures Ready(m0, d) && SameSource(m0, m, d.src, d.size) && Interrupted(m0, d, m1, r)
    ensures Ready(m1, Continued(d, r)) && Resumed(m1, d, r).memory != Execute(m0, d, CLEARED).memory
  {
    m0, m1 := UpdateWritten(m, d, r, q);
    UpdateCarries(m, m0, d, r, q);
    hide UpdateOut, UpdateStopped, PartlyWritten, Read, Interrupted, Continued, Resumed, Execute, Dif.CheckBuffer,
         AnswerOf, UpdateConfig;
    InterruptedUpdate(m0, d, m1, r, q);
    ResumeDifUpdate(m0, d, m1, r);
    FailingUpdateKeepsMemory(m0, d);
  }

  lemma OffsetPositive(q: nat, n: nat, step: nat)
    requires 0 < q <= n && 0 < step
    ensures 0 < Offset(n, step)
  {
    OffsetBefore(0, q, step);
    OffsetMonotone(q, n, step);
  }

  lemma UpdateResumes(m0: seq<Byte>, d: Descriptor, m1: seq<Byte>, r: Record, q: nat)
    requires d.DifUpdate? && Ready(m0, d) && UpdateStopped(m0, d, r, q) && Interrupted(m0, d, m1, r)
    requires q == 0 || Dif.CheckBuffer(UpdateConfig(d.dif), Read(m0, d.src, d.size)).Passed?
    ensures Ready(m1, Continued(d, r)) && Resumed(m1, d, r).memory == Execute(m0, d, CLEARED).memory
  {
    hide Interrupted, Execute, Resumed, Continued, UpdateStopped, Dif.CheckBuffer, UpdateConfig, AnswerOf;
    ResumeDifUpdate(m0, d, m1, r);
    if Dif.CheckBuffer(UpdateConfig(d.dif), Read(m0, d.src, d.size)).Failed? {
      FailingUpdateKeepsMemory(m0, d);
      InterruptedUpdate(m0, d, m1, r, 0);
      assert UpdateOut(m0, d)[..0] == [];
      WriteNothing(m0, d.dst);
    }
  }

  /**
   * Resuming an update gives what an uninterrupted update gives, whatever the destination held before, exactly when
   * every block of the source passes or the accelerator stopped before the first.
   */
  lemma UpdateResumesIff(m: seq<Byte>, d: Descriptor, r: Record, q: nat)
    requires d.DifUpdate? && Ready(m, d) && UpdateStopped(m, d, r, q)
    ensures q == 0 || Dif.CheckBuffer(UpdateConfig(d.dif), Read(m, d.src, d.size)).Passed? <==>
            forall m0, m1 :: Ready(m0, d) && SameSource(m0, m, d.src, d.size) && Interrupted(m0, d, m1, r) ==>
              Ready(m1, Continued(d, r)) && Resumed(m1, d, r).memory == Execute(m0, d, CLEARED).memory
  {
    hide Execute, Resumed, Continued, Interrupted, Dif.CheckBuffer, Dif.Check, SourceTags, DestinationTags,
         UpdateConfig, Offset, Count, Blocks;
    if q == 0 || Dif.CheckBuffer(UpdateConfig(d.dif), Read(m, d.src, d.size)).Passed? {
      forall m0, m1 | Ready(m0, d) && SameSource(m0, m, d.src, d.size) && Interrupted(m0, d, m1, r)
        ensures Ready(m1, Continued(d, r)) && Resumed(m1, d, r).memory == Execute(m0, d, CLEARED).memory
      {
        UpdateResumes(m0, d, m1, r, q);
      }
    } else {
      var m0, m1 := FailingUpdateShows(m, d, r, q);
    }
  }
}
