/** Interrupted DIF operations. */
module ContinuationDif {
  import opened Memory
  import opened BlockLayout
  import opened Operations
  import opened Continuation
  import opened ContinuationProofs
  import opened DifTheorems
  import Dif

  // Check

  lemma FaultsIgnoreDestination(cfg: Dif.Config, other: Dif.Config, k: nat, block: seq<Byte>)
    requires other == cfg.(destination := other.destination) && |block| == cfg.Step()
    ensures Dif.BlockFaults(other, k, block) == Dif.BlockFaults(cfg, k, block)
  {
    hide Dif.Guard, Dif.LoadField, Dif.AllOnesError, Dif.Skipped, Dif.Has, Dif.AppTagAt, Dif.RefTagAt, Dif.StoredAppTag,
         Dif.Reverse32;
  }

  lemma CheckIgnoresDestination(cfg: Dif.Config, other: Dif.Config, blocks: seq<seq<Byte>>)
    requires other == cfg.(destination := other.destination) && Uniform(blocks, cfg.Step())
    ensures Dif.Check(other, blocks) == Dif.Check(cfg, blocks)
  {
    hide Dif.BlockFaults, Dif.First;
    forall k | 0 <= k < |blocks|
      ensures Dif.FaultList(other, blocks)[k] == Dif.FaultList(cfg, blocks)[k]
    {
      FaultsIgnoreDestination(cfg, other, k, blocks[k]);
    }
    assert Dif.FaultList(other, blocks) == Dif.FaultList(cfg, blocks);
  }

  lemma RestBlocks(m: seq<Byte>, src: nat, size: nat, step: nat, q: nat)
    requires InBounds(m, src, size) && 0 < step && q <= Count(size, step)
    ensures Offset(q, step) <= size
    ensures Blocks(Read(m, src + Offset(q, step), size - Offset(q, step)), step) ==
            Blocks(Read(m, src, size), step)[q..]
    ensures Count(size - Offset(q, step), step) == Count(size, step) - q
  {
    hide Offset, Count;
    BlocksAfter(Read(m, src, size), step, q);
    ReadFrom(m, src, Offset(q, step), size);
  }

  /** Checking the rest with the tags the record holds finds what checking the whole finds, q blocks later. */
  lemma RestVerdict(m: seq<Byte>, src: nat, size: nat, cfg: Dif.Config, rest: Dif.Config, r: Record, q: nat)
    requires InBounds(m, src, size) && SourceBlocksDone(m, src, size, cfg, r, q)
    requires rest.blockSize == cfg.blockSize && rest.flags == cfg.flags && rest.source == WithTags(cfg.source, r.source)
    ensures Offset(q, cfg.Step()) <= size
    ensures Dif.CheckBuffer(cfg, Read(m, src, size)) ==
            Shifted(Dif.CheckBuffer(rest, Read(m, src + Offset(q, cfg.Step()), size - Offset(q, cfg.Step()))), q)
  {
    hide Dif.Check, Offset, Count, Blocks, Dif.AppTagAt, Dif.RefTagAt, Dif.Has;
    RestBlocks(m, src, size, cfg.Step(), q);
    var blocks := Blocks(Read(m, src, size), cfg.Step());
    CheckResumes(cfg, blocks, q);
    CheckIgnoresDestination(Advance(cfg, q), rest, blocks[q..]);
  }

  /** The merged record of a check answers as the record of the whole. */
  lemma RecordsMerge(d: Descriptor, rest: Descriptor, v: Dif.Verdict, step: nat, size: uint32, q: nat, before: Record,
                     previous: Record)
    requires (d.DifCheck? && rest.DifCheck?) || (d.DifStrip? && rest.DifStrip?) || (d.DifUpdate? && rest.DifUpdate?)
    requires Offset(q, step) == previous.bytesCompleted <= size
    requires v.Failed? ==> Offset(v.block, step) <= size - Offset(q, step)
    ensures v.Failed? ==> Offset(q + v.block, step) <= size
    ensures AnswerOf(d, AccumulatedRecord(rest, DifRecord(previous, v, step, size - Offset(q, step)), previous)) ==
            AnswerOf(d, DifRecord(before, Shifted(v, q), step, size))
  {
    hide Offset, Add32, Dif.FaultBits;
    if v.Failed? {
      OffsetSum(q, v.block, step);
      AddExact(Offset(v.block, step), previous.bytesCompleted);
    }
  }

  lemma ResumeDifCheck(m0: seq<Byte>, d: Descriptor, m1: seq<Byte>, r: Record)
    requires d.DifCheck? && Ready(m0, d) && Interrupted(m0, d, m1, r)
    ensures Ready(m1, Continued(d, r))
    ensures Resumed(m1, d, r).memory == Execute(m0, d, CLEARED).memory
    ensures AnswerOf(d, Resumed(m1, d, r).record) == AnswerOf(d, Execute(m0, d, CLEARED).record)
  {
    hide Dif.CheckBuffer, Dif.Check, Offset, Count, Blocks, SourceTags, PackedFlags, BlockSize, DifRecord, Read,
         AnswerOf, AccumulatedRecord;
    var cfg := SourceConfig(d.dif);
    var q := Count(r.bytesCompleted, cfg.Step());
    var rest := SourceConfig(d.dif.(source := WithTags(d.dif.source, r.source)));
    RestVerdict(m0, d.src, d.size, cfg, rest, r, q);
    SubExact(d.size, r.bytesCompleted);
    VerdictFits(rest, Read(m0, d.src + r.bytesCompleted, d.size - r.bytesCompleted));
    RecordsMerge(d, Continued(d, r),
                 Dif.CheckBuffer(rest, Read(m0, d.src + r.bytesCompleted, d.size - r.bytesCompleted)),
                 cfg.Step(), d.size, q, CLEARED, r);
  }

  /** Two memories with the same source, as far as an interrupted operation on it can tell. */
  predicate SameSource(m0: seq<Byte>, m: seq<Byte>, src: nat, size: nat)
    requires InBounds(m, src, size)
  {
    |m0| == |m| && Read(m0, src, size) == Read(m, src, size)
  }

  // Output blocks

  lemma PartlyThenRest(m0: seq<Byte>, dst: nat, out: seq<seq<Byte>>, step: nat, q: nat, m1: seq<Byte>)
    requires Uniform(out, step) && InBounds(m0, dst, Offset(|out|, step)) && PartlyWritten(m0, dst, out, q, m1)
    ensures |m1| == |m0| && |Join(out[..q])| == Offset(q, step)
    ensures |Join(out[q..])| == Offset(|out| - q, step)
            && Offset(q, step) + Offset(|out| - q, step) == Offset(|out|, step)
    ensures |Join(out)| == Offset(|out|, step)
    ensures Write(m1, dst + Offset(q, step), Join(out[q..])) == Write(m0, dst, Join(out))
  {
    hide Offset, Join, Write;
    JoinLength(out[..q], step);
    JoinLength(out[q..], step);
    JoinLength(out, step);
    OffsetSum(q, |out| - q, step);
    assert out == out[..q] + out[q..];
    JoinConcat(out[..q], out[q..]);
    WriteAppend(m0, dst, Join(out[..q]), Join(out[q..]));
  }

  lemma PartlyElsewhere(m0: seq<Byte>, dst: nat, out: seq<seq<Byte>>, step: nat, q: nat, m1: seq<Byte>, b: nat, k: nat)
    requires Uniform(out, step) && InBounds(m0, dst, Offset(|out|, step)) && PartlyWritten(m0, dst, out, q, m1)
    requires InBounds(m0, b, k) && Disjoint(b, k, dst, Offset(|out|, step))
    ensures |m1| == |m0| && Read(m1, b, k) == Read(m0, b, k)
  {
    hide Offset, Join, Write, Read;
    JoinLength(out[..q], step);
    OffsetMonotone(q, |out|, step);
    ReadElsewhere(m0, dst, Join(out[..q]), b, k);
  }

  // Update

  lemma UpdateRest(cfg: Dif.Config, blocks: seq<seq<Byte>>, q: nat)
    requires Uniform(blocks, cfg.Step()) && q <= |blocks|
    ensures Dif.Update(Advance(cfg, q), blocks[q..]) == Dif.Update(cfg, blocks)[q..]
  {
    hide Dif.UpdateBlock;
    UpdateResumes(cfg, blocks, q);
  }

  lemma ContinuedUpdateConfig(dif: DifFields, r: Record, q: nat)
    requires r.source == SourceTags(UpdateConfig(dif), q) && r.destination == DestinationTags(UpdateConfig(dif), q)
    ensures UpdateConfig(dif.(source := WithTags(dif.source, r.source),
                              destination := WithTags(dif.destination, r.destination))) ==
            Advance(UpdateConfig(dif), q)
  {
    hide Dif.AppTagAt, Dif.RefTagAt, Dif.Has, PackedFlags, BlockSize;
  }

  /** The parts of a DIF update that stopped after q blocks. */
  lemma ContinuedUpdate(m0: seq<Byte>, d: Descriptor, m1: seq<Byte>, r: Record, cfg: Dif.Config, q: nat)
    requires d.DifUpdate? && Ready(m0, d) && Interrupted(m0, d, m1, r)
    requires cfg == UpdateConfig(d.dif) && q == Count(r.bytesCompleted, cfg.Step())
    ensures Offset(q, cfg.Step()) == r.bytesCompleted <= d.size && q <= Count(d.size, cfg.Step())
    ensures Continued(d, r).DifUpdate? && UpdateConfig(Continued(d, r).dif) == Advance(cfg, q)
    ensures Continued(d, r).src == d.src + r.bytesCompleted && Continued(d, r).dst == d.dst + r.bytesCompleted
    ensures Continued(d, r).size == d.size - r.bytesCompleted
    ensures |m1| == |m0|
    ensures Read(m1, d.src + r.bytesCompleted, d.size - r.bytesCompleted) ==
            Read(m0, d.src + r.bytesCompleted, d.size - r.bytesCompleted)
    ensures Ready(m1, Continued(d, r))
  {
    hide Offset, Count, Dif.UpdateBlock, Dif.Check, SourceTags, DestinationTags, Join, Write, Read, Blocks,
         UpdateConfig, Advance;
    var out := Dif.Update(cfg, Blocks(Read(m0, d.src, d.size), cfg.Step()));
    RestBlocks(m0, d.src, d.size, cfg.Step(), q);
    SubExact(d.size, r.bytesCompleted);
    ContinuedUpdateConfig(d.dif, r, q);
    AdvancedStep(cfg, q);
    PartlyThenRest(m0, d.dst, out, cfg.Step(), q, m1);
    PartlyElsewhere(m0, d.dst, out, cfg.Step(), q, m1, d.src + r.bytesCompleted, d.size - r.bytesCompleted);
  }

  lemma AdvancedStep(cfg: Dif.Config, q: nat)
    ensures Advance(cfg, q).Step() == cfg.Step() && Advance(cfg, q).blockSize == cfg.blockSize
            && Advance(cfg, q).flags == cfg.flags
  {
  }

  /**
   * A resumed update answers as the whole one does. When every block passes it leaves the same memory; when one fails,
   * the blocks the accelerator had written stay written, where an uninterrupted update writes none.
   */
  lemma ResumeDifUpdate(m0: seq<Byte>, d: Descriptor, m1: seq<Byte>, r: Record)
    requires d.DifUpdate? && Ready(m0, d) && Interrupted(m0, d, m1, r)
    ensures Ready(m1, Continued(d, r))
    ensures AnswerOf(d, Resumed(m1, d, r).record) == AnswerOf(d, Execute(m0, d, CLEARED).record)
    ensures Resumed(m1, d, r).memory ==
            if Dif.CheckBuffer(UpdateConfig(d.dif), Read(m0, d.src, d.size)).Passed?
            then Execute(m0, d, CLEARED).memory
            else m1
  {
    hide Dif.CheckBuffer, Dif.Check, Dif.UpdateBuffer, Offset, Count, Blocks, DifRecord, Read, Write, AnswerOf,
         AccumulatedRecord, UpdateConfig, Advance, SourceTags, DestinationTags;
    var cfg := UpdateConfig(d.dif);
    var q := Count(r.bytesCompleted, cfg.Step());
    ContinuedUpdate(m0, d, m1, r, cfg, q);
    var source, tail := Read(m0, d.src, d.size), Read(m0, d.src + r.bytesCompleted, d.size - r.bytesCompleted);
    AdvancedStep(cfg, q);
    AdvancedSource(d, r, q);
    RestVerdict(m0, d.src, d.size, cfg, Advance(cfg, q), r, q);
    VerdictFits(Advance(cfg, q), tail);
    RecordsMerge(d, Continued(d, r), Dif.CheckBuffer(Advance(cfg, q), tail), cfg.Step(), d.size, q, CLEARED, r);
    if Dif.CheckBuffer(cfg, source).Passed? {
      UpdatedMemory(m0, d, m1, r, cfg, q);
    }
  }

  lemma AdvancedSource(d: Descriptor, r: Record, q: nat)
    requires d.DifUpdate? && r.source == SourceTags(UpdateConfig(d.dif), q)
    ensures Advance(UpdateConfig(d.dif), q).source == WithTags(UpdateConfig(d.dif).source, r.source)
  {
    hide Dif.AppTagAt, Dif.RefTagAt, Dif.Has, PackedFlags, BlockSize;
  }

  lemma UpdatedMemory(m0: seq<Byte>, d: Descriptor, m1: seq<Byte>, r: Record, cfg: Dif.Config, q: nat)
    requires d.DifUpdate? && Ready(m0, d) && Interrupted(m0, d, m1, r)
    requires cfg == UpdateConfig(d.dif) && q == Count(r.bytesCompleted, cfg.Step()) && r.bytesCompleted <= d.size
    ensures |m1| == |m0|
    ensures var tail := Read(m0, d.src + r.bytesCompleted, d.size - r.bytesCompleted);
            var whole := Dif.UpdateBuffer(cfg, Read(m0, d.src, d.size));
            && InBounds(m0, d.dst, |whole|)
            && InBounds(m1, d.dst + r.bytesCompleted, |Dif.UpdateBuffer(Advance(cfg, q), tail)|)
            && Write(m1, d.dst + r.bytesCompleted, Dif.UpdateBuffer(Advance(cfg, q), tail)) == Write(m0, d.dst, whole)
  {
    hide Offset, Count, Dif.Update, Dif.Check, SourceTags, DestinationTags, Join, Write, Read, Blocks, UpdateConfig,
         Advance;
    var blocks := Blocks(Read(m0, d.src, d.size), cfg.Step());
    RestBlocks(m0, d.src, d.size, cfg.Step(), q);
    AdvancedStep(cfg, q);
    UpdateRest(cfg, blocks, q);
    PartlyThenRest(m0, d.dst, Dif.Update(cfg, blocks), cfg.Step(), q, m1);
  }

  // Insert and strip: both addresses advance by the source bytes, though the two sides' blocks differ in size.

  lemma KeptByte(m: seq<Byte>, a: nat, s: seq<Byte>, b: nat, t: seq<Byte>, p: nat)
    requires InBounds(m, a, |s|) && InBounds(m, b, |t|) && p < |m|
    requires !(a <= p < a + |s|) && !(b <= p < b + |t|)
    ensures Write(Write(m, a, s), b, t)[p] == m[p]
  {
    WritePointwise(m, a, s);
    WritePointwise(Write(m, a, s), b, t);
  }

  /** The output blocks of an insert. */
  function InsertOut(m: seq<Byte>, d: Descriptor): (out: seq<seq<Byte>>)
    requires d.DifInsert? && Ready(m, d)
    ensures |out| == Count(d.size, InsertConfig(d.dif).blockSize) && Uniform(out, InsertConfig(d.dif).Step())
  {
    Dif.Insert(InsertConfig(d.dif), Blocks(Read(m, d.src, d.size), InsertConfig(d.dif).blockSize))
  }

  lemma ContinuedInsert(d: Descriptor, r: Record)
    requires d.DifInsert? && r.bytesCompleted <= d.size
    ensures var rest := Continued(d, r);
            && rest.DifInsert? && rest.src == d.src + r.bytesCompleted && rest.dst == d.dst + r.bytesCompleted
            && rest.size == d.size - r.bytesCompleted
            && InsertConfig(rest.dif) ==
               InsertConfig(d.dif).(destination := WithTags(InsertConfig(d.dif).destination, r.destination))
  {
    hide PackedFlags, BlockSize;
    SubExact(d.size, r.bytesCompleted);
  }

  /** Advancing the destination by source blocks keeps the rest inside it. */
  lemma InsertFits(q: nat, n: nat, cfg: Dif.Config)
    requires q <= n
    ensures Offset(q, cfg.blockSize) + Offset(n - q, cfg.Step()) <= Offset(n, cfg.Step())
    ensures 0 < q < n ==>
            0 < Offset(q, cfg.blockSize) && Offset(q, cfg.blockSize) + Offset(n - q, cfg.Step()) < Offset(n, cfg.Step())
    ensures q < n ==> Offset(q, cfg.Step()) < Offset(n, cfg.Step())
  {
    StepSplit(q, cfg);
    OffsetSum(q, n - q, cfg.Step());
    hide Offset;
    if q < n {
      OffsetBefore(q, n, cfg.Step());
    }
    if 0 < q {
      OffsetBefore(0, q, cfg.blockSize);
    }
  }

  lemma StepSplit(k: nat, cfg: Dif.Config)
    ensures Offset(k, cfg.Step()) == Offset(k, cfg.blockSize) + 8 * k
  {
  }

  lemma ReadyAfterInsert(m: seq<Byte>, d: Descriptor, m1: seq<Byte>, r: Record, q: nat, n: nat)
    requires d.DifInsert? && Ready(m, d) && |m1| == |m|
    requires n == Count(d.size, InsertConfig(d.dif).blockSize)
    requires q <= n && r.bytesCompleted == Offset(q, InsertConfig(d.dif).blockSize)
    ensures r.bytesCompleted <= d.size && Ready(m1, Continued(d, r)) && |InsertOut(m1, Continued(d, r))| == n - q
  {
    hide Dif.Insert, Read, Offset, Count, Blocks, InsertConfig, Continued;
    var cfg := InsertConfig(d.dif);
    RestBlocks(m, d.src, d.size, cfg.blockSize, q);
    ContinuedInsert(d, r);
    InsertFits(q, n, cfg);
  }

  lemma ResumedInsert(m1: seq<Byte>, d: Descriptor, r: Record)
    requires d.DifInsert? && r.bytesCompleted <= d.size && Ready(m1, Continued(d, r))
    ensures var rest := Continued(d, r);
            && InBounds(m1, rest.dst, |Join(InsertOut(m1, rest))|)
            && |Join(InsertOut(m1, rest))| == Offset(|InsertOut(m1, rest)|, InsertConfig(rest.dif).Step())
            && Resumed(m1, d, r).memory == Write(m1, rest.dst, Join(InsertOut(m1, rest)))
  {
    hide Dif.Insert, Join, Write, Read, Offset, Count, Blocks, InsertConfig;
    ContinuedInsert(d, r);
    var rest := Continued(d, r);
    JoinLength(InsertOut(m1, rest), InsertConfig(rest.dif).Step());
  }

  /** The record of an insert that stopped after q blocks. */
  ghost predicate InsertStopped(d: Descriptor, r: Record, q: nat, n: nat)
    requires d.DifInsert?
  {
    var cfg := InsertConfig(d.dif);
    && IsPageFault(r.status) && n == Count(d.size, cfg.blockSize) && q == Count(r.bytesCompleted, cfg.blockSize) <= n
    && r.bytesCompleted == Offset(q, cfg.blockSize) && r.destination == DestinationTags(cfg, q)
  }

  lemma InterruptedInsert(m0: seq<Byte>, d: Descriptor, m1: seq<Byte>, r: Record, q: nat, n: nat)
    requires d.DifInsert? && Ready(m0, d) && InsertStopped(d, r, q, n)
    ensures Interrupted(m0, d, m1, r) <==> PartlyWritten(m0, d.dst, InsertOut(m0, d), q, m1)
    ensures |Join(InsertOut(m0, d))| == Offset(n, InsertConfig(d.dif).Step())
    ensures Execute(m0, d, CLEARED).memory == Write(m0, d.dst, Join(InsertOut(m0, d)))
  {
    hide Dif.Insert, Join, Write, Read, Offset, Count, Blocks, InsertConfig, DestinationTags;
    JoinLength(InsertOut(m0, d), InsertConfig(d.dif).Step());
  }

  lemma ContinuedFromStart(d: Descriptor, r: Record, n: nat)
    requires d.DifInsert? && InsertStopped(d, r, 0, n)
    ensures Continued(d, r) == d
  {
    hide PackedFlags, BlockSize, Dif.Has, Dif.NextAppTag, Dif.NextRefTag;
    SubExact(d.size, r.bytesCompleted);
  }

  /** Stopped before the first block or after the last, an insert resumes well. */
  lemma InsertResumesAtEnds(m0: seq<Byte>, d: Descriptor, m1: seq<Byte>, r: Record, q: nat, n: nat)
    requires d.DifInsert? && Ready(m0, d) && InsertStopped(d, r, q, n) && (q == 0 || q == n)
             && Interrupted(m0, d, m1, r)
    ensures Ready(m1, Continued(d, r)) && Resumed(m1, d, r).memory == Execute(m0, d, CLEARED).memory
  {
    hide Dif.Insert, Write, Read, Offset, Count, Blocks, InsertConfig, DestinationTags, Continued, Resumed, Execute,
         Interrupted;
    InterruptedInsert(m0, d, m1, r, q, n);
    var out := InsertOut(m0, d);
    PartlyThenRest(m0, d.dst, out, InsertConfig(d.dif).Step(), q, m1);
    ReadyAfterInsert(m0, d, m1, r, q, n);
    ContinuedInsert(d, r);
    ResumedInsert(m1, d, r);
    if q == 0 {
      ContinuedFromStart(d, r, n);
      assert out[..0] == [];
      WriteNothing(m0, d.dst);
    } else {
      assert out[..n] == out;
      assert InsertOut(m1, Continued(d, r)) == [];
      WriteNothing(m1, Continued(d, r).dst);
    }
  }

  /** Stopped anywhere else, the resumed insert never writes the last byte of the destination. */
  lemma InsertMissesLastByte(m0: seq<Byte>, d: Descriptor, m1: seq<Byte>, r: Record, q: nat, n: nat)
    requires d.DifInsert? && Ready(m0, d) && InsertStopped(d, r, q, n) && 0 < q < n && Interrupted(m0, d, m1, r)
    ensures 0 < Offset(n, InsertConfig(d.dif).Step()) && Ready(m1, Continued(d, r))
    ensures var last := d.dst + Offset(n, InsertConfig(d.dif).Step()) - 1; Resumed(m1, d, r).memory[last] == m0[last]
  {
    hide Dif.Insert, Write, Read, Offset, Count, Blocks, InsertConfig, DestinationTags, Continued, Resumed, Execute,
         Interrupted, Join;
    InterruptedInsert(m0, d, m1, r, q, n);
    var cfg, out := InsertConfig(d.dif), InsertOut(m0, d);
    PartlyThenRest(m0, d.dst, out, cfg.Step(), q, m1);
    ReadyAfterInsert(m0, d, m1, r, q, n);
    ContinuedInsert(d, r);
    ResumedInsert(m1, d, r);
    InsertFits(q, n, cfg);
    KeptByte(m0, d.dst, Join(out[..q]), Continued(d, r).dst, Join(InsertOut(m1, Continued(d, r))),
             d.dst + Offset(n, cfg.Step()) - 1);
  }

  lemma InsertFailsInside(m: seq<Byte>, d: Descriptor, r: Record, q: nat, n: nat) returns (m0: seq<Byte>, m1: seq<Byte>)
    requires d.DifInsert? && Ready(m, d) && InsertStopped(d, r, q, n) && 0 < q < n
    ensures |m0| == |m| && Ready(m0, d) && Read(m0, d.src, d.size) == Read(m, d.src, d.size)
            && Interrupted(m0, d, m1, r)
    ensures Ready(m1, Continued(d, r)) && Resumed(m1, d, r).memory != Execute(m0, d, CLEARED).memory
  {
    hide Dif.Insert, Write, Read, Offset, Count, Blocks, InsertConfig, DestinationTags, Continued, Resumed, Execute,
         Interrupted, Join, Ready, InsertStopped;
    var last, written := InsertLastByte(m, d, r, q, n);
    m0 := m[last := if written == 0 then 1 else 0];
    m1 := InsertChanged(m, d, r, q, n, last, m0[last]);
    InsertMissesLastByte(m0, d, m1, r, q, n);
    InsertWrites(m, d, r, q, n, m0, last, written);
  }

  lemma InsertLastByte(m: seq<Byte>, d: Descriptor, r: Record, q: nat, n: nat) returns (last: nat, written: Byte)
    requires d.DifInsert? && Ready(m, d) && InsertStopped(d, r, q, n) && 0 < q < n
    ensures 0 < Offset(n, InsertConfig(d.dif).Step()) && last == d.dst + Offset(n, InsertConfig(d.dif).Step()) - 1 < |m|
    ensures d.dst <= last < d.dst + |Join(InsertOut(m, d))| && written == Join(InsertOut(m, d))[last - d.dst]
  {
    hide Dif.Insert, Write, Read, Offset, Count, Blocks, InsertConfig, DestinationTags, Execute, Interrupted, Join;
    InsertFits(q, n, InsertConfig(d.dif));
    InterruptedInsert(m, d, m, r, q, n);
    last := d.dst + Offset(n, InsertConfig(d.dif).Step()) - 1;
    written := Join(InsertOut(m, d))[last - d.dst];
  }

  /** Changing a destination byte changes neither the source nor what the insert makes of it. */
  lemma InsertChanged(m: seq<Byte>, d: Descriptor, r: Record, q: nat, n: nat, p: nat, x: Byte) returns (m1: seq<Byte>)
    requires d.DifInsert? && Ready(m, d) && InsertStopped(d, r, q, n)
    requires p < |m| && d.dst <= p < d.dst + Offset(n, InsertConfig(d.dif).Step())
    ensures var m0 := m[p := x];
            && Ready(m0, d) && Read(m0, d.src, d.size) == Read(m, d.src, d.size)
            && InsertOut(m0, d) == InsertOut(m, d) && Interrupted(m0, d, m1, r)
  {
    hide Dif.Insert, Write, Offset, Count, Blocks, InsertConfig, DestinationTags, Execute, Interrupted, Join;
    var m0, cfg := m[p := x], InsertConfig(d.dif);
    assert Read(m0, d.src, d.size) == Read(m, d.src, d.size);
    JoinLength(InsertOut(m, d)[..q], cfg.Step());
    OffsetMonotone(q, n, cfg.Step());
    m1 := Write(m0, d.dst, Join(InsertOut(m, d)[..q]));
    InterruptedInsert(m0, d, m1, r, q, n);
  }

  lemma InsertWrites(m: seq<Byte>, d: Descriptor, r: Record, q: nat, n: nat, m0: seq<Byte>, p: nat, written: Byte)
    requires d.DifInsert? && Ready(m, d) && Ready(m0, d) && InsertStopped(d, r, q, n)
    requires InsertOut(m0, d) == InsertOut(m, d)
    requires d.dst <= p < d.dst + |Join(InsertOut(m, d))| && written == Join(InsertOut(m, d))[p - d.dst]
    ensures p < |Execute(m0, d, CLEARED).memory| && Execute(m0, d, CLEARED).memory[p] == written
  {
    hide Write, Join, Execute, Dif.Insert, Dif.Check, Dif.CheckBuffer, Offset, Count, Blocks, SourceConfig,
         InsertConfig, Interrupted;
    InterruptedInsert(m0, d, m0, r, q, n);
    WritePointwise(m0, d.dst, Join(InsertOut(m, d)));
  }

  /**
   * Resuming an insert gives what an uninterrupted insert gives, whatever the destination held before, exactly when the
   * accelerator stopped before the first block or after the last.
   */
  lemma InsertResumesIff(m: seq<Byte>, d: Descriptor, r: Record, q: nat, n: nat)
    requires d.DifInsert? && Ready(m, d) && InsertStopped(d, r, q, n)
    ensures q == 0 || q == n <==>
            forall m0, m1 :: Ready(m0, d) && SameSource(m0, m, d.src, d.size) && Interrupted(m0, d, m1, r) ==>
              Ready(m1, Continued(d, r)) && Resumed(m1, d, r).memory == Execute(m0, d, CLEARED).memory
  {
    hide Ready, Execute, Resumed, Continued, Interrupted, InsertStopped;
    if q == 0 || q == n {
      forall m0, m1 | Ready(m0, d) && Interrupted(m0, d, m1, r)
        ensures Ready(m1, Continued(d, r)) && Resumed(m1, d, r).memory == Execute(m0, d, CLEARED).memory
      {
        InsertResumesAtEnds(m0, d, m1, r, q, n);
      }
    } else {
      StoppedWithin(d, r, q, n);
      var m0, m1 := InsertFailsInside(m, d, r, q, n);
    }
  }

  lemma StoppedWithin(d: Descriptor, r: Record, q: nat, n: nat)
    requires d.DifInsert? && InsertStopped(d, r, q, n)
    ensures q <= n
  {
  }

  /** The output blocks of a strip. */
  function StripOut(m: seq<Byte>, d: Descriptor): (out: seq<seq<Byte>>)
    requires d.DifStrip? && Ready(m, d)
    ensures |out| == Count(d.size, SourceConfig(d.dif).Step()) && Uniform(out, SourceConfig(d.dif).blockSize)
  {
    Dif.Strip(SourceConfig(d.dif), Blocks(Read(m, d.src, d.size), SourceConfig(d.dif).Step()))
  }

  /** The distance acceptance puts between a strip's buffers: the source's length, of which strip writes less. */
  predicate StripClear(d: Descriptor)
    requires d.DifStrip?
  {
    Disjoint(d.src, d.size, d.dst, d.size)
  }

  /**
   * The memory that a strip stopped after q bytes is continued into. It exists; nothing says that it belongs to the
   * destination, whose end it passes when q is inside the source.
   */
  predicate StripReaches(m: seq<Byte>, d: Descriptor, q: nat)
    requires d.DifStrip?
  {
    q <= d.size && InBounds(m, d.dst + q, StrippedSize(d.size - q, SourceConfig(d.dif)))
  }

  /** A strip whose source passes. */
  ghost predicate StripPasses(m: seq<Byte>, d: Descriptor)
    requires d.DifStrip? && Ready(m, d)
  {
    StripClear(d) && Dif.CheckBuffer(SourceConfig(d.dif), Read(m, d.src, d.size)).Passed?
  }

  /** The record of a strip that stopped after q of n blocks. */
  ghost predicate StripStopped(m: seq<Byte>, d: Descriptor, r: Record, q: nat, n: nat)
    requires d.DifStrip? && Ready(m, d)
  {
    var cfg := SourceConfig(d.dif);
    && IsPageFault(r.status) && n == Count(d.size, cfg.Step()) && q == Count(r.bytesCompleted, cfg.Step())
    && SourceBlocksDone(m, d.src, d.size, cfg, r, q)
  }

  lemma InterruptedStrip(m0: seq<Byte>, d: Descriptor, m1: seq<Byte>, r: Record, q: nat, n: nat)
    requires d.DifStrip? && Ready(m0, d) && StripPasses(m0, d) && StripStopped(m0, d, r, q, n)
    ensures Interrupted(m0, d, m1, r) <==> PartlyWritten(m0, d.dst, StripOut(m0, d), q, m1)
    ensures |Join(StripOut(m0, d))| == Offset(n, SourceConfig(d.dif).blockSize)
    ensures Execute(m0, d, CLEARED).memory == Write(m0, d.dst, Join(StripOut(m0, d)))
  {
    hide Dif.Strip, Join, Write, Read, Offset, Count, Blocks, SourceConfig, SourceTags, Dif.Check, Dif.CheckBuffer,
         DifRecord;
    JoinLength(StripOut(m0, d), SourceConfig(d.dif).blockSize);
  }

  lemma ContinuedStrip(d: Descriptor, r: Record)
    requires d.DifStrip? && r.bytesCompleted <= d.size
    ensures var rest := Continued(d, r);
            && rest.DifStrip? && rest.src == d.src + r.bytesCompleted && rest.dst == d.dst + r.bytesCompleted
            && rest.size == d.size - r.bytesCompleted
            && SourceConfig(rest.dif) == SourceConfig(d.dif).(source := WithTags(SourceConfig(d.dif).source, r.source))
  {
    hide PackedFlags, BlockSize;
    SubExact(d.size, r.bytesCompleted);
  }

  /**
   * Advancing the destination by source blocks keeps the rest within the source's length, and skips past the first
   * part.
   */
  lemma StripFits(q: nat, n: nat, size: nat, cfg: Dif.Config)
    requires q <= n == Count(size, cfg.Step())
    ensures Offset(n, cfg.blockSize) <= Offset(n, cfg.Step()) <= size
    ensures Offset(q, cfg.Step()) + Offset(n - q, cfg.blockSize) <= size
    ensures Offset(q, cfg.blockSize) <= Offset(q, cfg.Step())
    ensures 0 < q < n ==>
            Offset(q, cfg.blockSize) < Offset(q, cfg.Step()) && Offset(q, cfg.blockSize) < Offset(n, cfg.blockSize)
  {
    CountSpan(size, cfg.Step());
    StepSplit(q, cfg);
    StepSplit(n - q, cfg);
    StepSplit(n, cfg);
    OffsetSum(q, n - q, cfg.Step());
    hide Offset, Count;
    if q < n {
      OffsetBefore(q, n, cfg.blockSize);
    }
  }

  lemma ReadyAfterStrip(m0: seq<Byte>, d: Descriptor, m1: seq<Byte>, r: Record)
    requires d.DifStrip? && Ready(m0, d) && StripClear(d) && Interrupted(m0, d, m1, r)
    ensures |m1| == |m0| && (Ready(m1, Continued(d, r)) <==> StripReaches(m0, d, r.bytesCompleted))
  {
    hide Dif.Strip, Join, Write, Read, Offset, Count, Blocks, SourceConfig, SourceTags, Dif.Check, Continued;
    var cfg := SourceConfig(d.dif);
    var q, n := Count(r.bytesCompleted, cfg.Step()), Count(d.size, cfg.Step());
    RestBlocks(m0, d.src, d.size, cfg.Step(), q);
    ContinuedStrip(d, r);
    StripFits(q, n, d.size, cfg);
    assert |m1| == |m0|;
  }

  /** The resumed strip writes the rest of the payloads, at the advanced destination. */
  lemma ResumedStrip(m0: seq<Byte>, d: Descriptor, m1: seq<Byte>, r: Record, q: nat, n: nat)
    requires d.DifStrip? && Ready(m0, d) && StripPasses(m0, d) && StripStopped(m0, d, r, q, n)
    requires |m1| == |m0| && StripReaches(m0, d, r.bytesCompleted)
    requires Read(m1, d.src + r.bytesCompleted, d.size - r.bytesCompleted) ==
             Read(m0, d.src + r.bytesCompleted, d.size - r.bytesCompleted)
    ensures var rest := Continued(d, r);
            && rest.DifStrip? && rest.dst == d.dst + r.bytesCompleted && Ready(m1, rest)
            && |StripOut(m1, rest)| == n - q
            && |Join(StripOut(m1, rest))| == Offset(n - q, SourceConfig(d.dif).blockSize)
            && InBounds(m1, rest.dst, |Join(StripOut(m1, rest))|)
            && Resumed(m1, d, r).memory == Write(m1, rest.dst, Join(StripOut(m1, rest)))
  {
    hide Dif.Strip, Join, Write, Read, Offset, Count, Blocks, SourceConfig, SourceTags, Dif.Check, Dif.CheckBuffer,
         DifRecord, Continued, AccumulatedRecord;
    var cfg := SourceConfig(d.dif);
    ContinuedStrip(d, r);
    var rest := Continued(d, r);
    RestBlocks(m0, d.src, d.size, cfg.Step(), q);
    StripFits(q, n, d.size, cfg);
    RestVerdict(m0, d.src, d.size, cfg, SourceConfig(rest.dif), r, q);
    JoinLength(StripOut(m1, rest), cfg.blockSize);
  }

  lemma StripSourceKept(m0: seq<Byte>, d: Descriptor, m1: seq<Byte>, r: Record, q: nat, n: nat)
    requires d.DifStrip? && Ready(m0, d) && StripPasses(m0, d) && StripStopped(m0, d, r, q, n)
             && Interrupted(m0, d, m1, r)
    ensures |m1| == |m0| && r.bytesCompleted <= d.size && q <= n
    ensures Read(m1, d.src + r.bytesCompleted, d.size - r.bytesCompleted) ==
            Read(m0, d.src + r.bytesCompleted, d.size - r.bytesCompleted)
  {
    hide Dif.Strip, Join, Write, Read, Offset, Count, Blocks, SourceConfig, SourceTags, Dif.Check, Dif.CheckBuffer,
         Execute;
    InterruptedStrip(m0, d, m1, r, q, n);
    RestBlocks(m0, d.src, d.size, SourceConfig(d.dif).Step(), q);
    StripFits(q, n, d.size, SourceConfig(d.dif));
    PartlyElsewhere(m0, d.dst, StripOut(m0, d), SourceConfig(d.dif).blockSize, q, m1, d.src + r.bytesCompleted,
                    d.size - r.bytesCompleted);
  }

  lemma StripResumesAtEnds(m0: seq<Byte>, d: Descriptor, m1: seq<Byte>, r: Record, q: nat, n: nat)
    requires d.DifStrip? && Ready(m0, d) && StripPasses(m0, d) && StripStopped(m0, d, r, q, n)
             && Interrupted(m0, d, m1, r)
    requires (q == 0 || q == n) && StripReaches(m0, d, r.bytesCompleted)
    ensures Ready(m1, Continued(d, r)) && Resumed(m1, d, r).memory == Execute(m0, d, CLEARED).memory
  {
    hide Dif.Strip, Write, Read, Offset, Count, Blocks, SourceConfig, SourceTags, Dif.Check, Dif.CheckBuffer, Continued,
         Resumed, Execute, Interrupted;
    StripSourceKept(m0, d, m1, r, q, n);
    InterruptedStrip(m0, d, m1, r, q, n);
    ResumedStrip(m0, d, m1, r, q, n);
    var out := StripOut(m0, d);
    if q == 0 {
      assert out[..0] == [];
      WriteNothing(m0, d.dst);
      StripFromStart(d, r, m0, n);
    } else {
      assert out[..n] == out;
      assert StripOut(m1, Continued(d, r)) == [];
      WriteNothing(m1, Continued(d, r).dst);
    }
  }

  lemma StripFromStart(d: Descriptor, r: Record, m: seq<Byte>, n: nat)
    requires d.DifStrip? && Ready(m, d) && StripStopped(m, d, r, 0, n)
    ensures Continued(d, r) == d
  {
    hide PackedFlags, BlockSize, Dif.Has, Dif.NextAppTag, Dif.NextRefTag, Dif.Check;
    OffsetZero(SourceConfig(d.dif).Step());
    SubExact(d.size, r.bytesCompleted);
  }

  /** Stopped anywhere else, the resumed strip never writes the byte after the first part. */
  lemma StripMissesByte(m0: seq<Byte>, d: Descriptor, m1: seq<Byte>, r: Record, q: nat, n: nat)
    requires d.DifStrip? && Ready(m0, d) && StripPasses(m0, d) && StripStopped(m0, d, r, q, n)
             && Interrupted(m0, d, m1, r)
    requires 0 < q < n && StripReaches(m0, d, r.bytesCompleted)
    ensures Ready(m1, Continued(d, r))
    ensures var p := d.dst + Offset(q, SourceConfig(d.dif).blockSize); p < |m0| && Resumed(m1, d, r).memory[p] == m0[p]
  {
    hide Dif.Strip, Write, Read, Offset, Count, Blocks, SourceConfig, SourceTags, Dif.Check, Dif.CheckBuffer, Continued,
         Resumed, Execute, Join;
    var cfg, out := SourceConfig(d.dif), StripOut(m0, d);
    StripSourceKept(m0, d, m1, r, q, n);
    InterruptedStrip(m0, d, m1, r, q, n);
    ResumedStrip(m0, d, m1, r, q, n);
    StripFits(q, n, d.size, cfg);
    JoinLength(out[..q], cfg.blockSize);
    KeptByte(m0, d.dst, Join(out[..q]), d.dst + r.bytesCompleted, Join(StripOut(m1, Continued(d, r))),
             d.dst + Offset(q, cfg.blockSize));
  }

  lemma StripFailsInside(m: seq<Byte>, d: Descriptor, r: Record, q: nat, n: nat) returns (m0: seq<Byte>, m1: seq<Byte>)
    requires d.DifStrip? && Ready(m, d) && StripPasses(m, d) && StripStopped(m, d, r, q, n) && 0 < q < n
    ensures |m0| == |m| && Ready(m0, d) && Read(m0, d.src, d.size) == Read(m, d.src, d.size)
            && Interrupted(m0, d, m1, r)
    ensures Ready(m1, Continued(d, r)) ==> Resumed(m1, d, r).memory != Execute(m0, d, CLEARED).memory
  {
    assert StripClear(d);
    hide Dif.Strip, Write, Read, Offset, Count, Blocks, SourceConfig, SourceTags, Dif.Check, Dif.CheckBuffer, Continued,
         Resumed, Execute, Interrupted, Join, Ready, StripPasses, StripStopped;
    var p, written := StripByte(m, d, r, q, n);
    m0 := m[p := if written == 0 then 1 else 0];
    m1 := StripChanged(m, d, r, q, n, p, m0[p]);
    ReadyAfterStrip(m0, d, m1, r);
    if StripReaches(m0, d, r.bytesCompleted) {
      StripMissesByte(m0, d, m1, r, q, n);
    }
    StripWrites(m, d, r, q, n, m0, p, written);
  }

  /** The byte the resumed strip misses, and what an uninterrupted one writes there. */
  lemma StripByte(m: seq<Byte>, d: Descriptor, r: Record, q: nat, n: nat) returns (p: nat, written: Byte)
    requires d.DifStrip? && Ready(m, d) && StripPasses(m, d) && StripStopped(m, d, r, q, n) && 0 < q < n
    ensures p == d.dst + Offset(q, SourceConfig(d.dif).blockSize) < |m| && p < d.dst + d.size
    ensures d.dst <= p < d.dst + |Join(StripOut(m, d))| && written == Join(StripOut(m, d))[p - d.dst]
  {
    hide Dif.Strip, Write, Read, Offset, Count, Blocks, SourceConfig, SourceTags, Dif.Check, Dif.CheckBuffer, Execute,
         Interrupted, Join;
    StripFits(q, n, d.size, SourceConfig(d.dif));
    InterruptedStrip(m, d, m, r, q, n);
    p := d.dst + Offset(q, SourceConfig(d.dif).blockSize);
    written := Join(StripOut(m, d))[p - d.dst];
  }

  /** Changing a destination byte changes neither the source nor what the strip makes of it. */
  lemma StripChanged(m: seq<Byte>, d: Descriptor, r: Record, q: nat, n: nat, p: nat, x: Byte) returns (m1: seq<Byte>)
    requires d.DifStrip? && Ready(m, d) && StripPasses(m, d) && StripStopped(m, d, r, q, n) && 0 < q < n
    requires p < |m| && d.dst <= p < d.dst + d.size
    ensures var m0 := m[p := x];
            && Ready(m0, d) && Read(m0, d.src, d.size) == Read(m, d.src, d.size) && StripPasses(m0, d)
            && StripStopped(m0, d, r, q, n)
            && StripOut(m0, d) == StripOut(m, d) && Interrupted(m0, d, m1, r)
  {
    hide Dif.Strip, Write, Offset, Count, Blocks, SourceConfig, SourceTags, Dif.Check, Dif.CheckBuffer, Execute,
         Interrupted, Join;
    var m0, cfg := m[p := x], SourceConfig(d.dif);
    assert Read(m0, d.src, d.size) == Read(m, d.src, d.size);
    JoinLength(StripOut(m, d)[..q], cfg.blockSize);
    StripFits(q, n, d.size, cfg);
    m1 := Write(m0, d.dst, Join(StripOut(m, d)[..q]));
    InterruptedStrip(m0, d, m1, r, q, n);
  }

  lemma StripWrites(m: seq<Byte>, d: Descriptor, r: Record, q: nat, n: nat, m0: seq<Byte>, p: nat, written: Byte)
    requires d.DifStrip? && Ready(m, d) && Ready(m0, d) && StripPasses(m0, d) && StripStopped(m0, d, r, q, n)
    requires StripOut(m0, d) == StripOut(m, d)
    requires d.dst <= p < d.dst + |Join(StripOut(m, d))| && written == Join(StripOut(m, d))[p - d.dst]
    ensures p < |Execute(m0, d, CLEARED).memory| && Execute(m0, d, CLEARED).memory[p] == written
  {
    hide Write, Join, Execute, Dif.Strip, Dif.Check, Dif.CheckBuffer, Offset, Count, Blocks, SourceConfig, InsertConfig,
         Interrupted;
    InterruptedStrip(m0, d, m0, r, q, n);
    WritePointwise(m0, d.dst, Join(StripOut(m, d)));
  }

  /**
   * Resuming a strip of a source that passes gives what an uninterrupted strip gives, whatever the destination held
   * before, exactly when the accelerator stopped before the first block or after the last.
   */
  lemma PassingStripResumesIff(m: seq<Byte>, d: Descriptor, r: Record, q: nat, n: nat)
    requires d.DifStrip? && Ready(m, d) && StripPasses(m, d) && StripStopped(m, d, r, q, n)
    requires StripReaches(m, d, r.bytesCompleted)
    ensures q == 0 || q == n <==>
            forall m0, m1 :: Ready(m0, d) && SameSource(m0, m, d.src, d.size) && Interrupted(m0, d, m1, r) ==>
              Ready(m1, Continued(d, r)) && Resumed(m1, d, r).memory == Execute(m0, d, CLEARED).memory
  {
    hide Execute, Resumed, Continued, Interrupted, Dif.CheckBuffer, Dif.Check, SourceTags, SourceConfig, Offset, Count,
         Blocks, StrippedSize;
    if q == 0 || q == n {
      forall m0, m1 | Ready(m0, d) && SameSource(m0, m, d.src, d.size) && Interrupted(m0, d, m1, r)
        ensures Ready(m1, Continued(d, r)) && Resumed(m1, d, r).memory == Execute(m0, d, CLEARED).memory
      {
        StripResumesAtEnds(m0, d, m1, r, q, n);
      }
    } else {
      assert q <= n;
      var m0, m1 := StripFailsInside(m, d, r, q, n);
      ReadyAfterStrip(m0, d, m1, r);
    }
  }
}
