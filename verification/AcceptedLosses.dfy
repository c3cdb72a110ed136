/** Accepted descriptors whose interrupted run loses something that the uninterrupted one has. */
module AcceptedLosses {
  import opened Memory
  import opened BlockLayout
  import opened Operations
  import Results
  import opened Continuation
  import opened ContinuationProofs
  import opened ContinuationDelta
  import opened ContinuationDif
  import opened Validation
  import StoppingPoints
  import StripExtents
  import Delta
  import DeltaKernels
  import Dif
  import VectorCompare

  // Compare

  /**
   * Three bytes that differ in the last, stopped after the first: the whole compare reports 2 and the resumed one 1.
   */
  lemma ComparePositionLost()
    ensures var m, d := [0, 0, 0, 1, 0, 0, 2], Compare(1, 4, 3, 0, false);
            var r := CLEARED.(status := PAGE_FAULT, bytesCompleted := 1);
            && Validate(d) == Success && BuffersExist(m, d)
            && Ready(m, d) && Interrupted(m, d, m, r) && Ready(m, Continued(d, r))
            && Execute(m, d, CLEARED).record.bytesCompleted == 2 && Resumed(m, d, r).record.bytesCompleted == 1
  {
    var m, d: Descriptor := [0, 0, 0, 1, 0, 0, 2], Compare(1, 4, 3, 0, false);
    var r := CLEARED.(status := PAGE_FAULT, bytesCompleted := 1);
    assert Read(m, 1, 3) == [0, 0, 1] && Read(m, 4, 3) == [0, 0, 2];
    VectorCompare.FirstDifferenceIs([0, 0, 1], [0, 0, 2], 2);
    assert Read(m, 1, 1) == [0] == Read(m, 4, 1);
    ResumeCompare(m, d, m, r);
  }

  // Create-delta

  /** Two words of which the first differ. */
  lemma FirstWordDiffers(m: seq<Byte>)
    requires |m| >= 40 && m[8] == 1 && forall i :: 8 < i < 40 ==> m[i] == 0
    ensures |DeltaKernels.Difference(m, 8, 24, 8)| == 1
    ensures DeltaKernels.WordsOf(m, 8, 8) != DeltaKernels.WordsOf(m, 24, 8)
    ensures DeltaKernels.WordsOf(m, 16, 8) == DeltaKernels.WordsOf(m, 32, 8)
  {
    var first1, first2 := DeltaKernels.WordsOf(m, 8, 8), DeltaKernels.WordsOf(m, 24, 8);
    assert first1[0][0] == 1 && first2[0][0] == 0;
    assert Delta.Notes(first1[..0], first2[..0]) == [];
    assert Read(m, 16, 8) == Read(m, 32, 8);
  }

  /**
   * Two words that differ in the first, interrupted between them: the whole run reports a difference, the resumed one
   * none.
   */
  lemma CreateDeltaResultLost() returns (m0: seq<Byte>, d: Descriptor, m1: seq<Byte>, r: Record)
    ensures Validate(d) == Success && BuffersExist(m0, d)
    ensures d.CreateDelta? && d.size == 16 && Ready(m0, d) && Interrupted(m0, d, m1, r) && Ready(m1, Continued(d, r))
    ensures Execute(m0, d, CLEARED).record.result == Results.NOT_EQUAL
    ensures Resumed(m1, d, r).record.result == Results.EQUAL
    ensures Execute(m0, d, CLEARED).record.status != Resumed(m1, d, r).record.status
  {
    m0 := seq(120, i => if i == 8 then 1 else 0);
    d := CreateDelta(8, 24, 16, 40, 80, 2, true);
    FirstWordDiffers(m0);
    hide DeltaKernels.Difference, DeltaKernels.WordsOf, Interrupted, Execute, Resumed, Continued;
    m1, r := StoppingPoints.InterruptionAt(m0, d, 8);
    ResumeCreateDeltaResult(m0, d, m1, r);
  }

  // Strip

  /** The first block of a source that passes, passes. */
  lemma FirstBlockDone(m: seq<Byte>, src: nat, size: nat, cfg: Dif.Config, r: Record)
    requires InBounds(m, src, size) && 1 <= Count(size, cfg.Step()) && Dif.CheckBuffer(cfg, Read(m, src, size)).Passed?
    requires r.bytesCompleted == cfg.Step() && r.source == SourceTags(cfg, 1)
    ensures SourceBlocksDone(m, src, size, cfg, r, 1)
  {
    hide Dif.BlockFaults, SourceTags, Count;
    var blocks := Blocks(Read(m, src, size), cfg.Step());
    assert Dif.FaultList(cfg, blocks[..1])[0] == Dif.FaultList(cfg, blocks)[0];
    OffsetNext(0, cfg.Step());
    OffsetZero(cfg.Step());
  }

  /**
   * Every accepted strip of two or more blocks that pass can be stopped after the first, in some memory around it, such
   * that the resumed run changes a byte outside the destination.
   */
  lemma AcceptedStripOverruns(m: seq<Byte>, d: Descriptor) returns (m0: seq<Byte>, m1: seq<Byte>, r: Record)
    requires d.DifStrip? && Validate(d) == Success && BuffersExist(m, d)
    requires var cfg := SourceConfig(d.dif);
             && 2 <= Count(d.size, cfg.Step()) && Dif.CheckBuffer(cfg, Read(m, d.src, d.size)).Passed?
             && StripReaches(m, d, cfg.Step())
    ensures Ready(m0, d) && SameSource(m0, m, d.src, d.size) && Interrupted(m0, d, m1, r) && Ready(m1, Continued(d, r))
    ensures !StripExtents.OnlyWithin(m0, Resumed(m1, d, r).memory, d.dst, StrippedSize(d.size, SourceConfig(d.dif)))
  {
    StripIsDisjoint(m, d);
    var cfg := SourceConfig(d.dif);
    CountUnique(cfg.Step(), cfg.Step(), 1, 0);
    StepFits(d.size, cfg.Step());
    hide Offset, Count, SourceConfig, SourceTags, Dif.CheckBuffer, StrippedSize, Interrupted, Continued, Resumed,
         SourceBlocksDone, StripExtents.OnlyWithin;
    r := CLEARED.(status := PAGE_FAULT, bytesCompleted := cfg.Step(), source := SourceTags(cfg, 1));
    FirstBlockDone(m, d.src, d.size, cfg, r);
    m0, m1 := StripExtents.OverrunShows(m, d, r, 1, Count(d.size, cfg.Step()));
  }

  lemma StepFits(size: uint32, step: nat)
    requires 0 < step && 1 <= Count(size, step)
    ensures step < TWO_TO_THE_32
  {
    BlockFits(size, step, 0);
    OffsetZero(step);
  }

  /**
   * Every accepted insert of two or more blocks can be stopped after the first such that the resumed run loses bytes.
   */
  lemma AcceptedInsertLoses(m: seq<Byte>, d: Descriptor) returns (m0: seq<Byte>, m1: seq<Byte>, r: Record)
    requires d.DifInsert? && Validate(d) == Success && BuffersExist(m, d) && Unchecked(m, d)
    requires 2 <= Count(d.size, InsertConfig(d.dif).blockSize)
    ensures Ready(m0, d) && SameSource(m0, m, d.src, d.size) && Interrupted(m0, d, m1, r) && Ready(m1, Continued(d, r))
    ensures Resumed(m1, d, r).memory != Execute(m0, d, CLEARED).memory
  {
    InsertIsDisjoint(m, d);
    var size := InsertConfig(d.dif).blockSize;
    CountUnique(size, size, 1, 0);
    StepFits(d.size, size);
    OffsetNext(0, size);
    OffsetZero(size);
    hide Ready, Offset, Count, InsertConfig, DestinationTags, Interrupted, Continued, Resumed, Execute;
    r := CLEARED.(status := PAGE_FAULT, bytesCompleted := size, destination := DestinationTags(InsertConfig(d.dif), 1));
    m0, m1 := InsertFailsInside(m, d, r, 1, Count(d.size, size));
  }

  /** Where no check is asked for, every source passes. */
  lemma UncheckedPasses(cfg: Dif.Config, buffer: seq<Byte>)
    requires Dif.Has(cfg.flags, Dif.SRC_GUARD_CHECK_DISABLE) && Dif.Has(cfg.flags, Dif.SRC_REF_TAG_CHECK_DISABLE)
    requires cfg.source.appMask == 0 && !Dif.Has(cfg.flags, Dif.SRC_F_DETECT_ALL)
    ensures Dif.CheckBuffer(cfg, buffer).Passed?
  {
    Dif.AppTagCheckedIff(0);
  }

  /** Two blocks of 512 bytes with the checks switched off: a strip that is accepted and can overrun its destination. */
  lemma StripOverrunExists() returns (m0: seq<Byte>, d: Descriptor, m1: seq<Byte>, r: Record)
    ensures d.DifStrip? && Validate(d) == Success && BuffersExist(m0, d) && Ready(m0, d) && Interrupted(m0, d, m1, r)
    ensures Ready(m1, Continued(d, r))
    ensures !StripExtents.OnlyWithin(m0, Resumed(m1, d, r).memory, d.dst, StrippedSize(d.size, SourceConfig(d.dif)))
  {
    var m := seq(4096, _ => 0 as Byte);
    var dif := DifFields(0, 0x60, 0, Dif.Seeds(0, 0, 0), UNUSED);
    d := DifStrip(8, 2048, 1040, dif);
    UncheckedConfig(dif);
    UncheckedPasses(SourceConfig(dif), Read(m, d.src, d.size));
    assert Count(1040, 520) == 2 && Count(520, 520) == 1 && Offset(2, 512) == 1024 && Offset(1, 512) == 512;
    hide SourceConfig, Dif.CheckBuffer, Interrupted, Continued, Resumed, StripExtents.OnlyWithin, Count, Offset;
    m0, m1, r := AcceptedStripOverruns(m, d);
  }

  lemma UncheckedConfig(dif: DifFields)
    requires dif == DifFields(0, 0x60, 0, Dif.Seeds(0, 0, 0), UNUSED)
    ensures var cfg := SourceConfig(dif);
            && cfg.blockSize == 512 == BlockSize(dif.flags) && cfg.source.appMask == 0
            && Dif.Has(cfg.flags, Dif.SRC_GUARD_CHECK_DISABLE) && Dif.Has(cfg.flags, Dif.SRC_REF_TAG_CHECK_DISABLE)
            && !Dif.Has(cfg.flags, Dif.SRC_F_DETECT_ALL)
  {
  }
}
