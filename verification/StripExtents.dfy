/** Where a resumed strip writes, and what resumed strips and inserts report. */
module StripExtents {
  import opened Memory
  import opened BlockLayout
  import opened Operations
  import opened Continuation
  import opened ContinuationProofs
  import opened ContinuationDif
  import opened ContinuationFailing
  import Dif
  import Registers

  // Beyond the destination

  /** No byte outside a buffer has changed. */
  predicate OnlyWithin(m: seq<Byte>, m': seq<Byte>, a: nat, n: nat) {
    |m'| == |m| && forall p :: 0 <= p < |m| && !(a <= p < a + n) ==> m'[p] == m[p]
  }

  lemma WriteWithin(m: seq<Byte>, a: nat, s: seq<Byte>, n: nat)
    requires InBounds(m, a, |s|) && |s| <= n
    ensures OnlyWithin(m, Write(m, a, s), a, n)
  {
    WritePointwise(m, a, s);
    hide Write;
  }

  /** The rest ends as far behind the destination as there are field bytes in the part already done. */
  lemma RestEnds(q: nat, n: nat, cfg: Dif.Config)
    requires 0 < q < n
    ensures Offset(q, cfg.Step()) + Offset(n - q, cfg.blockSize) == Offset(n, cfg.blockSize) + Dif.FIELD_SIZE * q
    ensures Offset(n, cfg.blockSize) + Dif.FIELD_SIZE * q < Offset(n, cfg.Step())
  {
    StepSplit(q, cfg);
    StepSplit(n, cfg);
    OffsetSum(q, n - q, cfg.blockSize);
    hide Offset;
  }

  /** The last of the joined bytes. */
  lemma LastJoined(out: seq<seq<Byte>>, size: nat)
    requires out != [] && Uniform(out, size) && 0 < size
    ensures Join(out) != [] && Join(out)[|Join(out)| - 1] == out[|out| - 1][size - 1]
  {
  }

  /** The rest's payloads are the last ones of the whole. */
  lemma RestPayloads(m0: seq<Byte>, d: Descriptor, m1: seq<Byte>, r: Record, q: nat, n: nat)
    requires d.DifStrip? && Ready(m0, d) && StripStopped(m0, d, r, q, n) && |m1| == |m0| && r.bytesCompleted <= d.size
    requires Read(m1, d.src + r.bytesCompleted, d.size - r.bytesCompleted) ==
             Read(m0, d.src + r.bytesCompleted, d.size - r.bytesCompleted)
    requires Ready(m1, Continued(d, r))
    ensures q <= n && Continued(d, r).DifStrip? && StripOut(m1, Continued(d, r)) == StripOut(m0, d)[q..]
  {
    hide Read, Offset, Count, Blocks, SourceConfig, SourceTags, Dif.Check, Continued;
    RestBlocks(m0, d.src, d.size, SourceConfig(d.dif).Step(), q);
    ContinuedStrip(d, r);
  }

  /**
   * Stopped inside, a strip of a source that passes ends 8 bytes behind its destination for every block that was done:
   * there it stores the last payload byte.
   */
  lemma StripOverruns(m0: seq<Byte>, d: Descriptor, m1: seq<Byte>, r: Record, q: nat, n: nat)
    requires d.DifStrip? && Ready(m0, d) && StripPasses(m0, d) && StripStopped(m0, d, r, q, n)
             && Interrupted(m0, d, m1, r)
    requires 0 < q < n && StripReaches(m0, d, r.bytesCompleted)
    ensures Ready(m1, Continued(d, r))
    ensures var size := SourceConfig(d.dif).blockSize;
            var p := d.dst + StrippedSize(d.size, SourceConfig(d.dif)) + Dif.FIELD_SIZE * q - 1;
            p < |m0| && Resumed(m1, d, r).memory[p] == StripOut(m0, d)[n - 1][size - 1]
  {
    hide Dif.Strip, Write, Read, Offset, Count, Blocks, SourceConfig, SourceTags, Dif.Check, Dif.CheckBuffer, Continued,
         Resumed, Execute, Interrupted, Join;
    var cfg, rest := SourceConfig(d.dif), Continued(d, r);
    StripSourceKept(m0, d, m1, r, q, n);
    ResumedStrip(m0, d, m1, r, q, n);
    RestPayloads(m0, d, m1, r, q, n);
    RestEnds(q, n, cfg);
    LastJoined(StripOut(m1, rest), cfg.blockSize);
    WritePointwise(m1, rest.dst, Join(StripOut(m1, rest)));
  }

  /** Some destination content shows it. */
  lemma OverrunShows(m: seq<Byte>, d: Descriptor, r: Record, q: nat, n: nat) returns (m0: seq<Byte>, m1: seq<Byte>)
    requires d.DifStrip? && Ready(m, d) && StripPasses(m, d) && StripStopped(m, d, r, q, n)
    requires 0 < q < n && StripReaches(m, d, r.bytesCompleted)
    ensures Ready(m0, d) && SameSource(m0, m, d.src, d.size) && Interrupted(m0, d, m1, r) && Ready(m1, Continued(d, r))
    ensures !OnlyWithin(m0, Resumed(m1, d, r).memory, d.dst, StrippedSize(d.size, SourceConfig(d.dif)))
  {
    hide Dif.Strip, Write, Offset, Blocks, SourceConfig, SourceTags, Dif.Check, Dif.CheckBuffer, Continued, Resumed,
         Execute, Interrupted, Join;
    var cfg, out := SourceConfig(d.dif), StripOut(m, d);
    var last := out[n - 1][cfg.blockSize - 1];
    RestEnds(q, n, cfg);
    RestBlocks(m, d.src, d.size, cfg.Step(), q);
    StripFits(q, n, d.size, cfg);
    var p := d.dst + StrippedSize(d.size, cfg) + Dif.FIELD_SIZE * q - 1;
    m0 := m[p := if last == 0 then 1 else 0];
    m1 := StripChanged(m, d, r, q, n, p, m0[p]);
    StripOverruns(m0, d, m1, r, q, n);
  }

  lemma StaysInsideAtEnds(m0: seq<Byte>, d: Descriptor, m1: seq<Byte>, r: Record, q: nat, n: nat)
    requires d.DifStrip? && Ready(m0, d) && StripPasses(m0, d) && StripStopped(m0, d, r, q, n)
             && Interrupted(m0, d, m1, r)
    requires (q == 0 || q == n) && StripReaches(m0, d, r.bytesCompleted)
    ensures Ready(m1, Continued(d, r))
    ensures OnlyWithin(m0, Resumed(m1, d, r).memory, d.dst, StrippedSize(d.size, SourceConfig(d.dif)))
  {
    hide Dif.Strip, Write, Read, Offset, Blocks, SourceConfig, SourceTags, Dif.Check, Dif.CheckBuffer, Continued,
         Resumed, Execute, Interrupted, Join, OnlyWithin;
    StripResumesAtEnds(m0, d, m1, r, q, n);
    InterruptedStrip(m0, d, m1, r, q, n);
    WriteWithin(m0, d.dst, Join(StripOut(m0, d)), StrippedSize(d.size, SourceConfig(d.dif)));
  }

  lemma FailingStaysInside(m0: seq<Byte>, d: Descriptor, m1: seq<Byte>, r: Record, q: nat, n: nat)
    requires d.DifStrip? && Ready(m0, d) && StripClear(d) && StripStopped(m0, d, r, q, n)
             && Interrupted(m0, d, m1, r) && StripReaches(m0, d, r.bytesCompleted)
    requires Dif.CheckBuffer(SourceConfig(d.dif), Read(m0, d.src, d.size)).Failed?
    ensures Ready(m1, Continued(d, r))
    ensures OnlyWithin(m0, Resumed(m1, d, r).memory, d.dst, StrippedSize(d.size, SourceConfig(d.dif)))
  {
    hide Dif.Strip, Write, Read, Offset, Blocks, SourceConfig, SourceTags, Dif.Check, Dif.CheckBuffer, Continued,
         Resumed, Execute, Interrupted, Join, OnlyWithin;
    var out, size := StripOut(m0, d), SourceConfig(d.dif).blockSize;
    FailingStrip(m0, d, m1, r, q, n);
    JoinLength(out[..q], size);
    OffsetMonotone(q, n, size);
    WriteWithin(m0, d.dst, Join(out[..q]), StrippedSize(d.size, SourceConfig(d.dif)));
  }

  /**
   * A resumed strip changes nothing outside its destination, whatever the memory around it held, exactly when the
   * accelerator stopped before the first block or after the last, or the source fails.
   */
  lemma StripStaysInsideIff(m: seq<Byte>, d: Descriptor, r: Record, q: nat, n: nat)
    requires d.DifStrip? && Ready(m, d) && StripClear(d) && StripStopped(m, d, r, q, n)
    requires StripReaches(m, d, r.bytesCompleted)
    ensures q == 0 || q == n || Dif.CheckBuffer(SourceConfig(d.dif), Read(m, d.src, d.size)).Failed? <==>
            forall m0, m1 :: Ready(m0, d) && SameSource(m0, m, d.src, d.size) && Interrupted(m0, d, m1, r) ==>
              Ready(m1, Continued(d, r))
              && OnlyWithin(m0, Resumed(m1, d, r).memory, d.dst, StrippedSize(d.size, SourceConfig(d.dif)))
  {
    hide Execute, Resumed, Continued, Interrupted, Dif.CheckBuffer, Dif.Check, SourceTags, SourceConfig, Offset, Count,
         Blocks, StrippedSize, OnlyWithin;
    if q == 0 || q == n || Dif.CheckBuffer(SourceConfig(d.dif), Read(m, d.src, d.size)).Failed? {
      forall m0, m1 | Ready(m0, d) && SameSource(m0, m, d.src, d.size) && Interrupted(m0, d, m1, r)
        ensures Ready(m1, Continued(d, r))
        ensures OnlyWithin(m0, Resumed(m1, d, r).memory, d.dst, StrippedSize(d.size, SourceConfig(d.dif)))
      {
        if Dif.CheckBuffer(SourceConfig(d.dif), Read(m, d.src, d.size)).Failed? {
          FailingStaysInside(m0, d, m1, r, q, n);
        } else {
          StaysInsideAtEnds(m0, d, m1, r, q, n);
        }
      }
    } else {
      assert q <= n;
      var m0, m1 := OverrunShows(m, d, r, q, n);
    }
  }

  // What is left in memory

  /** A resumed strip of a source that passes writes the rest's payloads, where the source's advance puts them. */
  lemma StripLeaves(m0: seq<Byte>, d: Descriptor, m1: seq<Byte>, r: Record, q: nat, n: nat)
    requires d.DifStrip? && Ready(m0, d) && StripPasses(m0, d) && StripStopped(m0, d, r, q, n)
             && Interrupted(m0, d, m1, r) && StripReaches(m0, d, r.bytesCompleted)
    ensures Ready(m1, Continued(d, r)) && q <= n
    ensures var rest := Join(StripOut(m0, d)[q..]);
            && InBounds(m1, d.dst + r.bytesCompleted, |rest|)
            && Resumed(m1, d, r).memory == Write(m1, d.dst + r.bytesCompleted, rest)
  {
    hide Dif.Strip, Write, Read, Offset, Count, Blocks, SourceConfig, SourceTags, Dif.Check, Dif.CheckBuffer, Continued,
         Resumed, Execute, Interrupted, Join;
    StripSourceKept(m0, d, m1, r, q, n);
    ResumedStrip(m0, d, m1, r, q, n);
    RestPayloads(m0, d, m1, r, q, n);
  }

  /** The fields of the rest, under the tags the record holds, are the last ones of the whole. */
  lemma RestFields(cfg: Dif.Config, rest: Dif.Config, payloads: seq<seq<Byte>>, q: nat)
    requires Uniform(payloads, cfg.blockSize) && q <= |payloads|
    requires rest.blockSize == cfg.blockSize && rest.flags == cfg.flags
             && rest.destination == WithTags(cfg.destination, DestinationTags(cfg, q))
    ensures Dif.Insert(rest, payloads[q..]) == Dif.Insert(cfg, payloads)[q..]
  {
    hide Dif.Guard, Dif.StoreField, Dif.StoredAppTag, Dif.Has, Dif.Reverse32;
    forall k | 0 <= k < |payloads| - q
      ensures Dif.NewField(rest, k, payloads[q..][k]) == Dif.NewField(cfg, q + k, payloads[q + k])
    {
      TagsResume(cfg, rest, q, k);
    }
    hide Dif.NewField;
    var s, t := Dif.Insert(rest, payloads[q..]), Dif.Insert(cfg, payloads)[q..];
    assert forall k :: 0 <= k < |s| ==> s[k] == t[k];
  }

  lemma TagsResume(cfg: Dif.Config, rest: Dif.Config, q: nat, k: nat)
    requires rest.flags == cfg.flags && rest.destination == WithTags(cfg.destination, DestinationTags(cfg, q))
    ensures Dif.DestinationApp(rest, k) == Dif.DestinationApp(cfg, q + k)
    ensures Dif.DestinationRef(rest, k) == Dif.DestinationRef(cfg, q + k)
  {
    hide Dif.StoredAppTag, Dif.Has, Dif.Reverse32, Dif.NextAppTag, Dif.NextRefTag, Registers.Iterate;
    Registers.IterateSum(Dif.NextAppTag(Dif.Has(cfg.flags, Dif.DST_INC_APP_TAG)), cfg.destination.appTag, q, k);
    Registers.IterateSum(Dif.NextRefTag(Dif.Has(cfg.flags, Dif.DST_FIX_REF_TAG)), cfg.destination.refTag, q, k);
  }

  /**
   * However an insert is interrupted, its resumed run writes the whole one's remaining blocks, as far behind as
   * payloads.
   */
  lemma InsertLeaves(m0: seq<Byte>, d: Descriptor, m1: seq<Byte>, r: Record, q: nat, n: nat)
    requires d.DifInsert? && Ready(m0, d) && InsertStopped(d, r, q, n) && Interrupted(m0, d, m1, r)
    ensures Ready(m1, Continued(d, r)) && q <= |InsertOut(m0, d)|
    ensures var rest := Join(InsertOut(m0, d)[q..]);
            && InBounds(m1, d.dst + r.bytesCompleted, |rest|)
            && Resumed(m1, d, r).memory == Write(m1, d.dst + r.bytesCompleted, rest)
  {
    hide Dif.Insert, Write, Read, Offset, Count, Blocks, InsertConfig, DestinationTags, Continued, Resumed, Execute,
         Join,
         PartlyWritten;
    var cfg := InsertConfig(d.dif);
    InterruptedInsert(m0, d, m1, r, q, n);
    RestBlocks(m0, d.src, d.size, cfg.blockSize, q);
    PartlyElsewhere(m0, d.dst, InsertOut(m0, d), cfg.Step(), q, m1, d.src, d.size);
    SliceOfRead(m0, d.src, d.size, r.bytesCompleted, d.size - r.bytesCompleted);
    SliceOfRead(m1, d.src, d.size, r.bytesCompleted, d.size - r.bytesCompleted);
    ReadyAfterInsert(m0, d, m1, r, q, n);
    ContinuedInsert(d, r);
    ResumedInsert(m1, d, r);
    RestFields(cfg, InsertConfig(Continued(d, r).dif), Blocks(Read(m0, d.src, d.size), cfg.blockSize), q);
  }

  // Answers

  /** Whatever the source holds, its unread part is as it was. */
  lemma UnreadKept(m0: seq<Byte>, d: Descriptor, m1: seq<Byte>, r: Record, q: nat)
    requires d.DifStrip? && Ready(m0, d) && StripClear(d) && Interrupted(m0, d, m1, r)
    requires q == Count(r.bytesCompleted, SourceConfig(d.dif).Step())
    ensures |m1| == |m0| && r.bytesCompleted <= d.size
    ensures Read(m1, d.src + r.bytesCompleted, d.size - r.bytesCompleted) ==
            Read(m0, d.src + r.bytesCompleted, d.size - r.bytesCompleted)
  {
    hide Dif.Strip, Join, Write, Read, Offset, Count, Blocks, SourceConfig, SourceTags, Dif.Check, PartlyWritten;
    var cfg := SourceConfig(d.dif);
    RestBlocks(m0, d.src, d.size, cfg.Step(), q);
    StripFits(q, Count(d.size, cfg.Step()), d.size, cfg);
    PartlyElsewhere(m0, d.dst, StripOut(m0, d), cfg.blockSize, q, m1, d.src + r.bytesCompleted,
                    d.size - r.bytesCompleted);
  }

  /** However a strip is interrupted, it reports what the whole one does: status, faults and place of the failure. */
  lemma StripAnswer(m0: seq<Byte>, d: Descriptor, m1: seq<Byte>, r: Record)
    requires d.DifStrip? && Ready(m0, d) && StripClear(d) && Interrupted(m0, d, m1, r) && Ready(m1, Continued(d, r))
    ensures AnswerOf(d, Resumed(m1, d, r).record) == AnswerOf(d, Execute(m0, d, CLEARED).record)
  {
    hide Dif.CheckBuffer, Dif.Check, Dif.Strip, Offset, Count, Blocks, SourceTags, PackedFlags, BlockSize, DifRecord,
         Read, Write, AnswerOf, AccumulatedRecord, PartlyWritten, Join, StrippedSize;
    var cfg, q := SourceConfig(d.dif), Count(r.bytesCompleted, SourceConfig(d.dif).Step());
    var rest := SourceConfig(d.dif.(source := WithTags(d.dif.source, r.source)));
    RestVerdict(m0, d.src, d.size, cfg, rest, r, q);
    SubExact(d.size, r.bytesCompleted);
    UnreadKept(m0, d, m1, r, q);
    VerdictFits(rest, Read(m0, d.src + r.bytesCompleted, d.size - r.bytesCompleted));
    RecordsMerge(d, Continued(d, r),
                 Dif.CheckBuffer(rest, Read(m0, d.src + r.bytesCompleted, d.size - r.bytesCompleted)),
                 cfg.Step(), d.size, q, CLEARED, r);
  }

  lemma InsertAnswer(m0: seq<Byte>, d: Descriptor, m1: seq<Byte>, r: Record)
    requires d.DifInsert? && Ready(m0, d) && Interrupted(m0, d, m1, r) && Ready(m1, Continued(d, r))
    ensures AnswerOf(d, Resumed(m1, d, r).record) == AnswerOf(d, Execute(m0, d, CLEARED).record)
  {
    hide Interrupted, Ready, Dif.InsertBuffer, Write;
  }
}
