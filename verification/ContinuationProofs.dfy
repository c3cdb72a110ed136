/** An interrupted operation ends as an uninterrupted one does, operation by operation. */
module ContinuationProofs {
  import opened Memory
  import opened Operations
  import Results
  import opened Continuation
  import MemMoveKernel = MemMove
  import VectorFill
  import VectorCompare
  import PatternCompare
  import Crc32

  lemma SubExact(size: uint32, q: uint32)
    requires q <= size
    ensures Sub32(size, q) == size - q
  {
  }

  lemma AddExact(x: uint32, y: uint32)
    requires x + y < TWO_TO_THE_32
    ensures Add32(x, y) == x + y
  {
  }

  lemma ReadConcat(m: seq<Byte>, a: nat, q: nat, k: nat)
    requires InBounds(m, a, q + k)
    ensures Read(m, a, q) + Read(m, a + q, k) == Read(m, a, q + k)
  {
  }

  lemma ReadFrom(m: seq<Byte>, a: nat, q: nat, n: nat)
    requires q <= n && InBounds(m, a, n)
    ensures Read(m, a, n)[..q] == Read(m, a, q) && Read(m, a, n)[q..] == Read(m, a + q, n - q)
  {
  }

  // Moves

  lemma MovedForward(m: seq<Byte>, src: nat, dst: nat, q: nat, n: nat)
    requires q <= n && InBounds(m, src, n) && InBounds(m, dst, n) && ForwardSafe(src, dst, n)
    ensures MemMoveKernel.Moved(MemMoveKernel.Moved(m, src, dst, q), src + q, dst + q, n - q) ==
            MemMoveKernel.Moved(m, src, dst, n)
  {
    hide Write, Read;
    ReadElsewhere(m, dst, Read(m, src, q), src + q, n - q);
    ReadConcat(m, src, q, n - q);
    WriteAppend(m, dst, Read(m, src, q), Read(m, src + q, n - q));
  }

  lemma MovedBackward(m: seq<Byte>, src: nat, dst: nat, k: nat, n: nat)
    requires k <= n && InBounds(m, src, n) && InBounds(m, dst, n) && BackwardSafe(src, dst, n)
    ensures MemMoveKernel.Moved(MemMoveKernel.Moved(m, src + k, dst + k, n - k), src, dst, k) ==
            MemMoveKernel.Moved(m, src, dst, n)
  {
    hide Write, Read;
    ReadElsewhere(m, dst + k, Read(m, src + k, n - k), src, k);
    ReadConcat(m, src, k, n - k);
    WriteCommute(m, dst + k, Read(m, src + k, n - k), dst, Read(m, src, k));
    WriteAppend(m, dst, Read(m, src, k), Read(m, src + k, n - k));
  }

  lemma ResumeMemMove(m0: seq<Byte>, d: Descriptor, m1: seq<Byte>, r: Record)
    requires d.MemMove? && Ready(m0, d) && Interrupted(m0, d, m1, r)
    ensures Ready(m1, Continued(d, r))
    ensures Resumed(m1, d, r).memory == Execute(m0, d, CLEARED).memory
    ensures AnswerOf(d, Resumed(m1, d, r).record) == AnswerOf(d, Execute(m0, d, CLEARED).record)
  {
    hide Write, Read, MemMoveKernel.Moved;
    var q := r.bytesCompleted;
    SubExact(d.size, q);
    if r.result == 0 {
      MovedForward(m0, d.src, d.dst, q, d.size);
    } else {
      MovedBackward(m0, d.src, d.dst, d.size - q, d.size);
    }
  }

  lemma ResumeFill(m0: seq<Byte>, d: Descriptor, m1: seq<Byte>, r: Record)
    requires d.Fill? && Ready(m0, d) && Interrupted(m0, d, m1, r)
    ensures Ready(m1, Continued(d, r))
    ensures Resumed(m1, d, r).memory == Execute(m0, d, CLEARED).memory
    ensures AnswerOf(d, Resumed(m1, d, r).record) == AnswerOf(d, Execute(m0, d, CLEARED).record)
  {
    hide Write, VectorFill.Filled;
    SubExact(d.size, r.bytesCompleted);
    VectorFill.WriteFilledAppend(m0, d.dst, d.pattern, d.pattern, 0, r.bytesCompleted, d.size - r.bytesCompleted);
  }

  lemma DualcastSplit(m: seq<Byte>, a: nat, b: nat, s: seq<Byte>, t: seq<Byte>)
    requires InBounds(m, a, |s| + |t|) && InBounds(m, b, |s| + |t|) && Disjoint(a, |s| + |t|, b, |s| + |t|)
    ensures Write(Write(Write(Write(m, a, s), b, s), a + |s|, t), b + |s|, t) == Write(Write(m, a, s + t), b, s + t)
  {
    hide Write;
    WriteCommute(Write(m, a, s), b, s, a + |s|, t);
    WriteAppend(m, a, s, t);
    WriteAppend(Write(m, a, s + t), b, s, t);
  }

  lemma ResumeDualcast(m0: seq<Byte>, d: Descriptor, m1: seq<Byte>, r: Record)
    requires d.Dualcast? && Ready(m0, d) && Interrupted(m0, d, m1, r)
    ensures Ready(m1, Continued(d, r))
    ensures Resumed(m1, d, r).memory == Execute(m0, d, CLEARED).memory
    ensures AnswerOf(d, Resumed(m1, d, r).record) == AnswerOf(d, Execute(m0, d, CLEARED).record)
  {
    hide Write, Read;
    var q, k := r.bytesCompleted, d.size - r.bytesCompleted;
    SubExact(d.size, q);
    var s := Read(m0, d.src, q);
    ReadElsewhere(m0, d.dst1, s, d.src + q, k);
    ReadElsewhere(Write(m0, d.dst1, s), d.dst2, s, d.src + q, k);
    ReadConcat(m0, d.src, q, k);
    DualcastSplit(m0, d.dst1, d.dst2, s, Read(m0, d.src + q, k));
  }

  // Checksums

  lemma ResumeCrc(m0: seq<Byte>, d: Descriptor, m1: seq<Byte>, r: Record)
    requires d.Crc? && Ready(m0, d) && Interrupted(m0, d, m1, r)
    ensures Ready(m1, Continued(d, r))
    ensures Resumed(m1, d, r).memory == Execute(m0, d, CLEARED).memory
    ensures AnswerOf(d, Resumed(m1, d, r).record) == AnswerOf(d, Execute(m0, d, CLEARED).record)
  {
    hide Crc32.Checksum;
    var q, k := r.bytesCompleted, d.size - r.bytesCompleted;
    SubExact(d.size, q);
    ReadConcat(m0, d.src, q, k);
    Crc32.ChecksumResumes(Read(m0, d.src, q), Read(m0, d.src + q, k), d.seed, d.options, Crc32.CRC_32C);
  }

  lemma ResumeCopyCrc(m0: seq<Byte>, d: Descriptor, m1: seq<Byte>, r: Record)
    requires d.CopyCrc? && Ready(m0, d) && Interrupted(m0, d, m1, r)
    ensures Ready(m1, Continued(d, r))
    ensures Resumed(m1, d, r).memory == Execute(m0, d, CLEARED).memory
    ensures AnswerOf(d, Resumed(m1, d, r).record) == AnswerOf(d, Execute(m0, d, CLEARED).record)
  {
    hide Crc32.Checksum, Write, Read;
    var q, k := r.bytesCompleted, d.size - r.bytesCompleted;
    SubExact(d.size, q);
    ReadConcat(m0, d.src, q, k);
    ReadElsewhere(m0, d.dst, Read(m0, d.src, q), d.src + q, k);
    Crc32.ChecksumResumes(Read(m0, d.src, q), Read(m0, d.src + q, k), d.seed, d.options, Crc32.CRC_32C);
    MovedForward(m0, d.src, d.dst, q, d.size);
  }

  // Comparisons

  lemma FirstDifferenceAfter(x: seq<Byte>, y: seq<Byte>, q: nat)
    requires |x| == |y| && q <= |x| && x[..q] == y[..q]
    ensures VectorCompare.FirstDifference(x, y) == q + VectorCompare.FirstDifference(x[q..], y[q..])
  {
    hide VectorCompare.FirstDifference;
    var e := VectorCompare.FirstDifference(x[q..], y[q..]);
    forall i | 0 <= i < q + e
      ensures x[i] == y[i]
    {
      if i < q {
        assert x[..q][i] == y[..q][i];
      } else {
        assert x[q..][i - q] == y[q..][i - q];
      }
    }
    VectorCompare.FirstDifferenceIs(x, y, q + e);
  }

  /**
   * The resumed compare reports what the whole one does, but for the position: that is where the accelerator stopped.
   */
  lemma ResumeCompare(m0: seq<Byte>, d: Descriptor, m1: seq<Byte>, r: Record)
    requires d.Compare? && Ready(m0, d) && Interrupted(m0, d, m1, r)
    ensures Ready(m1, Continued(d, r))
    ensures Resumed(m1, d, r).memory == Execute(m0, d, CLEARED).memory
    ensures AnswerOf(d, Resumed(m1, d, r).record) == AnswerOf(d, Execute(m0, d, CLEARED).record)
    ensures Resumed(m1, d, r).record.bytesCompleted == r.bytesCompleted
  {
    hide VectorCompare.Compared, Read, PredicateStatus;
    var q := r.bytesCompleted;
    SubExact(d.size, q);
    ReadFrom(m0, d.src1, q, d.size);
    ReadFrom(m0, d.src2, q, d.size);
    ComparedAfter(Read(m0, d.src1, d.size), Read(m0, d.src2, d.size), q);
  }

  lemma ComparedAfter(x: seq<Byte>, y: seq<Byte>, q: nat)
    requires |x| == |y| < TWO_TO_THE_32 && q <= |x| && x[..q] == y[..q]
    ensures VectorCompare.Compared(x, y).result == VectorCompare.Compared(x[q..], y[q..]).result
  {
    FirstDifferenceAfter(x, y, q);
  }

  /**
   * The position agrees with the uninterrupted one exactly when the first difference is where the accelerator stopped,
   * or there is none and it had not begun.
   */
  lemma ResumedPositionIff(m0: seq<Byte>, d: Descriptor, m1: seq<Byte>, r: Record)
    requires d.Compare? && Ready(m0, d) && Interrupted(m0, d, m1, r)
    ensures Ready(m1, Continued(d, r))
    ensures var x, y := Read(m0, d.src1, d.size), Read(m0, d.src2, d.size);
            Resumed(m1, d, r).record.bytesCompleted == Execute(m0, d, CLEARED).record.bytesCompleted <==>
            r.bytesCompleted == if x == y then 0 else VectorCompare.FirstDifference(x, y)
  {
    ResumeCompare(m0, d, m1, r);
    hide Read, PredicateStatus, Resumed, Continued, VectorCompare.FirstDifference;
  }

  lemma SamePhase(i: nat, q: nat)
    requires q % 8 == 0 && q <= i
    ensures (i - q) % 8 == i % 8
  {
  }

  lemma MismatchAfter(pattern: Word, x: seq<Byte>, q: nat)
    requires q <= |x| && q % 8 == 0 && x[..q] == VectorFill.Filled(pattern, q)
    ensures PatternCompare.Mismatch(pattern, x) == q + PatternCompare.Mismatch(pattern, x[q..])
  {
    hide PatternCompare.Mismatch;
    var e := PatternCompare.Mismatch(pattern, x[q..]);
    forall i | 0 <= i < q + e
      ensures x[i] == pattern[i % 8]
    {
      if i < q {
        assert x[..q][i] == pattern[i % 8];
      } else {
        SamePhase(i, q);
        assert x[q..][i - q] == pattern[(i - q) % 8];
      }
    }
    if e < |x| - q {
      SamePhase(q + e, q);
      assert x[q..][e] != pattern[e % 8];
    }
    PatternCompare.MismatchIs(pattern, x, q + e);
  }

  lemma ReportedAfter(size: nat, d: nat, q: nat)
    requires q % 8 == 0 && q <= d <= size
    ensures q + PatternCompare.Reported(size - q, d - q) <= size
    ensures PatternCompare.Reported(size, d) == q + PatternCompare.Reported(size - q, d - q)
  {
  }

  lemma ResumeComparePattern(m0: seq<Byte>, d: Descriptor, m1: seq<Byte>, r: Record)
    requires d.ComparePattern? && Ready(m0, d) && Interrupted(m0, d, m1, r)
    ensures Ready(m1, Continued(d, r))
    ensures Resumed(m1, d, r).memory == Execute(m0, d, CLEARED).memory
    ensures AnswerOf(d, Resumed(m1, d, r).record) == AnswerOf(d, Execute(m0, d, CLEARED).record)
  {
    hide PatternCompare.PatternCompared, VectorFill.Filled, Add32, PredicateStatus;
    var q := r.bytesCompleted;
    SubExact(d.size, q);
    ReadFrom(m0, d.src, q, d.size);
    hide Read, Sub32;
    PatternComparedAfter(d.pattern, Read(m0, d.src, d.size), q);
  }

  lemma PatternComparedAfter(pattern: Word, x: seq<Byte>, q: uint32)
    requires |x| < TWO_TO_THE_32 && q <= |x| && q % 8 == 0 && x[..q] == VectorFill.Filled(pattern, q)
    ensures var whole, rest :=
              PatternCompare.PatternCompared(pattern, x), PatternCompare.PatternCompared(pattern, x[q..]);
            && whole.result == rest.result
            && (rest.result != Results.EQUAL ==> whole.position == Add32(rest.position, q))
  {
    hide PatternCompare.Mismatch, PatternCompare.Reported, VectorFill.Filled, Add32;
    MismatchAfter(pattern, x, q);
    var e := PatternCompare.Mismatch(pattern, x[q..]);
    ReportedAfter(|x|, q + e, q);
    AddExact(PatternCompare.Reported(|x| - q, e), q);
  }
}
