/** What each operation leaves in memory and in its record, byte by byte and code by code. */
module Meanings {
  import opened Memory
  import opened BlockLayout
  import opened Operations
  import Delta
  import DeltaKernels
  import MemMoveKernel = MemMove
  import RefKernels
  import VectorFill
  import VectorCompare
  import PatternCompare
  import SoftwareDevice
  import Crc32

  // Operations that leave memory alone but for a copy

  lemma NothingMeans(m: seq<Byte>, d: Descriptor, r: Record)
    requires (d.Nop? || d.Drain? || d.CacheFlush?) && Ready(m, d)
    ensures Execute(m, d, r) == Outcome(m, r.(status := 0x01))
  {
  }

  /** Memory with one buffer's bytes at another's place. */
  ghost predicate HasCopy(m: seq<Byte>, m': seq<Byte>, src: nat, dst: nat, size: nat)
    requires InBounds(m, src, size)
  {
    |m'| == |m| && forall p :: 0 <= p < |m| ==> m'[p] == if dst <= p < dst + size then m[src + (p - dst)] else m[p]
  }

  lemma MovedIs(m: seq<Byte>, src: nat, dst: nat, size: nat)
    requires InBounds(m, src, size) && InBounds(m, dst, size)
    ensures HasCopy(m, MemMoveKernel.Moved(m, src, dst, size), src, dst, size)
  {
    WritePointwise(m, dst, Read(m, src, size));
    hide Write;
  }

  lemma MoveMeans(m: seq<Byte>, d: Descriptor, r: Record)
    requires d.MemMove? && Ready(m, d)
    ensures var o := Execute(m, d, r); HasCopy(m, o.memory, d.src, d.dst, d.size) && o.record == r.(status := 0x01)
  {
    hide MemMoveKernel.Moved, HasCopy;
    MovedIs(m, d.src, d.dst, d.size);
  }

  lemma CrcMeans(m: seq<Byte>, d: Descriptor, r: Record)
    requires d.Crc? && Ready(m, d)
    ensures var crc := Crc32.Checksum(m[d.src..d.src + d.size], d.seed, d.options, 0x1EDC_6F41);
            Execute(m, d, r) == Outcome(m, r.(status := 0x01, crc := crc))
  {
    hide Crc32.Checksum;
  }

  lemma CopyCrcMeans(m: seq<Byte>, d: Descriptor, r: Record)
    requires d.CopyCrc? && Ready(m, d)
    ensures var o := Execute(m, d, r);
            && HasCopy(m, o.memory, d.src, d.dst, d.size)
            && o.record == r.(status := 0x01,
                              crc := Crc32.Checksum(m[d.src..d.src + d.size], d.seed, d.options, 0x1EDC_6F41))
  {
    hide Crc32.Checksum, MemMoveKernel.Moved, HasCopy;
    MovedIs(m, d.src, d.dst, d.size);
  }

  lemma FillMeans(m: seq<Byte>, d: Descriptor, r: Record)
    requires d.Fill? && Ready(m, d)
    ensures var o := Execute(m, d, r);
            && |o.memory| == |m| && o.record == r.(status := 0x01)
            && forall p :: 0 <= p < |m| ==>
                 o.memory[p] == if d.dst <= p < d.dst + d.size then d.pattern[(p - d.dst) % 8] else m[p]
  {
    WritePointwise(m, d.dst, VectorFill.Filled(d.pattern, d.size));
    hide Write;
  }

  /** Memory with one buffer's bytes at two other places. */
  ghost predicate HasCopies(m: seq<Byte>, m': seq<Byte>, src: nat, dst1: nat, dst2: nat, size: nat)
    requires InBounds(m, src, size)
  {
    && |m'| == |m|
    && forall p :: 0 <= p < |m| ==>
         m'[p] == if dst1 <= p < dst1 + size then m[src + (p - dst1)]
                  else if dst2 <= p < dst2 + size then m[src + (p - dst2)]
                  else m[p]
  }

  lemma DualcastedIs(m: seq<Byte>, src: nat, dst1: nat, dst2: nat, n: nat)
    requires InBounds(m, src, n) && InBounds(m, dst1, n) && InBounds(m, dst2, n) && Disjoint(dst1, n, dst2, n)
    ensures HasCopies(m, RefKernels.Dualcasted(m, src, dst1, dst2, n), src, dst1, dst2, n)
  {
    hide Write;
    var s := Read(m, src, n);
    var w := Write(m, dst1, s);
    var m' := RefKernels.Dualcasted(m, src, dst1, dst2, n);
    assert m' == Write(w, dst2, s);
    WritePointwise(m, dst1, s);
    WritePointwise(w, dst2, s);
    forall p | 0 <= p < |m|
      ensures m'[p] == if dst1 <= p < dst1 + n then m[src + (p - dst1)]
                       else if dst2 <= p < dst2 + n then m[src + (p - dst2)]
                       else m[p]
    {
      assert w[p] == if dst1 <= p < dst1 + n then s[p - dst1] else m[p];
    }
  }

  lemma DualcastMeans(m: seq<Byte>, d: Descriptor, r: Record)
    requires d.Dualcast? && Ready(m, d)
    ensures var o := Execute(m, d, r);
            HasCopies(m, o.memory, d.src, d.dst1, d.dst2, d.size) && o.record == r.(status := 0x01)
  {
    hide RefKernels.Dualcasted, HasCopies;
    DualcastedIs(m, d.src, d.dst1, d.dst2, d.size);
  }

  // Comparisons

  /** The status of a comparison that found this result. */
  function Answered(checkResult: bool, expected: bv8, result: bv8): bv8 {
    if !checkResult || result == expected then 0x01 else 0x02
  }

  /** Two buffers that agree up to byte i, and there do not, if it is one of theirs. */
  ghost predicate FirstAt(m: seq<Byte>, src1: nat, src2: nat, size: nat, i: nat)
    requires InBounds(m, src1, size) && InBounds(m, src2, size)
  {
    && i <= size && (i < size ==> m[src1 + i] != m[src2 + i])
    && forall p :: src1 <= p < src1 + i ==> m[p] == m[src2 + (p - src1)]
  }

  lemma CompareMeans(m: seq<Byte>, d: Descriptor, r: Record, i: nat)
    requires d.Compare? && Ready(m, d) && FirstAt(m, d.src1, d.src2, d.size, i)
    ensures var result := if i < d.size then 1 else 0;
            Execute(m, d, r) ==
            Outcome(m, r.(bytesCompleted := if i < d.size then i else 0, result := result,
                          status := Answered(d.checkResult, d.expected, result)))
  {
    var x, y := Read(m, d.src1, d.size), Read(m, d.src2, d.size);
    forall j | 0 <= j < i
      ensures x[j] == y[j]
    {
      assert m[d.src1 + j] == m[d.src2 + (d.src1 + j - d.src1)];
    }
    VectorCompare.FirstDifferenceIs(x, y, i);
    hide Read, VectorCompare.FirstDifference;
  }

  lemma PatternWordMeans(m: seq<Byte>, d: Descriptor, r: Record, k: nat)
    requires d.ComparePattern? && Ready(m, d) && 8 * k + 8 <= d.size
    requires m[d.src + 8 * k..d.src + 8 * k + 8] != d.pattern
    requires forall j :: 0 <= j < k ==> m[d.src + 8 * j..d.src + 8 * j + 8] == d.pattern
    ensures Execute(m, d, r) ==
            Outcome(m, r.(bytesCompleted := 8 * k, result := 1, status := Answered(d.checkResult, d.expected, 1)))
  {
    var x := Read(m, d.src, d.size);
    forall j | 0 <= j <= k
      ensures x[8 * j..8 * j + 8] == m[d.src + 8 * j..d.src + 8 * j + 8]
    {
      SliceOfRead(m, d.src, d.size, 8 * j, 8);
    }
    hide Read, PatternCompare.PatternCompared;
    PatternCompare.PositionOfWord(d.pattern, x, k);
  }

  lemma PatternByteMeans(m: seq<Byte>, d: Descriptor, r: Record, p: nat)
    requires d.ComparePattern? && Ready(m, d) && d.size - d.size % 8 <= p < d.size && m[d.src + p] != d.pattern[p % 8]
    requires forall q :: d.src <= q < d.src + p ==> m[q] == d.pattern[(q - d.src) % 8]
    ensures Execute(m, d, r) ==
            Outcome(m, r.(bytesCompleted := p, result := 1, status := Answered(d.checkResult, d.expected, 1)))
  {
    var x := Read(m, d.src, d.size);
    forall i | 0 <= i < p
      ensures x[i] == d.pattern[i % 8]
    {
      assert x[i] == m[d.src + i];
    }
    PatternCompare.PositionOfByte(d.pattern, x, p);
    hide Read, PatternCompare.PatternCompared;
  }

  lemma PatternEqualMeans(m: seq<Byte>, d: Descriptor, r: Record)
    requires d.ComparePattern? && Ready(m, d)
    requires forall q :: d.src <= q < d.src + d.size ==> m[q] == d.pattern[(q - d.src) % 8]
    ensures Execute(m, d, r) ==
            Outcome(m, r.(bytesCompleted := 0, result := 0, status := Answered(d.checkResult, d.expected, 0)))
  {
    var x := Read(m, d.src, d.size);
    forall i | 0 <= i < |x|
      ensures x[i] == d.pattern[i % 8]
    {
      assert x[i] == m[d.src + i];
    }
    PatternCompare.PositionOfNone(d.pattern, x);
    hide Read, PatternCompare.PatternCompared;
  }

  // Deltas

  predicate Differs(m: seq<Byte>, src1: nat, src2: nat, i: nat)
    requires InBounds(m, src1 + 8 * i, 8) && InBounds(m, src2 + 8 * i, 8)
  {
    m[src1 + 8 * i..src1 + 8 * i + 8] != m[src2 + 8 * i..src2 + 8 * i + 8]
  }

  /** The words in which two buffers differ. */
  ghost function Differing(m: seq<Byte>, src1: nat, src2: nat, n: nat): set<nat>
    requires InBounds(m, src1, 8 * n) && InBounds(m, src2, 8 * n)
  {
    set i: nat | i < n && Differs(m, src1, src2, i)
  }

  lemma {:induction false} NotesCounted(m: seq<Byte>, src1: nat, src2: nat, size: nat, n: nat)
    requires InBounds(m, src1, size) && InBounds(m, src2, size) && n <= size / 8
    ensures |Delta.Notes(DeltaKernels.WordsOf(m, src1, size)[..n], DeltaKernels.WordsOf(m, src2, size)[..n])| ==
            |Differing(m, src1, src2, n)|
  {
    hide Delta.Notes, DeltaKernels.WordsOf, Differing;
    var xs, ys := DeltaKernels.WordsOf(m, src1, size), DeltaKernels.WordsOf(m, src2, size);
    if n == 0 {
      NoneYet(m, src1, src2, xs, ys);
    } else {
      NotesCounted(m, src1, src2, size, n - 1);
      DeltaKernels.NotesNext(xs, ys, n - 1);
      DeltaKernels.WordsOfAt(m, src1, size, n - 1);
      DeltaKernels.WordsOfAt(m, src2, size, n - 1);
      DifferingNext(m, src1, src2, n - 1);
    }
  }

  lemma NoneYet(m: seq<Byte>, src1: nat, src2: nat, xs: Delta.Words, ys: Delta.Words)
    requires src1 <= |m| && src2 <= |m| && |xs| == |ys|
    ensures |Delta.Notes(xs[..0], ys[..0])| == |Differing(m, src1, src2, 0)| == 0
  {
    assert Differing(m, src1, src2, 0) == {};
  }

  lemma DifferingNext(m: seq<Byte>, src1: nat, src2: nat, n: nat)
    requires InBounds(m, src1, 8 * n + 8) && InBounds(m, src2, 8 * n + 8)
    ensures |Differing(m, src1, src2, n + 1)| ==
            |Differing(m, src1, src2, n)| + if Differs(m, src1, src2, n) then 1 else 0
  {
    hide Differs;
    var before, after := Differing(m, src1, src2, n), Differing(m, src1, src2, n + 1);
    assert n !in before;
    if Differs(m, src1, src2, n) {
      assert after == before + {n};
    } else {
      assert after == before;
    }
  }

  /**
   * Create-delta's result is 0, 1 or 2 as no word differs, some differ and a ten-byte note of each fits, or they do not
   * fit; its status says whether the mask's bits ask for that result.
   */
  lemma CreateDeltaMeans(m: seq<Byte>, d: Descriptor, r: Record)
    requires d.CreateDelta? && Ready(m, d)
    ensures var o := Execute(m, d, r);
            var count := |Differing(m, d.src1, d.src2, d.size / 8)|;
            && o.record.result == (if 10 * count > d.maxDelta then 2 else if count == 0 then 0 else 1)
            && o.record.status == (if SoftwareDevice.ExpectedByMask(d.checkResult, d.expected & 7, o.record.result)
                                   then 0x01 else 0x02)
            && o.record.deltaSize == (if 10 * count > d.maxDelta then d.maxDelta - d.maxDelta % 10 else 10 * count)
            && o.record == r.(deltaSize := o.record.deltaSize, result := o.record.result, status := o.record.status)
  {
    var n: nat := d.size / 8;
    NotesCounted(m, d.src1, d.src2, d.size, n);
    var xs, ys := DeltaKernels.WordsOf(m, d.src1, d.size), DeltaKernels.WordsOf(m, d.src2, d.size);
    assert xs[..n] == xs && ys[..n] == ys;
    var notes := DeltaKernels.Difference(m, d.src1, d.src2, d.size);
    SoftwareDevice.DeltaStatusMeans(d.checkResult, d.expected, Delta.CreateResult(notes, d.maxDelta));
    hide Delta.Notes, DeltaKernels.WordsOf, Write, Delta.Encode, DeltaStatus, Differing, DeltaKernels.Difference,
         SoftwareDevice.ExpectedByMask;
  }

  /** The bytes of a note: the word's number, the low byte first, and the word. */
  predicate IsNote(s: seq<Byte>, i: nat, word: seq<Byte>) {
    |s| == 10 && s[0] as nat == i % 256 && s[1] as nat == i / 256 % 256 && s[2..] == word
  }

  lemma NoteLayout(i: nat, word: Word)
    ensures IsNote(Delta.EncodeNote(Delta.Note(i % Delta.TWO_TO_THE_16, word)), i, word)
  {
    var o := i % 0x1_0000;
    assert i == 0x1_0000 * (i / 0x1_0000) + o;
    assert i % 256 == o % 256 && i / 256 % 256 == o / 256 by {
      LowBytes(i, i / 0x1_0000, o);
    }
  }

  lemma LowBytes(i: nat, q: nat, o: nat)
    requires i == 0x1_0000 * q + o && o < 0x1_0000
    ensures i % 256 == o % 256 && i / 256 % 256 == o / 256
  {
    assert i == 256 * (256 * q + o / 256) + o % 256;
    assert i / 256 == 256 * q + o / 256;
  }

  /** The note of a differing word stands after those of the differing words before it. */
  lemma {:induction false} NoteOfWord(m: seq<Byte>, src1: nat, src2: nat, size: nat, i: nat, n: nat)
    requires InBounds(m, src1, size) && InBounds(m, src2, size) && i < n <= size / 8 && i in Differing(m, src1, src2, n)
    ensures var notes :=
            Delta.Notes(DeltaKernels.WordsOf(m, src1, size)[..n], DeltaKernels.WordsOf(m, src2, size)[..n]);
            var j := |Differing(m, src1, src2, i)|;
            j < |notes| && notes[j] == Delta.Note(i % Delta.TWO_TO_THE_16, m[src2 + 8 * i..src2 + 8 * i + 8])
  {
    hide Delta.Notes, DeltaKernels.WordsOf;
    var xs, ys := DeltaKernels.WordsOf(m, src1, size), DeltaKernels.WordsOf(m, src2, size);
    DeltaKernels.NotesNext(xs, ys, n - 1);
    if i == n - 1 {
      assert Differs(m, src1, src2, i);
      hide Differing;
      NotesCounted(m, src1, src2, size, i);
      DeltaKernels.WordsOfAt(m, src1, size, i);
      DeltaKernels.WordsOfAt(m, src2, size, i);
    } else {
      assert i in Differing(m, src1, src2, n - 1);
      hide Differing;
      NoteOfWord(m, src1, src2, size, i, n - 1);
    }
  }

  lemma NoteInRecord(notes: seq<Delta.Note>, j: nat)
    requires j < |notes|
    ensures Delta.NOTE_SIZE * (j + 1) <= |Delta.Encode(notes)|
    ensures Delta.Encode(notes)[Delta.NOTE_SIZE * j..Delta.NOTE_SIZE * j + Delta.NOTE_SIZE] ==
            Delta.EncodeNote(notes[j])
  {
    JoinAt(Delta.Encoded(notes), Delta.NOTE_SIZE, j);
    assert Offset(j, Delta.NOTE_SIZE) == Delta.NOTE_SIZE * j;
  }

  lemma WrittenSlice(m: seq<Byte>, a: nat, s: seq<Byte>, b: nat, n: nat)
    requires InBounds(m, a, |s|) && b + n <= |s|
    ensures Write(m, a, s)[a + b..a + b + n] == s[b..b + n]
  {
    WritePointwise(m, a, s);
    hide Write;
  }

  lemma KeptNote(m: seq<Byte>, d: Descriptor, i: nat)
    requires d.CreateDelta? && Ready(m, d) && i in Differing(m, d.src1, d.src2, d.size / 8)
    requires 10 * |Differing(m, d.src1, d.src2, i)| + 10 <= d.maxDelta
    ensures var record := Delta.Encode(Delta.Kept(DeltaKernels.Difference(m, d.src1, d.src2, d.size), d.maxDelta));
            var j := |Differing(m, d.src1, d.src2, i)|;
            10 * j + 10 <= |record| && IsNote(record[10 * j..10 * j + 10], i, m[d.src2 + 8 * i..d.src2 + 8 * i + 8])
  {
    hide Delta.Notes, DeltaKernels.WordsOf, Delta.Encode, IsNote, Delta.EncodeNote;
    var n: nat := d.size / 8;
    var xs, ys := DeltaKernels.WordsOf(m, d.src1, d.size), DeltaKernels.WordsOf(m, d.src2, d.size);
    assert i < n;
    hide Differing;
    assert xs[..n] == xs && ys[..n] == ys;
    NoteOfWord(m, d.src1, d.src2, d.size, i, n);
    NoteLayout(i, m[d.src2 + 8 * i..d.src2 + 8 * i + 8]);
    NoteInRecord(Delta.Kept(Delta.Notes(xs, ys), d.maxDelta), |Differing(m, d.src1, d.src2, i)|);
  }

  lemma CreatedRecord(m: seq<Byte>, d: Descriptor, r: Record)
    requires d.CreateDelta? && Ready(m, d)
    ensures var o := Execute(m, d, r);
            var record := Delta.Encode(Delta.Kept(DeltaKernels.Difference(m, d.src1, d.src2, d.size), d.maxDelta));
            o.record.deltaSize == |record| <= d.maxDelta && o.memory == Write(m, d.delta, record)
  {
    hide Delta.Notes, DeltaKernels.WordsOf, Write, Delta.Encode, DeltaStatus, DeltaKernels.Difference;
    Delta.EncodeSize(Delta.Kept(DeltaKernels.Difference(m, d.src1, d.src2, d.size), d.maxDelta));
  }

  /** A record in memory: each differing word's note, at its place, as far as there is room. */
  ghost predicate HoldsNotes(m: seq<Byte>, m': seq<Byte>, src1: nat, src2: nat, n: nat, delta: nat, max: nat)
    requires InBounds(m, src1, 8 * n) && InBounds(m, src2, 8 * n) && InBounds(m', delta, max)
  {
    forall i :: i in Differing(m, src1, src2, n) ==> HoldsNote(m, m', src1, src2, i, delta, max)
  }

  ghost predicate HoldsNote(m: seq<Byte>, m': seq<Byte>, src1: nat, src2: nat, i: nat, delta: nat, max: nat)
    requires InBounds(m, src1, 8 * i + 8) && InBounds(m, src2, 8 * i + 8) && InBounds(m', delta, max)
  {
    var p := 10 * |Differing(m, src1, src2, i)|;
    p + 10 <= max ==> IsNote(m'[delta + p..delta + p + 10], i, m[src2 + 8 * i..src2 + 8 * i + 8])
  }

  lemma CreatedNotes(m: seq<Byte>, d: Descriptor)
    requires d.CreateDelta? && Ready(m, d)
    ensures var record := Delta.Encode(Delta.Kept(DeltaKernels.Difference(m, d.src1, d.src2, d.size), d.maxDelta));
            && |record| <= d.maxDelta
            && HoldsNotes(m, Write(m, d.delta, record), d.src1, d.src2, d.size / 8, d.delta, d.maxDelta)
  {
    hide Delta.Notes, DeltaKernels.WordsOf, Write, Delta.Encode, IsNote, Delta.Kept, DeltaKernels.Difference, Differs;
    var kept := Delta.Kept(DeltaKernels.Difference(m, d.src1, d.src2, d.size), d.maxDelta);
    var record := Delta.Encode(kept);
    Delta.EncodeSize(kept);
    forall i | i in Differing(m, d.src1, d.src2, d.size / 8)
      ensures HoldsNote(m, Write(m, d.delta, record), d.src1, d.src2, i, d.delta, d.maxDelta)
    {
      assert i < d.size / 8;
      var j := |Differing(m, d.src1, d.src2, i)|;
      if 10 * j + 10 <= d.maxDelta {
        KeptNote(m, d, i);
        WrittenSlice(m, d.delta, record, 10 * j, 10);
      }
    }
  }

  /** The record create-delta writes, note by note, and the memory around it. */
  lemma CreateRecordMeans(m: seq<Byte>, d: Descriptor, r: Record)
    requires d.CreateDelta? && Ready(m, d)
    ensures var o := Execute(m, d, r);
            && |o.memory| == |m|
            && (forall p :: 0 <= p < |m| && !(d.delta <= p < d.delta + o.record.deltaSize) ==> o.memory[p] == m[p])
            && HoldsNotes(m, o.memory, d.src1, d.src2, d.size / 8, d.delta, d.maxDelta)
  {
    hide Write, Delta.Encode, Execute, Delta.Kept, DeltaKernels.Difference, HoldsNotes;
    CreatedRecord(m, d, r);
    CreatedNotes(m, d);
    WritePointwise(m, d.delta,
                   Delta.Encode(Delta.Kept(DeltaKernels.Difference(m, d.src1, d.src2, d.size), d.maxDelta)));
  }

  // Applying

  /** The word number and the byte b of note k, as they lie in memory. */
  function WordNumber(m: seq<Byte>, delta: nat, k: nat): nat
    requires InBounds(m, delta + 10 * k, 10)
  {
    m[delta + 10 * k] as nat + 256 * m[delta + 10 * k + 1] as nat
  }

  lemma NoteBytes(m: seq<Byte>, delta: nat, deltaSize: nat, k: nat)
    requires InBounds(m, delta, deltaSize) && k < deltaSize / 10
    ensures 10 * k + 10 <= deltaSize
    ensures var note := Delta.Decode(Read(m, delta, deltaSize))[k];
            && note.offset == WordNumber(m, delta, k)
            && forall b :: 0 <= b < 8 ==> note.data[b] == m[delta + 10 * k + 2 + b]
  {
    DeltaKernels.NoteAt(m, delta, deltaSize, k);
    var s := Read(m, delta + 10 * k, 10);
    assert s[0] == m[delta + 10 * k] && s[1] == m[delta + 10 * k + 1];
    assert forall i :: 0 <= i < 10 ==> s[i] == m[delta + 10 * k + i];
    forall b | 0 <= b < 8
      ensures s[2..][b] == m[delta + 10 * k + 2 + b]
    {
      assert s[2..][b] == s[2 + b];
    }
  }

  /** The last note for a word decides it. */
  lemma {:induction false} LastApplied(m: seq<Byte>, dst: nat, notes: seq<Delta.Note>, size: nat, k: nat, b: nat)
    requires InBounds(m, dst, size) && DeltaKernels.Within(notes, size) && k < |notes| && b < 8
    requires forall j :: k < j < |notes| ==> notes[j].offset != notes[k].offset
    ensures DeltaKernels.Applied(m, dst, notes, size)[dst + 8 * notes[k].offset + b] == notes[k].data[b]
  {
    var n := |notes| - 1;
    WritePointwise(DeltaKernels.Applied(m, dst, notes[..n], size), dst + 8 * notes[n].offset, notes[n].data);
    hide Write;
    if k < n {
      LastApplied(m, dst, notes[..n], size, k, b);
    }
  }

  /** A byte for whose word there is no note stays. */
  lemma {:induction false} NotApplied(m: seq<Byte>, dst: nat, notes: seq<Delta.Note>, size: nat, p: nat)
    requires InBounds(m, dst, size) && DeltaKernels.Within(notes, size) && p < |m|
    requires forall j :: 0 <= j < |notes| ==> !(dst + 8 * notes[j].offset <= p < dst + 8 * notes[j].offset + 8)
    ensures DeltaKernels.Applied(m, dst, notes, size)[p] == m[p]
  {
    if notes != [] {
      var n := |notes| - 1;
      NotApplied(m, dst, notes[..n], size, p);
      WritePointwise(DeltaKernels.Applied(m, dst, notes[..n], size), dst + 8 * notes[n].offset, notes[n].data);
      hide Write;
    }
  }

  lemma RecordBytes(m: seq<Byte>, delta: nat, deltaSize: nat)
    requires InBounds(m, delta, deltaSize)
    ensures var notes := Delta.Decode(Read(m, delta, deltaSize));
            |notes| == deltaSize / 10 && forall j :: 0 <= j < |notes| ==> notes[j].offset == WordNumber(m, delta, j)
  {
    var notes := Delta.Decode(Read(m, delta, deltaSize));
    forall j | 0 <= j < deltaSize / 10
      ensures notes[j].offset == WordNumber(m, delta, j)
    {
      NoteBytes(m, delta, deltaSize, j);
    }
  }

  lemma ExecutesApply(m: seq<Byte>, d: Descriptor, r: Record)
    requires d.ApplyDelta? && Ready(m, d)
    ensures var notes := Delta.Decode(Read(m, d.delta, d.deltaSize));
            Execute(m, d, r) == Outcome(DeltaKernels.Applied(m, d.dst, notes, d.size), r.(status := 0x01))
  {
    hide Read, Delta.DecodeNote, DeltaKernels.Applied;
  }

  /** Applying a record, byte by byte: the last note for a word decides its eight bytes. */
  lemma ApplyWordMeans(m: seq<Byte>, delta: nat, n: nat, dst: nat, size: nat, k: nat, b: nat)
    requires InBounds(m, delta, 10 * n) && InBounds(m, dst, size) && k < n && b < 8
    requires DeltaKernels.Within(Delta.Decode(Read(m, delta, 10 * n)), size)
    requires forall j :: k < j < n ==> WordNumber(m, delta, j) != WordNumber(m, delta, k)
    ensures var p := dst + 8 * WordNumber(m, delta, k) + b;
            p < |m| && DeltaKernels.Applied(m, dst, Delta.Decode(Read(m, delta, 10 * n)), size)[p] ==
              m[delta + 10 * k + 2 + b]
  {
    var notes := Delta.Decode(Read(m, delta, 10 * n));
    hide WordNumber, Read, Delta.Decode, DeltaKernels.Applied;
    RecordBytes(m, delta, 10 * n);
    NoteBytes(m, delta, 10 * n, k);
    LastApplied(m, dst, notes, size, k, b);
  }

  /** A byte in no word that has a note stays. */
  lemma ApplyElsewhereMeans(m: seq<Byte>, delta: nat, n: nat, dst: nat, size: nat, p: nat)
    requires InBounds(m, delta, 10 * n) && InBounds(m, dst, size) && p < |m|
    requires DeltaKernels.Within(Delta.Decode(Read(m, delta, 10 * n)), size)
    requires forall j :: 0 <= j < n ==>
               !(dst + 8 * WordNumber(m, delta, j) <= p < dst + 8 * WordNumber(m, delta, j) + 8)
    ensures DeltaKernels.Applied(m, dst, Delta.Decode(Read(m, delta, 10 * n)), size)[p] == m[p]
  {
    var notes := Delta.Decode(Read(m, delta, 10 * n));
    hide WordNumber, Read, Delta.Decode, DeltaKernels.Applied;
    RecordBytes(m, delta, 10 * n);
    NotApplied(m, dst, notes, size, p);
  }

  lemma WholeNotes(m: seq<Byte>, delta: nat, deltaSize: nat)
    requires InBounds(m, delta, deltaSize)
    ensures 10 * (deltaSize / 10) <= deltaSize
    ensures Delta.Decode(Read(m, delta, 10 * (deltaSize / 10))) == Delta.Decode(Read(m, delta, deltaSize))
  {
    var n := deltaSize / 10;
    var s, t := Delta.Decode(Read(m, delta, 10 * n)), Delta.Decode(Read(m, delta, deltaSize));
    forall k | 0 <= k < n
      ensures s[k] == t[k]
    {
      DeltaKernels.NoteAt(m, delta, 10 * n, k);
      DeltaKernels.NoteAt(m, delta, deltaSize, k);
    }
    assert |s| == n == |t|;
  }

  /** The operation applies the whole notes of its record and reports success. */
  lemma ApplyDeltaMeans(m: seq<Byte>, d: Descriptor, r: Record)
    requires d.ApplyDelta? && Ready(m, d)
    ensures var n: nat := d.deltaSize / 10;
            && InBounds(m, d.delta, 10 * n) && DeltaKernels.Within(Delta.Decode(Read(m, d.delta, 10 * n)), d.size)
            && Execute(m, d, r) ==
               Outcome(DeltaKernels.Applied(m, d.dst, Delta.Decode(Read(m, d.delta, 10 * n)), d.size),
                       r.(status := 0x01))
  {
    WholeNotes(m, d.delta, d.deltaSize);
    ExecutesApply(m, d, r);
    hide Read, Delta.Decode, DeltaKernels.Applied, Execute;
  }
}
