/** Interrupted delta operations. */
module ContinuationDelta {
  import opened Memory
  import opened BlockLayout
  import opened Results
  import opened Operations
  import opened Continuation
  import opened ContinuationProofs
  import opened Delta
  import opened DeltaKernels
  import DeltaTheorems

  // Create

  lemma WordsAfter(m: seq<Byte>, a: nat, size: nat, q: nat)
    requires q <= size && q % 8 == 0 && InBounds(m, a, size)
    ensures WordsOf(m, a, size)[..q / 8] == WordsOf(m, a, q)
    ensures WordsOf(m, a, size)[q / 8..] == WordsOf(m, a + q, size - q)
  {
    var k := q / 8;
    assert Offset(k, 8) == q;
    ReadFrom(m, a, q, size);
    BlocksBefore(Read(m, a, size), 8, k);
    BlocksAfter(Read(m, a, size), 8, k);
  }

  /** The difference of two buffers is that of their first parts and, moved, that of the rest. */
  lemma DifferenceSplit(m: seq<Byte>, src1: nat, src2: nat, size: nat, q: nat)
    requires q <= size && q % 8 == 0 && InBounds(m, src1, size) && InBounds(m, src2, size)
    ensures Difference(m, src1, src2, size) ==
            Difference(m, src1, src2, q) + Shifted(Difference(m, src1 + q, src2 + q, size - q), q / 8)
  {
    hide WordsOf, Notes;
    WordsAfter(m, src1, size, q);
    WordsAfter(m, src2, size, q);
    NotesSplit(WordsOf(m, src1, size), WordsOf(m, src2, size), q / 8);
  }

  lemma DifferenceElsewhere(m: seq<Byte>, src1: nat, src2: nat, size: nat, a: nat, s: seq<Byte>)
    requires InBounds(m, src1, size) && InBounds(m, src2, size) && InBounds(m, a, |s|)
    requires Disjoint(src1, size, a, |s|) && Disjoint(src2, size, a, |s|)
    ensures Difference(Write(m, a, s), src1, src2, size) == Difference(m, src1, src2, size)
  {
    hide Write, Read;
    ReadElsewhere(m, a, s, src1, size);
    ReadElsewhere(m, a, s, src2, size);
  }

  /** The second part's notes, written and then moved where they lie, follow the first part's as one record. */
  lemma RecordsJoin(m: seq<Byte>, delta: nat, front: seq<Note>, back: seq<Note>, blocks: nat)
    requires InBounds(m, delta, NOTE_SIZE * (|front| + |back|))
    ensures |Encode(front)| == NOTE_SIZE * |front| && |Encode(back)| == NOTE_SIZE * |back|
    ensures |Encode(front + Shifted(back, blocks))| == NOTE_SIZE * (|front| + |back|)
    ensures var end := delta + NOTE_SIZE * |front|;
            Rebased(Write(Write(m, delta, Encode(front)), end, Encode(back)), end, NOTE_SIZE * |back|, blocks) ==
            Write(m, delta, Encode(front + Shifted(back, blocks)))
  {
    hide Write, Read, Encode, Decode, Shifted;
    var end, moved := delta + NOTE_SIZE * |front|, Shifted(back, blocks);
    EncodeSize(front);
    EncodeSize(back);
    EncodeSize(moved);
    var m1 := Write(m, delta, Encode(front));
    ReadBack(m1, end, Encode(back));
    DecodeEncode(back);
    WriteOver(m1, end, Encode(back), Encode(moved));
    EncodeAppend(front, moved);
    WriteAppend(m, delta, Encode(front), Encode(moved));
  }

  /** The result of the rest is that of the whole, except when only the first part had notes. */
  lemma ResultSplit(front: seq<Note>, back: seq<Note>, q: nat, max: nat)
    requires NOTE_SIZE * |front| <= max
    ensures CreateResult(back, max - NOTE_SIZE * |front|) == CreateResult(front + Shifted(back, q), max) <==>
            front == [] || back != []
  {
    assert (max - NOTE_SIZE * |front|) / NOTE_SIZE == max / NOTE_SIZE - |front|;
  }

  lemma ReadyAfterCreate(m0: seq<Byte>, d: Descriptor, m1: seq<Byte>, r: Record)
    requires d.CreateDelta? && Ready(m0, d) && Interrupted(m0, d, m1, r)
    ensures var q, e := r.bytesCompleted, r.deltaSize;
            Continued(d, r) ==
              CreateDelta(d.src1 + q, d.src2 + q, d.size - q, d.delta + e, d.maxDelta - e, d.expected, d.checkResult)
    ensures Ready(m1, Continued(d, r))
  {
    hide Write, Encode, Difference;
    SubExact(d.size, r.bytesCompleted);
    SubExact(d.maxDelta, r.deltaSize);
  }

  /** The rest has notes, or the first part had none: something a caller sees in the two sources. */
  ghost predicate NotesContinue(m: seq<Byte>, d: Descriptor, q: nat)
    requires d.CreateDelta? && Ready(m, d) && q <= d.size
  {
    || WordsOf(m, d.src1, q) == WordsOf(m, d.src2, q)
    || WordsOf(m, d.src1 + q, d.size - q) != WordsOf(m, d.src2 + q, d.size - q)
  }

  lemma {:induction false} NoNotesIffEqual(xs: Words, ys: Words)
    requires |xs| == |ys|
    ensures Notes(xs, ys) == [] <==> xs == ys
  {
    if xs != [] {
      var n := |xs| - 1;
      NoNotesIffEqual(xs[..n], ys[..n]);
      assert xs == xs[..n] + [xs[n]] && ys == ys[..n] + [ys[n]];
    }
  }

  lemma ExecutesCreate(m: seq<Byte>, d: Descriptor, r: Record)
    requires d.CreateDelta? && Ready(m, d)
    ensures Execute(m, d, r) == ExecuteCreateDelta(m, d, r)
  {
    hide Ready, ExecuteCreateDelta;
  }

  /** The outcome of create-delta, and then of the merge, in terms of its notes. */
  lemma CreateOutcome(m: seq<Byte>, d: Descriptor, r: Record, kept: seq<Note>, result: bv8)
    requires d.CreateDelta? && Ready(m, d)
    requires var notes := Difference(m, d.src1, d.src2, d.size);
             kept == Kept(notes, d.maxDelta) && result == CreateResult(notes, d.maxDelta)
    ensures |Encode(kept)| == NOTE_SIZE * |kept| <= d.maxDelta
    ensures var o := Execute(m, d, r);
            && o.memory == Write(m, d.delta, Encode(kept))
            && o.record == r.(deltaSize := NOTE_SIZE * |kept|, result := result,
                              status := DeltaStatus(d.checkResult, d.expected, result))
  {
    ExecutesCreate(m, d, r);
    hide Write, Encode, Difference, Kept, CreateResult, DeltaStatus, Execute;
    EncodeSize(kept);
  }

  lemma AccumulatedCreate(m: seq<Byte>, d: Descriptor, r: Record, previous: Record)
    requires d.CreateDelta? && RecordInBounds(m, d, r)
    ensures Accumulated(m, d, r, previous) ==
            Outcome(Rebased(m, d.delta, r.deltaSize, previous.bytesCompleted / 8),
                    r.(bytesCompleted := Add32(r.bytesCompleted, previous.bytesCompleted),
                       deltaSize := Add32(r.deltaSize, previous.deltaSize)))
  {
    hide Rebased, Add32;
  }

  lemma ContinuedCreate(d: Descriptor, r: Record)
    requires d.CreateDelta?
    ensures var rest := Continued(d, r);
            rest.CreateDelta? && rest.expected == d.expected && rest.checkResult == d.checkResult
  {
  }

  /** The resumed run in terms of the notes of the rest. */
  lemma ResumedCreate(m1: seq<Byte>, d: Descriptor, r: Record, rest: Descriptor, back: seq<Note>)
    requires d.CreateDelta? && rest == Continued(d, r) && rest.CreateDelta? && Ready(m1, rest)
    requires back == Difference(m1, rest.src1, rest.src2, rest.size)
    ensures var kept := Kept(back, rest.maxDelta);
            && |Encode(kept)| == NOTE_SIZE * |kept|
            && Resumed(m1, d, r).memory ==
               Rebased(Write(m1, rest.delta, Encode(kept)), rest.delta, NOTE_SIZE * |kept|, r.bytesCompleted / 8)
            && Resumed(m1, d, r).record.deltaSize == Add32(NOTE_SIZE * |kept|, r.deltaSize)
            && Resumed(m1, d, r).record.result == CreateResult(back, rest.maxDelta)
            && Resumed(m1, d, r).record.status ==
               DeltaStatus(d.checkResult, d.expected, CreateResult(back, rest.maxDelta))
  {
    hide Write, Encode, Difference, Kept, CreateResult, DeltaStatus, Rebased, Add32, Sub32, Execute, Ready, Continued,
         Accumulated, RecordInBounds;
    ContinuedCreate(d, r);
    CreateOutcome(m1, rest, r, Kept(back, rest.maxDelta), CreateResult(back, rest.maxDelta));
    ExecutedRecordInBounds(m1, rest, r);
    AccumulatedCreate(Execute(m1, rest, r).memory, rest, Execute(m1, rest, r).record, r);
  }

  lemma RestDifference(m0: seq<Byte>, d: Descriptor, m1: seq<Byte>, r: Record)
    requires d.CreateDelta? && Ready(m0, d) && Interrupted(m0, d, m1, r)
    ensures |m1| == |m0|
    ensures var q := r.bytesCompleted;
            Difference(m1, d.src1 + q, d.src2 + q, d.size - q) == Difference(m0, d.src1 + q, d.src2 + q, d.size - q)
  {
    hide Write, Encode, Difference;
    var q := r.bytesCompleted;
    DifferenceElsewhere(m0, d.src1 + q, d.src2 + q, d.size - q, d.delta, Encode(Difference(m0, d.src1, d.src2, q)));
  }

  /**
   * However create-delta is interrupted, and whether or not the record overflows, the resumed run leaves the same
   * memory and the same record size.
   */
  lemma ResumeCreateDelta(m0: seq<Byte>, d: Descriptor, m1: seq<Byte>, r: Record)
    requires d.CreateDelta? && Ready(m0, d) && Interrupted(m0, d, m1, r)
    ensures Ready(m1, Continued(d, r))
    ensures Resumed(m1, d, r).memory == Execute(m0, d, CLEARED).memory
    ensures Resumed(m1, d, r).record.deltaSize == Execute(m0, d, CLEARED).record.deltaSize
  {
    hide Write, Encode, Difference, Kept, Rebased, Shifted, Add32, CreateResult, DeltaStatus, Resumed;
    var q, e := r.bytesCompleted, r.deltaSize;
    var front := Difference(m0, d.src1, d.src2, q);
    var back := Difference(m0, d.src1 + q, d.src2 + q, d.size - q);
    var kept := Kept(back, d.maxDelta - e);
    ReadyAfterCreate(m0, d, m1, r);
    RestDifference(m0, d, m1, r);
    ResumedCreate(m1, d, r, Continued(d, r), back);
    DifferenceSplit(m0, d.src1, d.src2, d.size, q);
    KeptSplit(front, back, q / 8, d.maxDelta);
    RecordsJoin(m0, d.delta, front, kept, q / 8);
    AddExact(NOTE_SIZE * |kept|, e);
  }

  /** The expected-result masks under which create-delta's predicate tells no difference apart from some. */
  predicate Distinguishes(d: Descriptor)
    requires d.CreateDelta?
  {
    d.checkResult && 1 <= d.expected & 7 <= 3
  }

  lemma StatusIgnoresLoss(d: Descriptor)
    requires d.CreateDelta?
    ensures DeltaStatus(d.checkResult, d.expected, EQUAL) == DeltaStatus(d.checkResult, d.expected, NOT_EQUAL) <==>
            !Distinguishes(d)
  {
  }

  /** Notes in the first part alone: the whole run reports a difference and the rest reports none. */
  lemma LostResult(front: seq<Note>, q: nat, max: nat)
    requires front != [] && NOTE_SIZE * |front| <= max
    ensures CreateResult([], max - NOTE_SIZE * |front|) == EQUAL
            && CreateResult(front + Shifted([], q), max) == NOT_EQUAL
  {
  }

  /**
   * The resumed run reports the same result exactly when the first part had no notes or the rest has some, and the same
   * status exactly when, besides, the predicate does not ask.
   */
  lemma ResumeCreateDeltaResult(m0: seq<Byte>, d: Descriptor, m1: seq<Byte>, r: Record)
    requires d.CreateDelta? && Ready(m0, d) && Interrupted(m0, d, m1, r)
    ensures Ready(m1, Continued(d, r))
    ensures var resumed, whole := Resumed(m1, d, r).record, Execute(m0, d, CLEARED).record;
            var continue' := NotesContinue(m0, d, r.bytesCompleted);
            && (resumed.result == whole.result <==> continue')
            && (resumed.status == whole.status <==> continue' || !Distinguishes(d))
            && (!continue' ==> resumed.result == EQUAL && whole.result == NOT_EQUAL)
  {
    hide Write, Encode, Kept, Rebased, Shifted, Add32, CreateResult, DeltaStatus, Resumed, Notes, WordsOf;
    var q := r.bytesCompleted;
    var front := Difference(m0, d.src1, d.src2, q);
    var back := Difference(m0, d.src1 + q, d.src2 + q, d.size - q);
    ReadyAfterCreate(m0, d, m1, r);
    RestDifference(m0, d, m1, r);
    ResumedCreate(m1, d, r, Continued(d, r), back);
    DifferenceSplit(m0, d.src1, d.src2, d.size, q);
    ResultSplit(front, back, q / 8, d.maxDelta);
    NoNotesIffEqual(WordsOf(m0, d.src1, q), WordsOf(m0, d.src2, q));
    NoNotesIffEqual(WordsOf(m0, d.src1 + q, d.size - q), WordsOf(m0, d.src2 + q, d.size - q));
    if !NotesContinue(m0, d, q) {
      LostResult(front, q / 8, d.maxDelta);
      StatusIgnoresLoss(d);
    }
  }

  lemma OverflowSplit(front: seq<Note>, back: seq<Note>, q: nat, max: nat)
    requires NOTE_SIZE * |front| <= max && CreateResult(back, max - NOTE_SIZE * |front|) != OVERFLOW
    ensures Kept(front + Shifted(back, q), max) == front + Shifted(back, q)
  {
    assert (max - NOTE_SIZE * |front|) / NOTE_SIZE == max / NOTE_SIZE - |front|;
  }

  /** A resumed run that reports no overflow leaves the whole difference as its record. */
  lemma ResumedRecordIsWhole(m0: seq<Byte>, d: Descriptor, m1: seq<Byte>, r: Record)
    requires d.CreateDelta? && Ready(m0, d) && Interrupted(m0, d, m1, r) && Ready(m1, Continued(d, r))
    requires Resumed(m1, d, r).record.result != OVERFLOW
    ensures var notes := Difference(m0, d.src1, d.src2, d.size);
            && Resumed(m1, d, r).record.deltaSize == |Encode(notes)| <= d.maxDelta
            && Resumed(m1, d, r).memory == Write(m0, d.delta, Encode(notes))
  {
    hide Write, Encode, Difference, Kept, Rebased, Shifted, Add32, CreateResult, DeltaStatus, Resumed;
    var q := r.bytesCompleted;
    var front := Difference(m0, d.src1, d.src2, q);
    var back := Difference(m0, d.src1 + q, d.src2 + q, d.size - q);
    ReadyAfterCreate(m0, d, m1, r);
    RestDifference(m0, d, m1, r);
    ResumedCreate(m1, d, r, Continued(d, r), back);
    DifferenceSplit(m0, d.src1, d.src2, d.size, q);
    OverflowSplit(front, back, q / 8, d.maxDelta);
    ResumeCreateDelta(m0, d, m1, r);
    EncodeSize(Difference(m0, d.src1, d.src2, d.size));
  }

  /**
   * The record an interrupted create-delta leaves is one record: its offsets increase and none has wrapped, and
   * applying it to a copy of source 1 gives source 2.
   */
  lemma InterruptedDeltaRestores(m0: seq<Byte>, d: Descriptor, m1: seq<Byte>, r: Record, dst: nat)
    requires d.CreateDelta? && Ready(m0, d) && Interrupted(m0, d, m1, r) && Ready(m1, Continued(d, r))
    requires d.size % 8 == 0 && d.size <= DeltaTheorems.MAX_TRANSFER && Resumed(m1, d, r).record.result != OVERFLOW
    requires InBounds(m0, dst, d.size) && Disjoint(d.delta, d.maxDelta, dst, d.size)
    requires Read(m0, dst, d.size) == Read(m0, d.src1, d.size)
    ensures var o := Resumed(m1, d, r);
            var apply := ApplyDelta(d.delta, o.record.deltaSize, dst, d.size);
            && |o.memory| == |m0| && InBounds(o.memory, d.delta, o.record.deltaSize)
            && Increasing(Decode(Read(o.memory, d.delta, o.record.deltaSize)))
            && Ready(o.memory, apply)
            && Execute(o.memory, apply, CLEARED).memory == Write(o.memory, dst, Read(m0, d.src2, d.size))
  {
    hide Write, Read, Encode, Decode, Resumed, Applied, Notes;
    ResumedRecordIsWhole(m0, d, m1, r);
    var notes, m2 := Difference(m0, d.src1, d.src2, d.size), Resumed(m1, d, r).memory;
    ReadBack(m0, d.delta, Encode(notes));
    DecodeEncode(notes);
    ReadElsewhere(m0, d.delta, Encode(notes), d.src1, d.size);
    ReadElsewhere(m0, d.delta, Encode(notes), d.src2, d.size);
    ReadElsewhere(m0, d.delta, Encode(notes), dst, d.size);
    NotesExact(WordsOf(m0, d.src1, d.size), WordsOf(m0, d.src2, d.size));
    DeltaTheorems.ApplyUndoesCreate(m2, d.src1, d.src2, dst, d.size);
    assert Difference(m2, d.src1, d.src2, d.size) == notes;
  }

  // Apply

  lemma DecodeAfter(m: seq<Byte>, delta: nat, size: nat, q: nat)
    requires q <= size && q % NOTE_SIZE == 0 && InBounds(m, delta, size)
    ensures Decode(Read(m, delta, size))[q / NOTE_SIZE..] == Decode(Read(m, delta + q, size - q))
  {
    var k := q / NOTE_SIZE;
    assert Offset(k, NOTE_SIZE) == q;
    ReadFrom(m, delta, q, size);
    BlocksAfter(Read(m, delta, size), NOTE_SIZE, k);
    hide DecodeNote, Blocks;
    var rest := Read(m, delta + q, size - q);
    assert Blocks(rest, NOTE_SIZE) == Blocks(Read(m, delta, size), NOTE_SIZE)[k..];
  }

  lemma ResumeApplyDelta(m0: seq<Byte>, d: Descriptor, m1: seq<Byte>, r: Record)
    requires d.ApplyDelta? && Ready(m0, d) && Interrupted(m0, d, m1, r)
    ensures Ready(m1, Continued(d, r))
    ensures Resumed(m1, d, r).memory == Execute(m0, d, CLEARED).memory
    ensures AnswerOf(d, Resumed(m1, d, r).record) == AnswerOf(d, Execute(m0, d, CLEARED).record)
  {
    hide Read, Decode, Applied;
    var q := r.bytesCompleted;
    var k := q / NOTE_SIZE;
    var notes := Decode(Read(m0, d.delta, d.deltaSize));
    SubExact(d.deltaSize, q);
    AppliedElsewhere(m0, d.dst, notes[..k], d.size, d.delta + q, d.deltaSize - q);
    DecodeAfter(m0, d.delta, d.deltaSize, q);
    AppliedAppend(m0, d.dst, notes[..k], notes[k..], d.size);
    assert notes == notes[..k] + notes[k..];
  }
}
