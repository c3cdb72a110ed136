/** What acceptance of a delta descriptor does not guarantee, and for which sizes it does. */
module ValidationDelta {
  import opened Memory
  import opened Operations
  import opened Validation
  import opened Delta
  import opened DeltaKernels
  import DeltaTheorems
  import VectorFill

  // Create

  /** The sizes validation accepts for create-delta. */
  predicate CreateSizes(size: uint32, max: uint32) {
    size % 8 == 0 && 0 < size <= DeltaTheorems.MAX_TRANSFER && max % NOTE_SIZE == 0 && MIN_DELTA <= max
  }

  ghost predicate AcceptedCreate(m: seq<Byte>, src1: nat, src2: nat, size: uint32, delta: nat, max: uint32) {
    var d := CreateDelta(src1, src2, size, delta, max, 0, false);
    Validate(d) == Success && BuffersExist(m, d)
  }

  /** The kernel's record, size and result are those of the difference between the two sources as they were. */
  ghost predicate RecordRight(m: seq<Byte>, src1: nat, src2: nat, size: uint32, delta: nat, max: uint32)
    requires InBounds(m, src1, size) && InBounds(m, src2, size) && InBounds(m, delta, max)
  {
    var c := CreateLoop(m, src1, src2, size / 8, delta, max);
    var notes := Difference(m, src1, src2, size);
    && c.deltaSize == NOTE_SIZE * |Kept(notes, max)| && LoopResult(c) == CreateResult(notes, max)
    && Read(c.memory, delta, c.deltaSize) == Encode(Kept(notes, max))
  }

  /** For every accepted size some accepted addresses put the record over a source. */
  lemma CreateDeltaMayOverlap(size: uint32, max: uint32)
    requires CreateSizes(size, max)
    ensures !forall src1: nat, src2: nat, delta: nat ::
              Validate(CreateDelta(src1, src2, size, delta, max, 0, false)) == Success ==>
              Disjoint(src1, size, delta, max) && Disjoint(src2, size, delta, max)
  {
    assert Validate(CreateDelta(8, 8, size, 8, max, 0, false)) == Success;
  }

  /** A single word is read from both sources before anything is written, so its record is right wherever it lies. */
  lemma OneWordRight(m: seq<Byte>, src1: nat, src2: nat, delta: nat, max: uint32)
    requires InBounds(m, src1, 8) && InBounds(m, src2, 8) && InBounds(m, delta, max) && MIN_DELTA <= max
    ensures RecordRight(m, src1, src2, 8, delta, max)
  {
    var xs, ys := WordsOf(m, src1, 8), WordsOf(m, src2, 8);
    WordsOfAt(m, src1, 8, 0);
    WordsOfAt(m, src2, 8, 0);
    var note := Note(0, ys[0]);
    OneStep(m, src1, src2, delta, max);
    hide Write, Read, Encode, EncodeNote, CreateLoop, WordsOf;
    if xs[0] == ys[0] {
      OneNote(xs, ys);
      EncodeNothing(m, delta);
    } else {
      OneNote(xs, ys);
      EncodeOne(note);
      ReadBack(m, delta, EncodeNote(note));
    }
  }

  lemma OneStep(m: seq<Byte>, src1: nat, src2: nat, delta: nat, max: uint32)
    requires InBounds(m, src1, 8) && InBounds(m, src2, 8) && InBounds(m, delta, max) && NOTE_SIZE <= max
    ensures CreateLoop(m, src1, src2, 1, delta, max) ==
            if Read(m, src1, 8) == Read(m, src2, 8) then Creation(m, 0, false)
            else Creation(Write(m, delta, EncodeNote(Note(0, Read(m, src2, 8)))), NOTE_SIZE, false)
  {
    hide Write, EncodeNote;
    assert CreateLoop(m, src1, src2, 0, delta, max) == Creation(m, 0, false);
  }

  lemma OneNote(xs: Words, ys: Words)
    requires |xs| == |ys| == 1
    ensures Notes(xs, ys) == if xs[0] == ys[0] then [] else [Note(0, ys[0])]
  {
    assert Notes(xs[..0], ys[..0]) == [];
  }

  lemma EncodeNothing(m: seq<Byte>, a: nat)
    requires a <= |m|
    ensures Encode([]) == [] == Read(m, a, 0)
  {
  }

  /** A source of zeros, and right after it one whose first word ends in a one: they differ in one word. */
  function ClashingSources(size: nat, max: nat): (m: seq<Byte>)
    requires 16 <= size
    ensures |m| == 8 + size + size + max
  {
    VectorFill.Zeros(8 + size + size + max)[8 + size + 7 := 1]
  }

  lemma {:induction false} OneDifference(xs: Words, ys: Words, n: nat)
    requires 0 < n <= |xs| == |ys| && xs[0] != ys[0]
    requires forall k :: 0 < k < |xs| ==> xs[k] == ys[k]
    ensures Notes(xs[..n], ys[..n]) == [Note(0, ys[0])]
  {
    NotesNext(xs, ys, n - 1);
    if n == 1 {
      assert Notes(xs[..0], ys[..0]) == [];
    } else {
      OneDifference(xs, ys, n - 1);
    }
  }

  lemma ClashingDifference(size: uint32, max: nat)
    requires 16 <= size && size % 8 == 0
    ensures var notes := Difference(ClashingSources(size, max), 8, 8 + size, size); |notes| == 1
  {
    var m := ClashingSources(size, max);
    var xs, ys := WordsOf(m, 8, size), WordsOf(m, 8 + size, size);
    forall k | 0 <= k < size / 8
      ensures xs[k] == ys[k] <==> k != 0
    {
      WordsOfAt(m, 8, size, k);
      WordsOfAt(m, 8 + size, size, k);
      hide WordsOf;
      assert forall i :: 0 <= i < 8 ==> xs[k][i] == 0;
      assert forall i :: 0 <= i < 8 ==> ys[k][i] == if k == 0 && i == 7 then 1 else 0;
      if k == 0 {
        assert xs[k][7] != ys[k][7];
      }
    }
    OneDifference(xs, ys, size / 8);
    assert xs[..size / 8] == xs && ys[..size / 8] == ys;
  }

  /** The first note falls on the second word of the source it lies over, which the loop then takes for a difference. */
  lemma ClashingLoop(size: uint32, max: uint32, m: seq<Byte>)
    requires 16 <= size && 2 * NOTE_SIZE <= max && m == ClashingSources(size, max)
    ensures CreateLoop(m, 8, 8 + size, 2, 8 + size, max).deltaSize == 2 * NOTE_SIZE
  {
    var src2 := 8 + size;
    var word := Read(m, src2, 8);
    assert Read(m, 8, 8)[7] == 0 && word[7] == 1;
    OneStep(m, 8, src2, src2, max);
    var bytes := EncodeNote(Note(0, word));
    assert bytes[9] == word[7];
    var m1 := Write(m, src2, bytes);
    WritePointwise(m, src2, bytes);
    hide Write, EncodeNote;
    assert CreateLoop(m, 8, src2, 1, src2, max) == Creation(m1, NOTE_SIZE, false);
    assert Read(m1, 8 + 8, 8)[1] == m1[17] == 0;
    assert Read(m1, src2 + 8, 8)[1] == m1[src2 + 9] == 1;
    CreateTurn(m1, NOTE_SIZE, 8, src2, 1, src2, max);
  }

  lemma {:induction false} LoopGrows(m: seq<Byte>, src1: nat, src2: nat, i: nat, n: nat, delta: nat, max: nat)
    requires i <= n && InBounds(m, src1, 8 * n) && InBounds(m, src2, 8 * n) && InBounds(m, delta, max)
    ensures CreateLoop(m, src1, src2, i, delta, max).deltaSize <= CreateLoop(m, src1, src2, n, delta, max).deltaSize
    decreases n
  {
    hide CreateStep;
    if i < n {
      LoopGrows(m, src1, src2, i, n - 1, delta, max);
    }
  }

  lemma ClashingAccepted(size: uint32, max: uint32, m: seq<Byte>)
    requires CreateSizes(size, max) && |m| == 8 + size + size + max
    ensures AcceptedCreate(m, 8, 8 + size, size, 8 + size, max)
  {
  }

  lemma ClashingRecordWrong(size: uint32, max: uint32, m: seq<Byte>)
    requires CreateSizes(size, max) && 16 <= size && m == ClashingSources(size, max)
    ensures AcceptedCreate(m, 8, 8 + size, size, 8 + size, max)
    ensures !RecordRight(m, 8, 8 + size, size, 8 + size, max)
  {
    hide CreateLoop, Difference, ClashingSources, Validate, Encode, Read;
    ClashingAccepted(size, max, m);
    ClashingDifference(size, max);
    ClashingLoop(size, max, m);
    LoopGrows(m, 8, 8 + size, 2, size / 8, 8 + size, max);
  }

  /**
   * Acceptance lets the record lie over the sources. The kernel's record is right for every accepted address and every
   * content of memory exactly when there is a single word to compare.
   */
  lemma CreateDeltaRightIff(size: uint32, max: uint32)
    requires CreateSizes(size, max)
    ensures size == 8 <==>
            forall m, src1: nat, src2: nat, delta: nat ::
              AcceptedCreate(m, src1, src2, size, delta, max) ==> RecordRight(m, src1, src2, size, delta, max)
  {
    hide RecordRight, Validate;
    if size == 8 {
      forall m, src1: nat, src2: nat, delta: nat | AcceptedCreate(m, src1, src2, size, delta, max)
        ensures RecordRight(m, src1, src2, size, delta, max)
      {
        OneWordRight(m, src1, src2, delta, max);
      }
    } else {
      ClashingRecordWrong(size, max, ClashingSources(size, max));
    }
  }

  // Apply

  ghost predicate AcceptedApply(m: seq<Byte>, delta: nat, deltaSize: uint32, dst: nat, size: uint32) {
    var d := ApplyDelta(delta, deltaSize, dst, size);
    Validate(d) == Success && BuffersExist(m, d) && ApplyFits(m, delta, dst, deltaSize / NOTE_SIZE)
  }

  /** Applying the record changes no byte outside the destination. */
  ghost predicate StaysInside(m: seq<Byte>, delta: nat, deltaSize: uint32, dst: nat, size: uint32)
    requires InBounds(m, delta, deltaSize) && ApplyFits(m, delta, dst, deltaSize / NOTE_SIZE)
  {
    forall p :: 0 <= p < |m| && !(dst <= p < dst + size) ==> ApplyLoop(m, delta, dst, deltaSize / NOTE_SIZE)[p] == m[p]
  }

  lemma {:induction false} AppliedByte(m: seq<Byte>, dst: nat, notes: seq<Note>, size: nat, p: nat)
    requires InBounds(m, dst, size) && Within(notes, size) && p < |m| && !(dst <= p < dst + size)
    ensures Applied(m, dst, notes, size)[p] == m[p]
  {
    AppliedElsewhere(m, dst, notes, size, p, 1);
    assert Read(Applied(m, dst, notes, size), p, 1)[0] == Read(m, p, 1)[0];
  }

  lemma WithinStays(m: seq<Byte>, delta: nat, deltaSize: uint32, dst: nat, size: uint32)
    requires InBounds(m, delta, deltaSize) && InBounds(m, dst, size) && Disjoint(delta, deltaSize, dst, size)
    requires Within(Decode(Read(m, delta, deltaSize)), size)
    ensures ApplyFits(m, delta, dst, deltaSize / NOTE_SIZE) && StaysInside(m, delta, deltaSize, dst, size)
  {
    hide ApplyFits, ApplyLoop, Applied, Read, Decode;
    var notes := Decode(Read(m, delta, deltaSize));
    ApplyLoopWithin(m, delta, dst, deltaSize, size);
    forall p | 0 <= p < |m| && !(dst <= p < dst + size)
      ensures Applied(m, dst, notes, size)[p] == m[p]
    {
      AppliedByte(m, dst, notes, size, p);
    }
  }

  /** At the largest transfer no 16-bit offset can leave the destination. */
  lemma LargestStaysInside(m: seq<Byte>, delta: nat, deltaSize: uint32, dst: nat, size: uint32)
    requires AcceptedApply(m, delta, deltaSize, dst, size) && size == DeltaTheorems.MAX_TRANSFER
    ensures StaysInside(m, delta, deltaSize, dst, size)
  {
    OverlapsExact(m, delta, deltaSize, dst, size);
    hide ApplyFits, ApplyLoop, Read, Decode;
    WithinStays(m, delta, deltaSize, dst, size);
  }

  const FAR_NOTE := Note(0xFFFF, [1, 0, 0, 0, 0, 0, 0, 0])

  /** A destination at 8, and beyond the reach of every offset a record of one note with the largest offset. */
  function FarRecord(): (m: seq<Byte>)
    ensures |m| == 8 + DeltaTheorems.MAX_TRANSFER + NOTE_SIZE
  {
    Write(VectorFill.Zeros(8 + DeltaTheorems.MAX_TRANSFER + NOTE_SIZE), 8 + DeltaTheorems.MAX_TRANSFER,
          EncodeNote(FAR_NOTE))
  }

  /**
   * For every smaller accepted size that record is accepted, its offset is not within the destination, and its store
   * leaves it.
   */
  lemma ApplyDeltaMayStoreOutside(size: uint32, m: seq<Byte>, delta: nat)
    requires size % 8 == 0 && 0 < size < DeltaTheorems.MAX_TRANSFER && m == FarRecord()
             && delta == 8 + DeltaTheorems.MAX_TRANSFER
    ensures AcceptedApply(m, delta, 10, 8, size)
    ensures !Within(Decode(Read(m, delta, 10)), size) && !StaysInside(m, delta, 10, 8, size)
  {
    FarContents(m, delta);
    hide FarRecord, Write, EncodeNote, DecodeNote, Read, ApplyFits, ApplyLoop, Decode;
    FarLoop(m, delta);
    FarAccepted(size, m, delta);
    FarNotWithin(m, delta, size);
    var p := 8 + 8 * 0xFFFF;
    WritePointwise(m, p, FAR_NOTE.data);
    assert ApplyLoop(m, delta, 8, 1)[p] == 1 && m[p] == 0;
  }

  lemma FarContents(m: seq<Byte>, delta: nat)
    requires m == FarRecord() && delta == 8 + DeltaTheorems.MAX_TRANSFER
    ensures NoteOf(m, delta, 0) == FAR_NOTE && m[8 + 8 * 0xFFFF] == 0
  {
    var zeros := VectorFill.Zeros(8 + DeltaTheorems.MAX_TRANSFER + NOTE_SIZE);
    ReadBack(zeros, delta, EncodeNote(FAR_NOTE));
    DecodeEncodeNote(FAR_NOTE);
    WritePointwise(zeros, delta, EncodeNote(FAR_NOTE));
    hide Write, EncodeNote, DecodeNote;
  }

  lemma FarAccepted(size: uint32, m: seq<Byte>, delta: nat)
    requires size % 8 == 0 && 0 < size < DeltaTheorems.MAX_TRANSFER && |m| == delta + NOTE_SIZE
    requires delta == 8 + DeltaTheorems.MAX_TRANSFER && ApplyFits(m, delta, 8, 1)
    ensures AcceptedApply(m, delta, 10, 8, size)
  {
    hide ApplyFits;
  }

  lemma FarNotWithin(m: seq<Byte>, delta: nat, size: nat)
    requires |m| == delta + NOTE_SIZE && NoteOf(m, delta, 0) == FAR_NOTE && size < DeltaTheorems.MAX_TRANSFER
    ensures !Within(Decode(Read(m, delta, 10)), size)
  {
    NoteAt(m, delta, 10, 0);
    hide DecodeNote, Read;
    assert Decode(Read(m, delta, 10))[0] == FAR_NOTE;
  }

  lemma FarLoop(m: seq<Byte>, delta: nat)
    requires |m| == delta + NOTE_SIZE && delta == 8 + DeltaTheorems.MAX_TRANSFER && NoteOf(m, delta, 0) == FAR_NOTE
    ensures ApplyFits(m, delta, 8, 1) && ApplyLoop(m, delta, 8, 1) == Write(m, 8 + 8 * 0xFFFF, FAR_NOTE.data)
  {
    hide Write, DecodeNote;
    assert ApplyFits(m, delta, 8, 0) && ApplyLoop(m, delta, 8, 0) == m;
  }

  /**
   * Neither validation nor the kernel looks at the offsets. Every accepted apply-delta, whatever its record holds,
   * stays inside its destination exactly when the transfer size is the largest one.
   */
  lemma ApplyDeltaStaysInsideIff(size: uint32)
    requires size % 8 == 0 && 0 < size <= DeltaTheorems.MAX_TRANSFER
    ensures size == DeltaTheorems.MAX_TRANSFER <==>
            forall m, delta: nat, deltaSize: uint32, dst: nat ::
              AcceptedApply(m, delta, deltaSize, dst, size) ==> StaysInside(m, delta, deltaSize, dst, size)
  {
    if size == DeltaTheorems.MAX_TRANSFER {
      forall m, delta: nat, deltaSize: uint32, dst: nat | AcceptedApply(m, delta, deltaSize, dst, size)
        ensures StaysInside(m, delta, deltaSize, dst, size)
      {
        LargestStaysInside(m, delta, deltaSize, dst, size);
      }
    } else {
      ApplyDeltaMayStoreOutside(size, FarRecord(), 8 + DeltaTheorems.MAX_TRANSFER);
      hide AcceptedApply, StaysInside;
    }
  }
}
