/** The delta kernels and the rebasing loop, in flat memory. */
module DeltaKernels {
  import opened Memory
  import opened Results
  import opened BlockLayout
  import opened Delta

  method StoreBytes(mem: array<Byte>, a: nat, s: seq<Byte>)
    requires InBounds(mem[..], a, |s|)
    modifies mem
    ensures mem[..] == Write(old(mem[..]), a, s)
  {
    hide Write;
    forall i | 0 <= i < |s| {
      mem[a + i] := s[i];
    }
    IsWrite(old(mem[..]), a, s, mem[..]);
  }

  method StoreNote(mem: array<Byte>, a: nat, note: Note)
    requires InBounds(mem[..], a, NOTE_SIZE)
    modifies mem
    ensures mem[..] == Write(old(mem[..]), a, EncodeNote(note))
  {
    hide Write, StoreOffset;
    WriteAppend(mem[..], a, StoreOffset(note.offset), note.data);
    StoreBytes(mem, a, StoreOffset(note.offset));
    StoreBytes(mem, a + 2, note.data);
  }

  lemma WriteNextNote(m: seq<Byte>, a: nat, notes: seq<Note>, note: Note)
    requires InBounds(m, a, NOTE_SIZE * |notes| + NOTE_SIZE)
    ensures |Encode(notes)| == NOTE_SIZE * |notes| && |Encode(notes + [note])| == NOTE_SIZE * |notes| + NOTE_SIZE
    ensures Write(Write(m, a, Encode(notes)), a + NOTE_SIZE * |notes|, EncodeNote(note)) ==
            Write(m, a, Encode(notes + [note]))
  {
    hide Write, EncodeNote;
    EncodeSize(notes);
    EncodeSize(notes + [note]);
    EncodeAppend(notes, [note]);
    EncodeOne(note);
    WriteAppend(m, a, Encode(notes), EncodeNote(note));
  }

  lemma EncodeOne(note: Note)
    ensures Encode([note]) == EncodeNote(note)
  {
    assert Encoded([note]) == [EncodeNote(note)];
    assert Join([EncodeNote(note)][..0]) == [];
  }

  // Create

  function WordsOf(m: seq<Byte>, a: nat, size: nat): (ws: Words)
    requires InBounds(m, a, size)
    ensures |ws| == size / 8
  {
    Blocks(Read(m, a, size), 8)
  }

  lemma WordsOfAt(m: seq<Byte>, a: nat, size: nat, k: nat)
    requires InBounds(m, a, size) && k < size / 8
    ensures 8 * k + 8 <= size && WordsOf(m, a, size)[k] == Read(m, a + 8 * k, 8)
  {
    BlockOfRead(m, a, size, 8, k);
  }

  /** Note k of a record falls on word j of a source. */
  predicate Falls(delta: nat, k: nat, src: nat, j: nat) {
    !Disjoint(delta + NOTE_SIZE * k, NOTE_SIZE, src + 8 * j, 8)
  }

  /** No note falls on a word that the loop, by the turn it can first write the note in, has still to read. */
  ghost predicate NoneAhead(delta: nat, max: nat, src: nat, n: nat) {
    forall k, j :: 0 <= k < j < n && k < max / NOTE_SIZE ==> !Falls(delta, k, src, j)
  }

  lemma ApartNoneAhead(delta: nat, max: nat, src: nat, size: nat)
    requires Disjoint(src, size, delta, max)
    ensures NoneAhead(delta, max, src, size / 8)
  {
  }

  /** A word on which none of the first notes falls is not changed by them. */
  lemma WordAcrossNotes(m: seq<Byte>, src: nat, j: nat, delta: nat, s: seq<Byte>, count: nat)
    requires InBounds(m, src + 8 * j, 8) && InBounds(m, delta, |s|) && |s| == NOTE_SIZE * count
    requires forall k :: 0 <= k < count ==> !Falls(delta, k, src, j)
    ensures Read(Write(m, delta, s), src + 8 * j, 8) == Read(m, src + 8 * j, 8)
  {
    hide Write, Read;
    if count > 0 {
      var p := src + 8 * j;
      assert !Falls(delta, if delta <= p < delta + |s| then (p - delta) / NOTE_SIZE else 0, src, j);
    }
    ReadElsewhere(m, delta, s, src + 8 * j, 8);
  }

  lemma NotesNext(xs: Words, ys: Words, i: nat)
    requires |xs| == |ys| && i < |xs|
    ensures Notes(xs[..i + 1], ys[..i + 1]) ==
            Notes(xs[..i], ys[..i]) + if xs[i] == ys[i] then [] else [Note(i % TWO_TO_THE_16, ys[i])]
  {
    assert xs[..i + 1][..i] == xs[..i] && ys[..i + 1][..i] == ys[..i];
  }

  /** The notes create-delta finds between two buffers. */
  function Difference(m: seq<Byte>, src1: nat, src2: nat, size: nat): seq<Note>
    requires InBounds(m, src1, size) && InBounds(m, src2, size)
  {
    Notes(WordsOf(m, src1, size), WordsOf(m, src2, size))
  }

  /** Memory, record size and whether room ran out, part of the way through create-delta. */
  datatype Creation = Creation(memory: seq<Byte>, deltaSize: nat, overflowed: bool)

  /** One turn of the create-delta loop, on memory as it is then: the record may lie anywhere, even over the sources. */
  function CreateStep(c: Creation, src1: nat, src2: nat, i: nat, delta: nat, max: nat): (r: Creation)
    requires InBounds(c.memory, src1 + 8 * i, 8) && InBounds(c.memory, src2 + 8 * i, 8)
             && InBounds(c.memory, delta, max)
    ensures |r.memory| == |c.memory| && c.deltaSize <= r.deltaSize
    ensures c.deltaSize <= max ==> r.deltaSize <= max
  {
    var block1, block2 := Read(c.memory, src1 + 8 * i, 8), Read(c.memory, src2 + 8 * i, 8);
    if c.overflowed || block1 == block2 then c
    else if c.deltaSize + NOTE_SIZE > max then c.(overflowed := true)
    else
      Creation(Write(c.memory, delta + c.deltaSize, EncodeNote(Note(i % TWO_TO_THE_16, block2))),
               c.deltaSize + NOTE_SIZE, false)
  }

  function CreateLoop(m: seq<Byte>, src1: nat, src2: nat, n: nat, delta: nat, max: nat): (c: Creation)
    requires InBounds(m, src1, 8 * n) && InBounds(m, src2, 8 * n) && InBounds(m, delta, max)
    ensures |c.memory| == |m| && c.deltaSize <= max
  {
    if n == 0 then Creation(m, 0, false)
    else CreateStep(CreateLoop(m, src1, src2, n - 1, delta, max), src1, src2, n - 1, delta, max)
  }

  function LoopResult(c: Creation): bv8 {
    if c.overflowed then OVERFLOW else if c.deltaSize != 0 then NOT_EQUAL else EQUAL
  }

  /** dml_ref_create_delta, wherever its three buffers lie. */
  method RefCreateDelta(mem: array<Byte>, src1: nat, src2: nat, size: uint32, delta: nat, max: uint32)
    returns (deltaSize: uint32, result: bv8)
    requires InBounds(mem[..], src1, size) && InBounds(mem[..], src2, size) && InBounds(mem[..], delta, max)
    modifies mem
    ensures var c := CreateLoop(old(mem[..]), src1, src2, size / 8, delta, max);
            mem[..] == c.memory && deltaSize == c.deltaSize && result == LoopResult(c)
  {
    hide Write, EncodeNote, CreateStep;
    ghost var m := mem[..];
    var blockCount := size / 8;
    deltaSize := 0;
    for i := 0 to blockCount
      invariant Creation(mem[..], deltaSize, false) == CreateLoop(m, src1, src2, i, delta, max)
    {
      CreateTurn(mem[..], deltaSize, src1, src2, i, delta, max);
      var block1, block2 := mem[src1 + 8 * i..src1 + 8 * i + 8], mem[src2 + 8 * i..src2 + 8 * i + 8];
      if block1 != block2 {
        if deltaSize + NOTE_SIZE > max {
          OverflowStays(m, src1, src2, i + 1, blockCount, delta, max);
          return deltaSize, OVERFLOW;
        }
        StoreNote(mem, delta + deltaSize, Note(i % TWO_TO_THE_16, block2));
        deltaSize := deltaSize + NOTE_SIZE;
      }
    }
    return deltaSize, if deltaSize != 0 then NOT_EQUAL else EQUAL;
  }

  lemma CreateTurn(m: seq<Byte>, deltaSize: nat, src1: nat, src2: nat, i: nat, delta: nat, max: nat)
    requires InBounds(m, src1 + 8 * i, 8) && InBounds(m, src2 + 8 * i, 8) && InBounds(m, delta, max)
    ensures var block1, block2 := m[src1 + 8 * i..src1 + 8 * i + 8], m[src2 + 8 * i..src2 + 8 * i + 8];
            CreateStep(Creation(m, deltaSize, false), src1, src2, i, delta, max) ==
            if block1 == block2 then Creation(m, deltaSize, false)
            else if deltaSize + NOTE_SIZE > max then Creation(m, deltaSize, true)
            else Creation(Write(m, delta + deltaSize, EncodeNote(Note(i % TWO_TO_THE_16, block2))),
                          deltaSize + NOTE_SIZE, false)
  {
    hide Write, EncodeNote;
  }

  lemma {:induction false} OverflowStays(m: seq<Byte>, src1: nat, src2: nat, i: nat, n: nat, delta: nat, max: nat)
    requires i <= n && InBounds(m, src1, 8 * n) && InBounds(m, src2, 8 * n) && InBounds(m, delta, max)
    requires CreateLoop(m, src1, src2, i, delta, max).overflowed
    ensures CreateLoop(m, src1, src2, n, delta, max) == CreateLoop(m, src1, src2, i, delta, max)
    decreases n
  {
    if i < n {
      OverflowStays(m, src1, src2, i, n - 1, delta, max);
    }
  }

  /** After some turns: the notes of the words gone over that fit, in order. */
  ghost predicate Keeps(c: Creation, m: seq<Byte>, delta: nat, max: nat, notes: seq<Note>)
    requires InBounds(m, delta, max)
  {
    && c.overflowed == (|notes| > max / NOTE_SIZE)
    && c.deltaSize == NOTE_SIZE * |Kept(notes, max)| == |Encode(Kept(notes, max))|
    && c.memory == Write(m, delta, Encode(Kept(notes, max)))
  }

  /** The loop after i words, when no note falls on a word still to be read. */
  lemma {:induction false} CreateLoopIs(m: seq<Byte>, src1: nat, src2: nat, size: nat, i: nat, delta: nat, max: nat)
    requires InBounds(m, src1, size) && InBounds(m, src2, size) && InBounds(m, delta, max) && i <= size / 8
    requires NoneAhead(delta, max, src1, i) && NoneAhead(delta, max, src2, i)
    ensures Keeps(CreateLoop(m, src1, src2, i, delta, max), m, delta, max,
                  Notes(WordsOf(m, src1, size)[..i], WordsOf(m, src2, size)[..i]))
  {
    hide Keeps, CreateLoop, Notes, WordsOf, Falls;
    var xs, ys := WordsOf(m, src1, size), WordsOf(m, src2, size);
    if i == 0 {
      CreateLoopStart(m, src1, src2, size, delta, max);
    } else {
      CreateLoopIs(m, src1, src2, size, i - 1, delta, max);
      NotesCount(xs[..i - 1], ys[..i - 1]);
      CreateLoopStep(m, src1, src2, size, i - 1, delta, max);
    }
  }

  lemma CreateLoopStart(m: seq<Byte>, src1: nat, src2: nat, size: nat, delta: nat, max: nat)
    requires InBounds(m, src1, size) && InBounds(m, src2, size) && InBounds(m, delta, max)
    ensures Keeps(CreateLoop(m, src1, src2, 0, delta, max), m, delta, max,
                  Notes(WordsOf(m, src1, size)[..0], WordsOf(m, src2, size)[..0]))
  {
    NoNotes(WordsOf(m, src1, size)[..0], WordsOf(m, src2, size)[..0]);
    WriteNothing(m, delta);
  }

  /** There are at most as many notes as words. */
  lemma {:induction false} NotesCount(xs: Words, ys: Words)
    requires |xs| == |ys|
    ensures |Notes(xs, ys)| <= |xs|
  {
    if xs != [] {
      NotesCount(xs[..|xs| - 1], ys[..|xs| - 1]);
    }
  }

  lemma CreateLoopStep(m: seq<Byte>, src1: nat, src2: nat, size: nat, i: nat, delta: nat, max: nat)
    requires InBounds(m, src1, size) && InBounds(m, src2, size) && InBounds(m, delta, max) && i < size / 8
    requires NoneAhead(delta, max, src1, i + 1) && NoneAhead(delta, max, src2, i + 1)
    requires var notes := Notes(WordsOf(m, src1, size)[..i], WordsOf(m, src2, size)[..i]);
             |notes| <= i && Keeps(CreateLoop(m, src1, src2, i, delta, max), m, delta, max, notes)
    ensures Keeps(CreateLoop(m, src1, src2, i + 1, delta, max), m, delta, max,
                  Notes(WordsOf(m, src1, size)[..i + 1], WordsOf(m, src2, size)[..i + 1]))
  {
    hide Write, Read, Encode, Kept, EncodeNote, Notes, WordsOf, Falls;
    var xs, ys := WordsOf(m, src1, size), WordsOf(m, src2, size);
    var notes := Notes(xs[..i], ys[..i]);
    var kept := Kept(notes, max);
    var note := Note(i % TWO_TO_THE_16, ys[i]);
    WordsOfAt(m, src1, size, i);
    WordsOfAt(m, src2, size, i);
    WordAcrossNotes(m, src1, i, delta, Encode(kept), |kept|);
    WordAcrossNotes(m, src2, i, delta, Encode(kept), |kept|);
    NotesNext(xs, ys, i);
    KeptNext(notes, note, max);
    if xs[i] == ys[i] {
      assert Notes(xs[..i + 1], ys[..i + 1]) == notes;
    } else if |notes| < max / NOTE_SIZE {
      WriteNextNote(m, delta, notes, note);
    }
  }

  /** One note more is kept while there is room, and dropped after that. */
  lemma KeptNext(notes: seq<Note>, note: Note, max: nat)
    ensures |notes| < max / NOTE_SIZE ==> Kept(notes, max) == notes && Kept(notes + [note], max) == notes + [note]
    ensures max / NOTE_SIZE <= |notes| ==> Kept(notes + [note], max) == Kept(notes, max)
    ensures |notes| <= max / NOTE_SIZE ==>
            (NOTE_SIZE * |Kept(notes, max)| + NOTE_SIZE > max <==> |notes| == max / NOTE_SIZE)
  {
  }

  /**
   * Where no note falls on a word still to be read, the record holds the notes that fit, in order, and the result tells
   * whether there were none, some or too many.
   */
  lemma CreateLoopClear(m: seq<Byte>, src1: nat, src2: nat, size: nat, delta: nat, max: nat)
    requires InBounds(m, src1, size) && InBounds(m, src2, size) && InBounds(m, delta, max)
    requires NoneAhead(delta, max, src1, size / 8) && NoneAhead(delta, max, src2, size / 8)
    ensures var c := CreateLoop(m, src1, src2, size / 8, delta, max);
            var notes := Difference(m, src1, src2, size);
            && c.deltaSize == NOTE_SIZE * |Kept(notes, max)| == |Encode(Kept(notes, max))|
            && LoopResult(c) == CreateResult(notes, max)
            && c.memory == Write(m, delta, Encode(Kept(notes, max)))
  {
    hide Write, Encode, Notes, WordsOf, NoneAhead;
    CreateLoopIs(m, src1, src2, size, size / 8, delta, max);
    var xs, ys := WordsOf(m, src1, size), WordsOf(m, src2, size);
    assert xs[..size / 8] == xs && ys[..size / 8] == ys;
    KeptSome(Notes(xs, ys), max);
  }

  /** In particular where the record is clear of the sources. */
  lemma CreateLoopDisjoint(m: seq<Byte>, src1: nat, src2: nat, size: nat, delta: nat, max: nat)
    requires InBounds(m, src1, size) && InBounds(m, src2, size) && InBounds(m, delta, max)
    requires Disjoint(src1, size, delta, max) && Disjoint(src2, size, delta, max)
    ensures var c := CreateLoop(m, src1, src2, size / 8, delta, max);
            var notes := Difference(m, src1, src2, size);
            && c.deltaSize == NOTE_SIZE * |Kept(notes, max)| == |Encode(Kept(notes, max))|
            && LoopResult(c) == CreateResult(notes, max)
            && c.memory == Write(m, delta, Encode(Kept(notes, max)))
  {
    hide NoneAhead, CreateLoop, Difference, Encode, Write;
    ApartNoneAhead(delta, max, src1, size);
    ApartNoneAhead(delta, max, src2, size);
    CreateLoopClear(m, src1, src2, size, delta, max);
  }

  lemma KeptSome(notes: seq<Note>, max: nat)
    ensures |notes| <= max / NOTE_SIZE ==> Kept(notes, max) == notes
  {
  }

  lemma NoNotes(xs: Words, ys: Words)
    requires xs == ys == []
    ensures Notes(xs, ys) == [] && Encode([]) == []
  {
  }

  // Apply

  /** Every note lies within a destination of size bytes. */
  predicate Within(notes: seq<Note>, size: nat) {
    forall k :: 0 <= k < |notes| ==> 8 * notes[k].offset + 8 <= size
  }

  /** What memory holds after the notes have been stored, in order. */
  function Applied(m: seq<Byte>, dst: nat, notes: seq<Note>, size: nat): (r: seq<Byte>)
    requires InBounds(m, dst, size) && Within(notes, size)
    ensures |r| == |m|
  {
    if notes == [] then m
    else
      var n := |notes| - 1;
      Write(Applied(m, dst, notes[..n], size), dst + 8 * notes[n].offset, notes[n].data)
  }

  lemma {:induction false} AppliedAppend(m: seq<Byte>, dst: nat, s: seq<Note>, t: seq<Note>, size: nat)
    requires InBounds(m, dst, size) && Within(s, size) && Within(t, size)
    ensures Applied(m, dst, s + t, size) == Applied(Applied(m, dst, s, size), dst, t, size)
  {
    if t == [] {
      assert s + t == s;
    } else {
      var n := |t| - 1;
      assert (s + t)[..|s + t| - 1] == s + t[..n];
      AppliedAppend(m, dst, s, t[..n], size);
    }
  }

  /** Applying notes changes nothing outside the destination. */
  lemma {:induction false} AppliedElsewhere(m: seq<Byte>, dst: nat, notes: seq<Note>, size: nat, b: nat, k: nat)
    requires InBounds(m, dst, size) && Within(notes, size) && InBounds(m, b, k) && Disjoint(b, k, dst, size)
    ensures Read(Applied(m, dst, notes, size), b, k) == Read(m, b, k)
  {
    if notes != [] {
      hide Write;
      var n := |notes| - 1;
      AppliedElsewhere(m, dst, notes[..n], size, b, k);
      ReadElsewhere(Applied(m, dst, notes[..n], size), dst + 8 * notes[n].offset, notes[n].data, b, k);
    }
  }

  lemma NoteAt(m: seq<Byte>, delta: nat, deltaSize: nat, k: nat)
    requires InBounds(m, delta, deltaSize) && k < deltaSize / NOTE_SIZE
    ensures NOTE_SIZE * k + NOTE_SIZE <= deltaSize
    ensures Decode(Read(m, delta, deltaSize))[k] == DecodeNote(Read(m, delta + NOTE_SIZE * k, NOTE_SIZE))
  {
    BlockOfRead(m, delta, deltaSize, NOTE_SIZE, k);
  }

  /** The note the apply loop reads in turn i, from memory as it is then. */
  function NoteOf(m: seq<Byte>, delta: nat, i: nat): Note
    requires InBounds(m, delta + NOTE_SIZE * i, NOTE_SIZE)
  {
    DecodeNote(Read(m, delta + NOTE_SIZE * i, NOTE_SIZE))
  }

  /** The first n stores of the apply loop all land in memory that exists. */
  predicate ApplyFits(m: seq<Byte>, delta: nat, dst: nat, n: nat)
    requires InBounds(m, delta, NOTE_SIZE * n)
    decreases n, 0
  {
    n > 0 ==>
      && ApplyFits(m, delta, dst, n - 1)
      && InBounds(m, dst + 8 * NoteOf(ApplyLoop(m, delta, dst, n - 1), delta, n - 1).offset, 8)
  }

  /** Memory after n turns of the apply loop: the record may lie anywhere, and its offsets reach as far as they say. */
  function ApplyLoop(m: seq<Byte>, delta: nat, dst: nat, n: nat): (r: seq<Byte>)
    requires InBounds(m, delta, NOTE_SIZE * n) && ApplyFits(m, delta, dst, n)
    ensures |r| == |m|
    decreases n, 1
  {
    if n == 0 then m
    else
      var before := ApplyLoop(m, delta, dst, n - 1);
      var note := NoteOf(before, delta, n - 1);
      Write(before, dst + 8 * note.offset, note.data)
  }

  lemma {:induction false} FitsEarlier(m: seq<Byte>, delta: nat, dst: nat, i: nat, n: nat)
    requires InBounds(m, delta, NOTE_SIZE * n) && ApplyFits(m, delta, dst, n) && i <= n
    ensures ApplyFits(m, delta, dst, i)
    decreases n
  {
    hide ApplyLoop, NoteOf;
    if i < n {
      FitsEarlier(m, delta, dst, i, n - 1);
    }
  }

  /** dml_ref_apply_delta */
  method RefApplyDelta(mem: array<Byte>, delta: nat, dst: nat, deltaSize: uint32)
    requires InBounds(mem[..], delta, deltaSize) && ApplyFits(mem[..], delta, dst, deltaSize / NOTE_SIZE)
    modifies mem
    ensures mem[..] == ApplyLoop(old(mem[..]), delta, dst, deltaSize / NOTE_SIZE)
  {
    hide Write, DecodeNote;
    ghost var m := mem[..];
    var notesCount := deltaSize / NOTE_SIZE;
    FitsEarlier(m, delta, dst, 0, notesCount);
    for i := 0 to notesCount
      invariant ApplyFits(m, delta, dst, i) && mem[..] == ApplyLoop(m, delta, dst, i)
    {
      FitsEarlier(m, delta, dst, i + 1, notesCount);
      var note := DecodeNote(mem[delta + NOTE_SIZE * i..delta + NOTE_SIZE * i + NOTE_SIZE]);
      assert note == NoteOf(mem[..], delta, i);
      StoreBytes(mem, dst + 8 * note.offset, note.data);
    }
  }

  /** When the offsets lie within a destination clear of the record, the loop stores the record's notes in order. */
  lemma {:induction false} ApplyLoopIs(m: seq<Byte>, delta: nat, dst: nat, deltaSize: nat, size: nat, i: nat)
    requires InBounds(m, delta, deltaSize) && InBounds(m, dst, size) && Disjoint(delta, deltaSize, dst, size)
    requires Within(Decode(Read(m, delta, deltaSize)), size) && i <= deltaSize / NOTE_SIZE
    ensures ApplyFits(m, delta, dst, i)
    ensures ApplyLoop(m, delta, dst, i) == Applied(m, dst, Decode(Read(m, delta, deltaSize))[..i], size)
  {
    hide Write, Read, Decode, DecodeNote;
    var notes := Decode(Read(m, delta, deltaSize));
    if i > 0 {
      ApplyLoopIs(m, delta, dst, deltaSize, size, i - 1);
      NoteAt(m, delta, deltaSize, i - 1);
      AppliedElsewhere(m, dst, notes[..i - 1], size, delta + NOTE_SIZE * (i - 1), NOTE_SIZE);
      assert NoteOf(ApplyLoop(m, delta, dst, i - 1), delta, i - 1) == notes[i - 1];
      assert notes[..i][..i - 1] == notes[..i - 1];
    }
  }

  lemma ApplyLoopWithin(m: seq<Byte>, delta: nat, dst: nat, deltaSize: nat, size: nat)
    requires InBounds(m, delta, deltaSize) && InBounds(m, dst, size) && Disjoint(delta, deltaSize, dst, size)
    requires Within(Decode(Read(m, delta, deltaSize)), size)
    ensures ApplyFits(m, delta, dst, deltaSize / NOTE_SIZE)
    ensures ApplyLoop(m, delta, dst, deltaSize / NOTE_SIZE) == Applied(m, dst, Decode(Read(m, delta, deltaSize)), size)
  {
    hide Read, Applied, ApplyLoop, ApplyFits;
    var notes, n := Decode(Read(m, delta, deltaSize)), deltaSize / NOTE_SIZE;
    ApplyLoopIs(m, delta, dst, deltaSize, size, n);
    assert notes[..n] == notes;
  }

  // Rebase

  /** The loop of accumulate_records_create_delta: every note of the record moves by blocks words. */
  method Rebase(mem: array<Byte>, delta: nat, deltaSize: uint32, blocks: nat, ghost notes: seq<Note>)
    requires InBounds(mem[..], delta, deltaSize) && deltaSize == NOTE_SIZE * |notes|
    requires Read(mem[..], delta, deltaSize) == Encode(notes)
    modifies mem
    ensures |Encode(Shifted(notes, blocks))| == deltaSize
    ensures mem[..] == Write(old(mem[..]), delta, Encode(Shifted(notes, blocks)))
  {
    hide Write, Encode, Decode, EncodeNote, DecodeNote, StoreOffset, LoadOffset;
    ghost var m := mem[..];
    ghost var moved := Shifted(notes, blocks);
    EncodeSize(moved);
    EncodeSize([]);
    WriteNothing(m, delta);
    var address, end := delta, delta + deltaSize;
    ghost var i := 0;
    while address < end
      invariant 0 <= i <= |notes| && address == delta + NOTE_SIZE * i
      invariant |Encode(moved[..i])| == NOTE_SIZE * i
      invariant mem[..] == Write(m, delta, Encode(moved[..i]))
      decreases |notes| - i
    {
      DecodeEncode(notes);
      NoteAt(m, delta, deltaSize, i);
      ReadElsewhere(m, delta, Encode(moved[..i]), address, NOTE_SIZE);
      ghost var was := Read(mem[..], address, NOTE_SIZE);
      RebaseNote(was, blocks);
      NoteBytes(mem[..], address);
      assert moved[..i] + [moved[i]] == moved[..i + 1];
      WriteNextNote(m, delta, moved[..i], moved[i]);
      StoreBytes(mem, address, StoreOffset(Add16(LoadOffset(mem[address..address + 2]), blocks)));
      address := address + NOTE_SIZE;
      i := i + 1;
    }
    assert moved[..i] == moved;
  }

  lemma RebaseNote(was: seq<Byte>, blocks: nat)
    requires |was| == NOTE_SIZE
    ensures var note := DecodeNote(was);
            EncodeNote(Note(Add16(note.offset, blocks), note.data)) ==
              StoreOffset(Add16(LoadOffset(was[..2]), blocks)) + was[2..]
  {
  }

  /** Storing two bytes at the start of a note is writing the note with those two bytes. */
  lemma NoteBytes(m: seq<Byte>, a: nat)
    requires InBounds(m, a, NOTE_SIZE)
    ensures var was := Read(m, a, NOTE_SIZE);
            && was[..2] == m[a..a + 2]
            && forall s: seq<Byte> :: |s| == 2 ==> Write(m, a, s) == Write(m, a, s + was[2..])
  {
  }
}
