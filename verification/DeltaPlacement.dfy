/** For which addresses a delta record is right, and for which records applying it stays inside the destination. */
module DeltaPlacement {
  import opened Memory
  import opened Results
  import opened Delta
  import opened DeltaKernels
  import opened Operations
  import opened Validation
  import opened ValidationDelta
  import DeltaTheorems

  // Create: where the record may lie

  lemma RightFromLoop(m: seq<Byte>, src1: nat, src2: nat, size: uint32, delta: nat, max: uint32)
    requires InBounds(m, src1, size) && InBounds(m, src2, size) && InBounds(m, delta, max)
    requires NoneAhead(delta, max, src1, size / 8) && NoneAhead(delta, max, src2, size / 8)
    ensures RecordRight(m, src1, src2, size, delta, max)
  {
    hide CreateLoop, Difference, Encode, Write, Read, NoneAhead;
    CreateLoopClear(m, src1, src2, size, delta, max);
    ReadBack(m, delta, Encode(Kept(Difference(m, src1, src2, size), max)));
  }

  /** A buffer compared with itself has no notes, wherever the record lies. */
  lemma {:induction false} SelfLoop(m: seq<Byte>, src: nat, n: nat, delta: nat, max: nat)
    requires InBounds(m, src, 8 * n) && InBounds(m, delta, max)
    ensures CreateLoop(m, src, src, n, delta, max) == Creation(m, 0, false)
  {
    if n > 0 {
      SelfLoop(m, src, n - 1, delta, max);
    }
  }

  lemma {:induction false} SelfNotes(xs: Words)
    ensures Notes(xs, xs) == []
  {
    if xs != [] {
      SelfNotes(xs[..|xs| - 1]);
    }
  }

  lemma SelfRight(m: seq<Byte>, src: nat, size: uint32, delta: nat, max: uint32)
    requires InBounds(m, src, size) && InBounds(m, delta, max)
    ensures RecordRight(m, src, src, size, delta, max)
  {
    SelfLoop(m, src, size / 8, delta, max);
    SelfNotes(WordsOf(m, src, size));
    EncodeNothing(m, delta);
    hide CreateLoop, Encode, WordsOf;
  }

  // Create: where it may not

  /** Note k falls on a word of the source still to be read. */
  ghost predicate AheadOf(delta: nat, src: nat, n: nat, k: nat) {
    exists j :: k < j < n && Falls(delta, k, src, j)
  }

  ghost predicate Ahead(delta: nat, src1: nat, src2: nat, n: nat, k: nat) {
    AheadOf(delta, src1, n, k) || AheadOf(delta, src2, n, k)
  }

  lemma AheadOfIff(delta: nat, src: nat, n: nat, k: nat)
    ensures AheadOf(delta, src, n, k) <==>
            k + 1 < n && src + 8 * (k + 1) < delta + NOTE_SIZE * (k + 1) && delta + NOTE_SIZE * k < src + 8 * n
  {
    var p := delta + NOTE_SIZE * k;
    if k + 1 < n && src + 8 * (k + 1) < p + NOTE_SIZE && p < src + 8 * n {
      var j := if p < src + 8 * (k + 1) then k + 1 else (p - src) / 8;
      assert Falls(delta, k, src, j);
    }
  }

  /** Notes are longer than words, so the first to fall ahead of an aligned record's loop is aligned too. */
  lemma AheadEarlier(delta: nat, src: nat, n: nat, k: nat)
    requires delta % 8 == 0 && src % 8 == 0 && 0 < k && (delta + NOTE_SIZE * k) % 8 != 0 && AheadOf(delta, src, n, k)
    ensures AheadOf(delta, src, n, k - 1)
  {
    AheadOfIff(delta, src, n, k);
    AheadOfIff(delta, src, n, k - 1);
    hide AheadOf;
    NotBefore(delta / 8, src / 8, k);
  }

  lemma NotBefore(delta: nat, src: nat, k: nat)
    requires 8 * src + 8 * (k + 1) < 8 * delta + NOTE_SIZE * (k + 1) && (8 * delta + NOTE_SIZE * k) % 8 != 0
    ensures 8 * src + 8 * k < 8 * delta + NOTE_SIZE * k
  {
    assert 8 * src == 8 * delta + 2 * k ==> 8 * delta + NOTE_SIZE * k == 8 * (src + k);
  }

  lemma {:induction false} FirstAhead(delta: nat, src1: nat, src2: nat, n: nat, k: nat) returns (first: nat)
    requires Ahead(delta, src1, src2, n, k)
    ensures first <= k && Ahead(delta, src1, src2, n, first)
    ensures forall i :: 0 <= i < first ==> !Ahead(delta, src1, src2, n, i)
    decreases k
  {
    hide Ahead;
    if i :| 0 <= i < k && Ahead(delta, src1, src2, n, i) {
      first := FirstAhead(delta, src1, src2, n, i);
    } else {
      first := k;
    }
  }

  /** Whether a word, counted from the lower source, has the second of two contents. */
  predicate Second(e: nat, distance: nat, k: nat)
    requires 0 < distance
  {
    if e < distance then false else Second(e - distance, distance, k) != (e - distance <= k)
  }

  /** A byte that neither is first nor the others: the three shades avoid the low byte of the note's offset. */
  function Shade(first: Byte, shade: Byte): Byte {
    if shade == first then 4 else shade
  }

  /** One of the two contents: they differ in their first six bytes and share the last two. */
  function Tint(first: Byte, second: bool, b: nat): Byte {
    if b >= 6 then Shade(first, 3) else if second then Shade(first, 2) else Shade(first, 1)
  }

  lemma Shades(first: Byte)
    ensures Shade(first, 1) != Shade(first, 2) && Shade(first, 1) != Shade(first, 3)
            && Shade(first, 2) != Shade(first, 3)
    ensures first != Shade(first, 1) && first != Shade(first, 2) && first != Shade(first, 3)
  {
  }

  /** Sources, perhaps overlapping, that differ in their words up to k and agree in the others. */
  function Painted(length: nat, low: nat, distance: nat, k: nat, first: Byte): (m: seq<Byte>)
    requires 0 < distance
    ensures |m| == length
  {
    seq(length, p requires 0 <= p => if p < low then 0
        else Tint(first, Second((p - low) / 8, distance, k), (p - low) % 8))
  }

  /** The content of aligned sources: the lower starts at low, and both have n words. */
  ghost predicate IsPainted(m: seq<Byte>, src1: nat, src2: nat, n: nat, k: nat, first: Byte) {
    && src1 % 8 == 0 && src2 % 8 == 0 && src1 != src2
    && InBounds(m, src1, 8 * n) && InBounds(m, src2, 8 * n)
    && var low, high := if src1 < src2 then src1 else src2, if src1 < src2 then src2 else src1;
       m == Painted(|m|, low, (high - low) / 8, k, first)
  }

  lemma PaintedWord(m: seq<Byte>, low: nat, distance: nat, k: nat, first: Byte, e: nat, b: nat)
    requires 0 < distance && m == Painted(|m|, low, distance, k, first) && InBounds(m, low + 8 * e, 8) && b < 8
    ensures Read(m, low + 8 * e, 8)[b] == Tint(first, Second(e, distance, k), b)
  {
    var p := low + 8 * e + b;
    assert (p - low) / 8 == e && (p - low) % 8 == b;
    assert m[p] == Tint(first, Second(e, distance, k), b);
  }

  /** Two words of these contents are different exactly when the contents are. */
  lemma TintedWords(x: Word, y: Word, first: Byte, s: bool, t: bool)
    requires forall b :: 0 <= b < 8 ==> x[b] == Tint(first, s, b) && y[b] == Tint(first, t, b)
    ensures x != y <==> s != t
    ensures x[0] in {Shade(first, 1), Shade(first, 2)} && y[0] in {Shade(first, 1), Shade(first, 2)}
    ensures x[6] == y[6] == Shade(first, 3)
  {
    Shades(first);
    hide Shade;
    if s == t {
      assert x == y;
    } else {
      assert x[0] != y[0];
    }
  }

  /** What word i of the lower and of the higher source holds. */
  lemma PaintedPair(m: seq<Byte>, low: nat, distance: nat, k: nat, first: Byte, i: nat)
    requires 0 < distance && m == Painted(|m|, low, distance, k, first) && InBounds(m, low + 8 * (i + distance), 8)
    ensures var x, y := Read(m, low + 8 * i, 8), Read(m, low + 8 * (i + distance), 8);
            && (x != y <==> i <= k)
            && x[0] in {Shade(first, 1), Shade(first, 2)} && y[0] in {Shade(first, 1), Shade(first, 2)}
            && x[6] == y[6] == Shade(first, 3)
  {
    var x, y := Read(m, low + 8 * i, 8), Read(m, low + 8 * (i + distance), 8);
    var s, t := Second(i, distance, k), Second(i + distance, distance, k);
    assert t == (s != (i <= k));
    hide Painted, Read, Second, Shade, Tint;
    forall b | 0 <= b < 8
      ensures x[b] == Tint(first, s, b) && y[b] == Tint(first, t, b)
    {
      PaintedWord(m, low, distance, k, first, i, b);
      PaintedWord(m, low, distance, k, first, i + distance, b);
    }
    TintedWords(x, y, first, s, t);
  }

  lemma PaintedWords(m: seq<Byte>, src1: nat, src2: nat, n: nat, k: nat, first: Byte, i: nat)
    requires IsPainted(m, src1, src2, n, k, first) && i < n
    ensures var x, y := Read(m, src1 + 8 * i, 8), Read(m, src2 + 8 * i, 8);
            && (x != y <==> i <= k)
            && x[0] in {Shade(first, 1), Shade(first, 2)} && y[0] in {Shade(first, 1), Shade(first, 2)}
            && y[6] == Shade(first, 3)
  {
    hide Painted, Read, Shade;
    if src1 < src2 {
      Apart(src1, src2, i);
      PaintedPair(m, src1, (src2 - src1) / 8, k, first, i);
    } else {
      Apart(src2, src1, i);
      PaintedPair(m, src2, (src1 - src2) / 8, k, first, i);
    }
  }

  lemma Apart(low: nat, high: nat, i: nat)
    requires low % 8 == 0 && high % 8 == 0 && low < high
    ensures 0 < (high - low) / 8 && high + 8 * i == low + 8 * (i + (high - low) / 8)
  {
  }

  lemma {:induction false} LeadingNotes(xs: Words, ys: Words, k: nat)
    requires |xs| == |ys| && forall i :: 0 <= i < |xs| ==> (xs[i] != ys[i] <==> i <= k)
    ensures |Notes(xs, ys)| == if |xs| <= k then |xs| else k + 1
  {
    if xs != [] {
      LeadingNotes(xs[..|xs| - 1], ys[..|xs| - 1], k);
    }
  }

  lemma PaintedDifference(m: seq<Byte>, src1: nat, src2: nat, size: nat, k: nat, first: Byte, n: nat)
    requires IsPainted(m, src1, src2, size / 8, k, first) && k < n <= size / 8
    requires InBounds(m, src1, size) && InBounds(m, src2, size)
    ensures |Notes(WordsOf(m, src1, size)[..n], WordsOf(m, src2, size)[..n])| == k + 1
  {
    hide IsPainted, Read, WordsOf;
    var xs, ys := WordsOf(m, src1, size), WordsOf(m, src2, size);
    forall i | 0 <= i < n
      ensures xs[i] != ys[i] <==> i <= k
    {
      WordsOfAt(m, src1, size, i);
      WordsOfAt(m, src2, size, i);
      PaintedWords(m, src1, src2, size / 8, k, first, i);
    }
    LeadingNotes(xs[..n], ys[..n], k);
  }

  /** More than count notes, or none left to write. */
  predicate Beyond(c: Creation, count: nat) {
    c.overflowed || c.deltaSize > NOTE_SIZE * count
  }

  lemma {:induction false} BeyondStays(m: seq<Byte>, src1: nat, src2: nat, i: nat, n: nat, delta: nat, max: nat,
                                       count: nat)
    requires i <= n && InBounds(m, src1, 8 * n) && InBounds(m, src2, 8 * n) && InBounds(m, delta, max)
    requires Beyond(CreateLoop(m, src1, src2, i, delta, max), count)
    ensures Beyond(CreateLoop(m, src1, src2, n, delta, max), count)
    decreases n
  {
    hide EncodeNote, Write;
    if i < n {
      BeyondStays(m, src1, src2, i, n - 1, delta, max, count);
    }
  }

  /** If the words at j differ once count notes are written, one more is written by then, or there is no room. */
  lemma {:induction false} NextDiffers(m: seq<Byte>, src1: nat, src2: nat, i: nat, j: nat, delta: nat, max: nat,
                                       count: nat)
    requires i <= j && InBounds(m, src1, 8 * j + 8) && InBounds(m, src2, 8 * j + 8) && InBounds(m, delta, max)
    requires var c := CreateLoop(m, src1, src2, i, delta, max);
             c.deltaSize == NOTE_SIZE * count && Read(c.memory, src1 + 8 * j, 8) != Read(c.memory, src2 + 8 * j, 8)
    ensures Beyond(CreateLoop(m, src1, src2, j + 1, delta, max), count)
  {
    hide EncodeNote, Write, Read;
    OnlyBeyond(m, src1, src2, i, j, delta, max, count);
  }

  lemma {:induction false} OnlyBeyond(m: seq<Byte>, src1: nat, src2: nat, i: nat, j: nat, delta: nat, max: nat,
                                      count: nat)
    requires i <= j && InBounds(m, src1, 8 * j) && InBounds(m, src2, 8 * j) && InBounds(m, delta, max)
    requires CreateLoop(m, src1, src2, i, delta, max).deltaSize == NOTE_SIZE * count
    ensures var c := CreateLoop(m, src1, src2, j, delta, max);
            c == CreateLoop(m, src1, src2, i, delta, max) || Beyond(c, count)
    decreases j
  {
    hide EncodeNote, Write, Read;
    if i < j {
      OnlyBeyond(m, src1, src2, i, j - 1, delta, max, count);
    }
  }

  lemma ReadByte(m: seq<Byte>, a: nat, n: nat, i: nat)
    requires InBounds(m, a, n) && i < n
    ensures Read(m, a, n)[i] == m[a + i]
  {
  }

  lemma NoteBytes(k: nat, data: Word)
    requires k < TWO_TO_THE_16
    ensures var note := EncodeNote(Note(k, data)); note[0] == ByteOf(k % 256) && note[8] == data[6]
  {
  }

  /** The loop after k + 1 turns, when no earlier note falls ahead: k + 1 notes, of which the last is for word k. */
  lemma PaintedLoop(m: seq<Byte>, src1: nat, src2: nat, size: nat, delta: nat, max: nat, k: nat, first: Byte)
    requires InBounds(m, src1, size) && InBounds(m, src2, size) && IsPainted(m, src1, src2, size / 8, k, first)
    requires InBounds(m, delta, max) && k < size / 8 && k < max / NOTE_SIZE && k < TWO_TO_THE_16
    requires NoneAhead(delta, max, src1, k + 1) && NoneAhead(delta, max, src2, k + 1)
    ensures var c := CreateLoop(m, src1, src2, k + 1, delta, max);
            var notes := Notes(WordsOf(m, src1, size)[..k + 1], WordsOf(m, src2, size)[..k + 1]);
            && |notes| == k + 1 && |Encode(notes)| == NOTE_SIZE * (k + 1)
            && c == Creation(Write(m, delta, Encode(notes)), NOTE_SIZE * (k + 1), false)
            && Read(c.memory, delta + NOTE_SIZE * k, NOTE_SIZE) == EncodeNote(Note(k, Read(m, src2 + 8 * k, 8)))
  {
    hide WordsOf, Notes, CreateLoop, Write, Read, Encode, EncodeNote, NoneAhead, Kept, IsPainted;
    var xs, ys := WordsOf(m, src1, size), WordsOf(m, src2, size);
    var notes, note := Notes(xs[..k + 1], ys[..k + 1]), Note(k, ys[k]);
    CreateLoopIs(m, src1, src2, size, k + 1, delta, max);
    PaintedDifference(m, src1, src2, size, k, first, k + 1);
    WordsOfAt(m, src1, size, k);
    WordsOfAt(m, src2, size, k);
    PaintedWords(m, src1, src2, size / 8, k, first, k);
    NotesNext(xs, ys, k);
    KeptSome(notes, max);
    EncodeSize(notes);
    EncodeSize(notes[..k]);
    EncodeAppend(notes[..k], [note]);
    EncodeOne(note);
    assert notes == notes[..k] + [note];
    LastRead(m, delta, Encode(notes[..k]), EncodeNote(note));
  }

  lemma LastRead(m: seq<Byte>, a: nat, s: seq<Byte>, t: seq<Byte>)
    requires InBounds(m, a, |s| + |t|)
    ensures Read(Write(m, a, s + t), a + |s|, |t|) == t
  {
  }

  /** An aligned note falls on the word where it starts and on the next one. */
  lemma FallsOnTwo(delta: nat, k: nat, src: nat, j: nat)
    requires (delta + NOTE_SIZE * k) % 8 == 0 && src % 8 == 0
    ensures var p, a := delta + NOTE_SIZE * k, src + 8 * j; Falls(delta, k, src, j) <==> a == p || a == p + 8
  {
    var p, a := delta + NOTE_SIZE * k, src + 8 * j;
    assert a % 8 == 0;
    assert p == 8 * (p / 8) && a == 8 * (a / 8);
  }

  /** The first byte of a word still to be read, once the note has been written. */
  lemma FirstByte(m: seq<Byte>, m1: seq<Byte>, delta: nat, s: seq<Byte>, k: nat, src: nat, j: nat, data: Word)
    requires InBounds(m, delta, |s|) && |s| == NOTE_SIZE * (k + 1) && m1 == Write(m, delta, s)
    requires k < TWO_TO_THE_16 && Read(m1, delta + NOTE_SIZE * k, NOTE_SIZE) == EncodeNote(Note(k, data))
    requires (delta + NOTE_SIZE * k) % 8 == 0 && src % 8 == 0 && InBounds(m, src + 8 * j, 8)
    requires forall i :: 0 <= i < k ==> !Falls(delta, i, src, j)
    ensures var p, a := delta + NOTE_SIZE * k, src + 8 * j;
            Read(m1, a, 8)[0] ==
            if a == p then ByteOf(k % 256) else if a == p + 8 then data[6] else Read(m, a, 8)[0]
  {
    FallsOnTwo(delta, k, src, j);
    NoteBytes(k, data);
    hide Write, Read, EncodeNote, Falls;
    var p, a := delta + NOTE_SIZE * k, src + 8 * j;
    if a == p || a == p + 8 {
      ReadByte(m1, a, 8, 0);
      ReadByte(m1, p, NOTE_SIZE, a - p);
    } else {
      WordAcrossNotes(m, src, j, delta, s, k + 1);
    }
  }

  /** The turn that comes to the word finds a difference that was not there. */
  lemma WordsClash(m: seq<Byte>, src1: nat, src2: nat, size: nat, delta: nat, max: nat, k: nat, j: nat)
    requires InBounds(m, src1, size) && InBounds(m, src2, size)
             && IsPainted(m, src1, src2, size / 8, k, ByteOf(k % 256))
    requires InBounds(m, delta, max) && k < j < size / 8 && k < max / NOTE_SIZE && k < TWO_TO_THE_16
    requires (delta + NOTE_SIZE * k) % 8 == 0
    requires NoneAhead(delta, max, src1, k + 1) && NoneAhead(delta, max, src2, k + 1)
    requires forall i :: 0 <= i < k ==> !Falls(delta, i, src1, j) && !Falls(delta, i, src2, j)
    requires Falls(delta, k, src1, j) || Falls(delta, k, src2, j)
    ensures var c := CreateLoop(m, src1, src2, k + 1, delta, max);
            c.deltaSize == NOTE_SIZE * (k + 1) && Read(c.memory, src1 + 8 * j, 8) != Read(c.memory, src2 + 8 * j, 8)
  {
    var first, data := ByteOf(k % 256), Read(m, src2 + 8 * k, 8);
    assert src1 % 8 == 0 && src2 % 8 == 0 && src1 != src2;
    hide WordsOf, Notes, CreateLoop, Write, Read, Encode, EncodeNote, NoneAhead, Falls, IsPainted, ByteOf, Shade;
    PaintedLoop(m, src1, src2, size, delta, max, k, first);
    PaintedWords(m, src1, src2, size / 8, k, first, k);
    PaintedWords(m, src1, src2, size / 8, k, first, j);
    Shades(first);
    FallsOnTwo(delta, k, src1, j);
    FallsOnTwo(delta, k, src2, j);
    var s := Encode(Notes(WordsOf(m, src1, size)[..k + 1], WordsOf(m, src2, size)[..k + 1]));
    var m1 := CreateLoop(m, src1, src2, k + 1, delta, max).memory;
    FirstByte(m, m1, delta, s, k, src1, j, data);
    FirstByte(m, m1, delta, s, k, src2, j, data);
    assert Read(m1, src1 + 8 * j, 8)[0] != Read(m1, src2 + 8 * j, 8)[0];
  }

  lemma WrongBeyond(m: seq<Byte>, src1: nat, src2: nat, size: uint32, delta: nat, max: uint32, count: nat)
    requires InBounds(m, src1, size) && InBounds(m, src2, size) && InBounds(m, delta, max)
    requires |Difference(m, src1, src2, size)| == count <= max / NOTE_SIZE
    requires Beyond(CreateLoop(m, src1, src2, size / 8, delta, max), count)
    ensures !RecordRight(m, src1, src2, size, delta, max)
  {
    hide Difference, CreateLoop, Read, Encode;
  }

  lemma WholeDifference(m: seq<Byte>, src1: nat, src2: nat, size: nat, k: nat, first: Byte)
    requires InBounds(m, src1, size) && InBounds(m, src2, size)
    requires IsPainted(m, src1, src2, size / 8, k, first) && k < size / 8
    ensures |Difference(m, src1, src2, size)| == k + 1
  {
    PaintedDifference(m, src1, src2, size, k, first, size / 8);
    hide Notes, WordsOf;
    var xs, ys := WordsOf(m, src1, size), WordsOf(m, src2, size);
    assert xs[..size / 8] == xs && ys[..size / 8] == ys;
  }

  lemma NoneBefore(delta: nat, src1: nat, src2: nat, n: nat, k: nat, i: nat, j: nat)
    requires i < k && i < j < n && forall i :: 0 <= i < k ==> !Ahead(delta, src1, src2, n, i)
    ensures !Falls(delta, i, src1, j) && !Falls(delta, i, src2, j)
  {
    hide Falls;
    assert !Ahead(delta, src1, src2, n, i);
  }

  lemma FirstAligned(delta: nat, src1: nat, src2: nat, n: nat, k: nat)
    requires src1 % 8 == 0 && src2 % 8 == 0 && delta % 8 == 0 && Ahead(delta, src1, src2, n, k)
    requires forall i :: 0 <= i < k ==> !Ahead(delta, src1, src2, n, i)
    ensures (delta + NOTE_SIZE * k) % 8 == 0
  {
    hide AheadOf;
    if (delta + NOTE_SIZE * k) % 8 != 0 {
      assert !Ahead(delta, src1, src2, n, k - 1);
      if AheadOf(delta, src1, n, k) {
        AheadEarlier(delta, src1, n, k);
      } else {
        AheadEarlier(delta, src2, n, k);
      }
    }
  }

  lemma WrongAhead(m: seq<Byte>, src1: nat, src2: nat, size: uint32, delta: nat, max: uint32, k: nat)
    requires InBounds(m, src1, size) && InBounds(m, src2, size) && InBounds(m, delta, max)
    requires IsPainted(m, src1, src2, size / 8, k, ByteOf(k % 256)) && k < max / NOTE_SIZE
    requires src1 % 8 == 0 && src2 % 8 == 0 && delta % 8 == 0 && size <= DeltaTheorems.MAX_TRANSFER
    requires Ahead(delta, src1, src2, size / 8, k)
    requires forall i :: 0 <= i < k ==> !Ahead(delta, src1, src2, size / 8, i)
    ensures !RecordRight(m, src1, src2, size, delta, max)
  {
    hide Difference, CreateLoop, Read, Falls, RecordRight, Beyond, IsPainted, ByteOf;
    var n: nat := size / 8;
    FirstAligned(delta, src1, src2, n, k);
    var j :| k < j < n && (Falls(delta, k, src1, j) || Falls(delta, k, src2, j));
    forall i, t | 0 <= i < k && i < t < n
      ensures !Falls(delta, i, src1, t) && !Falls(delta, i, src2, t)
    {
      NoneBefore(delta, src1, src2, n, k, i, t);
    }
    hide Ahead, AheadOf;
    WordsClash(m, src1, src2, size, delta, max, k, j);
    NextDiffers(m, src1, src2, k + 1, j, delta, max, k + 1);
    BeyondStays(m, src1, src2, j + 1, n, delta, max, k + 1);
    WholeDifference(m, src1, src2, size, k, ByteOf(k % 256));
    WrongBeyond(m, src1, src2, size, delta, max, k + 1);
  }

  lemma WrongSomewhere(length: nat, src1: nat, src2: nat, size: uint32, delta: nat, max: uint32, k: nat)
    returns (m: seq<Byte>)
    requires Validate(CreateDelta(src1, src2, size, delta, max, 0, false)) == Success && src1 != src2
    requires src1 + size <= length && src2 + size <= length && delta + max <= length
    requires Ahead(delta, src1, src2, size / 8, k) && k < max / NOTE_SIZE
    ensures |m| == length && !RecordRight(m, src1, src2, size, delta, max)
  {
    hide RecordRight, Falls, Painted, ByteOf, Ahead;
    var first := FirstAhead(delta, src1, src2, size / 8, k);
    var low, high := if src1 < src2 then src1 else src2, if src1 < src2 then src2 else src1;
    m := Painted(length, low, (high - low) / 8, first, ByteOf(first % 256));
    WrongAhead(m, src1, src2, size, delta, max, first);
  }

  /**
   * At given addresses the record of an accepted create-delta is right for every content of memory exactly when the
   * sources are one, or no note falls on a word that the loop has still to read by the turn that can first write it.
   */
  lemma CreateDeltaPlacementIff(length: nat, src1: nat, src2: nat, size: uint32, delta: nat, max: uint32)
    requires Validate(CreateDelta(src1, src2, size, delta, max, 0, false)) == Success
    requires src1 + size <= length && src2 + size <= length && delta + max <= length
    ensures src1 == src2 || (NoneAhead(delta, max, src1, size / 8) && NoneAhead(delta, max, src2, size / 8)) <==>
            forall m: seq<Byte> :: |m| == length ==> RecordRight(m, src1, src2, size, delta, max)
  {
    var n: nat := size / 8;
    hide RecordRight, Falls, Validate;
    if src1 == src2 || (NoneAhead(delta, max, src1, n) && NoneAhead(delta, max, src2, n)) {
      forall m: seq<Byte> | |m| == length
        ensures RecordRight(m, src1, src2, size, delta, max)
      {
        if src1 == src2 {
          SelfRight(m, src1, size, delta, max);
        } else {
          RightFromLoop(m, src1, src2, size, delta, max);
        }
      }
    } else {
      var k, j :| 0 <= k < j < n && k < max / NOTE_SIZE && (Falls(delta, k, src1, j) || Falls(delta, k, src2, j));
      assert Ahead(delta, src1, src2, n, k);
      var m := WrongSomewhere(length, src1, src2, size, delta, max, k);
    }
  }

  // Apply: which records stay inside

  /** No store of the record's notes falls on the record itself. */
  ghost predicate ClearOfRecord(notes: seq<Note>, delta: nat, deltaSize: nat, dst: nat) {
    forall k :: 0 <= k < |notes| ==> Disjoint(dst + 8 * notes[k].offset, 8, delta, deltaSize)
  }

  /** Such a record is read as it was at the start. */
  lemma {:induction false} RecordKept(m: seq<Byte>, delta: nat, deltaSize: nat, dst: nat, notes: seq<Note>, i: nat)
    requires InBounds(m, delta, deltaSize) && notes == Decode(Read(m, delta, deltaSize)) && i <= deltaSize / NOTE_SIZE
    requires ClearOfRecord(notes, delta, deltaSize, dst) && ApplyFits(m, delta, dst, i)
    ensures Read(ApplyLoop(m, delta, dst, i), delta, deltaSize) == Read(m, delta, deltaSize)
    ensures i < deltaSize / NOTE_SIZE ==> NoteOf(ApplyLoop(m, delta, dst, i), delta, i) == notes[i]
  {
    hide Write, Read, Decode, DecodeNote;
    if i > 0 {
      RecordKept(m, delta, deltaSize, dst, notes, i - 1);
      ReadElsewhere(ApplyLoop(m, delta, dst, i - 1), dst + 8 * notes[i - 1].offset, notes[i - 1].data, delta,
                    deltaSize);
    }
    if i < deltaSize / NOTE_SIZE {
      NoteAt(ApplyLoop(m, delta, dst, i), delta, deltaSize, i);
    }
  }

  /** Two memories agree but for one byte, which they agree in too once it has been stored. */
  predicate AgreeBut(m: seq<Byte>, m': seq<Byte>, p: nat, stored: bool) {
    |m'| == |m| && forall q :: 0 <= q < |m| && (q == p ==> stored) ==> m'[q] == m[q]
  }

  lemma WriteAgrees(m: seq<Byte>, m': seq<Byte>, p: nat, stored: bool, a: nat, s: seq<Byte>)
    requires AgreeBut(m, m', p, stored) && InBounds(m, a, |s|)
    ensures AgreeBut(Write(m, a, s), Write(m', a, s), p, stored || a <= p < a + |s|)
  {
    WritePointwise(m, a, s);
    WritePointwise(m', a, s);
    hide Write;
  }

  /** A byte outside the record that note k stores has no say in what applying the record leaves. */
  lemma {:induction false} StoredByte(m: seq<Byte>, m': seq<Byte>, delta: nat, deltaSize: nat, dst: nat,
                                      notes: seq<Note>,
                                      p: nat, k: nat, i: nat)
    requires InBounds(m, delta, deltaSize) && notes == Decode(Read(m, delta, deltaSize)) && i <= deltaSize / NOTE_SIZE
    requires ClearOfRecord(notes, delta, deltaSize, dst) && ApplyFits(m, delta, dst, i)
    requires |m'| == |m| && AgreeBut(m, m', p, false) && Read(m', delta, deltaSize) == Read(m, delta, deltaSize)
    requires k < deltaSize / NOTE_SIZE && dst + 8 * notes[k].offset <= p < dst + 8 * notes[k].offset + 8
    ensures ApplyFits(m', delta, dst, i)
    ensures AgreeBut(ApplyLoop(m, delta, dst, i), ApplyLoop(m', delta, dst, i), p, k < i)
  {
    hide Write, Read, Decode, NoteOf, AgreeBut;
    if i == 0 {
      LoopStart(m, delta, dst);
      LoopStart(m', delta, dst);
    } else {
      StoredByte(m, m', delta, deltaSize, dst, notes, p, k, i - 1);
      RecordKept(m, delta, deltaSize, dst, notes, i - 1);
      RecordKept(m', delta, deltaSize, dst, notes, i - 1);
      WriteAgrees(ApplyLoop(m, delta, dst, i - 1), ApplyLoop(m', delta, dst, i - 1), p, k < i - 1,
                  dst + 8 * notes[i - 1].offset, notes[i - 1].data);
      AgreeWeaken(ApplyLoop(m, delta, dst, i), ApplyLoop(m', delta, dst, i), p,
                  k < i - 1 || dst + 8 * notes[i - 1].offset <= p < dst + 8 * notes[i - 1].offset + 8, k < i);
    }
  }

  lemma LoopStart(m: seq<Byte>, delta: nat, dst: nat)
    requires delta <= |m|
    ensures ApplyFits(m, delta, dst, 0) && ApplyLoop(m, delta, dst, 0) == m
  {
  }

  lemma AgreeWeaken(m: seq<Byte>, m': seq<Byte>, p: nat, stored: bool, less: bool)
    requires AgreeBut(m, m', p, stored) && (less ==> stored)
    ensures AgreeBut(m, m', p, less)
  {
  }

  lemma ReadUnchanged(m: seq<Byte>, p: nat, x: Byte, a: nat, n: nat)
    requires p < |m| && InBounds(m, a, n) && !(a <= p < a + n)
    ensures Read(m[p := x], a, n) == Read(m, a, n) && AgreeBut(m, m[p := x], p, false)
  {
  }

  lemma StoreLeaves(notes: seq<Note>, delta: nat, deltaSize: nat, dst: nat, size: nat, k: nat)
    requires ClearOfRecord(notes, delta, deltaSize, dst) && k < |notes| && 8 * notes[k].offset + 8 > size
    requires size % 8 == 0 && 0 < deltaSize
    ensures var p := dst + 8 * notes[k].offset; dst + size <= p && !(delta <= p < delta + deltaSize)
  {
  }

  /** A note beyond the destination changes a byte there in some memory with the same record. */
  lemma StoresOutside(m: seq<Byte>, delta: nat, deltaSize: uint32, dst: nat, size: uint32, k: nat)
    returns (m': seq<Byte>)
    requires InBounds(m, delta, deltaSize) && ApplyFits(m, delta, dst, deltaSize / NOTE_SIZE) && size % 8 == 0
    requires ClearOfRecord(Decode(Read(m, delta, deltaSize)), delta, deltaSize, dst)
    requires k < deltaSize / NOTE_SIZE && 8 * Decode(Read(m, delta, deltaSize))[k].offset + 8 > size
    ensures |m'| == |m| && Read(m', delta, deltaSize) == Read(m, delta, deltaSize)
    ensures ApplyFits(m', delta, dst, deltaSize / NOTE_SIZE) && !StaysInside(m', delta, deltaSize, dst, size)
  {
    hide ApplyFits, ApplyLoop, DecodeNote, Read, ClearOfRecord;
    var n, notes := deltaSize / NOTE_SIZE, Decode(Read(m, delta, deltaSize));
    var p := dst + 8 * notes[k].offset;
    StoreFits(m, delta, deltaSize, dst, notes, k);
    StoreLeaves(notes, delta, deltaSize, dst, size, k);
    var last := ApplyLoop(m, delta, dst, n)[p];
    m' := m[p := if last == 0 then 1 else 0];
    ReadUnchanged(m, p, m'[p], delta, deltaSize);
    StoredByte(m, m', delta, deltaSize, dst, notes, p, k, n);
    assert ApplyLoop(m', delta, dst, n)[p] == last != m'[p];
  }

  lemma StoreFits(m: seq<Byte>, delta: nat, deltaSize: nat, dst: nat, notes: seq<Note>, k: nat)
    requires InBounds(m, delta, deltaSize) && notes == Decode(Read(m, delta, deltaSize)) && k < deltaSize / NOTE_SIZE
    requires ClearOfRecord(notes, delta, deltaSize, dst) && ApplyFits(m, delta, dst, deltaSize / NOTE_SIZE)
    ensures InBounds(m, dst + 8 * notes[k].offset, 8)
  {
    hide Read, DecodeNote, NoteOf, ClearOfRecord, ApplyLoop;
    FitsEarlier(m, delta, dst, k + 1, deltaSize / NOTE_SIZE);
    FitsEarlier(m, delta, dst, k, deltaSize / NOTE_SIZE);
    RecordKept(m, delta, deltaSize, dst, notes, k);
  }

  /**
   * An accepted apply-delta whose stores do not fall on its own record stays inside its destination, whatever the rest
   * of memory holds, exactly when every offset lies within.
   */
  lemma ApplyRecordInsideIff(m: seq<Byte>, delta: nat, deltaSize: uint32, dst: nat, size: uint32)
    requires AcceptedApply(m, delta, deltaSize, dst, size)
    requires ClearOfRecord(Decode(Read(m, delta, deltaSize)), delta, deltaSize, dst)
    ensures Within(Decode(Read(m, delta, deltaSize)), size) <==>
            forall m': seq<Byte> :: |m'| == |m| && Read(m', delta, deltaSize) == Read(m, delta, deltaSize) ==>
              ApplyFits(m', delta, dst, deltaSize / NOTE_SIZE) && StaysInside(m', delta, deltaSize, dst, size)
  {
    OverlapsExact(m, delta, deltaSize, dst, size);
    var notes := Decode(Read(m, delta, deltaSize));
    hide ApplyFits, StaysInside, Read, DecodeNote, ClearOfRecord, Overlaps;
    if Within(notes, size) {
      forall m': seq<Byte> | |m'| == |m| && Read(m', delta, deltaSize) == Read(m, delta, deltaSize)
        ensures ApplyFits(m', delta, dst, deltaSize / NOTE_SIZE) && StaysInside(m', delta, deltaSize, dst, size)
      {
        WithinStays(m', delta, deltaSize, dst, size);
      }
    } else {
      var k :| 0 <= k < |notes| && 8 * notes[k].offset + 8 > size;
      var m' := StoresOutside(m, delta, deltaSize, dst, size, k);
    }
  }

  const RESTORING := Note(2, [2, 0, 2, 0, 2, 0, 2, 0])

  lemma RestoringNote(s: seq<Byte>)
    requires s == [2, 0, 2, 0, 2, 0, 2, 0, 2, 0]
    ensures DecodeNote(s) == RESTORING
  {
  }

  lemma RestoringLoop(m: seq<Byte>)
    requires |m| == 34 && NoteOf(m, 24, 0) == RESTORING
    ensures ApplyFits(m, 24, 8, 1) && ApplyLoop(m, 24, 8, 1) == Write(m, 24, RESTORING.data)
  {
    hide NoteOf, Write;
    LoopStart(m, 24, 8);
  }

  /** A note that falls on its own record can store there what is there already: one at 24, with 2 as its offset. */
  lemma RestoringRecord(m: seq<Byte>)
    requires |m| == 34 && Read(m, 24, 10) == [2, 0, 2, 0, 2, 0, 2, 0, 2, 0]
    ensures AcceptedApply(m, 24, 10, 8, 8) && !Within(Decode(Read(m, 24, 10)), 8) && StaysInside(m, 24, 10, 8, 8)
  {
    RestoringNote(Read(m, 24, 10));
    NoteAt(m, 24, 10, 0);
    Restored(m);
    hide DecodeNote, Read, Write, ApplyFits, ApplyLoop;
    RestoringLoop(m);
    assert Decode(Read(m, 24, 10))[0] == RESTORING;
  }

  lemma Restored(m: seq<Byte>)
    requires |m| == 34 && Read(m, 24, 10) == [2, 0, 2, 0, 2, 0, 2, 0, 2, 0]
    ensures Write(m, 24, RESTORING.data) == m
  {
    var record := Read(m, 24, 10);
    assert forall i :: 0 <= i < 10 ==> record[i] == m[24 + i];
  }
}
