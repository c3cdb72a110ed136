/** Delta records: ten-byte notes of a 16-bit word offset and the eight bytes that belong there. */
module Delta {
  import opened Memory
  import opened BlockLayout
  import opened Results

  const TWO_TO_THE_16 := 0x1_0000
  const NOTE_SIZE := 10

  type uint16 = x: int | 0 <= x < TWO_TO_THE_16

  datatype Note = Note(offset: uint16, data: Word)

  function Add16(x: uint16, y: nat): uint16 {
    (x + y) % TWO_TO_THE_16
  }

  // Notes and bytes

  /** The byte with value n, counted up from zero. */
  function ByteOf(n: nat): (b: Byte)
    requires n < 256
    ensures b as nat == n
  {
    if n == 0 then 0
    else
      var before := ByteOf(n - 1);
      NextByte(before);
      before + 1
  }

  lemma NextByte(b: Byte)
    requires b as nat < 255
    ensures (b + 1) as nat == b as nat + 1
  {
    LastByte(b);
  }

  lemma LastByte(b: Byte)
    ensures b as nat < 255 ==> b != 255
  {
  }

  lemma SameByte(b: Byte, c: Byte)
    requires b as nat == c as nat
    ensures b == c
  {
    assert (b as nat) as Byte == b && (c as nat) as Byte == c;
  }

  function StoreOffset(n: uint16): (s: seq<Byte>)
    ensures |s| == 2
  {
    [ByteOf(n % 256), ByteOf(n / 256)]
  }

  function LoadOffset(s: seq<Byte>): uint16
    requires |s| == 2
  {
    s[0] as nat + 256 * (s[1] as nat)
  }

  lemma LoadStoreOffset(n: uint16)
    ensures LoadOffset(StoreOffset(n)) == n
  {
    hide ByteOf;
  }

  function EncodeNote(note: Note): (s: seq<Byte>)
    ensures |s| == NOTE_SIZE
  {
    StoreOffset(note.offset) + note.data
  }

  function DecodeNote(s: seq<Byte>): Note
    requires |s| == NOTE_SIZE
  {
    Note(LoadOffset(s[..2]), s[2..])
  }

  lemma DecodeEncodeNote(note: Note)
    ensures DecodeNote(EncodeNote(note)) == note
  {
    LoadStoreOffset(note.offset);
    assert EncodeNote(note)[..2] == StoreOffset(note.offset) && EncodeNote(note)[2..] == note.data;
  }

  function Encoded(notes: seq<Note>): (blocks: seq<seq<Byte>>)
    ensures |blocks| == |notes| && Uniform(blocks, NOTE_SIZE)
  {
    seq(|notes|, k requires 0 <= k < |notes| => EncodeNote(notes[k]))
  }

  function Encode(notes: seq<Note>): seq<Byte> {
    Join(Encoded(notes))
  }

  /** The notes of a record; bytes after the last whole note are ignored. */
  function Decode(record: seq<Byte>): (notes: seq<Note>)
    ensures |notes| == Count(|record|, NOTE_SIZE)
  {
    var blocks := Blocks(record, NOTE_SIZE);
    seq(|blocks|, k requires 0 <= k < |blocks| => DecodeNote(blocks[k]))
  }

  lemma EncodeSize(notes: seq<Note>)
    ensures |Encode(notes)| == NOTE_SIZE * |notes|
  {
    JoinLength(Encoded(notes), NOTE_SIZE);
  }

  lemma DecodeEncode(notes: seq<Note>)
    ensures Decode(Encode(notes)) == notes
  {
    hide Join, EncodeNote, DecodeNote;
    BlocksOfJoin(Encoded(notes), NOTE_SIZE);
    forall k | 0 <= k < |notes|
      ensures Decode(Encode(notes))[k] == notes[k]
    {
      DecodeEncodeNote(notes[k]);
    }
  }

  lemma StoreLoadOffset(s: seq<Byte>)
    requires |s| == 2
    ensures StoreOffset(LoadOffset(s)) == s
  {
    hide ByteOf;
    var lo, hi := s[0] as nat, s[1] as nat;
    assert LoadOffset(s) % 256 == lo && LoadOffset(s) / 256 == hi;
    SameByte(ByteOf(lo), s[0]);
    SameByte(ByteOf(hi), s[1]);
  }

  lemma EncodeDecodeNote(s: seq<Byte>)
    requires |s| == NOTE_SIZE
    ensures EncodeNote(DecodeNote(s)) == s
  {
    StoreLoadOffset(s[..2]);
    hide StoreOffset, LoadOffset;
    assert s == s[..2] + s[2..];
  }

  /** A record of whole notes is what its notes encode to. */
  lemma EncodeDecode(record: seq<Byte>)
    requires |record| % NOTE_SIZE == 0
    ensures Encode(Decode(record)) == record
  {
    hide Join, EncodeNote, DecodeNote;
    var blocks := Blocks(record, NOTE_SIZE);
    forall k | 0 <= k < |blocks|
      ensures Encoded(Decode(record))[k] == blocks[k]
    {
      EncodeDecodeNote(blocks[k]);
    }
    assert Encoded(Decode(record)) == blocks;
    JoinOfBlocks(record, NOTE_SIZE);
  }

  lemma EncodeAppend(s: seq<Note>, t: seq<Note>)
    ensures Encode(s + t) == Encode(s) + Encode(t)
  {
    assert Encoded(s + t) == Encoded(s) + Encoded(t);
    JoinConcat(Encoded(s), Encoded(t));
  }

  // Creating

  type Words = seq<Word>

  /** One note for each word that differs, in increasing order. */
  function Notes(xs: Words, ys: Words): (notes: seq<Note>)
    requires |xs| == |ys|
  {
    if xs == [] then []
    else
      var n := |xs| - 1;
      Notes(xs[..n], ys[..n]) + if xs[n] == ys[n] then [] else [Note(n % TWO_TO_THE_16, ys[n])]
  }

  /** The notes that fit a record of at most max bytes. */
  function Kept(notes: seq<Note>, max: nat): (kept: seq<Note>)
    ensures NOTE_SIZE * |kept| <= max && |kept| <= |notes|
  {
    if |notes| <= max / NOTE_SIZE then notes else notes[..max / NOTE_SIZE]
  }

  const OVERFLOW: bv8 := 2

  function CreateResult(notes: seq<Note>, max: nat): bv8 {
    if |notes| > max / NOTE_SIZE then OVERFLOW else if notes == [] then EQUAL else NOT_EQUAL
  }

  ghost predicate Increasing(notes: seq<Note>) {
    forall i, j :: 0 <= i < j < |notes| ==> notes[i].offset < notes[j].offset
  }

  /**
   * Every offset of a record over at most 2^16 words is the index of a differing word, with its new bytes, in order.
   */
  lemma {:induction false} NotesExact(xs: Words, ys: Words)
    requires |xs| == |ys| <= TWO_TO_THE_16
    ensures Increasing(Notes(xs, ys))
    ensures forall i :: 0 <= i < |Notes(xs, ys)| ==>
              var note := Notes(xs, ys)[i];
              note.offset < |xs| && xs[note.offset] != ys[note.offset] && note.data == ys[note.offset]
    ensures forall k :: 0 <= k < |xs| && xs[k] != ys[k] ==> Note(k, ys[k]) in Notes(xs, ys)
  {
    if xs != [] {
      var n := |xs| - 1;
      NotesExact(xs[..n], ys[..n]);
      var before, notes := Notes(xs[..n], ys[..n]), Notes(xs, ys);
      assert forall i :: 0 <= i < |before| ==> notes[i] == before[i];
      forall k | 0 <= k < |xs| && xs[k] != ys[k]
        ensures Note(k, ys[k]) in notes
      {
        if k < n {
          assert Note(k, ys[k]) in before;
        }
      }
    }
  }

  function Shifted(notes: seq<Note>, blocks: nat): (out: seq<Note>)
    ensures |out| == |notes|
  {
    seq(|notes|, k requires 0 <= k < |notes| => Note(Add16(notes[k].offset, blocks), notes[k].data))
  }

  lemma ShiftedAppend(s: seq<Note>, t: seq<Note>, blocks: nat)
    ensures Shifted(s + t, blocks) == Shifted(s, blocks) + Shifted(t, blocks)
  {
  }

  lemma WrapTwice(k: nat, q: nat)
    ensures Add16(k % TWO_TO_THE_16, q) == (q + k) % TWO_TO_THE_16
  {
  }

  /** The notes of a whole are those of its first q words and then those of the rest, each q words later. */
  lemma {:induction false} NotesSplit(xs: Words, ys: Words, q: nat)
    requires |xs| == |ys| && q <= |xs|
    ensures Notes(xs, ys) == Notes(xs[..q], ys[..q]) + Shifted(Notes(xs[q..], ys[q..]), q)
    decreases |xs|
  {
    if q == |xs| {
      assert xs[..q] == xs && ys[..q] == ys;
    } else {
      var n := |xs| - 1;
      NotesSplit(xs[..n], ys[..n], q);
      NotesSplitStep(xs, ys, q);
    }
  }

  lemma NotesSplitStep(xs: Words, ys: Words, q: nat)
    requires |xs| == |ys| && q < |xs|
    requires var n := |xs| - 1;
             Notes(xs[..n], ys[..n]) ==
               Notes(xs[..n][..q], ys[..n][..q]) + Shifted(Notes(xs[..n][q..], ys[..n][q..]), q)
    ensures Notes(xs, ys) == Notes(xs[..q], ys[..q]) + Shifted(Notes(xs[q..], ys[q..]), q)
  {
    var n := |xs| - 1;
    var backX, backY := xs[q..], ys[q..];
    SlicesMeet(xs, q, n);
    SlicesMeet(ys, q, n);
    hide Notes, Shifted, LastNoteOf;
    var front, back, last := Notes(xs[..q], ys[..q]), Notes(backX[..n - q], backY[..n - q]), LastNoteOf(backX, backY);
    assert Notes(xs, ys) == Notes(xs[..n], ys[..n]) + LastNoteOf(xs, ys) by {
      LastNotes(xs, ys);
    }
    assert Notes(backX, backY) == back + last by {
      assert |backX| - 1 == n - q;
      LastNotes(backX, backY);
    }
    assert Shifted(last, q) == LastNoteOf(xs, ys) by {
      ShiftedLast(xs, ys, q);
    }
    assert Notes(xs[..n], ys[..n]) == front + Shifted(back, q);
    ShiftedTail(front, back, last, q);
  }

  lemma SlicesMeet(ws: Words, q: nat, n: nat)
    requires q <= n == |ws| - 1
    ensures ws[..n][..q] == ws[..q] && ws[..n][q..] == ws[q..][..n - q]
  {
  }

  lemma ShiftedTail(front: seq<Note>, back: seq<Note>, last: seq<Note>, q: nat)
    ensures front + Shifted(back + last, q) == front + Shifted(back, q) + Shifted(last, q)
  {
    ShiftedAppend(back, last, q);
    hide Shifted;
  }

  /** The note of the last word, if it differs. */
  function LastNoteOf(xs: Words, ys: Words): seq<Note>
    requires |xs| == |ys| > 0
  {
    var n := |xs| - 1;
    if xs[n] == ys[n] then [] else [Note(n % TWO_TO_THE_16, ys[n])]
  }

  lemma LastNotes(xs: Words, ys: Words)
    requires |xs| == |ys| > 0
    ensures Notes(xs, ys) == Notes(xs[..|xs| - 1], ys[..|xs| - 1]) + LastNoteOf(xs, ys)
  {
  }

  lemma ShiftedLast(xs: Words, ys: Words, q: nat)
    requires |xs| == |ys| && q < |xs|
    ensures Shifted(LastNoteOf(xs[q..], ys[q..]), q) == LastNoteOf(xs, ys)
  {
    WrapTwice(|xs| - 1 - q, q);
  }

  /** What fits after a first part that fits is what fits of the whole. */
  lemma KeptSplit(front: seq<Note>, back: seq<Note>, q: nat, max: nat)
    requires NOTE_SIZE * |front| <= max
    ensures Kept(front + Shifted(back, q), max) == front + Shifted(Kept(back, max - NOTE_SIZE * |front|), q)
  {
    assert (max - NOTE_SIZE * |front|) / NOTE_SIZE == max / NOTE_SIZE - |front|;
  }
}
