/** Creating a delta and applying it are inverse. */
module DeltaTheorems {
  import opened Memory
  import opened BlockLayout
  import opened Delta
  import opened DeltaKernels

  /** The largest transfer the delta operations accept: 2^16 words. */
  const MAX_TRANSFER := 0x80000

  lemma NotesWithin(xs: Words, ys: Words, size: nat)
    requires |xs| == |ys| <= TWO_TO_THE_16 && 8 * |xs| <= size
    ensures Within(Notes(xs, ys), size)
  {
    NotesExact(xs, ys);
    hide Notes;
    forall k | 0 <= k < |Notes(xs, ys)|
      ensures 8 * Notes(xs, ys)[k].offset + 8 <= size
    {
      var note := Notes(xs, ys)[k];
      assert note.offset < |xs|;
    }
  }

  lemma WriteSame(m: seq<Byte>, a: nat, s: seq<Byte>, t: seq<Byte>)
    requires InBounds(m, a, |s| + |t|) && Read(m, a + |s|, |t|) == t
    ensures Write(m, a, s) == Write(m, a, s + t)
  {
    WriteAppend(m, a, s, t);
    WritePointwise(m, a, s);
    ReadElsewhere(m, a, s, a + |s|, |t|);
    IsWrite(Write(m, a, s), a + |s|, t, Write(m, a, s)) by {
      hide Write;
      var r := Write(m, a, s);
      forall i | 0 <= i < |r|
        ensures r[i] == if a + |s| <= i < a + |s| + |t| then t[i - a - |s|] else r[i]
      {
        if a + |s| <= i < a + |s| + |t| {
          assert Read(r, a + |s|, |t|)[i - a - |s|] == t[i - a - |s|];
        }
      }
    }
  }

  lemma JoinLast(ws: Words, n: nat)
    requires |ws| == n + 1
    ensures Join(ws) == Join(ws[..n]) + ws[n] && |Join(ws[..n])| == 8 * n && |Join(ws)| == 8 * n + 8
  {
    JoinLength(ws[..n], 8);
    JoinLength(ws, 8);
  }

  lemma ReadSplit(m: seq<Byte>, a: nat, s: seq<Byte>, t: seq<Byte>)
    requires InBounds(m, a, |s| + |t|) && Read(m, a, |s| + |t|) == s + t
    ensures Read(m, a, |s|) == s && Read(m, a + |s|, |t|) == t
  {
    var r := Read(m, a, |s| + |t|);
    assert Read(m, a, |s|) == r[..|s|] && Read(m, a + |s|, |t|) == r[|s|..];
  }

  lemma {:induction false} AppliedNotes(m: seq<Byte>, dst: nat, xs: Words, ys: Words, size: nat)
    requires |xs| == |ys| <= TWO_TO_THE_16 && 8 * |xs| <= size && InBounds(m, dst, size)
    requires Read(m, dst, 8 * |xs|) == Join(xs)
    ensures Within(Notes(xs, ys), size) && |Join(ys)| == 8 * |xs|
    ensures Applied(m, dst, Notes(xs, ys), size) == Write(m, dst, Join(ys))
  {
    NotesWithin(xs, ys, size);
    if xs == [] {
      WriteNothing(m, dst);
    } else {
      hide Write, Read, Join, Notes, Applied, Within;
      var n := |xs| - 1;
      var xs', ys' := Front(xs), Front(ys);
      ReadSplit(m, dst, Join(xs'), xs[n]);
      AppliedNotes(m, dst, xs', ys', size);
      AppliedStep(m, dst, xs, ys, n, size);
    }
  }

  function Front(ws: Words): (front: Words)
    requires ws != []
    ensures |front| == |ws| - 1 && Join(ws) == Join(front) + ws[|ws| - 1]
    ensures |Join(front)| == 8 * |front| && |Join(ws)| == 8 * |ws|
  {
    JoinLast(ws, |ws| - 1);
    ws[..|ws| - 1]
  }

  lemma AppliedStep(m: seq<Byte>, dst: nat, xs: Words, ys: Words, n: nat, size: nat)
    requires |xs| == |ys| == n + 1 <= TWO_TO_THE_16 && 8 * n + 8 <= size && InBounds(m, dst, size)
    requires Read(m, dst + 8 * n, 8) == xs[n]
    requires Within(Notes(Front(xs), Front(ys)), size) && Within(Notes(xs, ys), size)
    requires Applied(m, dst, Notes(Front(xs), Front(ys)), size) == Write(m, dst, Join(Front(ys)))
    ensures Applied(m, dst, Notes(xs, ys), size) == Write(m, dst, Join(ys))
  {
    hide Write, Read, Join, Notes, Applied, Front, Within;
    NotesLast(xs, ys, n);
    if xs[n] == ys[n] {
      WriteSame(m, dst, Join(Front(ys)), ys[n]);
    } else {
      AppliedLast(m, dst, Notes(Front(xs), Front(ys)), Join(Front(ys)), Note(n, ys[n]), size);
    }
  }

  lemma NotesLast(xs: Words, ys: Words, n: nat)
    requires |xs| == |ys| == n + 1 <= TWO_TO_THE_16
    ensures var before := Notes(Front(xs), Front(ys));
            Notes(xs, ys) == if xs[n] == ys[n] then before else before + [Note(n, ys[n])]
  {
    LastNotes(xs, ys);
    hide Notes;
    SmallOffset(n);
  }

  lemma SmallOffset(n: nat)
    requires n < TWO_TO_THE_16
    ensures n % TWO_TO_THE_16 == n
  {
  }

  lemma AppliedLast(m: seq<Byte>, dst: nat, notes: seq<Note>, front: seq<Byte>, note: Note, size: nat)
    requires InBounds(m, dst, size) && Within(notes, size) && 8 * note.offset + 8 <= size && |front| == 8 * note.offset
    requires Applied(m, dst, notes, size) == Write(m, dst, front)
    ensures Within(notes + [note], size)
    ensures Applied(m, dst, notes + [note], size) == Write(m, dst, front + note.data)
  {
    hide Write;
    assert (notes + [note])[..|notes|] == notes;
    WriteAppend(m, dst, front, note.data);
  }

  /** Applying the whole difference to a copy of source 1 gives source 2. */
  lemma ApplyUndoesCreate(m: seq<Byte>, src1: nat, src2: nat, dst: nat, size: nat)
    requires InBounds(m, src1, size) && InBounds(m, src2, size) && InBounds(m, dst, size)
    requires size % 8 == 0 && size <= MAX_TRANSFER
    requires Read(m, dst, size) == Read(m, src1, size)
    ensures Within(Difference(m, src1, src2, size), size)
    ensures Applied(m, dst, Difference(m, src1, src2, size), size) == Write(m, dst, Read(m, src2, size))
  {
    hide Write, Applied, Notes;
    JoinOfBlocks(Read(m, src1, size), 8);
    JoinOfBlocks(Read(m, src2, size), 8);
    AppliedNotes(m, dst, WordsOf(m, src1, size), WordsOf(m, src2, size), size);
  }
}
