/** Flat memory: an address is an index, a buffer is an address and a byte count. */
module Memory {
  type Byte = bv8

  const TWO_TO_THE_32 := 0x1_0000_0000
  const TWO_TO_THE_64 := 0x1_0000_0000_0000_0000

  type uint32 = x: int | 0 <= x < TWO_TO_THE_32

  /** A 64-bit word as it lies in memory: eight bytes, the lowest first. */
  type Word = w: seq<Byte> | |w| == 8 witness [0, 0, 0, 0, 0, 0, 0, 0]

  /** The sum as a 32-bit register holds it. */
  function Add32(x: uint32, y: uint32): uint32 {
    (x + y) % TWO_TO_THE_32
  }

  /** The difference as a 32-bit register holds it. */
  function Sub32(x: uint32, y: uint32): uint32 {
    (x - y) % TWO_TO_THE_32
  }

  predicate InBounds(m: seq<Byte>, a: nat, n: nat) {
    a + n <= |m|
  }

  /** No byte belongs to both buffers. */
  predicate Disjoint(a: nat, n: nat, b: nat, k: nat) {
    a + n <= b || b + k <= a || n == 0 || k == 0
  }

  function Read(m: seq<Byte>, a: nat, n: nat): (s: seq<Byte>)
    requires InBounds(m, a, n)
    ensures |s| == n
  {
    m[a..a + n]
  }

  function Write(m: seq<Byte>, a: nat, s: seq<Byte>): (r: seq<Byte>)
    requires InBounds(m, a, |s|)
    ensures |r| == |m|
  {
    m[..a] + s + m[a + |s|..]
  }

  lemma WritePointwise(m: seq<Byte>, a: nat, s: seq<Byte>)
    requires InBounds(m, a, |s|)
    ensures forall i :: 0 <= i < |m| ==> Write(m, a, s)[i] == if a <= i < a + |s| then s[i - a] else m[i]
  {
  }

  lemma WriteNothing(m: seq<Byte>, a: nat)
    requires a <= |m|
    ensures Write(m, a, []) == m
  {
  }

  /** Two writes side by side are one write. */
  lemma WriteAppend(m: seq<Byte>, a: nat, s: seq<Byte>, t: seq<Byte>)
    requires InBounds(m, a, |s| + |t|)
    ensures Write(Write(m, a, s), a + |s|, t) == Write(m, a, s + t)
  {
  }

  /** Writing inside an earlier write replaces that part of it. */
  lemma WritePart(m: seq<Byte>, a: nat, s: seq<Byte>, t: seq<Byte>, t': seq<Byte>, u: seq<Byte>)
    requires |t| == |t'| && InBounds(m, a, |s| + |t| + |u|)
    ensures Write(Write(m, a, s + t + u), a + |s|, t') == Write(m, a, s + t' + u)
  {
  }

  lemma WriteOver(m: seq<Byte>, a: nat, s: seq<Byte>, t: seq<Byte>)
    requires |s| == |t| && InBounds(m, a, |s|)
    ensures Write(Write(m, a, s), a, t) == Write(m, a, t)
  {
  }

  lemma WriteCommute(m: seq<Byte>, a: nat, s: seq<Byte>, b: nat, t: seq<Byte>)
    requires InBounds(m, a, |s|) && InBounds(m, b, |t|) && Disjoint(a, |s|, b, |t|)
    ensures Write(Write(m, a, s), b, t) == Write(Write(m, b, t), a, s)
  {
    WritePointwise(m, a, s);
    WritePointwise(m, b, t);
    WritePointwise(Write(m, a, s), b, t);
    WritePointwise(Write(m, b, t), a, s);
    hide Write;
  }

  /** A write leaves every buffer it does not meet as it was. */
  lemma ReadElsewhere(m: seq<Byte>, a: nat, s: seq<Byte>, b: nat, n: nat)
    requires InBounds(m, a, |s|) && InBounds(m, b, n) && Disjoint(a, |s|, b, n)
    ensures Read(Write(m, a, s), b, n) == Read(m, b, n)
  {
  }

  lemma ReadBack(m: seq<Byte>, a: nat, s: seq<Byte>)
    requires InBounds(m, a, |s|)
    ensures Read(Write(m, a, s), a, |s|) == s
  {
  }

  lemma ReadFront(m: seq<Byte>, a: nat, s: seq<Byte>, t: seq<Byte>)
    requires InBounds(m, a, |s| + |t|)
    ensures Read(Write(m, a, s + t), a, |s|) == s
  {
  }

  /** A memory that reads like a write, byte for byte, is that write. */
  lemma IsWrite(m: seq<Byte>, a: nat, s: seq<Byte>, r: seq<Byte>)
    requires InBounds(m, a, |s|) && |r| == |m|
    requires forall i :: 0 <= i < |m| ==> r[i] == if a <= i < a + |s| then s[i - a] else m[i]
    ensures r == Write(m, a, s)
  {
    WritePointwise(m, a, s);
    hide Write;
  }
}

/** A buffer cut into blocks of one size; bytes after the last whole block belong to no block. */
module BlockLayout {
  import opened Memory

  predicate Uniform(blocks: seq<seq<Byte>>, size: nat) {
    forall k :: 0 <= k < |blocks| ==> |blocks[k]| == size
  }

  /** The number of whole blocks. */
  function Count(length: nat, size: nat): nat
    requires 0 < size
  {
    length / size
  }

  /** Where block k starts. */
  function Offset(k: nat, size: nat): nat {
    k * size
  }

  lemma OffsetZero(size: nat)
    ensures Offset(0, size) == 0
  {
  }

  lemma OffsetNext(k: nat, size: nat)
    ensures Offset(k + 1, size) == Offset(k, size) + size
  {
  }

  lemma OffsetSum(i: nat, k: nat, size: nat)
    ensures Offset(i + k, size) == Offset(i, size) + Offset(k, size)
  {
  }

  lemma OffsetMonotone(i: nat, k: nat, size: nat)
    requires i <= k
    ensures Offset(i, size) <= Offset(k, size)
  {
    OffsetSum(i, k - i, size);
  }

  lemma OffsetBefore(i: nat, k: nat, size: nat)
    requires i < k
    ensures Offset(i, size) + size <= Offset(k, size)
  {
    OffsetNext(i, size);
    OffsetMonotone(i + 1, k, size);
  }

  lemma BlockFits(length: nat, size: nat, k: nat)
    requires 0 < size && k < Count(length, size)
    ensures Offset(k, size) + size <= Offset(Count(length, size), size) <= length
  {
    OffsetBefore(k, Count(length, size), size);
    CountSpan(length, size);
  }

  lemma CountSpan(length: nat, size: nat)
    requires 0 < size
    ensures Offset(Count(length, size), size) + length % size == length
  {
  }

  lemma CountUnique(length: nat, size: nat, q: nat, r: nat)
    requires 0 < size && length == Offset(q, size) + r && r < size
    ensures Count(length, size) == q && length % size == r
  {
    var n := Count(length, size);
    CountSpan(length, size);
    if q < n {
      OffsetBefore(q, n, size);
    } else if n < q {
      OffsetBefore(n, q, size);
    }
  }

  function BlockAt(buffer: seq<Byte>, size: nat, k: nat): (block: seq<Byte>)
    requires 0 < size && k < Count(|buffer|, size)
    ensures |block| == size
  {
    BlockFits(|buffer|, size, k);
    buffer[Offset(k, size)..Offset(k, size) + size]
  }

  function Blocks(buffer: seq<Byte>, size: nat): (blocks: seq<seq<Byte>>)
    requires 0 < size
    ensures |blocks| == Count(|buffer|, size) && Uniform(blocks, size)
  {
    seq(Count(|buffer|, size), k requires 0 <= k < Count(|buffer|, size) => BlockAt(buffer, size, k))
  }

  lemma BlockOfRead(m: seq<Byte>, a: nat, n: nat, size: nat, k: nat)
    requires InBounds(m, a, n) && 0 < size && k < Count(n, size)
    ensures Offset(k, size) + size <= n
    ensures Blocks(Read(m, a, n), size)[k] == Read(m, a + Offset(k, size), size)
  {
    BlockFits(n, size, k);
    hide Offset, Count;
    SliceOfRead(m, a, n, Offset(k, size), size);
  }

  lemma SliceOfRead(m: seq<Byte>, a: nat, n: nat, b: nat, k: nat)
    requires InBounds(m, a, n) && b + k <= n
    ensures Read(m, a, n)[b..b + k] == Read(m, a + b, k)
  {
    var s := Read(m, a, n);
    assert forall i :: 0 <= i < n ==> s[i] == m[a + i];
    assert s[b..b + k] == m[a + b..a + b + k];
  }

  function Join(blocks: seq<seq<Byte>>): (buffer: seq<Byte>) {
    if blocks == [] then [] else Join(blocks[..|blocks| - 1]) + blocks[|blocks| - 1]
  }

  lemma {:induction false} JoinLength(blocks: seq<seq<Byte>>, size: nat)
    requires Uniform(blocks, size)
    ensures |Join(blocks)| == Offset(|blocks|, size)
  {
    if blocks == [] {
      OffsetZero(size);
    } else {
      JoinLength(blocks[..|blocks| - 1], size);
      OffsetNext(|blocks| - 1, size);
    }
  }

  lemma {:induction false} JoinConcat(s: seq<seq<Byte>>, t: seq<seq<Byte>>)
    ensures Join(s + t) == Join(s) + Join(t)
  {
    if t == [] {
      assert s + t == s;
    } else {
      var n := |t| - 1;
      assert (s + t)[..|s + t| - 1] == s + t[..n];
      JoinConcat(s, t[..n]);
    }
  }

  /** Block k of a joined buffer is the k-th block. */
  lemma {:induction false} JoinAt(blocks: seq<seq<Byte>>, size: nat, k: nat)
    requires Uniform(blocks, size) && k < |blocks|
    ensures Offset(k, size) + size <= |Join(blocks)|
    ensures Join(blocks)[Offset(k, size)..Offset(k, size) + size] == blocks[k]
  {
    hide Offset;
    var n := |blocks| - 1;
    JoinLength(blocks, size);
    JoinLength(blocks[..n], size);
    OffsetBefore(k, |blocks|, size);
    OffsetNext(n, size);
    if k < n {
      JoinAt(blocks[..n], size, k);
    }
  }

  /** Cutting undoes joining. */
  lemma BlocksOfJoin(blocks: seq<seq<Byte>>, size: nat)
    requires 0 < size && Uniform(blocks, size)
    ensures Blocks(Join(blocks), size) == blocks
  {
    JoinLength(blocks, size);
    CountUnique(|Join(blocks)|, size, |blocks|, 0);
    hide Offset, Count, Join;
    forall k | 0 <= k < |blocks|
      ensures Blocks(Join(blocks), size)[k] == blocks[k]
    {
      JoinAt(blocks, size, k);
    }
  }

  /** Joining the first k blocks gives back the bytes they came from. */
  lemma {:induction false} JoinPrefix(buffer: seq<Byte>, size: nat, k: nat)
    requires 0 < size && k <= Count(|buffer|, size)
    ensures Offset(k, size) <= |buffer|
    ensures Join(Blocks(buffer, size)[..k]) == buffer[..Offset(k, size)]
  {
    hide Offset, Count;
    OffsetMonotone(k, Count(|buffer|, size), size);
    CountSpan(|buffer|, size);
    if k == 0 {
      OffsetZero(size);
    } else {
      JoinPrefix(buffer, size, k - 1);
      BlockFits(|buffer|, size, k - 1);
      OffsetNext(k - 1, size);
      var blocks := Blocks(buffer, size);
      assert blocks[..k][..k - 1] == blocks[..k - 1];
      assert buffer[..Offset(k, size)] == buffer[..Offset(k - 1, size)] + BlockAt(buffer, size, k - 1);
    }
  }

  /** Joining undoes cutting when the buffer is whole blocks. */
  lemma JoinOfBlocks(buffer: seq<Byte>, size: nat)
    requires 0 < size && |buffer| % size == 0
    ensures Join(Blocks(buffer, size)) == buffer
  {
    hide Offset, Count;
    var n := Count(|buffer|, size);
    JoinPrefix(buffer, size, n);
    CountSpan(|buffer|, size);
    assert Blocks(buffer, size)[..n] == Blocks(buffer, size);
  }

  /** Dropping q blocks of bytes drops q blocks. */
  lemma BlocksAfter(buffer: seq<Byte>, size: nat, q: nat)
    requires 0 < size && q <= Count(|buffer|, size)
    ensures Offset(q, size) <= |buffer|
    ensures Blocks(buffer[Offset(q, size)..], size) == Blocks(buffer, size)[q..]
  {
    hide Offset, Count;
    var n := Count(|buffer|, size);
    CountSpan(|buffer|, size);
    OffsetMonotone(q, n, size);
    OffsetSum(q, n - q, size);
    var rest := buffer[Offset(q, size)..];
    CountUnique(|rest|, size, n - q, |buffer| % size);
    forall k | 0 <= k < n - q
      ensures BlockAt(rest, size, k) == BlockAt(buffer, size, q + k)
    {
      BlockFits(|rest|, size, k);
      BlockFits(|buffer|, size, q + k);
      OffsetSum(q, k, size);
    }
  }

  /** Taking q blocks of bytes takes q blocks. */
  lemma BlocksBefore(buffer: seq<Byte>, size: nat, q: nat)
    requires 0 < size && q <= Count(|buffer|, size)
    ensures Offset(q, size) <= |buffer|
    ensures Blocks(buffer[..Offset(q, size)], size) == Blocks(buffer, size)[..q]
  {
    hide Offset, Count, Blocks, Join;
    JoinPrefix(buffer, size, q);
    BlocksOfJoin(Blocks(buffer, size)[..q], size);
  }

  /** Changing byte j of block k changes that block at j and no other block. */
  lemma BlocksOfUpdate(buffer: seq<Byte>, size: nat, k: nat, j: nat, x: Byte)
    requires 0 < size && k < Count(|buffer|, size) && j < size
    ensures Offset(k, size) + j < |buffer|
    ensures Blocks(buffer[Offset(k, size) + j := x], size) ==
            Blocks(buffer, size)[k := BlockAt(buffer, size, k)[j := x]]
  {
    hide Offset, Count;
    BlockFits(|buffer|, size, k);
    forall i | 0 <= i < Count(|buffer|, size)
      ensures BlockAt(buffer[Offset(k, size) + j := x], size, i) ==
              if i == k then BlockAt(buffer, size, k)[j := x] else BlockAt(buffer, size, i)
    {
      BlockFits(|buffer|, size, i);
      SliceOfUpdate(buffer, Offset(i, size), size, Offset(k, size) + j, x);
      if i < k {
        OffsetBefore(i, k, size);
      } else if k < i {
        OffsetBefore(k, i, size);
      }
    }
  }

  lemma SliceOfUpdate(buffer: seq<Byte>, a: nat, n: nat, p: nat, x: Byte)
    requires a + n <= |buffer| && p < |buffer|
    ensures buffer[p := x][a..a + n] ==
            if a <= p < a + n then buffer[a..a + n][p - a := x] else buffer[a..a + n]
  {
  }

  /** Two adjacent bytes in one block, changed by their position in the buffer. */
  lemma BlocksOfPairUpdate(buffer: seq<Byte>, size: nat, p: nat, a: Byte, b: Byte)
    requires 0 < size && Count(p, size) < Count(|buffer|, size) && p % size + 1 < size && p + 1 < |buffer|
    ensures var k, j := Count(p, size), p % size;
            var block := BlockAt(buffer, size, k);
            && block[j] == buffer[p] && block[j + 1] == buffer[p + 1]
            && Blocks(buffer[p := a][p + 1 := b], size) == Blocks(buffer, size)[k := block[j := a][j + 1 := b]]
  {
    hide Offset, Count;
    var k, j := Count(p, size), p % size;
    CountSpan(p, size);
    BlockFits(|buffer|, size, k);
    BlocksOfUpdate(buffer, size, k, j, a);
    BlocksOfUpdate(buffer[p := a], size, k, j + 1, b);
    assert BlockAt(buffer[p := a], size, k) == Blocks(buffer[p := a], size)[k];
  }

  /** Block k written after the first k blocks: the loop step of every block-wise writer. */
  lemma WriteNextBlock(m: seq<Byte>, a: nat, blocks: seq<seq<Byte>>, size: nat, k: nat)
    requires Uniform(blocks, size) && k < |blocks| && InBounds(m, a, Offset(|blocks|, size))
    ensures |Join(blocks[..k])| == Offset(k, size) && Offset(k, size) + size <= Offset(|blocks|, size)
    ensures |Join(blocks[..k + 1])| == Offset(k + 1, size) == Offset(k, size) + size
    ensures Write(Write(m, a, Join(blocks[..k])), a + Offset(k, size), blocks[k]) == Write(m, a, Join(blocks[..k + 1]))
  {
    hide Offset, Write;
    OffsetBefore(k, |blocks|, size);
    OffsetNext(k, size);
    JoinLength(blocks[..k], size);
    assert blocks[..k + 1][..k] == blocks[..k];
    assert Join(blocks[..k + 1]) == Join(blocks[..k]) + blocks[k];
    WriteAppend(m, a, Join(blocks[..k]), blocks[k]);
  }

  /** A source block read while part of a disjoint buffer is written is still the original one. */
  lemma ReadAcrossWrite(m: seq<Byte>, src: nat, n: nat, size: nat, k: nat, a: nat, s: seq<Byte>)
    requires InBounds(m, src, n) && 0 < size && k < Count(n, size)
    requires InBounds(m, a, |s|) && Disjoint(src, n, a, |s|)
    ensures Offset(k, size) + size <= n
    ensures Read(Write(m, a, s), src + Offset(k, size), size) == Blocks(Read(m, src, n), size)[k]
  {
    hide Offset, Count, Write, Read;
    BlockOfRead(m, src, n, size, k);
    ReadElsewhere(m, a, s, src + Offset(k, size), size);
  }
}

/** What the operations that compare report. */
module Results {
  const EQUAL: bv8 := 0
  const NOT_EQUAL: bv8 := 1
}
