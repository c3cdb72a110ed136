/**
 * The vector operations the AVX-512 kernels use, byte lane by byte lane; lane 0 is the lowest address and the lowest
 * mask bit.
 */
module Vector {
  import opened Memory

  const LANES := 64

  function Ones(): (mask: seq<bool>)
    ensures |mask| == LANES
  {
    seq(LANES, i => true)
  }

  function Falses(n: nat): (s: seq<bool>)
    ensures |s| == n
  {
    seq(n, i => false)
  }

  function ShiftRight(mask: seq<bool>, n: nat): (r: seq<bool>)
    requires |mask| == LANES && n < LANES
    ensures |r| == LANES
  {
    mask[n..] + Falses(n)
  }

  function ShiftLeft(mask: seq<bool>, n: nat): (r: seq<bool>)
    requires |mask| == LANES && n < LANES
    ensures |r| == LANES
  {
    Falses(n) + mask[..LANES - n]
  }

  function Not(mask: seq<bool>): (r: seq<bool>)
    ensures |r| == |mask|
  {
    seq(|mask|, i requires 0 <= i < |mask| => !mask[i])
  }

  /** The lowest n bits set: (1 << n) - 1. */
  function LowOnes(n: nat, lanes: nat): (mask: seq<bool>)
    ensures |mask| == lanes
  {
    seq(lanes, i => i < n)
  }

  lemma RightShiftedOnes(n: nat)
    requires n < LANES
    ensures ShiftRight(Ones(), n) == LowOnes(LANES - n, LANES)
  {
  }

  lemma InvertedLeftShiftedOnes(n: nat)
    requires n < LANES
    ensures Not(ShiftLeft(Ones(), n)) == LowOnes(n, LANES)
  {
  }

  /** tzcnt: the lowest set bit. */
  function TrailingZeros(mask: seq<bool>): (k: nat)
    requires true in mask
    ensures k < |mask| && mask[k] && forall i :: 0 <= i < k ==> !mask[i]
  {
    if mask[0] then 0 else 1 + TrailingZeros(mask[1..])
  }

  /** The pattern repeated over a register. */
  function Broadcast(pattern: Word, bytes: nat): (v: seq<Byte>)
    ensures |v| == bytes
  {
    seq(bytes, i => pattern[i % 8])
  }

  function NotEqual(x: seq<Byte>, y: seq<Byte>): (mask: seq<bool>)
    requires |x| == |y|
    ensures |mask| == |x|
    ensures forall i :: 0 <= i < |x| ==> (mask[i] <==> x[i] != y[i])
  {
    seq(|x|, i requires 0 <= i < |x| => x[i] != y[i])
  }

  /** A masked load touches only the lanes of its mask and puts zero in the others. */
  function MaskedLoad(m: seq<Byte>, a: nat, mask: seq<bool>): (v: seq<Byte>)
    requires forall i :: 0 <= i < |mask| && mask[i] ==> a + i < |m|
    ensures |v| == |mask|
    ensures forall i :: 0 <= i < |mask| ==> v[i] == if mask[i] then m[a + i] else 0
  {
    seq(|mask|, i requires 0 <= i < |mask| => if mask[i] then m[a + i] else 0)
  }

  /** A masked store touches only the lanes of its mask. */
  method MaskedStore(mem: array<Byte>, a: nat, mask: seq<bool>, v: seq<Byte>)
    requires |mask| == |v|
    requires forall i :: 0 <= i < |v| && mask[i] ==> a + i < mem.Length
    modifies mem
    ensures forall p :: 0 <= p < mem.Length ==>
              mem[p] == if a <= p < a + |v| && mask[p - a] then v[p - a] else old(mem[p])
  {
    forall i | 0 <= i < |v| && mask[i] {
      mem[a + i] := v[i];
    }
  }

  /** A masked store whose mask is the n lowest lanes writes n bytes. */
  method StoreLow(mem: array<Byte>, a: nat, mask: seq<bool>, v: seq<Byte>, ghost n: nat)
    requires n <= |v| && mask == LowOnes(n, |v|) && InBounds(mem[..], a, n)
    modifies mem
    ensures mem[..] == Write(old(mem[..]), a, v[..n])
  {
    hide Write;
    MaskedStore(mem, a, mask, v);
    IsWrite(old(mem[..]), a, v[..n], mem[..]);
  }

  /** A store that faults unless its address is a multiple of the register. */
  method AlignedStore(mem: array<Byte>, a: nat, v: seq<Byte>)
    requires |v| == LANES && a % LANES == 0 && InBounds(mem[..], a, LANES)
    modifies mem
    ensures mem[..] == Write(old(mem[..]), a, v)
  {
    hide Write;
    forall i | 0 <= i < LANES {
      mem[a + i] := v[i];
    }
    IsWrite(old(mem[..]), a, v, mem[..]);
  }
}

/** The AVX-512 fill against the byte-wise one. */
module VectorFill {
  import opened Memory
  import opened Vector

  /** Byte k of the destination is byte k mod 8 of the pattern. */
  function Filled(pattern: Word, n: nat): (s: seq<Byte>)
    ensures |s| == n
  {
    Broadcast(pattern, n)
  }

  function Zeros(n: nat): (s: seq<Byte>)
    ensures |s| == n
  {
    seq(n, i => 0 as Byte)
  }

  function ShiftLeftBytes(w: Word, n: nat): Word
    requires n < 8
  {
    Zeros(n) + w[..8 - n]
  }

  /**
   * A right shift by 64 bits is not defined by the language: the shift instruction takes its count modulo 64 and
   * gives the word back, a constant-folding compiler gives zero. Both readings are admitted.
   */
  function ShiftRightBytes(w: Word, n: nat, countModulo64: bool): Word
    requires n <= 8
  {
    if n == 8 && countModulo64 then w else w[n..] + Zeros(n)
  }

  function Or(v: Word, w: Word): Word {
    seq(8, i requires 0 <= i < 8 => v[i] | w[i])
  }

  /** The pattern as the bytes after an unaligned head must see it. */
  function Rotated(pattern: Word, unaligned: nat, countModulo64: bool): Word {
    Or(ShiftLeftBytes(pattern, unaligned % 8), ShiftRightBytes(pattern, 8 - unaligned % 8, countModulo64))
  }

  lemma OrZero(b: Byte)
    ensures b | 0 == b && 0 | b == b && b | b == b
  {
  }

  lemma PhaseAfterHead(unaligned: nat, j: nat)
    requires 0 < unaligned < LANES && j < 8
    ensures (LANES - unaligned + j) % 8 == if j < unaligned % 8 then j + 8 - unaligned % 8 else j - unaligned % 8
  {
  }

  lemma RotatedAt(pattern: Word, unaligned: nat, countModulo64: bool, j: nat)
    requires 0 < unaligned < LANES && j < 8
    ensures Rotated(pattern, unaligned, countModulo64)[j] == pattern[(LANES - unaligned + j) % 8]
  {
    PhaseAfterHead(unaligned, j);
    RotatedBy(pattern, unaligned % 8, countModulo64, j);
  }

  lemma RotatedBy(pattern: Word, n: nat, countModulo64: bool, j: nat)
    requires n < 8 && j < 8
    ensures Or(ShiftLeftBytes(pattern, n), ShiftRightBytes(pattern, 8 - n, countModulo64))[j] ==
            pattern[if j < n then j + 8 - n else j - n]
  {
    var left, right := ShiftLeftBytes(pattern, n), ShiftRightBytes(pattern, 8 - n, countModulo64);
    OrZero(pattern[if j < n then j + 8 - n else j - n]);
    if j < n {
      assert left[j] == 0 && right[j] == pattern[j + 8 - n];
    } else {
      assert left[j] == pattern[j - n];
      assert right[j] == if n == 0 && countModulo64 then pattern[j] else 0;
    }
  }

  /** A register stored at distance k, in phase with the head, continues the fill. */
  lemma FilledAppend(pattern: Word, current: Word, part: nat, k: nat, n: nat)
    requires part <= k && (k - part) % 8 == 0
    requires forall j :: 0 <= j < 8 ==> current[j] == pattern[(part + j) % 8]
    ensures Filled(pattern, k) + Filled(current, n) == Filled(pattern, k + n)
  {
    var joined := Filled(pattern, k) + Filled(current, n);
    forall i | 0 <= i < k + n
      ensures joined[i] == pattern[i % 8]
    {
      if k <= i {
        SamePhase(part, k, i - k);
      }
    }
  }

  lemma SamePhase(part: nat, k: nat, i: nat)
    requires part <= k && (k - part) % 8 == 0
    ensures (part + i % 8) % 8 == (k + i) % 8
  {
  }

  lemma WriteFilledAppend(m: seq<Byte>, dst: nat, pattern: Word, current: Word, part: nat, k: nat, n: nat)
    requires part <= k && (k - part) % 8 == 0 && InBounds(m, dst, k + n)
    requires forall j :: 0 <= j < 8 ==> current[j] == pattern[(part + j) % 8]
    ensures Write(Write(m, dst, Filled(pattern, k)), dst + k, Filled(current, n)) ==
            Write(m, dst, Filled(pattern, k + n))
  {
    hide Write, Filled;
    FilledAppend(pattern, current, part, k, n);
    WriteAppend(m, dst, Filled(pattern, k), Filled(current, n));
  }

  /** The unaligned head: stores up to the next register boundary and gives the pattern its phase there. */
  method FillHead(mem: array<Byte>, pattern: Word, dst: nat, countModulo64: bool) returns (part: nat, current: Word)
    requires InBounds(mem[..], dst, LANES)
    modifies mem
    ensures part < LANES && (dst + part) % LANES == 0
    ensures forall j :: 0 <= j < 8 ==> current[j] == pattern[(part + j) % 8]
    ensures mem[..] == Write(old(mem[..]), dst, Filled(pattern, part))
  {
    hide Write, Rotated, ShiftRight;
    var unaligned := dst % LANES;
    part := if unaligned == 0 then 0 else LANES - unaligned;
    current := pattern;
    if part != 0 {
      RightShiftedOnes(unaligned);
      StoreLow(mem, dst, ShiftRight(Ones(), unaligned), Broadcast(pattern, LANES), part);
      assert Broadcast(pattern, LANES)[..part] == Filled(pattern, part);
      current := Rotated(pattern, unaligned, countModulo64);
      forall j | 0 <= j < 8
        ensures current[j] == pattern[(part + j) % 8]
      {
        RotatedAt(pattern, unaligned, countModulo64, j);
      }
    } else {
      WriteNothing(mem[..], dst);
      assert Filled(pattern, 0) == [];
    }
  }

  method FillBig(mem: array<Byte>, pattern: Word, dst: nat, size: uint32, countModulo64: bool)
    requires LANES <= size && InBounds(mem[..], dst, size)
    modifies mem
    ensures mem[..] == Write(old(mem[..]), dst, Filled(pattern, size))
  {
    hide Write, Filled, ShiftLeft, Not;
    ghost var m := mem[..];
    var part, current := FillHead(mem, pattern, dst, countModulo64);
    var aligned := size - part;
    var headSize, tailSize := aligned / LANES, aligned % LANES;
    var head := dst + part;
    var tail := head + headSize * LANES;
    ghost var i := 0;
    while head != tail
      invariant 0 <= i <= headSize && head == dst + part + LANES * i
      invariant mem[..] == Write(m, dst, Filled(pattern, part + LANES * i))
      decreases headSize - i
    {
      WholeRegisters(dst, part, i);
      WriteFilledAppend(m, dst, pattern, current, part, part + LANES * i, LANES);
      AlignedStore(mem, head, Filled(current, LANES));
      head := head + LANES;
      i := i + 1;
    }
    if tailSize != 0 {
      InvertedLeftShiftedOnes(tailSize);
      WholeRegisters(dst, part, headSize);
      WriteFilledAppend(m, dst, pattern, current, part, part + LANES * headSize, tailSize);
      FilledPrefix(current, tailSize);
      StoreLow(mem, tail, Not(ShiftLeft(Ones(), tailSize)), Filled(current, LANES), tailSize);
    }
  }

  /** Registers after an aligned start are aligned, and keep the phase of the pattern. */
  lemma WholeRegisters(dst: nat, part: nat, i: nat)
    requires (dst + part) % LANES == 0
    ensures (dst + part + LANES * i) % LANES == 0
    ensures (part + LANES * i - part) % 8 == 0
  {
    var c := (dst + part) / LANES;
    assert dst + part == LANES * c;
    Multiple(dst + part + LANES * i, c + i);
    EightTimes(part + LANES * i - part, 8 * i);
  }

  lemma Multiple(x: nat, k: nat)
    requires x == LANES * k
    ensures x % LANES == 0
  {
  }

  lemma EightTimes(x: nat, k: nat)
    requires x == 8 * k
    ensures x % 8 == 0
  {
  }

  lemma FilledPrefix(pattern: Word, n: nat)
    requires n <= LANES
    ensures Filled(pattern, LANES)[..n] == Filled(pattern, n)
  {
  }

  method FillSmall(mem: array<Byte>, pattern: Word, dst: nat, size: uint32)
    requires size < LANES && InBounds(mem[..], dst, size)
    modifies mem
    ensures mem[..] == Write(old(mem[..]), dst, Filled(pattern, size))
  {
    hide Write, ShiftRight, ShiftLeft, Not;
    var tailSize := size % LANES;
    var mask := Not(ShiftLeft(Ones(), tailSize));
    InvertedLeftShiftedOnes(tailSize);
    MaskedStore(mem, dst, mask[..32], Broadcast(pattern, 32));
    MaskedStore(mem, dst + 32, mask[32..], Broadcast(pattern, 32));
    IsWrite(old(mem[..]), dst, Filled(pattern, size), mem[..]);
  }

  /** dml_avx512_fill_u64: the byte-wise fill, for every address and size. */
  method Fill(mem: array<Byte>, pattern: Word, dst: nat, size: uint32, countModulo64: bool)
    requires InBounds(mem[..], dst, size)
    modifies mem
    ensures mem[..] == Write(old(mem[..]), dst, Filled(pattern, size))
  {
    if size < LANES {
      FillSmall(mem, pattern, dst, size);
    } else {
      FillBig(mem, pattern, dst, size, countModulo64);
    }
  }
}
