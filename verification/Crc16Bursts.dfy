/** The T10 DIF checksum against bursts: errors within sixteen consecutive bits, wherever they begin. */
module Crc16Bursts {
  import opened Memory
  import opened Registers
  import opened Crc16

  // Bits of the data in the order the register takes them

  function Mask(t: nat): Byte
    requires t < 8
  {
    if t == 0 then 0x80 else if t == 1 then 0x40 else if t == 2 then 0x20 else if t == 3 then 0x10
    else if t == 4 then 0x08 else if t == 5 then 0x04 else if t == 6 then 0x02 else 0x01
  }

  predicate BitOf(x: Byte, t: nat)
    requires t < 8
  {
    x & Mask(t) != 0
  }

  predicate Bit(data: seq<Byte>, i: nat)
    requires i < 8 * |data|
  {
    BitOf(data[i / 8], i % 8)
  }

  /** All bits in which the two differ lie among the sixteen from bit p on. */
  ghost predicate Burst(x: seq<Byte>, y: seq<Byte>, p: nat) {
    |x| == |y| && forall i :: 0 <= i < 8 * |x| && !(p <= i < p + 16) ==> Bit(x, i) == Bit(y, i)
  }

  ghost predicate SameBits(x: Byte, y: Byte, from: nat, to: nat) {
    forall t :: from <= t < to <= 8 ==> BitOf(x, t) == BitOf(y, t)
  }

  lemma SameBit(x: Byte, y: Byte, t: nat)
    requires t < 8 && BitOf(x, t) == BitOf(y, t)
    ensures (x ^ y) & Mask(t) == 0
  {
  }

  lemma TopBits(e: Byte, n: nat)
    requires n <= 8 && forall t :: 0 <= t < n ==> e & Mask(t) == 0
    ensures e <= 0xFF >> n
  {
    assert n > 0 ==> e & Mask(0) == 0;
    assert n > 1 ==> e & Mask(1) == 0;
    assert n > 2 ==> e & Mask(2) == 0;
    assert n > 3 ==> e & Mask(3) == 0;
    assert n > 4 ==> e & Mask(4) == 0;
    assert n > 5 ==> e & Mask(5) == 0;
    assert n > 6 ==> e & Mask(6) == 0;
    assert n > 7 ==> e & Mask(7) == 0;
  }

  lemma LowBits(e: Byte, n: nat)
    requires n <= 8 && forall t :: n <= t < 8 ==> e & Mask(t) == 0
    ensures e & (0xFF >> n) == 0
  {
    assert n <= 0 ==> e & Mask(0) == 0;
    assert n <= 1 ==> e & Mask(1) == 0;
    assert n <= 2 ==> e & Mask(2) == 0;
    assert n <= 3 ==> e & Mask(3) == 0;
    assert n <= 4 ==> e & Mask(4) == 0;
    assert n <= 5 ==> e & Mask(5) == 0;
    assert n <= 6 ==> e & Mask(6) == 0;
    assert n <= 7 ==> e & Mask(7) == 0;
  }

  lemma SameTop(x: Byte, y: Byte, n: nat)
    requires n <= 8 && SameBits(x, y, 0, n)
    ensures x ^ y <= 0xFF >> n
  {
    hide Mask, BitOf;
    forall t | 0 <= t < n
      ensures (x ^ y) & Mask(t) == 0
    {
      SameBit(x, y, t);
    }
    TopBits(x ^ y, n);
  }

  lemma SameLow(x: Byte, y: Byte, n: nat)
    requires n <= 8 && SameBits(x, y, n, 8)
    ensures (x ^ y) & (0xFF >> n) == 0
  {
    hide Mask, BitOf;
    forall t | n <= t < 8
      ensures (x ^ y) & Mask(t) == 0
    {
      SameBit(x, y, t);
    }
    LowBits(x ^ y, n);
  }

  lemma SameByte(x: Byte, y: Byte)
    requires SameBits(x, y, 0, 8)
    ensures x == y
  {
    SameTop(x, y, 8);
    NoDifference(x, y);
  }

  lemma NoDifference(x: Byte, y: Byte)
    requires x ^ y == 0
    ensures x == y
  {
    assert x ^ y ^ y == x;
  }

  /** The bits of byte k that lie outside a burst. */
  lemma OutsideBurst(x: seq<Byte>, y: seq<Byte>, p: nat, k: nat, from: nat, to: nat)
    requires Burst(x, y, p) && k < |x| && from <= to <= 8
    requires 8 * k + to <= p || p + 16 <= 8 * k + from
    ensures SameBits(x[k], y[k], from, to)
  {
    hide BitOf;
    forall t | from <= t < to
      ensures BitOf(x[k], t) == BitOf(y[k], t)
    {
      var i := 8 * k + t;
      assert i / 8 == k && i % 8 == t;
      assert Bit(x, i) == Bit(y, i);
    }
  }

  // Three bytes

  function Diff(x: Byte, y: Byte): Byte {
    x ^ y
  }

  /** The first of three bytes has its top n bits clear, and the last all but those. */
  predicate Confined(e0: Byte, e2: Byte, n: nat)
    requires n <= 8
  {
    e0 <= 0xFF >> n && e2 & (0xFF >> n) == 0
  }

  /** The first two bytes as they lie in the register, and the register once they have entered it. */
  function Pair(e0: Byte, e1: Byte): bv16 {
    Xor(High(e0), e1 as bv16)
  }

  function Entered(s: bv16, a: Byte, b: Byte): bv16 {
    Xor(Xor(s, High(a)), b as bv16)
  }

  lemma AddLast(u: bv16, a: Byte)
    ensures ByteStep(Iterate(BitStep, u, 16), a) == Iterate(BitStep, Xor(Iterate(BitStep, u, 8), a as bv16), 16)
  {
    BitStepIsLinear();
    var v := Iterate(BitStep, u, 8);
    hide Iterate, BitStep, Xor, High;
    IterateSum(BitStep, u, 8, 8);
    IterateSum(BitStep, Xor(v, a as bv16), 8, 8);
    IterateAdditive(BitStep, Xor, v, a as bv16, 8);
    LowByteShifts(a);
  }

  /** Three bytes enter the register as the first two, moved on by a byte, and the third. */
  lemma ThreeBytesAtOnce(s: bv16, a: Byte, b: Byte, c: Byte)
    ensures ByteStep(ByteStep(ByteStep(s, a), b), c) ==
            Iterate(BitStep, Xor(Iterate(BitStep, Entered(s, a, b), 8), c as bv16), 16)
  {
    TwoBytesAtOnce(s, a, b);
    hide Iterate, ByteStep, BitStep, Xor, High;
    var u := Entered(s, a, b);
    IterateSum(BitStep, u, 8, 8);
    AddLast(u, c);
  }

  lemma Cancels(s: bv16, x: bv16, y: bv16)
    ensures Xor(Xor(s, x), Xor(s, y)) == Xor(x, y)
  {
  }

  lemma Associates(x: bv16, y: bv16, z: bv16)
    ensures Xor(Xor(x, y), z) == Xor(x, Xor(y, z))
  {
  }

  lemma Commutes(x: bv16, y: bv16)
    ensures Xor(x, y) == Xor(y, x)
  {
  }

  lemma Exchanges(x: bv16, y: bv16, z: bv16, w: bv16)
    ensures Xor(Xor(x, y), Xor(z, w)) == Xor(Xor(x, z), Xor(y, w))
  {
    Associates(x, y, Xor(z, w));
    Associates(y, z, w);
    Commutes(y, z);
    Associates(z, y, w);
    Associates(x, z, Xor(y, w));
    hide Xor;
  }

  lemma HighDiff(a: Byte, c: Byte)
    ensures Xor(High(a), High(c)) == High(Diff(a, c))
  {
  }

  lemma LowDiff(a: Byte, c: Byte)
    ensures Xor(a as bv16, c as bv16) == Diff(a, c) as bv16
  {
  }

  lemma PairDifference(s: bv16, a: Byte, b: Byte, c: Byte, d: Byte)
    ensures Xor(Entered(s, a, b), Entered(s, c, d)) == Pair(Diff(a, c), Diff(b, d))
  {
    Exchanges(Xor(s, High(a)), b as bv16, Xor(s, High(c)), d as bv16);
    Cancels(s, High(a), High(c));
    HighDiff(a, c);
    LowDiff(b, d);
    hide Xor, High, Diff;
  }

  /** States that meet after a last byte differed by what the last bytes differ by. */
  lemma StatesMeet(u: bv16, v: bv16, a: Byte, c: Byte)
    requires Iterate(BitStep, Xor(u, a as bv16), 16) == Iterate(BitStep, Xor(v, c as bv16), 16)
    ensures Xor(u, v) == Diff(a, c) as bv16
  {
    BitStepIsLinear();
    var x, y := Xor(u, a as bv16), Xor(v, c as bv16);
    LowDiff(a, c);
    Exchanges(u, a as bv16, v, c as bv16);
    hide Iterate, BitStep, Xor, High, Diff;
    IterateInjective(BitStep, x, y, 16);
    XorZero(x, y);
    XorZero(Xor(u, v), Xor(a as bv16, c as bv16));
  }

  lemma TopClear(e0: Byte, e1: Byte, e2: Byte, n: nat)
    requires n <= 8 && Confined(e0, e2, n)
    ensures Room(Pair(e0, e1), n)
  {
    assert n == 0 || n == 1 || n == 2 || n == 3 || n == 4 || n == 5 || n == 6 || n == 7 || n == 8;
  }

  function Down(e: Byte, n: nat): bv16
    requires n <= 8
  {
    (e as bv16) >> (8 - n)
  }

  /** A byte whose low 8 - n bits are clear is its top n bits, shifted. */
  lemma LowClear(e0: Byte, e: Byte, n: nat)
    requires n <= 8 && Confined(e0, e, n)
    ensures Room(Down(e, n), 8 - n) && Up(Down(e, n), 8 - n) == e as bv16
  {
    assert n == 0 || n == 1 || n == 2 || n == 3 || n == 4 || n == 5 || n == 6 || n == 7 || n == 8;
  }

  lemma Separate(p: bv16, e: Byte, n: nat)
    requires n <= 8 && Room(p, n) && Up(p, n) == Down(e, n)
    ensures p == 0 && Down(e, n) == 0
  {
    assert n == 0 || n == 1 || n == 2 || n == 3 || n == 4 || n == 5 || n == 6 || n == 7 || n == 8;
  }

  lemma UpZero(n: nat)
    requires n <= 8
    ensures Up(0, n) == 0
  {
  }

  lemma TwoShifts(p: bv16, c: bv16, n: nat)
    requires n <= 8 && Room(p, n) && Room(c, 8 - n)
    requires Iterate(BitStep, p, 8) == Up(c, 8 - n)
    ensures Up(p, n) == c
  {
    BitStepIsLinear();
    hide Iterate, BitStep, Up, Room;
    ShiftsFreely(p, n);
    ShiftsFreely(c, 8 - n);
    IterateSum(BitStep, p, n, 8 - n);
    IterateInjective(BitStep, Up(p, n), c, 8 - n);
  }

  /** The register never takes a burst's first two bytes to its third. */
  lemma BurstSurvives(e0: Byte, e1: Byte, e2: Byte, n: nat)
    requires n <= 8 && Confined(e0, e2, n)
    requires Iterate(BitStep, Pair(e0, e1), 8) == e2 as bv16
    ensures e0 == 0 && e1 == 0 && e2 == 0
  {
    hide Iterate, BitStep, Up, Room, Down, Pair, Confined;
    TopClear(e0, e1, e2, n);
    LowClear(e0, e2, n);
    TwoShifts(Pair(e0, e1), Down(e2, n), n);
    Separate(Pair(e0, e1), e2, n);
    UpZero(8 - n);
    NoPairDifference(e0, e1);
  }

  lemma NoPairDifference(e0: Byte, e1: Byte)
    requires Pair(e0, e1) == 0
    ensures e0 == 0 && e1 == 0
  {
  }

  /** Three bytes that differ by a burst lead the register to different states. */
  lemma ThreeBytesDiffer(s: bv16, a0: Byte, a1: Byte, a2: Byte, c0: Byte, c1: Byte, c2: Byte, n: nat)
    requires n <= 8 && Confined(Diff(a0, c0), Diff(a2, c2), n)
    requires ByteStep(ByteStep(ByteStep(s, a0), a1), a2) == ByteStep(ByteStep(ByteStep(s, c0), c1), c2)
    ensures a0 == c0 && a1 == c1 && a2 == c2
  {
    BitStepIsLinear();
    hide Iterate, ByteStep, BitStep, Xor, High, Diff, Confined, Pair, Entered;
    var u, v := Entered(s, a0, a1), Entered(s, c0, c1);
    ThreeBytesAtOnce(s, a0, a1, a2);
    ThreeBytesAtOnce(s, c0, c1, c2);
    PairDifference(s, a0, a1, c0, c1);
    StatesMeet(Iterate(BitStep, u, 8), Iterate(BitStep, v, 8), a2, c2);
    IterateAdditive(BitStep, Xor, u, v, 8);
    BurstSurvives(Diff(a0, c0), Diff(a1, c1), Diff(a2, c2), n);
    SameIfNoDiff(a0, c0);
    SameIfNoDiff(a1, c1);
    SameIfNoDiff(a2, c2);
  }

  lemma SameIfNoDiff(x: Byte, y: Byte)
    ensures Diff(x, y) == 0 ==> x == y
  {
    if Diff(x, y) == 0 {
      NoDifference(x, y);
    }
  }

  lemma FoldTriple<T, B>(absorb: (T, B) -> T, a: B, b: B, c: B, s: T)
    ensures Fold(absorb, [a, b, c], s) == absorb(absorb(absorb(s, a), b), c)
  {
    assert [a, b, c] == [a, b] + [c];
    FoldConcat(absorb, [a, b], [c], s);
    FoldPair(absorb, a, b, s);
    assert [c][..0] == [];
  }

  /** Data that differ by a burst in three bytes, the rest being the same. */
  lemma DetectsTriple(front: seq<Byte>, x: seq<Byte>, y: seq<Byte>, back: seq<Byte>, seed: bv16, n: nat)
    requires |x| == |y| == 3 && n <= 8 && Confined(Diff(x[0], y[0]), Diff(x[2], y[2]), n)
    requires Crc((front + x) + back, seed) == Crc((front + y) + back, seed)
    ensures x == y
  {
    CrcAround(front, x, back, seed);
    CrcAround(front, y, back, seed);
    ByteStepInjective();
    hide ByteStep, Diff, Confined;
    var s := Crc(front, seed);
    FoldInjective(ByteStep, back, Fold(ByteStep, x, s), Fold(ByteStep, y, s));
    assert x == [x[0], x[1], x[2]] && y == [y[0], y[1], y[2]];
    FoldTriple(ByteStep, x[0], x[1], x[2], s);
    FoldTriple(ByteStep, y[0], y[1], y[2], s);
    ThreeBytesDiffer(s, x[0], x[1], x[2], y[0], y[1], y[2], n);
  }

  // Bursts

  /** Bytes before and after a burst are the same, and its first and last byte differ only inside it. */
  lemma BurstBytes(x: seq<Byte>, y: seq<Byte>, p: nat)
    requires |x| == |y| && Burst(x, y, p)
    ensures forall k :: 0 <= k < |x| && !(p / 8 <= k < p / 8 + 3) ==> x[k] == y[k]
    ensures p / 8 < |x| ==> Diff(x[p / 8], y[p / 8]) <= 0xFF >> (p % 8)
    ensures p / 8 + 2 < |x| ==> Diff(x[p / 8 + 2], y[p / 8 + 2]) & (0xFF >> (p % 8)) == 0
  {
    hide Burst, SameBits;
    var j, n := p / 8, p % 8;
    forall k | 0 <= k < |x| && !(j <= k < j + 3)
      ensures x[k] == y[k]
    {
      OutsideBurst(x, y, p, k, 0, 8);
      SameByte(x[k], y[k]);
    }
    if j < |x| {
      OutsideBurst(x, y, p, j, 0, n);
      SameTop(x[j], y[j], n);
    }
    if j + 2 < |x| {
      OutsideBurst(x, y, p, j + 2, n, 8);
      SameLow(x[j + 2], y[j + 2], n);
    }
  }

  lemma Cut(x: seq<Byte>, y: seq<Byte>, j: nat)
    requires |x| == |y| && j + 3 <= |x| && forall k :: 0 <= k < |x| && !(j <= k < j + 3) ==> x[k] == y[k]
    ensures x == (x[..j] + x[j..j + 3]) + x[j + 3..] && y == (x[..j] + y[j..j + 3]) + x[j + 3..]
  {
  }

  lemma ZeroByte(n: nat)
    requires n <= 8
    ensures Diff(0, 0) & (0xFF >> n) == 0
  {
  }

  /**
   * Two different pieces of data, all of whose differing bits lie within sixteen consecutive bits, never have the same
   * checksum.
   */
  lemma CrcDetectsBurst(x: seq<Byte>, y: seq<Byte>, p: nat, seed: bv16)
    requires Burst(x, y, p) && Crc(x, seed) == Crc(y, seed)
    ensures x == y
  {
    BurstBytes(x, y, p);
    hide Burst, Crc, Diff, Confined;
    if p / 8 < |x| {
      SameWithZeros(x, y, seed);
      BurstWithZeros(x, y, p);
      Cut(x + [0, 0], y + [0, 0], p / 8);
      var x', y', j := x + [0, 0], y + [0, 0], p / 8;
      DetectsTriple(x'[..j], x'[j..j + 3], y'[j..j + 3], x'[j + 3..], seed, p % 8);
      assert x == x'[..|x|] && y == y'[..|y|];
    }
  }

  lemma BurstWithZeros(x: seq<Byte>, y: seq<Byte>, p: nat)
    requires |x| == |y| && Burst(x, y, p) && p / 8 < |x|
    ensures var x', y', j := x + [0, 0], y + [0, 0], p / 8;
            && (forall k :: 0 <= k < |x'| && !(j <= k < j + 3) ==> x'[k] == y'[k])
            && Confined(Diff(x'[j], y'[j]), Diff(x'[j + 2], y'[j + 2]), p % 8)
  {
    BurstBytes(x, y, p);
    ZeroByte(p % 8);
    hide Burst, Diff;
  }

  lemma SameWithZeros(x: seq<Byte>, y: seq<Byte>, seed: bv16)
    requires Crc(x, seed) == Crc(y, seed)
    ensures Crc(x + [0, 0], seed) == Crc(y + [0, 0], seed)
  {
    FoldConcat(ByteStep, x, [0, 0], seed);
    FoldConcat(ByteStep, y, [0, 0], seed);
  }
}
