/** Shift registers over any state type: repeated steps and folds over data. */
module Registers {
  function Iterate<T>(step: T -> T, x: T, n: nat): T {
    if n == 0 then x else step(Iterate(step, x, n - 1))
  }

  function Fold<T, B>(absorb: (T, B) -> T, data: seq<B>, seed: T): T {
    if data == [] then seed else absorb(Fold(absorb, data[..|data| - 1], seed), data[|data| - 1])
  }

  ghost predicate Additive<T(!new)>(step: T -> T, add: (T, T) -> T) {
    forall x, y :: step(add(x, y)) == add(step(x), step(y))
  }

  ghost predicate Injective<T(!new)>(step: T -> T) {
    forall x, y :: step(x) == step(y) ==> x == y
  }

  ghost predicate InjectiveInState<T(!new), B(!new)>(absorb: (T, B) -> T) {
    forall x, y, b :: absorb(x, b) == absorb(y, b) ==> x == y
  }

  lemma {:induction false} IterateAdditive<T(!new)>(step: T -> T, add: (T, T) -> T, x: T, y: T, n: nat)
    requires Additive(step, add)
    ensures Iterate(step, add(x, y), n) == add(Iterate(step, x, n), Iterate(step, y, n))
  {
    if n > 0 {
      IterateAdditive(step, add, x, y, n - 1);
    }
  }

  lemma {:induction false} IterateSum<T>(step: T -> T, x: T, a: nat, b: nat)
    ensures Iterate(step, Iterate(step, x, a), b) == Iterate(step, x, a + b)
  {
    if b > 0 {
      IterateSum(step, x, a, b - 1);
    }
  }

  /** No two states meet, however often they step. */
  lemma {:induction false} IterateInjective<T(!new)>(step: T -> T, x: T, y: T, n: nat)
    requires Injective(step) && Iterate(step, x, n) == Iterate(step, y, n)
    ensures x == y
  {
    if n > 0 {
      IterateInjective(step, x, y, n - 1);
    }
  }

  /** A fold resumes from the state the first part left. */
  lemma {:induction false} FoldConcat<T, B>(absorb: (T, B) -> T, x: seq<B>, y: seq<B>, seed: T)
    ensures Fold(absorb, x + y, seed) == Fold(absorb, y, Fold(absorb, x, seed))
  {
    if y == [] {
      assert x + y == x;
    } else {
      var n := |y| - 1;
      assert (x + y)[..|x + y| - 1] == x + y[..n];
      FoldConcat(absorb, x, y[..n], seed);
    }
  }

  /** Different seeds stay different through any data. */
  lemma {:induction false} FoldInjective<T(!new), B(!new)>(absorb: (T, B) -> T, data: seq<B>, s: T, t: T)
    requires InjectiveInState(absorb) && Fold(absorb, data, s) == Fold(absorb, data, t)
    ensures s == t
  {
    if data != [] {
      FoldInjective(absorb, data[..|data| - 1], s, t);
    }
  }

  lemma FoldPair<T, B>(absorb: (T, B) -> T, a: B, b: B, s: T)
    ensures Fold(absorb, [a, b], s) == absorb(absorb(s, a), b)
  {
    assert [a, b][..1] == [a];
    assert [a][..0] == [];
    assert Fold(absorb, [a], s) == absorb(s, a);
  }
}

/** The T10 DIF checksum: a most-significant-bit-first CRC-16 computed bit by bit. */
module Crc16 {
  import opened Memory
  import opened Registers

  /** One turn of the loop over the bits of a byte, with the T10 polynomial 0x8BB7. */
  function BitStep(crc: bv16): bv16 {
    if crc & 0x8000 != 0 then (crc << 1) ^ 0x8BB7 else crc << 1
  }

  function Xor(x: bv16, y: bv16): bv16 {
    x ^ y
  }

  function High(data: Byte): bv16 {
    (data as bv16) << 8
  }

  function ByteStep(crc: bv16, data: Byte): bv16 {
    Iterate(BitStep, Xor(crc, High(data)), 8)
  }

  function Crc(data: seq<Byte>, seed: bv16): bv16 {
    Fold(ByteStep, data, seed)
  }

  method CalculateByte(value: bv16, data: Byte) returns (crc: bv16)
    ensures crc == ByteStep(value, data)
  {
    crc := Xor(value, High(data));
    ghost var start := crc;
    for bit := 0 to 8
      invariant crc == Iterate(BitStep, start, bit)
    {
      crc := BitStep(crc);
    }
  }

  method Calculate(mem: array<Byte>, src: nat, size: nat, seed: bv16) returns (crc: bv16)
    requires InBounds(mem[..], src, size)
    ensures crc == Crc(Read(mem[..], src, size), seed)
  {
    crc := seed;
    for i := 0 to size
      invariant crc == Fold(ByteStep, mem[src..src + i], seed)
    {
      assert mem[src..src + i + 1][..i] == mem[src..src + i];
      crc := CalculateByte(crc, mem[src + i]);
    }
  }

  lemma BitStepAdditive(x: bv16, y: bv16)
    ensures BitStep(Xor(x, y)) == Xor(BitStep(x), BitStep(y))
  {
    if x & 0x8000 != 0 {
      if y & 0x8000 != 0 {
        BothFeedBack(x, y);
      } else {
        FirstFeedsBack(x, y);
      }
    } else {
      if y & 0x8000 != 0 {
        SecondFeedsBack(x, y);
      } else {
        NoneFeedsBack(x, y);
      }
    }
  }

  lemma BothFeedBack(x: bv16, y: bv16)
    requires x & 0x8000 != 0 && y & 0x8000 != 0
    ensures BitStep(Xor(x, y)) == Xor(BitStep(x), BitStep(y))
  {
  }

  lemma FirstFeedsBack(x: bv16, y: bv16)
    requires x & 0x8000 != 0 && y & 0x8000 == 0
    ensures BitStep(Xor(x, y)) == Xor(BitStep(x), BitStep(y))
  {
  }

  lemma SecondFeedsBack(x: bv16, y: bv16)
    requires x & 0x8000 == 0 && y & 0x8000 != 0
    ensures BitStep(Xor(x, y)) == Xor(BitStep(x), BitStep(y))
  {
  }

  lemma NoneFeedsBack(x: bv16, y: bv16)
    requires x & 0x8000 == 0 && y & 0x8000 == 0
    ensures BitStep(Xor(x, y)) == Xor(BitStep(x), BitStep(y))
  {
  }

  lemma BitStepKernel(x: bv16)
    requires BitStep(x) == 0
    ensures x == 0
  {
  }

  lemma XorTwice(x: bv16, y: bv16)
    ensures Xor(Xor(x, y), y) == x
  {
  }

  lemma XorWithZero(x: bv16)
    ensures Xor(0, x) == x && Xor(x, 0) == x && Xor(x, x) == 0
  {
  }

  lemma XorZero(x: bv16, y: bv16)
    ensures Xor(x, y) == 0 <==> x == y
  {
    XorTwice(x, y);
    XorWithZero(y);
    hide Xor;
  }

  lemma BitStepInjective(x: bv16, y: bv16)
    requires BitStep(x) == BitStep(y)
    ensures x == y
  {
    BitStepAdditive(x, y);
    XorZero(BitStep(x), BitStep(y));
    BitStepKernel(Xor(x, y));
    XorZero(x, y);
  }

  lemma BitStepIsLinear()
    ensures Additive(BitStep, Xor)
    ensures Injective(BitStep)
  {
    forall x: bv16, y: bv16
      ensures BitStep(Xor(x, y)) == Xor(BitStep(x), BitStep(y))
    {
      BitStepAdditive(x, y);
    }
    forall x: bv16, y: bv16 | BitStep(x) == BitStep(y)
      ensures x == y
    {
      BitStepInjective(x, y);
    }
  }

  lemma CancelXor(x: bv16, y: bv16, z: bv16)
    requires Xor(x, z) == Xor(y, z)
    ensures x == y
  {
    XorTwice(x, z);
    XorTwice(y, z);
    hide Xor;
  }

  lemma ByteStepInjective()
    ensures InjectiveInState(ByteStep)
  {
    forall x: bv16, y: bv16, b: Byte | ByteStep(x, b) == ByteStep(y, b)
      ensures x == y
    {
      BitStepIsLinear();
      IterateInjective(BitStep, Xor(x, High(b)), Xor(y, High(b)), 8);
      CancelXor(x, y, High(b));
    }
  }

  function Up(v: bv16, n: nat): bv16
    requires n <= 8
  {
    v << n
  }

  /** The top n bits are clear. */
  predicate Room(v: bv16, n: nat)
    requires n <= 8
  {
    v <= 0xFFFF >> n
  }

  /** A register whose top n bits are clear shifts n times without feedback. */
  lemma {:induction false} ShiftsFreely(v: bv16, n: nat)
    requires n <= 8 && Room(v, n)
    ensures Iterate(BitStep, v, n) == Up(v, n)
  {
    if n > 0 {
      ShiftOnce(v, n);
      hide Up, Room, BitStep;
      ShiftsFreely(v, n - 1);
    } else {
      NoShift(v);
    }
  }

  lemma NoShift(v: bv16)
    ensures Up(v, 0) == v
  {
  }

  lemma RoomLess(v: bv16, n: nat)
    requires 0 < n <= 8 && Room(v, n)
    ensures Room(v, n - 1) && Up(v, n - 1) & 0x8000 == 0
  {
    assert n == 1 || n == 2 || n == 3 || n == 4 || n == 5 || n == 6 || n == 7 || n == 8;
  }

  lemma UpNext(v: bv16, n: nat)
    requires 0 < n <= 8
    ensures Up(v, n - 1) << 1 == Up(v, n)
  {
    assert n == 1 || n == 2 || n == 3 || n == 4 || n == 5 || n == 6 || n == 7 || n == 8;
  }

  lemma ShiftOnce(v: bv16, n: nat)
    requires 0 < n <= 8 && Room(v, n)
    ensures Room(v, n - 1) && BitStep(Up(v, n - 1)) == Up(v, n)
  {
    hide Up, Room;
    RoomLess(v, n);
    UpNext(v, n);
  }

  lemma LowByteShifts(b: Byte)
    ensures Iterate(BitStep, b as bv16, 8) == High(b)
  {
    ShiftsFreely(b as bv16, 8);
  }

  /** Two bytes enter the register as one 16-bit quantity. */
  lemma TwoBytesAtOnce(s: bv16, a: Byte, b: Byte)
    ensures ByteStep(ByteStep(s, a), b) ==
            Iterate(BitStep, Iterate(BitStep, Xor(Xor(s, High(a)), b as bv16), 8), 8)
  {
    BitStepIsLinear();
    IterateAdditive(BitStep, Xor, Xor(s, High(a)), b as bv16, 8);
    LowByteShifts(b);
  }

  lemma PairOf(s: bv16, a: Byte, b: Byte)
    ensures ((Xor(Xor(s, High(a)), b as bv16) ^ s) >> 8) as Byte == a
    ensures ((Xor(Xor(s, High(a)), b as bv16) ^ s) & 0xFF) as Byte == b
  {
  }

  lemma SamePair(s: bv16, a: Byte, b: Byte, c: Byte, d: Byte)
    requires Xor(Xor(s, High(a)), b as bv16) == Xor(Xor(s, High(c)), d as bv16)
    ensures a == c && b == d
  {
    PairOf(s, a, b);
    PairOf(s, c, d);
  }

  /** Two adjacent bytes are determined by the register before and after them. */
  lemma TwoBytesInjective(s: bv16, a: Byte, b: Byte, c: Byte, d: Byte)
    requires ByteStep(ByteStep(s, a), b) == ByteStep(ByteStep(s, c), d)
    ensures a == c && b == d
  {
    TwoBytesAtOnce(s, a, b);
    TwoBytesAtOnce(s, c, d);
    BitStepIsLinear();
    var x, y := Xor(Xor(s, High(a)), b as bv16), Xor(Xor(s, High(c)), d as bv16);
    IterateInjective(BitStep, Iterate(BitStep, x, 8), Iterate(BitStep, y, 8), 8);
    IterateInjective(BitStep, x, y, 8);
    SamePair(s, a, b, c, d);
  }

  /** Every error confined to two adjacent bytes changes the checksum. */
  lemma CrcDetectsPair(data: seq<Byte>, j: nat, a: Byte, b: Byte, seed: bv16)
    requires j + 1 < |data|
    requires Crc(data[j := a][j + 1 := b], seed) == Crc(data, seed)
    ensures data[j] == a && data[j + 1] == b
  {
    var front, back := data[..j], data[j + 2..];
    var c, d := data[j], data[j + 1];
    assert data == (front + [c, d]) + back;
    assert data[j := a][j + 1 := b] == (front + [a, b]) + back;
    var s := Crc(front, seed);
    CrcAround(front, [c, d], back, seed);
    CrcAround(front, [a, b], back, seed);
    ByteStepInjective();
    FoldInjective(ByteStep, back, Fold(ByteStep, [c, d], s), Fold(ByteStep, [a, b], s));
    FoldPair(ByteStep, c, d, s);
    FoldPair(ByteStep, a, b, s);
    TwoBytesInjective(s, c, d, a, b);
  }

  lemma CrcAround(front: seq<Byte>, pair: seq<Byte>, back: seq<Byte>, seed: bv16)
    ensures Crc((front + pair) + back, seed) ==
            Fold(ByteStep, back, Fold(ByteStep, pair, Crc(front, seed)))
  {
    FoldConcat(ByteStep, front + pair, back, seed);
    FoldConcat(ByteStep, front, pair, seed);
  }

  /** A single low bit, shifted through a register of zeros, leaves the polynomial. */
  lemma CrcOfOne()
    ensures Crc([1], 0) == 0x8BB7
  {
    assert [1 as Byte][..0] == [];
    OneBitLeft(0x0100, 7);
  }

  lemma {:induction false} OneBitLeft(start: bv16, n: nat)
    requires start == 0x0100 && n <= 7
    ensures Iterate(BitStep, start, n) == start << n
    ensures n == 7 ==> Iterate(BitStep, start, 8) == 0x8BB7
  {
    if n > 0 {
      OneBitLeft(start, n - 1);
      assert n == 1 || n == 2 || n == 3 || n == 4 || n == 5 || n == 6 || n == 7;
    }
  }

  lemma ZeroStays(n: nat)
    ensures Iterate(BitStep, 0, n) == 0
  {
    if n > 0 {
      ZeroStays(n - 1);
    }
  }

  /** Data followed by its own checksum, high byte first, leaves a register of zeros. */
  lemma CrcResidue(data: seq<Byte>, seed: bv16)
    ensures var crc := Crc(data, seed); Crc(data + [(crc >> 8) as Byte, (crc & 0xFF) as Byte], seed) == 0
  {
    var crc := Crc(data, seed);
    var hi, lo := (crc >> 8) as Byte, (crc & 0xFF) as Byte;
    FoldConcat(ByteStep, data, [hi, lo], seed);
    FoldPair(ByteStep, hi, lo, crc);
    TwoBytesAtOnce(crc, hi, lo);
    CancelsItself(crc);
    ZeroStays(8);
    hide ByteStep, BitStep;
  }

  lemma CancelsItself(crc: bv16)
    ensures Xor(Xor(crc, High((crc >> 8) as Byte)), ((crc & 0xFF) as Byte) as bv16) == 0
  {
  }
}
