/** What the 32-bit checksum is: its polynomial, a value in full, and the errors it detects. */
module Crc32Bursts {
  import opened Memory
  import opened Registers
  import opened Crc32

  // The register bit by bit

  function Xor(x: bv32, y: bv32): bv32 {
    x ^ y
  }

  /** All places of a register's 32 from number n on, of which number 0 is the first that a bit enters. */
  function Places(n: nat): bv32 {
    if n == 0 then 0xFFFF_FFFF else Places(n - 1) >> 1
  }

  function Place(n: nat): bv32 {
    Places(n) & !Places(n + 1)
  }

  function OneBit(bit: bool): bv32 {
    if bit then 0x8000_0000 else 0
  }

  /** One bit enters the register. */
  function Enters(polynomial: bv32): (bv32, bool) -> bv32 {
    (crc: bv32, bit: bool) => NextBit(polynomial, Xor(crc, OneBit(bit)))
  }

  /** Up to 32 bits as they lie in a register. */
  function Word(bits: seq<bool>): bv32
    requires |bits| <= 32
  {
    if bits == [] then 0
    else
      var n := |bits| - 1;
      if bits[n] then Xor(Word(bits[..n]), Place(n)) else Word(bits[..n])
  }

  predicate Clear(v: bv32, mask: bv32) {
    v & mask == 0
  }

  predicate Within(narrow: bv32, wide: bv32) {
    narrow & wide == narrow
  }

  /** Ones at the low end and nothing else. */
  predicate IsLow(m: bv32) {
    m & (m + 1) == 0
  }

  lemma LowShifts(m: bv32)
    requires IsLow(m)
    ensures IsLow(m >> 1) && (m >> 1) & m == m >> 1 && (m != 0 ==> m & !(m >> 1) != 0)
    ensures m >> 1 != 0 ==> ((m >> 1) & !(m >> 1 >> 1)) << 1 == m & !(m >> 1)
  {
  }

  lemma {:induction false} PlacesLow(n: nat)
    ensures IsLow(Places(n)) && (0 < n ==> Places(n) & 0x8000_0000 == 0)
  {
    if n > 0 {
      PlacesLow(n - 1);
      LowShifts(Places(n - 1));
    }
  }

  lemma PlacesLast()
    ensures Places(31) == 1
  {
    assert Places(8) == 0xFF_FFFF;
    assert Places(16) == 0xFFFF;
    assert Places(24) == 0xFF;
  }

  lemma {:induction false} PlacesLeft(n: nat)
    requires n <= 31
    ensures Places(n) != 0
    decreases 31 - n
  {
    if n < 31 {
      PlacesLeft(n + 1);
    } else {
      PlacesLast();
    }
  }

  lemma Inside(m: bv32, k: bv32)
    ensures (m & !k) & m == m & !k && (m & !k) & k == 0
  {
  }

  lemma PlaceInPlaces(n: nat)
    requires n < 32
    ensures Place(n) != 0 && Within(Place(n), Places(n))
  {
    PlacesLow(n);
    PlacesLeft(n);
    LowShifts(Places(n));
    Inside(Places(n), Places(n + 1));
  }

  lemma PlacesNarrow(n: nat)
    ensures Within(Places(n + 1), Places(n))
  {
    PlacesLow(n);
    LowShifts(Places(n));
  }

  lemma PlaceBefore(n: nat)
    ensures Clear(Place(n), Places(n + 1))
  {
    Inside(Places(n), Places(n + 1));
  }

  lemma PlaceUp(n: nat)
    requires n < 32
    ensures 0 < n ==> Place(n) & 0x8000_0000 == 0 && Place(n) << 1 == Place(n - 1)
    ensures n == 0 ==> Place(n) == 0x8000_0000
  {
    if n > 0 {
      PlacesLow(n);
      PlacesLeft(n);
      PlacesLow(n - 1);
      LowShifts(Places(n - 1));
      TopClear(Places(n), !Places(n + 1));
    }
  }

  lemma TopClear(m: bv32, k: bv32)
    requires m & 0x8000_0000 == 0
    ensures (m & k) & 0x8000_0000 == 0
  {
  }

  lemma NextBitAdditive(polynomial: bv32, x: bv32, y: bv32)
    ensures NextBit(polynomial, Xor(x, y)) == Xor(NextBit(polynomial, x), NextBit(polynomial, y))
  {
    if x & 0x8000_0000 != 0 {
      if y & 0x8000_0000 != 0 {
        BothFeedBack(polynomial, x, y);
      } else {
        FirstFeedsBack(polynomial, x, y);
      }
    } else {
      if y & 0x8000_0000 != 0 {
        FirstFeedsBack(polynomial, y, x);
        XorSwaps(x, y);
        XorSwaps(NextBit(polynomial, x), NextBit(polynomial, y));
      } else {
        NoneFeedsBack(polynomial, x, y);
      }
    }
  }

  lemma XorSwaps(x: bv32, y: bv32)
    ensures Xor(x, y) == Xor(y, x)
  {
  }

  lemma ShiftXor(x: bv32, y: bv32)
    ensures (x ^ y) << 1 == (x << 1) ^ (y << 1)
  {
  }

  lemma TopOfXor(x: bv32, y: bv32)
    ensures (x ^ y) & 0x8000_0000 != 0 <==> (x & 0x8000_0000 != 0) != (y & 0x8000_0000 != 0)
  {
  }

  lemma ShiftBoth(x: bv32, y: bv32, p: bv32)
    ensures (x ^ y) << 1 == ((x << 1) ^ p) ^ ((y << 1) ^ p)
  {
  }

  lemma ShiftFirst(x: bv32, y: bv32, p: bv32)
    ensures ((x ^ y) << 1) ^ p == ((x << 1) ^ p) ^ (y << 1)
  {
  }

  /** What the step does, apart from any function names. */
  lemma Stepped(polynomial: bv32, x: bv32)
    ensures x & 0x8000_0000 != 0 ==> NextBit(polynomial, x) == (x << 1) ^ polynomial
    ensures x & 0x8000_0000 == 0 ==> NextBit(polynomial, x) == x << 1
  {
  }

  lemma BothFeedBack(polynomial: bv32, x: bv32, y: bv32)
    requires x & 0x8000_0000 != 0 && y & 0x8000_0000 != 0
    ensures NextBit(polynomial, Xor(x, y)) == Xor(NextBit(polynomial, x), NextBit(polynomial, y))
  {
    hide NextBit;
    Stepped(polynomial, x);
    Stepped(polynomial, y);
    Stepped(polynomial, x ^ y);
    TopOfXor(x, y);
    ShiftBoth(x, y, polynomial);
  }

  lemma FirstFeedsBack(polynomial: bv32, x: bv32, y: bv32)
    requires x & 0x8000_0000 != 0 && y & 0x8000_0000 == 0
    ensures NextBit(polynomial, Xor(x, y)) == Xor(NextBit(polynomial, x), NextBit(polynomial, y))
  {
    hide NextBit;
    Stepped(polynomial, x);
    Stepped(polynomial, y);
    Stepped(polynomial, x ^ y);
    TopOfXor(x, y);
    ShiftFirst(x, y, polynomial);
  }

  lemma NoneFeedsBack(polynomial: bv32, x: bv32, y: bv32)
    requires x & 0x8000_0000 == 0 && y & 0x8000_0000 == 0
    ensures NextBit(polynomial, Xor(x, y)) == Xor(NextBit(polynomial, x), NextBit(polynomial, y))
  {
    hide NextBit;
    Stepped(polynomial, x);
    Stepped(polynomial, y);
    Stepped(polynomial, x ^ y);
    TopOfXor(x, y);
    ShiftXor(x, y);
  }

  lemma NextBitKernel(polynomial: bv32, x: bv32)
    requires polynomial & 1 == 1 && NextBit(polynomial, x) == 0
    ensures x == 0
  {
  }

  lemma XorZero(x: bv32, y: bv32)
    ensures Xor(x, y) == 0 <==> x == y
  {
    assert Xor(x, y) == 0 ==> x ^ y ^ y == y;
  }

  /** A step adds up, and with an odd polynomial no two states step to one. */
  lemma StepIsLinear(polynomial: bv32)
    ensures Additive(BitStep(polynomial), Xor)
    ensures polynomial & 1 == 1 ==> Injective(BitStep(polynomial))
  {
    hide NextBit, Xor;
    forall x: bv32, y: bv32
      ensures NextBit(polynomial, Xor(x, y)) == Xor(NextBit(polynomial, x), NextBit(polynomial, y))
    {
      NextBitAdditive(polynomial, x, y);
    }
    if polynomial & 1 == 1 {
      forall x: bv32, y: bv32 | NextBit(polynomial, x) == NextBit(polynomial, y)
        ensures x == y
      {
        NextBitAdditive(polynomial, x, y);
        XorZero(NextBit(polynomial, x), NextBit(polynomial, y));
        NextBitKernel(polynomial, Xor(x, y));
        XorZero(x, y);
      }
    }
  }

  /** A bit moves up to the top without feedback. */
  lemma {:induction false} PlaceMovesUp(polynomial: bv32, n: nat)
    requires n < 32
    ensures Iterate(BitStep(polynomial), Place(n), n) == 0x8000_0000
  {
    hide Place;
    PlaceUp(n);
    if n > 0 {
      IterateSum(BitStep(polynomial), Place(n), 1, n - 1);
      assert Iterate(BitStep(polynomial), Place(n), 0) == Place(n);
      assert Iterate(BitStep(polynomial), Place(n), 1) == Place(n - 1);
      PlaceMovesUp(polynomial, n - 1);
    }
  }

  lemma XorAssociates(x: bv32, y: bv32, z: bv32)
    ensures Xor(Xor(x, y), z) == Xor(x, Xor(y, z)) && Xor(x, 0) == x
  {
  }

  /** Up to 32 bits that enter one by one enter as one word. */
  lemma {:induction false} EnterAsWord(polynomial: bv32, bits: seq<bool>, s: bv32)
    requires |bits| <= 32
    ensures Fold(Enters(polynomial), bits, s) == Iterate(BitStep(polynomial), Xor(s, Word(bits)), |bits|)
  {
    hide NextBit, Xor, Place;
    var step := BitStep(polynomial);
    if bits == [] {
      XorAssociates(s, 0, 0);
    } else {
      var n := |bits| - 1;
      EnterAsWord(polynomial, bits[..n], s);
      var before := Xor(s, Word(bits[..n]));
      if bits[n] {
        StepIsLinear(polynomial);
        PlaceMovesUp(polynomial, n);
        IterateAdditive(step, Xor, before, Place(n), n);
        XorAssociates(s, Word(bits[..n]), Place(n));
      } else {
        XorAssociates(Iterate(step, before, n), 0, 0);
      }
    }
  }

  lemma ClearNarrow(v: bv32, wide: bv32, narrow: bv32)
    requires Clear(v, wide) && Within(narrow, wide)
    ensures Clear(v, narrow)
  {
  }

  lemma ClearXor(v: bv32, p: bv32, narrow: bv32)
    requires Clear(v, narrow) && Clear(p, narrow)
    ensures Clear(Xor(v, p), narrow)
  {
  }

  lemma StillClear(v: bv32, n: nat)
    requires n < 32 && Clear(v, Places(n))
    ensures Clear(v, Places(n + 1)) && Clear(Xor(v, Place(n)), Places(n + 1)) && Clear(v, Place(n))
  {
    hide Xor, Place, Places, Clear, Within;
    PlacesNarrow(n);
    PlaceBefore(n);
    PlaceInPlaces(n);
    ClearNarrow(v, Places(n), Places(n + 1));
    ClearNarrow(v, Places(n), Place(n));
    ClearXor(v, Place(n), Places(n + 1));
  }

  /** No bit lies beyond the last. */
  lemma {:induction false} WordEnds(bits: seq<bool>)
    requires |bits| <= 32
    ensures Clear(Word(bits), Places(|bits|))
  {
    hide Xor, Place, Places, Clear;
    if bits == [] {
      NothingClear(Places(0));
    } else {
      WordEnds(bits[..|bits| - 1]);
      StillClear(Word(bits[..|bits| - 1]), |bits| - 1);
    }
  }

  lemma NothingClear(p: bv32)
    ensures Clear(0, p)
  {
  }

  lemma PlaceShows(v: bv32, w: bv32, p: bv32)
    requires Clear(v, p) && Clear(w, p) && p != 0
    ensures Xor(v, p) != w
  {
  }

  lemma XorSame(v: bv32, w: bv32, p: bv32)
    requires Xor(v, p) == Xor(w, p)
    ensures v == w
  {
  }

  lemma PlaceTells(v: bv32, w: bv32, n: nat, s: bool, t: bool)
    requires n < 32 && Clear(v, Places(n)) && Clear(w, Places(n))
    requires (if s then Xor(v, Place(n)) else v) == (if t then Xor(w, Place(n)) else w)
    ensures s == t && v == w
  {
    hide Xor, Place, Places, Clear;
    PlaceInPlaces(n);
    StillClear(v, n);
    StillClear(w, n);
    PlaceShows(v, w, Place(n));
    PlaceShows(w, v, Place(n));
    if s && t {
      XorSame(v, w, Place(n));
    }
  }

  /** Different bits are different words. */
  lemma {:induction false} WordInjective(x: seq<bool>, y: seq<bool>)
    requires |x| == |y| <= 32 && Word(x) == Word(y)
    ensures x == y
  {
    hide Xor, Place, Places, Clear;
    if x != [] {
      var n := |x| - 1;
      WordEnds(x[..n]);
      WordEnds(y[..n]);
      PlaceTells(Word(x[..n]), Word(y[..n]), n, x[n], y[n]);
      WordInjective(x[..n], y[..n]);
      assert x == x[..n] + [x[n]] && y == y[..n] + [y[n]];
    }
  }

  lemma XorCancels(s: bv32, x: bv32, y: bv32)
    requires Xor(s, x) == Xor(s, y)
    ensures x == y
  {
    XorSwaps(s, x);
    XorSwaps(s, y);
    hide Xor;
    XorSame(x, y, s);
  }

  lemma EntersOnce(polynomial: bv32, x: bv32, y: bv32, bit: bool)
    requires Injective(BitStep(polynomial)) && Enters(polynomial)(x, bit) == Enters(polynomial)(y, bit)
    ensures x == y
  {
    hide NextBit, Xor, OneBit;
    var p := OneBit(bit);
    assert BitStep(polynomial)(Xor(x, p)) == BitStep(polynomial)(Xor(y, p));
    XorSwaps(x, p);
    XorSwaps(y, p);
    XorCancels(p, x, y);
  }

  lemma EntersInjective(polynomial: bv32)
    requires polynomial & 1 == 1
    ensures InjectiveInState(Enters(polynomial))
  {
    StepIsLinear(polynomial);
    hide NextBit, Xor, OneBit, Enters, BitStep;
    forall x: bv32, y: bv32, bit: bool | Enters(polynomial)(x, bit) == Enters(polynomial)(y, bit)
      ensures x == y
    {
      EntersOnce(polynomial, x, y, bit);
    }
  }

  /** All places at which the two differ lie among the 32 from p on. */
  ghost predicate Burst(x: seq<bool>, y: seq<bool>, p: nat) {
    |x| == |y| && forall i :: 0 <= i < |x| && !(p <= i < p + 32) ==> x[i] == y[i]
  }

  lemma BurstParts(x: seq<bool>, y: seq<bool>, p: nat, end: nat)
    requires Burst(x, y, p) && p <= end <= |x| && (end == p + 32 || end == |x|)
    ensures |x| == |y| && x[..p] == y[..p] && x[end..] == y[end..]
    ensures x == (x[..p] + x[p..end]) + x[end..] && y == (x[..p] + y[p..end]) + x[end..]
  {
    assert x[..p] == y[..p] && x[end..] == y[end..];
  }

  lemma FoldAround(polynomial: bv32, front: seq<bool>, window: seq<bool>, back: seq<bool>, s: bv32)
    ensures var enters := Enters(polynomial);
            Fold(enters, (front + window) + back, s) == Fold(enters, back, Fold(enters, window, Fold(enters, front, s)))
  {
    FoldConcat(Enters(polynomial), front + window, back, s);
    FoldConcat(Enters(polynomial), front, window, s);
  }

  /** Up to 32 bits lead different ways. */
  lemma WindowDetected(polynomial: bv32, x: seq<bool>, y: seq<bool>, s: bv32)
    requires polynomial & 1 == 1 && |x| == |y| <= 32
    requires Fold(Enters(polynomial), x, s) == Fold(Enters(polynomial), y, s)
    ensures x == y
  {
    EnterAsWord(polynomial, x, s);
    EnterAsWord(polynomial, y, s);
    StepIsLinear(polynomial);
    hide Xor, NextBit, Word, Enters, BitStep, Iterate, Fold;
    IterateInjective(BitStep(polynomial), Xor(s, Word(x)), Xor(s, Word(y)), |x|);
    XorCancels(s, Word(x), Word(y));
    WordInjective(x, y);
  }

  /** Bits that differ in a burst lead the register to different states. */
  lemma BitsDetected(polynomial: bv32, x: seq<bool>, y: seq<bool>, p: nat, s: bv32)
    requires polynomial & 1 == 1 && Burst(x, y, p) && |x| == |y|
    requires Fold(Enters(polynomial), x, s) == Fold(Enters(polynomial), y, s)
    ensures x == y
  {
    if |x| <= p {
      assert x == y;
    } else {
      var end := if p + 32 <= |x| then p + 32 else |x|;
      BurstParts(x, y, p, end);
      EntersInjective(polynomial);
      hide Burst, Xor, NextBit, Word, Enters, BitStep, Fold;
      var enters := Enters(polynomial);
      FoldAround(polynomial, x[..p], x[p..end], x[end..], s);
      FoldAround(polynomial, x[..p], y[p..end], x[end..], s);
      var start := Fold(enters, x[..p], s);
      FoldInjective(enters, x[end..], Fold(enters, x[p..end], start), Fold(enters, y[p..end], start));
      WindowDetected(polynomial, x[p..end], y[p..end], start);
    }
  }

  // The bits of data

  function Mask(t: nat, reflected: bool): Byte
    requires t < 8
  {
    var n := if reflected then 7 - t else t;
    if n == 0 then 0x80 else if n == 1 then 0x40 else if n == 2 then 0x20 else if n == 3 then 0x10
    else if n == 4 then 0x08 else if n == 5 then 0x04 else if n == 6 then 0x02 else 0x01
  }

  predicate BitOf(x: Byte, t: nat, reflected: bool)
    requires t < 8
  {
    x & Mask(t, reflected) != 0
  }

  /** The bits of a byte as they enter: the highest first, or, reflected, the lowest. */
  function ByteBits(x: Byte, reflected: bool): (bits: seq<bool>)
    ensures |bits| == 8
  {
    [BitOf(x, 0, reflected), BitOf(x, 1, reflected), BitOf(x, 2, reflected), BitOf(x, 3, reflected),
     BitOf(x, 4, reflected), BitOf(x, 5, reflected), BitOf(x, 6, reflected), BitOf(x, 7, reflected)]
  }

  function Bits(data: seq<Byte>, reflected: bool): (bits: seq<bool>)
    ensures |bits| == 8 * |data|
  {
    if data == [] then []
    else Bits(data[..|data| - 1], reflected) + ByteBits(data[|data| - 1], reflected)
  }

  lemma ByteBitsReversed(x: Byte)
    ensures ByteBits(ReverseByte(x), false) == ByteBits(x, true)
  {
  }

  lemma FirstPlaces()
    ensures Place(0) == 0x8000_0000 && Place(1) == 0x4000_0000 && Place(2) == 0x2000_0000 && Place(3) == 0x1000_0000
    ensures Place(4) == 0x800_0000 && Place(5) == 0x400_0000 && Place(6) == 0x200_0000 && Place(7) == 0x100_0000
  {
    assert Places(4) == 0xFFF_FFFF;
  }

  function With(v: bv32, bit: bool, place: bv32): bv32 {
    if bit then Xor(v, place) else v
  }

  lemma {:induction false} WordStep(bits: seq<bool>, n: nat)
    requires n < |bits| <= 32
    ensures Word(bits[..n + 1]) == With(Word(bits[..n]), bits[n], Place(n))
  {
    hide Xor, Place;
    assert bits[..n + 1][..n] == bits[..n];
  }

  lemma EightBits(x: Byte)
    ensures With(With(With(With(With(With(With(With(0, x & 0x80 != 0, 0x8000_0000), x & 0x40 != 0, 0x4000_0000),
                 x & 0x20 != 0, 0x2000_0000), x & 0x10 != 0, 0x1000_0000), x & 0x08 != 0, 0x800_0000),
                 x & 0x04 != 0, 0x400_0000), x & 0x02 != 0, 0x200_0000), x & 0x01 != 0, 0x100_0000) == (x as bv32) << 24
  {
  }

  lemma WordOfEight(bits: seq<bool>)
    requires |bits| == 8
    ensures Word(bits) ==
            With(With(With(With(With(With(With(With(0, bits[0], 0x8000_0000), bits[1], 0x4000_0000),
                 bits[2], 0x2000_0000), bits[3], 0x1000_0000), bits[4], 0x800_0000),
                 bits[5], 0x400_0000), bits[6], 0x200_0000), bits[7], 0x100_0000)
  {
    FirstPlaces();
    hide Xor, Place, With;
    assert bits[..8] == bits && bits[..0] == [];
    WordStep(bits, 0);
    WordStep(bits, 1);
    WordStep(bits, 2);
    WordStep(bits, 3);
    WordStep(bits, 4);
    WordStep(bits, 5);
    WordStep(bits, 6);
    WordStep(bits, 7);
  }

  /** The bits of a byte, as they enter, are the byte at the register's top. */
  lemma WordOfByte(x: Byte)
    ensures Word(ByteBits(x, false)) == (x as bv32) << 24
  {
    hide Xor, With, Word, ByteBits;
    WordOfEight(ByteBits(x, false));
    TopFirst(x);
    EightBits(x);
  }

  lemma TopFirst(x: Byte)
    ensures ByteBits(x, false) == [x & 0x80 != 0, x & 0x40 != 0, x & 0x20 != 0, x & 0x10 != 0,
                                   x & 0x08 != 0, x & 0x04 != 0, x & 0x02 != 0, x & 0x01 != 0]
  {
  }

  lemma ByteInWord(polynomial: bv32, crc: bv32, b: Byte)
    ensures ByteStep(polynomial, crc, b) == Iterate(BitStep(polynomial), Xor(crc, (b as bv32) << 24), 8)
  {
    hide Iterate;
  }

  /** A byte enters as its bits do. */
  lemma ByteEnters(polynomial: bv32, crc: bv32, x: Byte, reflected: bool)
    ensures Absorb(polynomial, reflected)(crc, x) == Fold(Enters(polynomial), ByteBits(x, reflected), crc)
  {
    hide Iterate, NextBit, ByteBits, ReverseByte, ByteStep, Enters, BitStep, Fold, Xor;
    var b := if reflected then ReverseByte(x) else x;
    ByteBitsReversed(x);
    ByteInWord(polynomial, crc, b);
    EnterAsWord(polynomial, ByteBits(b, false), crc);
    WordOfByte(b);
  }

  /** Data enter as their bits do. */
  lemma {:induction false} DataEnter(polynomial: bv32, data: seq<Byte>, reflected: bool, s: bv32)
    ensures Fold(Absorb(polynomial, reflected), data, s) == Fold(Enters(polynomial), Bits(data, reflected), s)
  {
    hide Absorb, Enters, ByteBits;
    if data != [] {
      var n := |data| - 1;
      DataEnter(polynomial, data[..n], reflected, s);
      FoldConcat(Enters(polynomial), Bits(data[..n], reflected), ByteBits(data[n], reflected), s);
      ByteEnters(polynomial, Fold(Enters(polynomial), Bits(data[..n], reflected), s), data[n], reflected);
    }
  }

  lemma ByteBitsInjective(x: Byte, y: Byte, reflected: bool)
    requires ByteBits(x, reflected) == ByteBits(y, reflected)
    ensures x == y
  {
    hide ByteBits;
    if reflected {
      LowFirst(x);
      LowFirst(y);
    } else {
      TopFirst(x);
      TopFirst(y);
    }
    var s, t := ByteBits(x, reflected), ByteBits(y, reflected);
    assert s[0] == t[0] && s[1] == t[1] && s[2] == t[2] && s[3] == t[3];
    assert s[4] == t[4] && s[5] == t[5] && s[6] == t[6] && s[7] == t[7];
    SameByte(x, y);
  }

  lemma SameByte(x: Byte, y: Byte)
    requires (x & 0x80 != 0) == (y & 0x80 != 0) && (x & 0x40 != 0) == (y & 0x40 != 0)
    requires (x & 0x20 != 0) == (y & 0x20 != 0) && (x & 0x10 != 0) == (y & 0x10 != 0)
    requires (x & 0x08 != 0) == (y & 0x08 != 0) && (x & 0x04 != 0) == (y & 0x04 != 0)
    requires (x & 0x02 != 0) == (y & 0x02 != 0) && (x & 0x01 != 0) == (y & 0x01 != 0)
    ensures x == y
  {
  }

  lemma LowFirst(x: Byte)
    ensures ByteBits(x, true) == [x & 0x01 != 0, x & 0x02 != 0, x & 0x04 != 0, x & 0x08 != 0,
                                  x & 0x10 != 0, x & 0x20 != 0, x & 0x40 != 0, x & 0x80 != 0]
  {
  }

  lemma {:induction false} BitsInjective(x: seq<Byte>, y: seq<Byte>, reflected: bool)
    requires |x| == |y| && Bits(x, reflected) == Bits(y, reflected)
    ensures x == y
  {
    hide ByteBits;
    if x != [] {
      var n := |x| - 1;
      var s, t := Bits(x, reflected), Bits(y, reflected);
      assert s[..8 * n] == Bits(x[..n], reflected) && t[..8 * n] == Bits(y[..n], reflected);
      assert s[8 * n..] == ByteBits(x[n], reflected) && t[8 * n..] == ByteBits(y[n], reflected);
      BitsInjective(x[..n], y[..n], reflected);
      ByteBitsInjective(x[n], y[n], reflected);
      assert x == x[..n] + [x[n]] && y == y[..n] + [y[n]];
    }
  }

  // The checksum

  /**
   * Two different buffers, all of whose differing bits lie within 32 consecutive bits in the order they enter the
   * register, never have the same checksum, for every polynomial with a constant term.
   */
  lemma ChecksumDetectsBurst(x: seq<Byte>, y: seq<Byte>, p: nat, seed: bv32, options: Options, polynomial: bv32)
    requires polynomial & 1 == 1 && |x| == |y|
    requires Burst(Bits(x, !options.bypassDataReflection), Bits(y, !options.bypassDataReflection), p)
    requires Checksum(x, seed, options, polynomial) == Checksum(y, seed, options, polynomial)
    ensures x == y
  {
    hide Absorb, Enters, Entry, Exit, Bits, Burst, Fold;
    var reflected, start := !options.bypassDataReflection, Entry(seed, options.bypassReflection);
    EntryOfExit(Fold(Absorb(polynomial, reflected), x, start), options.bypassReflection);
    EntryOfExit(Fold(Absorb(polynomial, reflected), y, start), options.bypassReflection);
    DataEnter(polynomial, x, reflected, start);
    DataEnter(polynomial, y, reflected, start);
    BitsDetected(polynomial, Bits(x, reflected), Bits(y, reflected), p, start);
    BitsInjective(x, y, reflected);
  }

  lemma OddPolynomial()
    ensures CRC_32C & 1 == 1
  {
  }

  // Values

  function FourSteps(polynomial: bv32, x: bv32): bv32 {
    NextBit(polynomial, NextBit(polynomial, NextBit(polynomial, NextBit(polynomial, x))))
  }

  lemma EightSteps(polynomial: bv32, x: bv32)
    ensures Iterate(BitStep(polynomial), x, 8) == FourSteps(polynomial, FourSteps(polynomial, x))
  {
    hide NextBit;
  }

  lemma OneAbsorbed()
    ensures FourSteps(CRC_32C, FourSteps(CRC_32C, 0x100_0000)) == CRC_32C
  {
  }

  lemma EnterOne(data: Byte, reflected: bool)
    requires data == if reflected then 0x80 else 1
    ensures Absorb(CRC_32C, reflected)(0, data) == CRC_32C
  {
    assert Enter(0, if reflected then ReverseByte(data) else data) == 0x100_0000;
    hide Iterate, FourSteps, Enter, ReverseByte, BitStep;
    EightSteps(CRC_32C, 0x100_0000);
    OneAbsorbed();
    assert Absorb(CRC_32C, reflected)(0, data) ==
           ByteStep(CRC_32C, 0, if reflected then ReverseByte(data) else data);
  }

  /** From a register of zeros a single bit leaves the polynomial: the lowest of a byte, or, reflected, the highest. */
  lemma ChecksumOfOne()
    ensures Checksum([1], 0, Options(true, true), CRC_32C) == 0x1EDC_6F41
    ensures Checksum([0x80], 0, Options(true, false), CRC_32C) == 0x1EDC_6F41
  {
    hide Absorb;
    assert [1 as Byte][..0] == [] && [0x80 as Byte][..0] == [];
    EnterOne(1, false);
    EnterOne(0x80, true);
  }

  function Absorbed(crc: bv32, data: Byte): bv32 {
    Absorb(CRC_32C, true)(crc, data)
  }

  lemma FoldNext(data: seq<Byte>, n: nat, s: bv32)
    requires n < |data|
    ensures Fold(Absorb(CRC_32C, true), data[..n + 1], s) ==
            Absorbed(Fold(Absorb(CRC_32C, true), data[..n], s), data[n])
  {
    hide Absorb;
    assert data[..n + 1][..n] == data[..n];
  }

  lemma ByteAbsorbed(crc: bv32, data: Byte, start: bv32)
    requires start == Enter(crc, ReverseByte(data))
    ensures Absorbed(crc, data) == FourSteps(CRC_32C, FourSteps(CRC_32C, start))
  {
    hide Iterate, FourSteps, Enter, ReverseByte, BitStep;
    EightSteps(CRC_32C, start);
    assert Absorbed(crc, data) == ByteStep(CRC_32C, crc, ReverseByte(data));
  }

  lemma Step1()
    ensures Absorbed(0xFFFF_FFFF, 0x31) == 0x3866_50F6
  {
    ByteAbsorbed(0xFFFF_FFFF, 0x31, 0x73FF_FFFF);
  }

  lemma Step2()
    ensures Absorbed(0x3866_50F6, 0x32) == 0xF9DC_5531
  {
    ByteAbsorbed(0x3866_50F6, 0x32, 0x7466_50F6);
  }

  lemma Step3()
    ensures Absorbed(0xF9DC_5531, 0x33) == 0xB20B_21F7
  {
    ByteAbsorbed(0xF9DC_5531, 0x33, 0x35DC_5531);
  }

  lemma Step4()
    ensures Absorbed(0xB20B_21F7, 0x34) == 0x88D0_A390
  {
    ByteAbsorbed(0xB20B_21F7, 0x34, 0x9E0B_21F7);
  }

  lemma Step5()
    ensures Absorbed(0x88D0_A390, 0x35) == 0x533B_74E7
  {
    ByteAbsorbed(0x88D0_A390, 0x35, 0x24D0_A390);
  }

  lemma Step6()
    ensures Absorbed(0x533B_74E7, 0x36) == 0x9E71_537D
  {
    ByteAbsorbed(0x533B_74E7, 0x36, 0x3F3B_74E7);
  }

  lemma Step7()
    ensures Absorbed(0x9E71_537D, 0x37) == 0xA816_BDB7
  {
    ByteAbsorbed(0x9E71_537D, 0x37, 0x7271_537D);
  }

  lemma Step8()
    ensures Absorbed(0xA816_BDB7, 0x38) == 0xA6FE_1EF9
  {
    ByteAbsorbed(0xA816_BDB7, 0x38, 0xB416_BDB7);
  }

  lemma Step9()
    ensures Absorbed(0xA6FE_1EF9, 0x39) == 0x3EB6_9F38
  {
    ByteAbsorbed(0xA6FE_1EF9, 0x39, 0x3AFE_1EF9);
  }

  lemma EnterAndLeave()
    ensures Entry(0, false) == 0xFFFF_FFFF && Exit(0x3EB6_9F38, false) == 0xE306_9283
  {
  }

  lemma FoldThree(data: seq<Byte>, n: nat, s: bv32)
    requires n + 3 <= |data|
    ensures var absorb := Absorb(CRC_32C, true);
            Fold(absorb, data[..n + 3], s) ==
            Absorbed(Absorbed(Absorbed(Fold(absorb, data[..n], s), data[n]), data[n + 1]), data[n + 2])
  {
    hide Absorb, Absorbed, Fold;
    FoldNext(data, n, s);
    FoldNext(data, n + 1, s);
    FoldNext(data, n + 2, s);
  }

  /** The check value of CRC-32C: the nine characters from 1 to 9. */
  lemma CheckValue()
    ensures Checksum([0x31, 0x32, 0x33, 0x34, 0x35, 0x36, 0x37, 0x38, 0x39], 0, Options(false, false), CRC_32C) ==
            0xE306_9283
  {
    var data: seq<Byte> := [0x31, 0x32, 0x33, 0x34, 0x35, 0x36, 0x37, 0x38, 0x39];
    EnterAndLeave();
    assert Fold(Absorb(CRC_32C, true), [], 0xFFFF_FFFF) == 0xFFFF_FFFF;
    hide Absorb, Absorbed, Fold, Entry, Exit;
    assert data[..0] == [] && data[..9] == data;
    Step1();
    Step2();
    Step3();
    FoldThree(data, 0, 0xFFFF_FFFF);
    Step4();
    Step5();
    Step6();
    FoldThree(data, 3, 0xFFFF_FFFF);
    Step7();
    Step8();
    Step9();
    FoldThree(data, 6, 0xFFFF_FFFF);
  }
}
