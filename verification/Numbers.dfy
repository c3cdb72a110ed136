/** Bytes and bit vectors as numbers. */
module Numbers {
  import opened Memory

  function Value8(x: Byte): nat { x as nat }
  function Value16(x: bv16): nat { x as nat }
  function Value32(x: bv32): nat { x as nat }

  function Upper16(x: bv16): Byte { (x >> 8) as Byte }
  function Lower16(x: bv16): Byte { (x & 0xFF) as Byte }
  function Upper32(x: bv32): bv16 { (x >> 16) as bv16 }
  function Lower32(x: bv32): bv16 { (x & 0xFFFF) as bv16 }

  /** The number a sequence of bytes spells, the most significant byte first. */
  function Number(s: seq<Byte>): nat {
    if s == [] then 0 else 256 * Number(s[..|s| - 1]) + Value8(s[|s| - 1])
  }

  lemma ByteInjective(x: Byte, y: Byte)
    requires Value8(x) == Value8(y)
    ensures x == y
  {
    assert (x as nat) as Byte == x && (y as nat) as Byte == y;
  }

  lemma ByteBound(x: Byte)
    ensures Value8(x) < 256
  {
  }

  /** Equally many bytes that spell the same number are the same. */
  lemma {:induction false} NumberInjective(s: seq<Byte>, t: seq<Byte>)
    requires |s| == |t| && Number(s) == Number(t)
    ensures s == t
  {
    if s != [] {
      var n := |s| - 1;
      ByteBound(s[n]);
      ByteBound(t[n]);
      hide Value8;
      NumberInjective(s[..n], t[..n]);
      ByteInjective(s[n], t[n]);
      assert s == s[..n] + [s[n]] && t == t[..n] + [t[n]];
    }
  }

  /** The most significant byte first. */
  function BigEndian16(v: bv16): seq<Byte> {
    [(v >> 8) as Byte, (v & 0xFF) as Byte]
  }

  function BigEndian32(v: bv32): seq<Byte> {
    [(v >> 24) as Byte, ((v >> 16) & 0xFF) as Byte, ((v >> 8) & 0xFF) as Byte, (v & 0xFF) as Byte]
  }

  lemma Halves16(v: bv16)
    ensures BigEndian16(v) == [Upper16(v), Lower16(v)]
  {
  }

  lemma Halves32(v: bv32)
    ensures BigEndian32(v) == BigEndian16(Upper32(v)) + BigEndian16(Lower32(v))
  {
  }

  lemma Split16(x: bv16)
    ensures Value16(x) == 256 * Value8(Upper16(x)) + Value8(Lower16(x))
  {
  }

  lemma SplitTop(x: bv32)
    ensures Value32(x) == 0x100_0000 * Value8((x >> 24) as Byte) + Value32(x & 0xFF_FFFF)
  {
  }

  lemma SplitMiddle(x: bv32)
    requires x <= 0xFF_FFFF
    ensures Value32(x) == 0x1_0000 * Value8((x >> 16) as Byte) + Value16(Lower32(x))
  {
  }

  lemma Parts(x: bv32)
    ensures x & 0xFF_FFFF <= 0xFF_FFFF && Lower32(x & 0xFF_FFFF) == Lower32(x)
    ensures ((x & 0xFF_FFFF) >> 16) as Byte == Lower16(Upper32(x)) && (x >> 24) as Byte == Upper16(Upper32(x))
  {
  }

  /** A register of 32 bits is its upper and its lower half. */
  lemma Split32(x: bv32)
    ensures Value32(x) == 0x1_0000 * Value16(Upper32(x)) + Value16(Lower32(x))
  {
    hide Value8, Value16, Value32, Upper16, Lower16, Upper32, Lower32;
    Parts(x);
    SplitTop(x);
    SplitMiddle(x & 0xFF_FFFF);
    Split16(Upper32(x));
  }

  lemma NumberOfTwo(a: Byte, b: Byte)
    ensures Number([a, b]) == 256 * Value8(a) + Value8(b)
  {
    hide Value8;
    assert [a, b][..1] == [a] && [a][..0] == [];
    assert Number([a]) == Value8(a);
  }

  lemma NumberOfFour(s: seq<Byte>, t: seq<Byte>)
    requires |s| == |t| == 2
    ensures Number(s + t) == 0x1_0000 * Number(s) + Number(t)
  {
    hide Value8;
    NumberOfTwo(t[0], t[1]);
    assert t == [t[0], t[1]];
    assert (s + t)[..3][..2] == s && (s + t)[..3][2] == t[0];
    assert Number((s + t)[..3]) == 256 * Number(s) + Value8(t[0]);
  }

  lemma Number16(v: bv16)
    ensures Number(BigEndian16(v)) == Value16(v)
  {
    hide Value8, Value16, BigEndian16, Upper16, Lower16;
    Halves16(v);
    Split16(v);
    NumberOfTwo(Upper16(v), Lower16(v));
  }

  lemma Number32(v: bv32)
    ensures Number(BigEndian32(v)) == Value32(v)
  {
    Halves32(v);
    hide Value8, Value16, Value32, BigEndian32, Upper32, Lower32;
    Split32(v);
    Number16(Upper32(v));
    Number16(Lower32(v));
    NumberOfFour(BigEndian16(Upper32(v)), BigEndian16(Lower32(v)));
  }

  // Adding one

  lemma Next8(x: Byte)
    ensures Value8(x + 1) == if x == 0xFF then 0 else Value8(x) + 1
    ensures Value8(0xFF) == 0xFF
  {
  }

  lemma NextBits16(x: bv16)
    ensures x != 0xFFFF && Lower16(x) == 0xFF ==> Upper16(x) != 0xFF
    ensures Lower16(x) == 0xFF ==> Upper16(x + 1) == Upper16(x) + 1 && Lower16(x + 1) == 0
    ensures Lower16(x) != 0xFF ==> Upper16(x + 1) == Upper16(x) && Lower16(x + 1) == Lower16(x) + 1
    ensures x == 0xFFFF ==> Upper16(x) == Lower16(x) == 0xFF && x + 1 == 0
  {
  }

  lemma Next16(x: bv16)
    ensures Value16(x + 1) == if x == 0xFFFF then 0 else Value16(x) + 1
    ensures Value16(0xFFFF) == 0xFFFF
  {
    Split16(x);
    Split16(x + 1);
    NextBits16(x);
    Next8(Lower16(x));
    Next8(Upper16(x));
    Known();
    hide Value8, Value16, Upper16, Lower16;
  }

  lemma Known()
    ensures Value8(0) == 0 && Value16(0) == 0 && Value32(0) == 0
    ensures Value16(0xFFFF) == 0xFFFF && Value32(0xFFFF_FFFF) == 0xFFFF_FFFF
  {
  }

  lemma NextBits32(x: bv32)
    ensures x != 0xFFFF_FFFF && Lower32(x) == 0xFFFF ==> Upper32(x) != 0xFFFF
    ensures Lower32(x) == 0xFFFF ==> Upper32(x + 1) == Upper32(x) + 1 && Lower32(x + 1) == 0
    ensures Lower32(x) != 0xFFFF ==> Upper32(x + 1) == Upper32(x) && Lower32(x + 1) == Lower32(x) + 1
    ensures x == 0xFFFF_FFFF ==> x + 1 == 0
  {
  }

  lemma Next32(x: bv32)
    ensures Value32(x + 1) == if x == 0xFFFF_FFFF then 0 else Value32(x) + 1
  {
    hide Value16, Value32, Upper32, Lower32;
    Split32(x);
    Split32(x + 1);
    NextBits32(x);
    Next16(Lower32(x));
    Next16(Upper32(x));
    Known();
  }

  lemma Fits16(x: bv16)
    ensures Value16(x) < 0x1_0000 && (x as nat) as bv16 == x && (Value16(x) == 0xFFFF ==> x == 0xFFFF)
  {
  }

  lemma Fits32(x: bv32)
    ensures Value32(x) < 0x1_0000_0000 && (Value32(x) == 0xFFFF_FFFF ==> x == 0xFFFF_FFFF)
  {
    assert (x as nat) as bv32 == x;
  }
}
