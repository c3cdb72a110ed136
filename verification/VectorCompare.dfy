/** The AVX-512 comparisons against byte-wise specifications. */
module VectorCompare {
  import BlockLayout
  import opened Memory
  import opened Results
  import opened Vector

  datatype Comparison = Comparison(position: uint32, result: bv8)

  /** The least index where the two differ, or their length when they agree. */
  function FirstDifference(x: seq<Byte>, y: seq<Byte>): (d: nat)
    requires |x| == |y|
    ensures d <= |x|
    ensures forall i :: 0 <= i < d ==> x[i] == y[i]
    ensures d < |x| ==> x[d] != y[d]
  {
    if x == [] then 0
    else if x[0] != y[0] then 0
    else 1 + FirstDifference(x[1..], y[1..])
  }

  lemma FirstDifferenceIs(x: seq<Byte>, y: seq<Byte>, d: nat)
    requires |x| == |y| && d <= |x| && (d < |x| ==> x[d] != y[d])
    requires forall i :: 0 <= i < d ==> x[i] == y[i]
    ensures FirstDifference(x, y) == d
  {
  }

  /** What a comparison of equally long buffers reports; at 2^32 bytes, only a difference can be reported. */
  function Compared(x: seq<Byte>, y: seq<Byte>): (r: Comparison)
    requires |x| == |y| <= TWO_TO_THE_32 && (|x| == TWO_TO_THE_32 ==> x != y)
    ensures r.result == EQUAL <==> x == y
  {
    var d := FirstDifference(x, y);
    if d == |x| then Comparison(0, EQUAL) else Comparison(d, NOT_EQUAL)
  }

  /** From this size on, the 32-bit loop counter of the vector compare can wrap. */
  const COMPARE_LIMIT := TWO_TO_THE_32 - LANES

  /** The bytes of each source the vector loop may touch. */
  function Touched(size: uint32): nat {
    if size < COMPARE_LIMIT then size else TWO_TO_THE_32
  }

  /** The buffers agree before d, and differ at d unless d is the end. */
  predicate AgreeUpTo(x: seq<Byte>, y: seq<Byte>, size: nat, d: nat)
    requires size <= |x| == |y|
  {
    && d <= size
    && (forall j :: 0 <= j < d ==> x[j] == y[j])
    && (d < size ==> x[d] != y[d])
  }

  lemma PrefixAgrees(x: seq<Byte>, y: seq<Byte>, size: nat)
    requires size <= |x| == |y|
    ensures AgreeUpTo(x, y, size, FirstDifference(x[0..size], y[0..size]))
  {
    hide FirstDifference;
    var d := FirstDifference(x[0..size], y[0..size]);
    assert forall j :: 0 <= j < size ==> x[0..size][j] == x[j] && y[0..size][j] == y[j];
  }

  lemma AgreeUpToFirst(x: seq<Byte>, y: seq<Byte>)
    requires |x| == |y|
    ensures AgreeUpTo(x, y, |x|, FirstDifference(x, y))
  {
  }

  /** The first n lanes of a mask are the differences of n bytes from i on, and the others are clear. */
  predicate Differences(x: seq<Byte>, y: seq<Byte>, i: nat, n: nat, mask: seq<bool>)
    requires i + n <= |x| == |y|
  {
    |mask| == LANES && forall j :: 0 <= j < LANES ==> (mask[j] <==> j < n && x[i + j] != y[i + j])
  }

  /** One register of difference bits, starting no later than the first difference, finds it or rules it out. */
  lemma ScanRegister(x: seq<Byte>, y: seq<Byte>, size: nat, d: nat, i: nat, n: nat, mask: seq<bool>)
    requires size <= |x| == |y| && AgreeUpTo(x, y, size, d)
    requires i + n <= |x| && Differences(x, y, i, n, mask)
    requires i <= d && n <= LANES && (i + n <= size || d < size)
    ensures if true in mask then d < size && TrailingZeros(mask) == d - i
            else i + n <= d
  {
    if d < size && d < i + n {
      assert mask[d - i];
    }
  }

  method CompareRegister(mem: array<Byte>, a: nat, b: nat, i: nat, ghost n: nat) returns (mask: seq<bool>)
    requires InBounds(mem[..], a, n) && InBounds(mem[..], b, n) && i + LANES <= n
    ensures Differences(Read(mem[..], a, n), Read(mem[..], b, n), i, LANES, mask)
  {
    mask := NotEqual(mem[a + i..a + i + LANES], mem[b + i..b + i + LANES]);
  }

  method CompareLow(mem: array<Byte>, a: nat, b: nat, i: nat, low: nat, ghost n: nat) returns (mask: seq<bool>)
    requires low < LANES && InBounds(mem[..], a, n) && InBounds(mem[..], b, n) && i + low <= n
    ensures Differences(Read(mem[..], a, n), Read(mem[..], b, n), i, low, mask)
  {
    var lanes := LowOnes(low, LANES);
    mask := NotEqual(MaskedLoad(mem[..], a + i, lanes), MaskedLoad(mem[..], b + i, lanes));
  }

  predicate OnRegister(i: nat) {
    i % LANES == 0
  }

  lemma OnRegisterZero()
    ensures OnRegister(0)
  {
  }

  /** A register the guard lets through is among the bytes touched; when the guard fails, a partial register is left. */
  lemma CounterTouches(i: uint32, size: uint32)
    requires OnRegister(i) && (size < COMPARE_LIMIT ==> i <= size)
    ensures Add32(i, LANES) <= size ==> i + LANES <= Touched(size)
    ensures Add32(i, LANES) > size ==> size < COMPARE_LIMIT && i + size % LANES == size
  {
  }

  /** The counter advances, until it wraps at the end of the bytes touched. */
  lemma CounterAdvances(i: uint32, size: uint32)
    requires OnRegister(i) && (size < COMPARE_LIMIT ==> i <= size) && Add32(i, LANES) <= size
    requires i + LANES < TWO_TO_THE_32
    ensures Add32(i, LANES) == i + LANES && OnRegister(i + LANES)
  {
  }

  /** Below the limit the loop guard can fail; from the limit on it holds at every counter value. */
  lemma LoopEnds(size: uint32)
    ensures size < COMPARE_LIMIT <==> exists i: uint32 :: OnRegister(i) && Add32(i, LANES) > size
  {
    if size < COMPARE_LIMIT {
      LastRegister(size);
      assert OnRegister(size - size % LANES);
    } else {
      forall i: uint32 | OnRegister(i)
        ensures Add32(i, LANES) <= size
      {
        NextRegister(i);
      }
    }
  }

  lemma LastRegister(size: uint32)
    requires size < COMPARE_LIMIT
    ensures OnRegister(size - size % LANES) && Add32(size - size % LANES, LANES) > size
  {
  }

  lemma NextRegister(i: uint32)
    requires OnRegister(i)
    ensures Add32(i, LANES) <= COMPARE_LIMIT
  {
  }

  // When the loop is left

  /** The loop counter after k turns. */
  function CounterAfter(k: nat): uint32 {
    if k == 0 then 0 else Add32(CounterAfter(k - 1), LANES)
  }

  /** At this counter value the loop is left: the guard fails, or the registers differ. */
  predicate Leaves(x: seq<Byte>, y: seq<Byte>, size: uint32, i: uint32)
    requires |x| == |y|
  {
    Add32(i, LANES) > size || (i + LANES <= |x| && x[i..i + LANES] != y[i..i + LANES])
  }

  lemma {:induction false} CounterOnRegister(k: nat)
    ensures OnRegister(CounterAfter(k))
    ensures LANES * k < TWO_TO_THE_32 ==> CounterAfter(k) == LANES * k
  {
    hide OnRegister, Add32;
    if k > 0 {
      CounterOnRegister(k - 1);
      NextOnRegister(CounterAfter(k - 1));
    } else {
      OnRegisterZero();
    }
  }

  lemma NextOnRegister(i: uint32)
    requires OnRegister(i)
    ensures OnRegister(Add32(i, LANES)) && (i + LANES < TWO_TO_THE_32 ==> Add32(i, LANES) == i + LANES)
  {
  }

  lemma DifferentRegister(x: seq<Byte>, y: seq<Byte>, k: nat)
    requires |x| == |y| == TWO_TO_THE_32 && FirstDifference(x, y) / LANES == k && x != y
    ensures LANES * k + LANES <= |x| && x[LANES * k..LANES * k + LANES] != y[LANES * k..LANES * k + LANES]
  {
    hide FirstDifference;
    var d, i := FirstDifference(x, y), LANES * k;
    assert x[i..i + LANES][d - i] == x[d] && y[i..i + LANES][d - i] == y[d];
  }

  /**
   * The loop is left after some number of turns exactly when the counter cannot wrap or the bytes it passes over
   * differ.
   */
  lemma LoopLeavesIff(x: seq<Byte>, y: seq<Byte>, size: uint32)
    requires |x| == |y| == Touched(size)
    ensures (exists k :: Leaves(x, y, size, CounterAfter(k))) <==> size < COMPARE_LIMIT || x != y
  {
    hide FirstDifference, Add32, OnRegister, CounterAfter;
    if size < COMPARE_LIMIT {
      var k := size / LANES;
      CounterOnRegister(k);
      LastRegister(size);
      assert Leaves(x, y, size, CounterAfter(k));
    } else if x != y {
      var k := FirstDifference(x, y) / LANES;
      CounterOnRegister(k);
      DifferentRegister(x, y, k);
      assert Leaves(x, y, size, CounterAfter(k));
    } else {
      forall k: nat
        ensures !Leaves(x, y, size, CounterAfter(k))
      {
        CounterOnRegister(k);
        NextRegister(CounterAfter(k));
      }
    }
  }

  /**
   * Where the loop is left, its answer is that for the buffers exactly when the counter cannot wrap or the buffers
   * differ.
   */
  lemma CompareRightIff(m: seq<Byte>, src1: nat, src2: nat, size: uint32)
    requires InBounds(m, src1, Touched(size)) && InBounds(m, src2, Touched(size))
    requires size < COMPARE_LIMIT || Read(m, src1, TWO_TO_THE_32) != Read(m, src2, TWO_TO_THE_32)
    ensures var x, y := Read(m, src1, size), Read(m, src2, size);
            var r := Compared(Read(m, src1, Touched(size)), Read(m, src2, Touched(size)));
            && (r == Compared(x, y) <==> size < COMPARE_LIMIT || x != y)
            && (r != Compared(x, y) ==>
                size <= r.position && r.result == NOT_EQUAL && Compared(x, y) == Comparison(0, EQUAL))
  {
    hide FirstDifference, Read;
    var x, y := Read(m, src1, Touched(size)), Read(m, src2, Touched(size));
    var d := FirstDifference(Read(m, src1, size), Read(m, src2, size));
    BlockLayout.SliceOfRead(m, src1, Touched(size), 0, size);
    BlockLayout.SliceOfRead(m, src2, Touched(size), 0, size);
    PrefixAgrees(x, y, size);
    if d < size {
      FirstDifferenceIs(x, y, d);
    }
  }

  /** Two buffers of zeros and the largest size: however many turns the loop makes, it goes on. */
  lemma ZerosNeverLeave(k: nat)
    ensures var zeros: seq<Byte> := seq(TWO_TO_THE_32, _ => 0);
            !Leaves(zeros, zeros, TWO_TO_THE_32 - 1, CounterAfter(k))
  {
    var zeros: seq<Byte> := seq(TWO_TO_THE_32, _ => 0);
    hide Leaves, CounterAfter;
    LoopLeavesIff(zeros, zeros, TWO_TO_THE_32 - 1);
  }

  /**
   * Two equal buffers of the largest size, where the byte after the second is not the one after the first: the answer
   * is a difference at a position the buffers do not have.
   */
  lemma PositionOutside() returns (m: seq<Byte>, src1: nat, src2: nat)
    ensures var size := TWO_TO_THE_32 - 1;
            && 0 < src1 && 0 < src2
            && InBounds(m, src1, Touched(size)) && InBounds(m, src2, Touched(size))
            && Compared(Read(m, src1, size), Read(m, src2, size)) == Comparison(0, EQUAL)
            && Read(m, src1, TWO_TO_THE_32) != Read(m, src2, TWO_TO_THE_32)
            && Compared(Read(m, src1, Touched(size)), Read(m, src2, Touched(size))) == Comparison(size, NOT_EQUAL)
  {
    var x: seq<Byte> := seq(TWO_TO_THE_32, _ => 0);
    var y := x[TWO_TO_THE_32 - 1 := 1];
    m, src1, src2 := [0] + x + y, 1, TWO_TO_THE_32 + 1;
    assert Read(m, src1, TWO_TO_THE_32) == x && Read(m, src2, TWO_TO_THE_32) == y;
    BlockLayout.SliceOfRead(m, src1, TWO_TO_THE_32, 0, TWO_TO_THE_32 - 1);
    BlockLayout.SliceOfRead(m, src2, TWO_TO_THE_32, 0, TWO_TO_THE_32 - 1);
    hide FirstDifference, Read;
    assert x[0..TWO_TO_THE_32 - 1] == y[0..TWO_TO_THE_32 - 1];
    FirstDifferenceIs(x, y, TWO_TO_THE_32 - 1);
  }

  /** dml_avx512_compare, whenever its loop is left: the answer is that for the bytes the loop may touch. */
  method Compare(mem: array<Byte>, src1: nat, src2: nat, size: uint32) returns (r: Comparison)
    requires InBounds(mem[..], src1, Touched(size)) && InBounds(mem[..], src2, Touched(size))
    requires size < COMPARE_LIMIT || Read(mem[..], src1, TWO_TO_THE_32) != Read(mem[..], src2, TWO_TO_THE_32)
    ensures r == Compared(Read(mem[..], src1, Touched(size)), Read(mem[..], src2, Touched(size)))
  {
    hide Add32, OnRegister, AgreeUpTo, Differences, FirstDifference, TrailingZeros;
    OnRegisterZero();
    ghost var n := Touched(size);
    ghost var x, y := Read(mem[..], src1, n), Read(mem[..], src2, n);
    AgreeUpToFirst(x, y);
    ghost var d := FirstDifference(x, y);
    var i: uint32 := 0;
    while Add32(i, LANES) <= size
      invariant OnRegister(i) && i <= d && (size < COMPARE_LIMIT ==> i <= size)
      decreases d - i
    {
      CounterTouches(i, size);
      var mask := CompareRegister(mem, src1, src2, i, n);
      ScanRegister(x, y, n, d, i, LANES, mask);
      if true in mask {
        return Comparison(i + TrailingZeros(mask), NOT_EQUAL);
      }
      CounterAdvances(i, size);
      i := Add32(i, LANES);
    }
    CounterTouches(i, size);
    var mask := CompareLow(mem, src1, src2, i, size % LANES, n);
    ScanRegister(x, y, n, d, i, size % LANES, mask);
    if true in mask {
      return Comparison(i + TrailingZeros(mask), NOT_EQUAL);
    }
    return Comparison(0, EQUAL);
  }
}
