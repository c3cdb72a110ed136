/** Comparing a buffer with a repeated pattern. */
module PatternCompare {
  import opened BlockLayout
  import opened Memory
  import opened Results
  import opened Vector
  import opened VectorFill
  import opened VectorCompare

  /** The least index where the buffer leaves the repeated pattern, or its length. */
  function Mismatch(pattern: Word, x: seq<Byte>): (d: nat)
    ensures d <= |x|
    ensures forall i :: 0 <= i < d ==> x[i] == pattern[i % 8]
    ensures d < |x| ==> x[d] != pattern[d % 8]
  {
    FirstDifference(x, Filled(pattern, |x|))
  }

  lemma MismatchIs(pattern: Word, x: seq<Byte>, d: nat)
    requires d <= |x| && (d < |x| ==> x[d] != pattern[d % 8])
    requires forall i :: 0 <= i < d ==> x[i] == pattern[i % 8]
    ensures Mismatch(pattern, x) == d
  {
  }

  /** Where a mismatch is reported: at the start of its word, or at the byte itself in the last partial word. */
  function Reported(size: nat, d: nat): (p: nat)
    ensures p <= d
  {
    if d < size - size % 8 then d - d % 8 else d
  }

  function PatternCompared(pattern: Word, x: seq<Byte>): (r: Comparison)
    requires |x| < TWO_TO_THE_32
    ensures r.result == EQUAL <==> x == Filled(pattern, |x|)
  {
    var d := Mismatch(pattern, x);
    if d == |x| then Comparison(0, EQUAL) else Comparison(Reported(|x|, d), NOT_EQUAL)
  }

  function WordAt(x: seq<Byte>, k: nat): Word
    requires 8 * k + 8 <= |x|
  {
    x[8 * k..8 * k + 8]
  }

  lemma WordOfRead(m: seq<Byte>, src: nat, size: nat, k: nat)
    requires InBounds(m, src, size) && 8 * k + 8 <= size
    ensures WordAt(Read(m, src, size), k) == Read(m, src + 8 * k, 8)
  {
    SliceOfRead(m, src, size, 8 * k, 8);
  }

  /** A whole word before the mismatch is the pattern. */
  lemma WordBeforeMismatch(pattern: Word, x: seq<Byte>, k: nat)
    requires 8 * k + 8 <= Mismatch(pattern, x)
    ensures WordAt(x, k) == pattern
  {
    hide Mismatch;
    forall i | 0 <= i < 8
      ensures WordAt(x, k)[i] == pattern[i]
    {
      assert x[8 * k + i] == pattern[(8 * k + i) % 8];
    }
  }

  /** The word that holds the mismatch is not the pattern. */
  lemma WordOfMismatch(pattern: Word, x: seq<Byte>, k: nat)
    requires 8 * k <= Mismatch(pattern, x) < 8 * k + 8 <= |x|
    ensures WordAt(x, k) != pattern
  {
    hide Mismatch;
    var d := Mismatch(pattern, x);
    assert WordAt(x, k)[d - 8 * k] == x[d] && (d - 8 * k) == d % 8;
  }

  /** Scanning one word, no later than the mismatch, finds it or rules it out. */
  lemma ScanWord(pattern: Word, x: seq<Byte>, k: nat)
    requires 8 * k <= Mismatch(pattern, x) && 8 * k + 8 <= |x|
    ensures WordAt(x, k) != pattern ==> Mismatch(pattern, x) < |x| && Reported(|x|, Mismatch(pattern, x)) == 8 * k
    ensures WordAt(x, k) == pattern ==> 8 * k + 8 <= Mismatch(pattern, x)
  {
    hide Mismatch;
    if 8 * k + 8 <= Mismatch(pattern, x) {
      WordBeforeMismatch(pattern, x, k);
    } else {
      WordOfMismatch(pattern, x, k);
    }
  }

  /** The first n of eight lanes tell which words from i on are not the pattern. */
  predicate OddWords(pattern: Word, x: seq<Byte>, i: nat, n: nat, mask: seq<bool>)
    requires 8 * (i + n) <= |x|
  {
    |mask| == 8 && forall j :: 0 <= j < 8 ==> (mask[j] <==> j < n && WordAt(x, i + j) != pattern)
  }

  lemma ScanWords(pattern: Word, x: seq<Byte>, i: nat, n: nat, mask: seq<bool>)
    requires 8 * (i + n) <= |x| && n <= 8 && OddWords(pattern, x, i, n, mask) && 8 * i <= Mismatch(pattern, x)
    ensures if true in mask then
              Mismatch(pattern, x) < |x| && Reported(|x|, Mismatch(pattern, x)) == 8 * (i + TrailingZeros(mask))
            else 8 * (i + n) <= Mismatch(pattern, x)
  {
    hide Mismatch, Reported, TrailingZeros;
    var end := if true in mask then TrailingZeros(mask) else n;
    for j := 0 to end
      invariant 8 * (i + j) <= Mismatch(pattern, x)
    {
      assert !mask[j];
      ScanWord(pattern, x, i + j);
    }
    if true in mask {
      ScanWord(pattern, x, i + end);
    }
  }

  // The reference kernel

  /** A buffer that leaves the pattern in a whole word is reported at the start of the first such word. */
  lemma PositionOfWord(pattern: Word, x: seq<Byte>, k: nat)
    requires |x| < TWO_TO_THE_32 && 8 * k + 8 <= |x| && x[8 * k..8 * k + 8] != pattern
    requires forall j :: 0 <= j < k ==> x[8 * j..8 * j + 8] == pattern
    ensures PatternCompared(pattern, x) == Comparison(8 * k, 1)
  {
    hide Mismatch, Reported;
    var d := Mismatch(pattern, x);
    EarlierWords(pattern, x, k);
    var b :| 0 <= b < 8 && x[8 * k..8 * k + 8][b] != pattern[b];
    ByteInWord(x, k, b);
    WordStart(|x|, k, d);
  }

  lemma ByteInWord(x: seq<Byte>, k: nat, b: nat)
    requires 8 * k + 8 <= |x| && b < 8
    ensures x[8 * k..8 * k + 8][b] == x[8 * k + b] && (8 * k + b) % 8 == b
  {
  }

  /** Words that are the pattern are its bytes. */
  lemma EarlierWords(pattern: Word, x: seq<Byte>, k: nat)
    requires 8 * k <= |x| && forall j :: 0 <= j < k ==> x[8 * j..8 * j + 8] == pattern
    ensures forall i :: 0 <= i < 8 * k ==> x[i] == pattern[i % 8]
  {
    forall i | 0 <= i < 8 * k
      ensures x[i] == pattern[i % 8]
    {
      ByteInWord(x, i / 8, i % 8);
    }
  }

  lemma WordStart(size: nat, k: nat, d: nat)
    requires 8 * k + 8 <= size && 8 * k <= d < 8 * k + 8
    ensures Reported(size, d) == 8 * k
  {
  }

  /** One that leaves it only after the last whole word is reported at the byte itself. */
  lemma PositionOfByte(pattern: Word, x: seq<Byte>, p: nat)
    requires |x| < TWO_TO_THE_32 && |x| - |x| % 8 <= p < |x| && x[p] != pattern[p % 8]
    requires forall i :: 0 <= i < p ==> x[i] == pattern[i % 8]
    ensures PatternCompared(pattern, x) == Comparison(p, 1)
  {
    hide Mismatch;
    MismatchIs(pattern, x, p);
  }

  /** A buffer that is the repeated pattern is equal, at position zero. */
  lemma PositionOfNone(pattern: Word, x: seq<Byte>)
    requires |x| < TWO_TO_THE_32 && forall i :: 0 <= i < |x| ==> x[i] == pattern[i % 8]
    ensures PatternCompared(pattern, x) == Comparison(0, 0)
  {
    hide Mismatch;
    MismatchIs(pattern, x, |x|);
  }

  /** dml_ref_compare_pattern */
  method RefComparePattern(mem: array<Byte>, pattern: Word, src: nat, size: uint32) returns (r: Comparison)
    requires InBounds(mem[..], src, size)
    ensures r == PatternCompared(pattern, Read(mem[..], src, size))
  {
    hide Mismatch, Reported;
    ghost var x := Read(mem[..], src, size);
    var headSize, tailSize := size / 8, size % 8;
    for k := 0 to headSize
      invariant 8 * k <= Mismatch(pattern, x)
    {
      ScanWord(pattern, x, k);
      WordOfRead(mem[..], src, size, k);
      if mem[src + 8 * k..src + 8 * k + 8] != pattern {
        return Comparison(8 * k, NOT_EQUAL);
      }
    }
    r := CompareTail(mem, pattern, src, size);
  }

  /** The bytes after the last whole word, against the pattern's first bytes. */
  method CompareTail(mem: array<Byte>, pattern: Word, src: nat, size: uint32) returns (r: Comparison)
    requires InBounds(mem[..], src, size)
    requires size - size % 8 <= Mismatch(pattern, Read(mem[..], src, size))
    ensures r == PatternCompared(pattern, Read(mem[..], src, size))
  {
    hide Mismatch;
    ghost var x := Read(mem[..], src, size);
    var head := size - size % 8;
    var bytePattern := pattern;
    for i := 0 to size % 8
      invariant head + i <= Mismatch(pattern, x)
      invariant bytePattern == pattern[i..] + Zeros(i)
    {
      assert x[head + i] == mem[src + head + i] && (head + i) % 8 == i;
      if mem[src + head + i] != bytePattern[0] {
        return Comparison(head + i, NOT_EQUAL);
      }
      bytePattern := ShiftRightBytes(bytePattern, 1, true);
    }
    return Comparison(0, EQUAL);
  }

  // The vector kernel

  method CompareWords(mem: array<Byte>, pattern: Word, src: nat, i: nat, n: nat, ghost size: nat)
    returns (mask: seq<bool>)
    requires InBounds(mem[..], src, size) && n <= 8 && 8 * (i + n) <= size
    ensures OddWords(pattern, Read(mem[..], src, size), i, n, mask)
  {
    var m := mem[..];
    mask := seq(8, j requires 0 <= j < 8 => j < n && Read(m, src + 8 * (i + j), 8) != pattern);
    forall j | 0 <= j < n
      ensures mask[j] <==> WordAt(Read(m, src, size), i + j) != pattern
    {
      WordOfRead(m, src, size, i + j);
    }
  }

  /** dml_avx512_compare_pattern */
  method ComparePattern(mem: array<Byte>, pattern: Word, src: nat, size: uint32) returns (r: Comparison)
    requires InBounds(mem[..], src, size)
    ensures r == PatternCompared(pattern, Read(mem[..], src, size))
  {
    hide Mismatch, Reported, OddWords, TrailingZeros;
    ghost var x := Read(mem[..], src, size);
    var chunks := size / 8;
    var i := 0;
    while i + 8 <= chunks
      invariant 0 <= i <= chunks && i % 8 == 0 && 8 * i <= Mismatch(pattern, x)
    {
      var mask := CompareWords(mem, pattern, src, i, 8, size);
      ScanWords(pattern, x, i, 8, mask);
      if true in mask {
        return Comparison(8 * (i + TrailingZeros(mask)), NOT_EQUAL);
      }
      i := i + 8;
    }
    var tail := chunks % 8;
    if tail != 0 {
      var mask := CompareWords(mem, pattern, src, i, tail, size);
      ScanWords(pattern, x, i, tail, mask);
      if true in mask {
        return Comparison(8 * (i + TrailingZeros(mask)), NOT_EQUAL);
      }
    }
    r := CompareTail(mem, pattern, src, size);
  }
}
