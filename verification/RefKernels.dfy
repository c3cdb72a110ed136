/** The byte-wise reference kernels. */
module RefKernels {
  import opened Memory
  import opened Results
  import opened VectorFill
  import opened VectorCompare

  /** dml_ref_fill_u64 */
  method RefFill(mem: array<Byte>, pattern: Word, dst: nat, size: uint32)
    requires InBounds(mem[..], dst, size)
    modifies mem
    ensures mem[..] == Write(old(mem[..]), dst, Filled(pattern, size))
  {
    hide Write;
    for i := 0 to size
      invariant forall p :: 0 <= p < mem.Length ==>
                  mem[p] == if dst <= p < dst + i then pattern[(p - dst) % 8] else old(mem[p])
    {
      mem[dst + i] := pattern[i % 8];
    }
    IsWrite(old(mem[..]), dst, Filled(pattern, size), mem[..]);
  }

  /** dml_ref_compare */
  method RefCompare(mem: array<Byte>, src1: nat, src2: nat, size: uint32) returns (r: Comparison)
    requires InBounds(mem[..], src1, size) && InBounds(mem[..], src2, size)
    ensures r == Compared(Read(mem[..], src1, size), Read(mem[..], src2, size))
  {
    ghost var x, y := Read(mem[..], src1, size), Read(mem[..], src2, size);
    for i := 0 to size
      invariant forall j :: 0 <= j < i ==> x[j] == y[j]
    {
      if mem[src1 + i] != mem[src2 + i] {
        FirstDifferenceIs(x, y, i);
        return Comparison(i, NOT_EQUAL);
      }
    }
    return Comparison(0, EQUAL);
  }

  /** What memory holds after one source has been copied to two destinations. */
  function Dualcasted(m: seq<Byte>, src: nat, dst1: nat, dst2: nat, n: nat): (r: seq<Byte>)
    requires InBounds(m, src, n) && InBounds(m, dst1, n) && InBounds(m, dst2, n)
    ensures |r| == |m|
  {
    Write(Write(m, dst1, Read(m, src, n)), dst2, Read(m, src, n))
  }

  /** dml_ref_dualcast */
  method RefDualcast(mem: array<Byte>, src: nat, dst1: nat, dst2: nat, size: uint32)
    requires InBounds(mem[..], src, size) && InBounds(mem[..], dst1, size) && InBounds(mem[..], dst2, size)
    requires Disjoint(src, size, dst1, size) && Disjoint(src, size, dst2, size) && Disjoint(dst1, size, dst2, size)
    modifies mem
    ensures mem[..] == Dualcasted(old(mem[..]), src, dst1, dst2, size)
  {
    hide Write;
    for i := 0 to size
      invariant forall p :: 0 <= p < mem.Length ==>
                  mem[p] == if dst1 <= p < dst1 + i then old(mem[p - dst1 + src])
                            else if dst2 <= p < dst2 + i then old(mem[p - dst2 + src])
                            else old(mem[p])
    {
      assert src + i != dst1 + i && src + i != dst2 + i && dst1 + i != dst2 + i;
      mem[dst1 + i] := mem[src + i];
      mem[dst2 + i] := mem[src + i];
    }
    ghost var m, s := old(mem[..]), Read(old(mem[..]), src, size);
    WritePointwise(m, dst1, s);
    forall p | 0 <= p < |m|
      ensures mem[p] == if dst2 <= p < dst2 + size then s[p - dst2] else Write(m, dst1, s)[p]
    {
    }
    IsWrite(Write(m, dst1, s), dst2, s, mem[..]);
  }
}
