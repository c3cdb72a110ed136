/** Moving bytes between buffers that may overlap. */
module MemMove {
  import opened Memory

  /** What memory holds after n bytes at src have moved to dst. */
  function Moved(m: seq<Byte>, src: nat, dst: nat, n: nat): (r: seq<Byte>)
    requires InBounds(m, src, n) && InBounds(m, dst, n)
    ensures |r| == |m|
  {
    Write(m, dst, Read(m, src, n))
  }

  method CopyForward(mem: array<Byte>, src: nat, dst: nat, n: nat)
    requires InBounds(mem[..], src, n) && InBounds(mem[..], dst, n)
    requires dst <= src || Disjoint(src, n, dst, n)
    modifies mem
    ensures mem[..] == Moved(old(mem[..]), src, dst, n)
  {
    hide Write;
    for i := 0 to n
      invariant forall p :: 0 <= p < mem.Length ==>
                  mem[p] == if dst <= p < dst + i then old(mem[p - dst + src]) else old(mem[p])
    {
      mem[dst + i] := mem[src + i];
    }
    IsWrite(old(mem[..]), dst, Read(old(mem[..]), src, n), mem[..]);
  }

  method CopyBackward(mem: array<Byte>, src: nat, dst: nat, n: nat)
    requires InBounds(mem[..], src, n) && InBounds(mem[..], dst, n)
    requires 0 < n && src <= dst
    modifies mem
    ensures mem[..] == Moved(old(mem[..]), src, dst, n)
  {
    hide Write;
    var i := n - 1;
    while i != 0
      invariant 0 <= i < n
      invariant forall p :: 0 <= p < mem.Length ==>
                  mem[p] == if dst + i < p < dst + n then old(mem[p - dst + src]) else old(mem[p])
    {
      mem[dst + i] := mem[src + i];
      i := i - 1;
    }
    mem[dst] := mem[src];
    IsWrite(old(mem[..]), dst, Read(old(mem[..]), src, n), mem[..]);
  }

  /** dml_ref_mem_move: whichever direction it picks, the result is that of moving all bytes at once. */
  method RefMemMove(mem: array<Byte>, src: nat, dst: nat, n: nat)
    requires InBounds(mem[..], src, n) && InBounds(mem[..], dst, n)
    modifies mem
    ensures mem[..] == Moved(old(mem[..]), src, dst, n)
  {
    hide Write;
    var srcEnd, dstEnd := src + n, dst + n;
    if srcEnd <= dst || src >= dstEnd {
      CopyForward(mem, src, dst, n);
    } else if src < dstEnd && srcEnd > dstEnd {
      CopyForward(mem, src, dst, n);
    } else if src < dst && srcEnd > dst {
      CopyBackward(mem, src, dst, n);
    } else {
      assert src == dst;
      IsWrite(mem[..], dst, Read(mem[..], src, n), mem[..]);
    }
  }
}
