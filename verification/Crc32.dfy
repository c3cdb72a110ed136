/** The 32-bit checksum of the CRC Generation operation, for any polynomial. */
module Crc32 {
  import opened Memory
  import opened Registers

  const CRC_32C: bv32 := 0x1EDC_6F41

  /** One turn of the loop over the bits of a byte. */
  function NextBit(polynomial: bv32, crc: bv32): bv32 {
    if crc & 0x8000_0000 != 0 then (crc << 1) ^ polynomial else crc << 1
  }

  function BitStep(polynomial: bv32): bv32 -> bv32 {
    (crc: bv32) => NextBit(polynomial, crc)
  }

  function Enter(crc: bv32, data: Byte): bv32 {
    crc ^ ((data as bv32) << 24)
  }

  function ByteStep(polynomial: bv32, crc: bv32, data: Byte): bv32 {
    Iterate(BitStep(polynomial), Enter(crc, data), 8)
  }

  /** The bits of a byte in the opposite order. */
  function ReverseByte(b: Byte): Byte {
    var b1 := ((b & 0x55) << 1) | ((b & 0xAA) >> 1);
    var b2 := ((b1 & 0x33) << 2) | ((b1 & 0xCC) >> 2);
    ((b2 & 0x0F) << 4) | ((b2 & 0xF0) >> 4)
  }

  /** One byte enters the register, its bits reversed or as they are. */
  function Absorb(polynomial: bv32, reflected: bool): (bv32, Byte) -> bv32 {
    (crc: bv32, data: Byte) => ByteStep(polynomial, crc, if reflected then ReverseByte(data) else data)
  }

  method CalculateByte(value: bv32, data: Byte, polynomial: bv32) returns (crc: bv32)
    ensures crc == ByteStep(polynomial, value, data)
  {
    hide NextBit;
    crc := Enter(value, data);
    ghost var start := crc;
    for bit := 0 to 8
      invariant crc == Iterate(BitStep(polynomial), start, bit)
    {
      crc := NextBit(polynomial, crc);
    }
  }

  /** dml_ref_crc_32u and dml_ref_crc_reflected_u32 */
  method RefCrc(mem: array<Byte>, src: nat, size: uint32, seed: bv32, polynomial: bv32, reflected: bool)
    returns (crc: bv32)
    requires InBounds(mem[..], src, size)
    ensures crc == Fold(Absorb(polynomial, reflected), Read(mem[..], src, size), seed)
  {
    hide ByteStep, ReverseByte;
    crc := seed;
    for i := 0 to size
      invariant crc == Fold(Absorb(polynomial, reflected), mem[src..src + i], seed)
    {
      assert mem[src..src + i + 1][..i] == mem[src..src + i];
      crc := CalculateByte(crc, if reflected then ReverseByte(mem[src + i]) else mem[src + i], polynomial);
    }
  }

  function Swap1(v: bv32): bv32 { ((v & 0x5555_5555) << 1) | ((v & 0xAAAA_AAAA) >> 1) }
  function Swap2(v: bv32): bv32 { ((v & 0x3333_3333) << 2) | ((v & 0xCCCC_CCCC) >> 2) }
  function Swap4(v: bv32): bv32 { ((v & 0x0F0F_0F0F) << 4) | ((v & 0xF0F0_F0F0) >> 4) }
  function Swap8(v: bv32): bv32 { ((v & 0x00FF_00FF) << 8) | ((v & 0xFF00_FF00) >> 8) }
  function Swap16(v: bv32): bv32 { ((v & 0x0000_FFFF) << 16) | ((v & 0xFFFF_0000) >> 16) }

  /** The bits of a register in the opposite order, by swaps of ever larger groups. */
  function Reverse(v: bv32): bv32 {
    Swap16(Swap8(Swap4(Swap2(Swap1(v)))))
  }

  function Entry(seed: bv32, bypassReflection: bool): bv32 {
    if bypassReflection then seed else Reverse(!seed)
  }

  function Exit(crc: bv32, bypassReflection: bool): bv32 {
    if bypassReflection then crc else !Reverse(crc)
  }

  datatype Options = Options(bypassReflection: bool, bypassDataReflection: bool)

  /** What the operation reports for a buffer and a seed. */
  function Checksum(data: seq<Byte>, seed: bv32, options: Options, polynomial: bv32): bv32 {
    Exit(Fold(Absorb(polynomial, !options.bypassDataReflection), data, Entry(seed, options.bypassReflection)),
         options.bypassReflection)
  }

  /** kernels::crc */
  method Calculate(mem: array<Byte>, src: nat, size: uint32, seed: bv32, options: Options) returns (crc: bv32)
    requires InBounds(mem[..], src, size)
    ensures crc == Checksum(Read(mem[..], src, size), seed, options, CRC_32C)
  {
    hide Absorb, Fold, Entry, Exit;
    crc := RefCrc(mem, src, size, Entry(seed, options.bypassReflection), CRC_32C, !options.bypassDataReflection);
    crc := Exit(crc, options.bypassReflection);
  }

  /** Reversing is its own inverse. */
  lemma ReverseTwice(v: bv32)
    ensures Reverse(Reverse(v)) == v
  {
  }

  function Bit(v: bv32, k: bv32): bv32
    requires k < 32
  {
    (v >> k) & 1
  }

  /** Bit k and bit 31 - k trade places. */
  lemma ReverseBit(v: bv32, k: bv32)
    requires k < 32
    ensures Bit(Reverse(v), 31 - k) == Bit(v, k)
  {
  }

  /** The entry transform undoes the exit transform. */
  lemma EntryOfExit(crc: bv32, bypassReflection: bool)
    ensures Entry(Exit(crc, bypassReflection), bypassReflection) == crc
  {
    if !bypassReflection {
      hide Reverse;
      assert !!Reverse(crc) == Reverse(crc);
      ReverseTwice(crc);
    }
  }

  /** A checksum resumes from the one reported for the first part, for every polynomial and either reflection. */
  lemma ChecksumResumes(x: seq<Byte>, y: seq<Byte>, seed: bv32, options: Options, polynomial: bv32)
    ensures Checksum(x + y, seed, options, polynomial) ==
            Checksum(y, Checksum(x, seed, options, polynomial), options, polynomial)
  {
    hide Absorb, Entry, Exit, Fold;
    var absorb, start := Absorb(polynomial, !options.bypassDataReflection), Entry(seed, options.bypassReflection);
    FoldConcat(absorb, x, y, start);
    EntryOfExit(Fold(absorb, x, start), options.bypassReflection);
  }
}
