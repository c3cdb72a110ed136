/** Descriptor validation, and what an accepted descriptor guarantees. */
module Validation {
  import opened Memory
  import opened BlockLayout
  import opened Operations
  import opened ContinuationTheorem
  import Delta
  import DeltaKernels
  import DeltaTheorems
  import Dif

  datatype Status =
    | Success | NullAddress | NullSize | Misalignment | Overlapping | WrongSize | LargeSize | WrongDeltaSize
    | WrongDualcastAddress | WrongDifSize | DifStripAdjacent | WrongBatchSize

  /** The sum as a 64-bit address holds it. */
  function Add64(a: nat, n: nat): nat {
    (a + n) % TWO_TO_THE_64
  }

  /** overlaps, for buffers of two sizes; the three-argument form has one size for both. */
  predicate Overlaps(lhs: nat, lhsSize: nat, rhs: nat, rhsSize: nat) {
    (lhs <= rhs && Add64(lhs, lhsSize) > rhs) || (rhs <= lhs && Add64(rhs, rhsSize) > lhs)
  }

  predicate Misaligned(a: nat) {
    a % 8 != 0
  }

  const MIN_DELTA := 80

  function ValidateCreateDelta(d: Descriptor): Status
    requires d.CreateDelta?
  {
    if d.src1 == 0 || d.src2 == 0 || d.delta == 0 then NullAddress
    else if d.size == 0 || d.maxDelta == 0 then NullSize
    else if Misaligned(d.src1) || Misaligned(d.src2) || Misaligned(d.delta) then Misalignment
    else if d.size % 8 != 0 then WrongSize
    else if d.size > DeltaTheorems.MAX_TRANSFER then LargeSize
    else if d.maxDelta % Delta.NOTE_SIZE != 0 || d.maxDelta < MIN_DELTA then WrongDeltaSize
    else Success
  }

  function ValidateApplyDelta(d: Descriptor): Status
    requires d.ApplyDelta?
  {
    if d.dst == 0 || d.delta == 0 then NullAddress
    else if d.size == 0 || d.deltaSize == 0 then NullSize
    else if Overlaps(d.delta, d.deltaSize, d.dst, d.size) then Overlapping
    else if Misaligned(d.dst) || Misaligned(d.delta) then Misalignment
    else if d.size % 8 != 0 then WrongSize
    else if d.size > DeltaTheorems.MAX_TRANSFER then LargeSize
    else if d.deltaSize % Delta.NOTE_SIZE != 0 then WrongDeltaSize
    else Success
  }

  function ValidateDualcast(d: Descriptor): Status
    requires d.Dualcast?
  {
    if d.src == 0 || d.dst1 == 0 || d.dst2 == 0 then NullAddress
    else if d.size == 0 then NullSize
    else if d.dst1 % 0x1000 != d.dst2 % 0x1000 then WrongDualcastAddress
    else if Overlaps(d.src, d.size, d.dst1, d.size) || Overlaps(d.src, d.size, d.dst2, d.size) then Overlapping
    else if Overlaps(d.dst1, d.size, d.dst2, d.size) then Overlapping
    else Success
  }

  /** The output size of insert, as a 32-bit register holds it. */
  function InsertEstimate(size: uint32, block: nat): uint32
    requires 0 < block
  {
    (size + size / block * 8) % TWO_TO_THE_32
  }

  function ValidateDifInsert(d: Descriptor): Status
    requires d.DifInsert?
  {
    var block := BlockSize(d.dif.flags);
    if d.src == 0 || d.dst == 0 then NullAddress
    else if d.size == 0 then NullSize
    else if d.size % block != 0 then WrongDifSize
    else if Overlaps(d.src, d.size, d.dst, InsertEstimate(d.size, block)) then Overlapping
    else Success
  }

  /** The output size validation assumes for strip: it counts blocks without their fields, so it can be too small. */
  function StripEstimate(size: uint32, block: nat): uint32
    requires 0 < block
  {
    (size - size / block * 8) % TWO_TO_THE_32
  }

  function ValidateDifStrip(d: Descriptor): Status
    requires d.DifStrip?
  {
    var block := BlockSize(d.dif.flags);
    if d.src == 0 || d.dst == 0 then NullAddress
    else if d.size == 0 then NullSize
    else if d.size % (block + Dif.FIELD_SIZE) != 0 then WrongDifSize
    else
      var out := StripEstimate(d.size, block);
      if Overlaps(d.src, d.size, d.dst, out) then Overlapping
      else if d.dst < d.src && Add64(d.dst, out) <= d.src && d.src <= Add64(d.dst, d.size) then DifStripAdjacent
      else Success
  }

  function ValidateDifUpdate(d: Descriptor): Status
    requires d.DifUpdate?
  {
    if d.src == 0 || d.dst == 0 then NullAddress
    else if d.size == 0 then NullSize
    else if d.size % (BlockSize(d.dif.flags) + Dif.FIELD_SIZE) != 0 then WrongDifSize
    else if Overlaps(d.src, d.size, d.dst, d.size) then Overlapping
    else Success
  }

  function Validate(d: Descriptor): Status {
    match d
    case Nop => Success
    case Drain => Success
    case MemMove(src, dst, size) =>
      if src == 0 || dst == 0 then NullAddress else if size == 0 then NullSize else Success
    case Fill(_, dst, size) => if dst == 0 then NullAddress else if size == 0 then NullSize else Success
    case Compare(src1, src2, size, _, _) =>
      if src1 == 0 || src2 == 0 then NullAddress else if size == 0 then NullSize else Success
    case ComparePattern(_, src, size, _, _) => if src == 0 then NullAddress else if size == 0 then NullSize else Success
    case CreateDelta(_, _, _, _, _, _, _) => ValidateCreateDelta(d)
    case ApplyDelta(_, _, _, _) => ValidateApplyDelta(d)
    case Dualcast(_, _, _, _) => ValidateDualcast(d)
    case Crc(src, size, _, _) => if src == 0 then NullAddress else if size == 0 then NullSize else Success
    case CopyCrc(src, dst, size, _, _) =>
      if src == 0 || dst == 0 then NullAddress
      else if size == 0 then NullSize
      else if Overlaps(src, size, dst, size) then Overlapping
      else Success
    case DifCheck(src, size, dif) =>
      if src == 0 then NullAddress
      else if size == 0 then NullSize
      else if size % (BlockSize(dif.flags) + Dif.FIELD_SIZE) != 0 then WrongDifSize
      else Success
    case DifInsert(_, _, _, _) => ValidateDifInsert(d)
    case DifStrip(_, _, _, _) => ValidateDifStrip(d)
    case DifUpdate(_, _, _, _) => ValidateDifUpdate(d)
    case CacheFlush(dst, size) => if dst == 0 then NullAddress else if size == 0 then NullSize else Success
  }

  const MIN_BATCH := 4

  /** A batch, which is a list of descriptors at an address. */
  function ValidateBatch(list: nat, count: uint32): Status {
    if list == 0 then NullAddress else if count < MIN_BATCH then WrongBatchSize else Success
  }

  // What acceptance guarantees

  lemma NoWrap(m: seq<Byte>, a: nat, n: nat)
    requires InBounds(m, a, n) && |m| < TWO_TO_THE_64
    ensures Add64(a, n) == a + n
  {
  }

  /** In a memory without address wrap the overlap test is exact for buffers that are not empty. */
  lemma OverlapsExact(m: seq<Byte>, a: nat, n: nat, b: nat, k: nat)
    requires InBounds(m, a, n) && InBounds(m, b, k) && |m| < TWO_TO_THE_64 && 0 < n && 0 < k
    ensures Overlaps(a, n, b, k) <==> !Disjoint(a, n, b, k)
  {
    NoWrap(m, a, n);
    NoWrap(m, b, k);
    hide Add64;
  }

  /** The buffers themselves, with nothing said of how they lie to each other. */
  predicate BuffersExist(m: seq<Byte>, d: Descriptor) {
    && |m| < TWO_TO_THE_64
    && match d
       case Nop => true
       case Drain => true
       case MemMove(src, dst, size) => InBounds(m, src, size) && InBounds(m, dst, size)
       case Fill(_, dst, size) => InBounds(m, dst, size)
       case Compare(src1, src2, size, _, _) => InBounds(m, src1, size) && InBounds(m, src2, size)
       case ComparePattern(_, src, size, _, _) => InBounds(m, src, size)
       case CreateDelta(src1, src2, size, delta, maxDelta, _, _) =>
         InBounds(m, src1, size) && InBounds(m, src2, size) && InBounds(m, delta, maxDelta)
       case ApplyDelta(delta, deltaSize, dst, size) => InBounds(m, delta, deltaSize) && InBounds(m, dst, size)
       case Dualcast(src, dst1, dst2, size) =>
         InBounds(m, src, size) && InBounds(m, dst1, size) && InBounds(m, dst2, size)
       case Crc(src, size, _, _) => InBounds(m, src, size)
       case CopyCrc(src, dst, size, _, _) => InBounds(m, src, size) && InBounds(m, dst, size)
       case DifCheck(src, size, _) => InBounds(m, src, size)
       case DifInsert(src, dst, size, dif) =>
         InBounds(m, src, size) && InBounds(m, dst, InsertedSize(size, InsertConfig(dif)))
       case DifStrip(src, dst, size, dif) =>
         InBounds(m, src, size) && InBounds(m, dst, StrippedSize(size, SourceConfig(dif)))
       case DifUpdate(src, dst, size, _) => InBounds(m, src, size) && InBounds(m, dst, size)
       case CacheFlush(dst, size) => InBounds(m, dst, size)
  }

  /** What validation cannot see or does not look at. */
  predicate Unchecked(m: seq<Byte>, d: Descriptor)
    requires BuffersExist(m, d)
  {
    match d
    case CreateDelta(src1, src2, size, delta, maxDelta, _, _) =>
      Disjoint(src1, size, delta, maxDelta) && Disjoint(src2, size, delta, maxDelta)
    case ApplyDelta(delta, deltaSize, _, size) => DeltaKernels.Within(Delta.Decode(Read(m, delta, deltaSize)), size)
    case DifInsert(_, _, size, dif) => InsertedSize(size, InsertConfig(dif)) < TWO_TO_THE_32
    case _ => true
  }

  lemma InsertEstimateExact(size: uint32, cfg: Dif.Config)
    requires size % cfg.blockSize == 0 && 0 < size
    ensures InsertedSize(size, cfg) == size + size / cfg.blockSize * 8
    ensures InsertEstimate(size, cfg.blockSize) == InsertedSize(size, cfg) % TWO_TO_THE_32
    ensures size < InsertedSize(size, cfg)
  {
    var n := Count(size, cfg.blockSize);
    CountSpan(size, cfg.blockSize);
    assert n * cfg.Step() == n * cfg.blockSize + n * 8;
    if n == 0 {
      OffsetZero(cfg.blockSize);
    }
  }

  lemma InsertIsDisjoint(m: seq<Byte>, d: Descriptor)
    requires d.DifInsert? && Validate(d) == Success && BuffersExist(m, d) && Unchecked(m, d)
    ensures Ready(m, d)
  {
    var cfg := InsertConfig(d.dif);
    InsertEstimateExact(d.size, cfg);
    hide InsertedSize, PackedFlags, BlockSize, InsertEstimate;
    OverlapsExact(m, d.src, d.size, d.dst, InsertedSize(d.size, cfg));
  }

  lemma StripEstimateBounds(size: uint32, cfg: Dif.Config)
    requires 0 < size
    ensures 0 < StripEstimate(size, cfg.blockSize) <= size
    ensures StrippedSize(size, cfg) <= size
  {
    EighthsFit(size, cfg.blockSize);
    Small32(size - size / cfg.blockSize * 8);
    StripShrinks(size, cfg);
  }

  lemma StripShrinks(size: nat, cfg: Dif.Config)
    ensures StrippedSize(size, cfg) <= size
  {
    var k, b, step := Count(size, cfg.Step()), cfg.blockSize, cfg.Step();
    CountSpan(size, step);
    hide Count;
    assert k * step == k * b + k * 8;
  }

  lemma EighthsFit(size: nat, block: nat)
    requires 512 <= block
    ensures size / block * 8 <= size && (0 < size ==> size / block * 8 < size)
  {
    var n := size / block;
    CountSpan(size, block);
    assert n * block + size % block == size;
    assert n * 8 + n * (block - 8) == n * block;
    if n > 0 {
      assert n * (block - 8) > 0;
    }
  }

  lemma Small32(n: nat)
    requires n < TWO_TO_THE_32
    ensures n % TWO_TO_THE_32 == n
  {
  }

  /** A destination before the source does not wrap over the source's length. */
  lemma StripNoWrap(m: seq<Byte>, d: Descriptor, estimate: nat)
    requires d.DifStrip? && InBounds(m, d.src, d.size) && |m| < TWO_TO_THE_64 && estimate <= d.size
    ensures d.dst <= d.src ==> Add64(d.dst, estimate) == d.dst + estimate && Add64(d.dst, d.size) == d.dst + d.size
  {
  }

  /**
   * An accepted strip's destination is clear of its source over the source's whole length, though the estimate is
   * shorter.
   */
  lemma StripIsDisjoint(m: seq<Byte>, d: Descriptor)
    requires d.DifStrip? && Validate(d) == Success && BuffersExist(m, d)
    ensures Admissible(m, d)
  {
    var cfg := SourceConfig(d.dif);
    StripEstimateBounds(d.size, cfg);
    hide StripEstimate, StrippedSize, PackedFlags, BlockSize;
    NoWrap(m, d.src, d.size);
    StripNoWrap(m, d, StripEstimate(d.size, cfg.blockSize));
    hide Add64;
  }

  lemma UpdateIsDisjoint(m: seq<Byte>, d: Descriptor)
    requires d.DifUpdate? && Validate(d) == Success && BuffersExist(m, d)
    ensures Ready(m, d)
  {
    var step := UpdateConfig(d.dif).Step();
    CountSpan(d.size, step);
    OverlapsExact(m, d.src, d.size, d.dst, d.size);
    hide PackedFlags, BlockSize, Offset, Count, Overlaps;
  }

  /**
   * An accepted descriptor whose buffers exist is one every kernel may be given, and has them apart for what may
   * follow.
   */
  lemma AcceptedIsAdmissible(m: seq<Byte>, d: Descriptor)
    requires Validate(d) == Success && BuffersExist(m, d) && Unchecked(m, d)
    ensures Admissible(m, d)
  {
    match d
    case DifInsert(_, _, _, _) => InsertIsDisjoint(m, d);
    case DifStrip(_, _, _, _) => StripIsDisjoint(m, d);
    case DifUpdate(_, _, _, _) => UpdateIsDisjoint(m, d);
    case ApplyDelta(delta, deltaSize, dst, size) => OverlapsExact(m, delta, deltaSize, dst, size);
    case CopyCrc(src, dst, size, _, _) => OverlapsExact(m, src, size, dst, size);
    case Dualcast(src, dst1, dst2, size) =>
      OverlapsExact(m, src, size, dst1, size);
      OverlapsExact(m, src, size, dst2, size);
      OverlapsExact(m, dst1, size, dst2, size);
    case _ =>
  }

  // Acceptance, exactly

  predicate HasNullAddress(d: Descriptor) {
    match d
    case Nop => false
    case Drain => false
    case MemMove(src, dst, _) => src == 0 || dst == 0
    case Fill(_, dst, _) => dst == 0
    case Compare(src1, src2, _, _, _) => src1 == 0 || src2 == 0
    case ComparePattern(_, src, _, _, _) => src == 0
    case CreateDelta(src1, src2, _, delta, _, _, _) => src1 == 0 || src2 == 0 || delta == 0
    case ApplyDelta(delta, _, dst, _) => delta == 0 || dst == 0
    case Dualcast(src, dst1, dst2, _) => src == 0 || dst1 == 0 || dst2 == 0
    case Crc(src, _, _, _) => src == 0
    case CopyCrc(src, dst, _, _, _) => src == 0 || dst == 0
    case DifCheck(src, _, _) => src == 0
    case DifInsert(src, dst, _, _) => src == 0 || dst == 0
    case DifStrip(src, dst, _, _) => src == 0 || dst == 0
    case DifUpdate(src, dst, _, _) => src == 0 || dst == 0
    case CacheFlush(dst, _) => dst == 0
  }

  /** Every size is positive and fits the operation's granularity and limits, and addresses are aligned as it wants. */
  predicate WellSized(d: Descriptor) {
    match d
    case Nop => true
    case Drain => true
    case CreateDelta(src1, src2, size, delta, maxDelta, _, _) =>
      && src1 % 8 == 0 && src2 % 8 == 0 && delta % 8 == 0
      && size % 8 == 0 && 0 < size <= DeltaTheorems.MAX_TRANSFER && maxDelta % Delta.NOTE_SIZE == 0
      && MIN_DELTA <= maxDelta
    case ApplyDelta(delta, deltaSize, dst, size) =>
      && dst % 8 == 0 && delta % 8 == 0
      && size % 8 == 0 && 0 < size <= DeltaTheorems.MAX_TRANSFER && 0 < deltaSize && deltaSize % Delta.NOTE_SIZE == 0
    case Dualcast(_, dst1, dst2, size) => 0 < size && dst1 % 0x1000 == dst2 % 0x1000
    case DifInsert(_, _, size, dif) => 0 < size && size % InsertConfig(dif).blockSize == 0
    case DifCheck(_, size, dif) => 0 < size && size % SourceConfig(dif).Step() == 0
    case DifStrip(_, _, size, dif) => 0 < size && size % SourceConfig(dif).Step() == 0
    case DifUpdate(_, _, size, dif) => 0 < size && size % UpdateConfig(dif).Step() == 0
    case _ => 0 < d.size
  }

  /** The buffers are apart where validation looks; strip's destination ends at least a byte before a higher source. */
  predicate Apart(d: Descriptor) {
    match d
    case ApplyDelta(delta, deltaSize, dst, size) => Disjoint(delta, deltaSize, dst, size)
    case Dualcast(src, dst1, dst2, size) =>
      Disjoint(src, size, dst1, size) && Disjoint(src, size, dst2, size) && Disjoint(dst1, size, dst2, size)
    case CopyCrc(src, dst, size, _, _) => Disjoint(src, size, dst, size)
    case DifInsert(src, dst, size, dif) => Disjoint(src, size, dst, InsertedSize(size, InsertConfig(dif)))
    case DifStrip(src, dst, size, _) => src + size <= dst || dst + size < src
    case DifUpdate(src, dst, size, _) => Disjoint(src, size, dst, size)
    case _ => true
  }

  lemma InsertAcceptedIff(m: seq<Byte>, d: Descriptor)
    requires d.DifInsert? && BuffersExist(m, d) && Unchecked(m, d)
    ensures Validate(d) == Success <==> !HasNullAddress(d) && WellSized(d) && Apart(d)
  {
    var cfg := InsertConfig(d.dif);
    if WellSized(d) {
      InsertEstimateExact(d.size, cfg);
      Small32(InsertedSize(d.size, cfg));
      hide InsertedSize, PackedFlags, BlockSize, InsertEstimate;
      OverlapsExact(m, d.src, d.size, d.dst, InsertedSize(d.size, cfg));
    }
  }

  lemma StripAcceptedIff(m: seq<Byte>, d: Descriptor)
    requires d.DifStrip? && BuffersExist(m, d)
    ensures Validate(d) == Success <==> !HasNullAddress(d) && WellSized(d) && Apart(d)
  {
    var cfg := SourceConfig(d.dif);
    if WellSized(d) {
      StripEstimateBounds(d.size, cfg);
      hide StripEstimate, StrippedSize, PackedFlags, BlockSize;
      NoWrap(m, d.src, d.size);
      StripNoWrap(m, d, StripEstimate(d.size, cfg.blockSize));
      hide Add64;
    }
  }

  /**
   * A descriptor whose buffers exist is accepted exactly when no address is null, its sizes fit and its buffers are
   * apart.
   */
  lemma AcceptedIff(m: seq<Byte>, d: Descriptor)
    requires BuffersExist(m, d) && (d.DifInsert? ==> Unchecked(m, d))
    ensures Validate(d) == Success <==> !HasNullAddress(d) && WellSized(d) && Apart(d)
    ensures Validate(d) == NullAddress <==> HasNullAddress(d)
  {
    match d
    case DifInsert(_, _, _, _) => InsertAcceptedIff(m, d);
    case DifStrip(_, _, _, _) => StripAcceptedIff(m, d);
    case DifUpdate(src, dst, size, _) =>
      if 0 < size {
        OverlapsExact(m, src, size, dst, size);
      }
    case ApplyDelta(delta, deltaSize, dst, size) =>
      if 0 < size && 0 < deltaSize {
        OverlapsExact(m, delta, deltaSize, dst, size);
      }
    case CopyCrc(src, dst, size, _, _) =>
      if 0 < size {
        OverlapsExact(m, src, size, dst, size);
      }
    case Dualcast(src, dst1, dst2, size) =>
      if 0 < size {
        OverlapsExact(m, src, size, dst1, size);
        OverlapsExact(m, src, size, dst2, size);
        OverlapsExact(m, dst1, size, dst2, size);
      }
    case _ =>
  }

  // Refusal, exactly

  predicate HasNullSize(d: Descriptor) {
    match d
    case Nop => false
    case Drain => false
    case CreateDelta(_, _, size, _, maxDelta, _, _) => size == 0 || maxDelta == 0
    case ApplyDelta(_, deltaSize, _, size) => size == 0 || deltaSize == 0
    case _ => d.size == 0
  }

  /** The size of a DIF operation is not whole blocks: of payload for insert, of payload and field for the others. */
  predicate NotWholeBlocks(d: Descriptor) {
    match d
    case DifInsert(_, _, size, dif) => size % InsertConfig(dif).blockSize != 0
    case DifCheck(_, size, dif) => size % SourceConfig(dif).Step() != 0
    case DifStrip(_, _, size, dif) => size % SourceConfig(dif).Step() != 0
    case DifUpdate(_, _, size, dif) => size % UpdateConfig(dif).Step() != 0
    case _ => false
  }

  /** Buffers that meet where validation looks; strip's destination by the bytes validation thinks it has. */
  predicate Meet(d: Descriptor) {
    match d
    case ApplyDelta(delta, deltaSize, dst, size) => !Disjoint(delta, deltaSize, dst, size)
    case Dualcast(src, dst1, dst2, size) =>
      !Disjoint(src, size, dst1, size) || !Disjoint(src, size, dst2, size) || !Disjoint(dst1, size, dst2, size)
    case CopyCrc(src, dst, size, _, _) => !Disjoint(src, size, dst, size)
    case DifInsert(src, dst, size, dif) => !Disjoint(src, size, dst, InsertedSize(size, InsertConfig(dif)))
    case DifStrip(src, dst, size, dif) => !Disjoint(src, size, dst, size - size / SourceConfig(dif).blockSize * 8)
    case DifUpdate(src, dst, size, _) => !Disjoint(src, size, dst, size)
    case _ => false
  }

  /** Addresses of delta operations are to be multiples of eight. */
  predicate OffWords(d: Descriptor) {
    match d
    case CreateDelta(src1, src2, _, delta, _, _, _) => src1 % 8 != 0 || src2 % 8 != 0 || delta % 8 != 0
    case ApplyDelta(delta, _, dst, _) => delta % 8 != 0 || dst % 8 != 0
    case _ => false
  }

  predicate IsDelta(d: Descriptor) {
    d.CreateDelta? || d.ApplyDelta?
  }

  /** What is wrong with a delta operation's sizes, its transfer's first. */
  predicate WrongRecord(d: Descriptor) {
    match d
    case CreateDelta(_, _, _, _, maxDelta, _, _) => maxDelta % 10 != 0 || maxDelta < 80
    case ApplyDelta(_, deltaSize, _, _) => deltaSize % 10 != 0
    case _ => false
  }

  /** An error found where validation looks, with nothing wrong that it looks at before. */
  predicate Refused(d: Descriptor, error: Status) {
    match error
    case NullAddress => HasNullAddress(d)
    case NullSize => !HasNullAddress(d) && HasNullSize(d)
    case WrongDualcastAddress => Sound(d) && d.Dualcast? && d.dst1 % 4096 != d.dst2 % 4096
    case WrongDifSize => Sound(d) && NotWholeBlocks(d)
    case Overlapping =>
      Sound(d) && !NotWholeBlocks(d) && (d.Dualcast? ==> d.dst1 % 4096 == d.dst2 % 4096) && Meet(d)
    case DifStripAdjacent =>
      Sound(d) && d.DifStrip? && !NotWholeBlocks(d) && !Meet(d) && d.dst < d.src <= d.dst + d.size
    case Misalignment => Sound(d) && !Meet(d) && OffWords(d)
    case WrongSize => Sound(d) && IsDelta(d) && !Meet(d) && !OffWords(d) && d.size % 8 != 0
    case LargeSize => Sound(d) && IsDelta(d) && !Meet(d) && !OffWords(d) && d.size % 8 == 0 && d.size > 0x8_0000
    case WrongDeltaSize =>
      Sound(d) && IsDelta(d) && !Meet(d) && !OffWords(d) && d.size % 8 == 0 && d.size <= 0x8_0000 && WrongRecord(d)
    case WrongBatchSize => false
    case Success =>
      && Sound(d) && !NotWholeBlocks(d) && !Meet(d) && !OffWords(d) && (d.Dualcast? ==> d.dst1 % 4096 == d.dst2 % 4096)
      && (IsDelta(d) ==> d.size % 8 == 0 && d.size <= 0x8_0000 && !WrongRecord(d))
      && (d.DifStrip? ==> !(d.dst < d.src <= d.dst + d.size))
  }

  predicate Sound(d: Descriptor) {
    !HasNullAddress(d) && !HasNullSize(d)
  }

  lemma InsertRefused(m: seq<Byte>, d: Descriptor)
    requires d.DifInsert? && BuffersExist(m, d) && Unchecked(m, d)
    ensures Refused(d, Validate(d))
  {
    var cfg := InsertConfig(d.dif);
    if Sound(d) && !NotWholeBlocks(d) {
      InsertEstimateExact(d.size, cfg);
      Small32(InsertedSize(d.size, cfg));
      hide InsertedSize, PackedFlags, BlockSize, InsertEstimate;
      OverlapsExact(m, d.src, d.size, d.dst, InsertedSize(d.size, cfg));
    }
  }

  lemma StripRefused(m: seq<Byte>, d: Descriptor)
    requires d.DifStrip? && BuffersExist(m, d)
    ensures Refused(d, Validate(d))
  {
    var cfg := SourceConfig(d.dif);
    if Sound(d) && !NotWholeBlocks(d) {
      StripEstimateBounds(d.size, cfg);
      EighthsFit(d.size, cfg.blockSize);
      Small32(d.size - d.size / cfg.blockSize * 8);
      assert StripEstimate(d.size, cfg.blockSize) == d.size - d.size / cfg.blockSize * 8;
      hide StripEstimate, StrippedSize, PackedFlags, BlockSize;
      NoWrap(m, d.src, d.size);
      StripNoWrap(m, d, StripEstimate(d.size, cfg.blockSize));
      hide Add64;
    }
  }

  lemma DeltaRefused(m: seq<Byte>, d: Descriptor)
    requires IsDelta(d) && BuffersExist(m, d)
    ensures Refused(d, Validate(d))
  {
    if d.ApplyDelta? && 0 < d.size && 0 < d.deltaSize {
      OverlapsExact(m, d.delta, d.deltaSize, d.dst, d.size);
    }
    hide Overlaps, Disjoint;
  }

  lemma DualcastRefused(m: seq<Byte>, d: Descriptor)
    requires d.Dualcast? && BuffersExist(m, d)
    ensures Refused(d, Validate(d))
  {
    if 0 < d.size {
      OverlapsExact(m, d.src, d.size, d.dst1, d.size);
      OverlapsExact(m, d.src, d.size, d.dst2, d.size);
      OverlapsExact(m, d.dst1, d.size, d.dst2, d.size);
    }
    hide Overlaps, Disjoint;
  }

  lemma CopyRefused(m: seq<Byte>, d: Descriptor)
    requires (d.CopyCrc? || d.DifUpdate?) && BuffersExist(m, d)
    ensures Refused(d, Validate(d))
  {
    if 0 < d.size {
      OverlapsExact(m, d.src, d.size, d.dst, d.size);
    }
    hide Overlaps, Disjoint, BlockSize, PackedFlags;
  }

  lemma OtherRefused(d: Descriptor)
    requires !IsDelta(d) && !d.Dualcast? && !d.CopyCrc? && !d.DifInsert? && !d.DifStrip? && !d.DifUpdate?
    ensures Refused(d, Validate(d))
  {
    hide BlockSize, PackedFlags;
  }

  /** Which error a descriptor is refused with, and that none is when it is accepted. */
  lemma RefusedExactly(m: seq<Byte>, d: Descriptor)
    requires BuffersExist(m, d) && (d.DifInsert? ==> Unchecked(m, d))
    ensures Refused(d, Validate(d))
  {
    hide Refused, Validate, BuffersExist, Unchecked;
    if IsDelta(d) {
      DeltaRefused(m, d);
    } else if d.Dualcast? {
      DualcastRefused(m, d);
    } else if d.CopyCrc? || d.DifUpdate? {
      CopyRefused(m, d);
    } else if d.DifInsert? {
      InsertRefused(m, d);
    } else if d.DifStrip? {
      StripRefused(m, d);
    } else {
      OtherRefused(d);
    }
  }

  /** At most one error fits: the one reported is the one to expect. */
  lemma OneError(d: Descriptor, e: Status, f: Status)
    requires Refused(d, e) && Refused(d, f)
    ensures e == f
  {
    hide InsertConfig, SourceConfig, UpdateConfig, InsertedSize;
  }

  /** A batch is refused for its list's address first, and then for fewer than four entries. */
  lemma BatchRefused(list: nat, count: uint32)
    ensures ValidateBatch(list, count) == NullAddress <==> list == 0
    ensures ValidateBatch(list, count) == WrongBatchSize <==> list != 0 && count < 4
    ensures ValidateBatch(list, count) == Success <==> list != 0 && 4 <= count
  {
  }

  /**
   * Acceptance keeps insert's true extents apart for every pair of addresses exactly when the output size fits 32 bits.
   */
  lemma InsertGuaranteeIff(size: uint32, dif: DifFields)
    requires 0 < size && size % InsertConfig(dif).blockSize == 0
    ensures var out := InsertedSize(size, InsertConfig(dif));
            out < TWO_TO_THE_32 <==>
            forall src: nat, dst: nat ::
              src + size < TWO_TO_THE_64 && dst + out < TWO_TO_THE_64
              && Validate(DifInsert(src, dst, size, dif)) == Success ==>
              Disjoint(src, size, dst, out)
  {
    var cfg := InsertConfig(dif);
    var out := InsertedSize(size, cfg);
    InsertEstimateExact(size, cfg);
    hide InsertedSize, PackedFlags, BlockSize, InsertEstimate, Overlaps, Disjoint;
    if out < TWO_TO_THE_32 {
      Small32(out);
      forall src: nat, dst: nat |
        src + size < TWO_TO_THE_64 && dst + out < TWO_TO_THE_64 && Validate(DifInsert(src, dst, size, dif)) == Success
        ensures Disjoint(src, size, dst, out)
      {
        ApartUnlessOverlapping(src, size, dst, out);
      }
    } else {
      var estimate := InsertEstimate(size, cfg.blockSize);
      WrapLoses(out);
      NotOverlapping(estimate + 2, size, 1, estimate, out);
      assert Validate(DifInsert(estimate + 2, 1, size, dif)) == Success;
    }
  }

  lemma ApartUnlessOverlapping(a: nat, n: nat, b: nat, k: nat)
    requires a + n < TWO_TO_THE_64 && b + k < TWO_TO_THE_64
    ensures Overlaps(a, n, b, k) || Disjoint(a, n, b, k)
  {
    assert Add64(a, n) == a + n && Add64(b, k) == b + k;
  }

  lemma NotOverlapping(src: nat, size: uint32, dst: nat, estimate: uint32, out: nat)
    requires dst == 1 && src == estimate + 2 && 0 < size && estimate + TWO_TO_THE_32 <= out
    ensures !Overlaps(src, size, dst, estimate) && !Disjoint(src, size, dst, out)
  {
    assert Add64(dst, estimate) == dst + estimate;
  }

  lemma WrapLoses(n: nat)
    requires TWO_TO_THE_32 <= n
    ensures n % TWO_TO_THE_32 + TWO_TO_THE_32 <= n
  {
  }
}
