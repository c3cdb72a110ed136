/** The T10 protection information model: eight bytes of guard, application tag and reference tag after each block. */
module Dif {
  import opened Memory
  import opened BlockLayout
  import opened Registers
  import Crc16

  const FIELD_SIZE := 8

  // Flags of the job, as the descriptor's three flag bytes are packed into one word.
  const INVERT_CRC_SEED: bv32 := 0x040000
  const INVERT_CRC_RESULT: bv32 := 0x080000
  const SRC_F_ENABLE_ERROR: bv32 := 0x000001
  const SRC_F_DETECT_ALL: bv32 := 0x000002
  const SRC_F_DETECT_APP_TAG: bv32 := 0x000004
  const SRC_F_DETECT_TAGS: bv32 := 0x000008
  const SRC_INC_APP_TAG: bv32 := 0x000010
  const SRC_GUARD_CHECK_DISABLE: bv32 := 0x000020
  const SRC_REF_TAG_CHECK_DISABLE: bv32 := 0x000040
  const SRC_FIX_REF_TAG: bv32 := 0x000080
  const DST_PASS_APP_TAG: bv32 := 0x000800
  const DST_INC_APP_TAG: bv32 := 0x001000
  const DST_PASS_GUARD: bv32 := 0x002000
  const DST_PASS_REF_TAG: bv32 := 0x004000
  const DST_FIX_REF_TAG: bv32 := 0x008000

  /** Tags and mask of one side of a job. */
  datatype Seeds = Seeds(refTag: bv32, appTag: bv16, appMask: bv16)

  type BlockBytes = n: int | 512 <= n witness 512

  datatype Config = Config(blockSize: BlockBytes, flags: bv32, source: Seeds, destination: Seeds) {
    function Step(): BlockBytes {
      blockSize + FIELD_SIZE
    }
  }

  predicate Has(flags: bv32, flag: bv32) {
    flags & flag != 0
  }

  /** The integrity field as a little-endian machine loads it. */
  datatype Field = Field(guard: bv16, appTag: bv16, refTag: bv32)

  function Reverse16(v: bv16): bv16 {
    (v << 8) | (v >> 8)
  }

  function Reverse32(v: bv32): bv32 {
    (v << 24) | ((v & 0xFF00) << 8) | ((v >> 8) & 0xFF00) | (v >> 24)
  }

  function Load16(s: seq<Byte>): bv16
    requires |s| == 2
  {
    ((s[1] as bv16) << 8) | (s[0] as bv16)
  }

  function Load32(s: seq<Byte>): bv32
    requires |s| == 4
  {
    ((s[3] as bv32) << 24) | ((s[2] as bv32) << 16) | ((s[1] as bv32) << 8) | (s[0] as bv32)
  }

  function Store16(v: bv16): (s: seq<Byte>)
    ensures |s| == 2
  {
    [(v & 0xFF) as Byte, (v >> 8) as Byte]
  }

  function Store32(v: bv32): (s: seq<Byte>)
    ensures |s| == 4
  {
    [(v & 0xFF) as Byte, ((v >> 8) & 0xFF) as Byte, ((v >> 16) & 0xFF) as Byte, (v >> 24) as Byte]
  }

  function LoadField(s: seq<Byte>): Field
    requires |s| == FIELD_SIZE
  {
    Field(Load16(s[..2]), Load16(s[2..4]), Load32(s[4..]))
  }

  function StoreField(f: Field): (s: seq<Byte>)
    ensures |s| == FIELD_SIZE
  {
    Store16(f.guard) + Store16(f.appTag) + Store32(f.refTag)
  }

  lemma Load16Store16(v: bv16)
    ensures Load16(Store16(v)) == v
  {
  }

  lemma Load32Store32(v: bv32)
    ensures Load32(Store32(v)) == v
  {
  }

  lemma Store16Load16(s: seq<Byte>)
    requires |s| == 2
    ensures Store16(Load16(s)) == s
  {
  }

  lemma Store32Load32(s: seq<Byte>)
    requires |s| == 4
    ensures Store32(Load32(s)) == s
  {
  }

  lemma LoadStoreField(f: Field)
    ensures LoadField(StoreField(f)) == f
  {
    var s := StoreField(f);
    assert s[..2] == Store16(f.guard) && s[2..4] == Store16(f.appTag) && s[4..] == Store32(f.refTag);
    Load16Store16(f.guard);
    Load16Store16(f.appTag);
    Load32Store32(f.refTag);
  }

  lemma StoreLoadField(s: seq<Byte>)
    requires |s| == FIELD_SIZE
    ensures StoreField(LoadField(s)) == s
  {
    Store16Load16(s[..2]);
    Store16Load16(s[2..4]);
    Store32Load32(s[4..]);
    assert s == s[..2] + s[2..4] + s[4..];
  }

  // Tags of block k: the seed after k updates, wrapping in the tag's width.

  function AppTagAt(seed: bv16, incrementing: bool, k: nat): bv16 {
    Iterate(NextAppTag(incrementing), seed, k)
  }

  function NextAppTag(incrementing: bool): bv16 -> bv16 {
    (tag: bv16) => if incrementing then tag + 1 else tag
  }

  function RefTagAt(seed: bv32, fixed: bool, k: nat): bv32 {
    Iterate(NextRefTag(fixed), seed, k)
  }

  function NextRefTag(fixed: bool): bv32 -> bv32 {
    (tag: bv32) => if fixed then tag else tag + 1
  }

  lemma TagsAtZero(app: bv16, incrementing: bool, ref: bv32, fixed: bool)
    ensures AppTagAt(app, incrementing, 0) == app && RefTagAt(ref, fixed, 0) == ref
  {
  }

  lemma TagsNext(app: bv16, incrementing: bool, ref: bv32, fixed: bool, k: nat)
    ensures AppTagAt(app, incrementing, k + 1) == NextAppTag(incrementing)(AppTagAt(app, incrementing, k))
    ensures RefTagAt(ref, fixed, k + 1) == NextRefTag(fixed)(RefTagAt(ref, fixed, k))
  {
    hide NextAppTag, NextRefTag;
  }

  function CrcSeed(flags: bv32): bv16 {
    if Has(flags, INVERT_CRC_SEED) then 0xFFFF else 0
  }

  function Inverted(flags: bv32, crc: bv16): bv16 {
    if Has(flags, INVERT_CRC_RESULT) then !crc else crc
  }

  function StoredGuard(flags: bv32, crc: bv16): bv16 {
    Reverse16(Inverted(flags, crc))
  }

  /** The stored guard of a payload. */
  function Guard(flags: bv32, payload: seq<Byte>): bv16 {
    StoredGuard(flags, Crc16.Crc(payload, CrcSeed(flags)))
  }

  function Masked(tag: bv16, mask: bv16): bv16 {
    tag & !mask
  }

  function StoredAppTag(tag: bv16, mask: bv16): bv16 {
    Reverse16(Masked(tag, mask))
  }

  /** The tags the source side expects at block k. */
  function SourceApp(cfg: Config, k: nat): bv16 {
    StoredAppTag(AppTagAt(cfg.source.appTag, Has(cfg.flags, SRC_INC_APP_TAG), k), cfg.source.appMask)
  }

  function SourceRef(cfg: Config, k: nat): bv32 {
    Reverse32(RefTagAt(cfg.source.refTag, Has(cfg.flags, SRC_FIX_REF_TAG), k))
  }

  /** The tags the destination side writes at block k. */
  function DestinationApp(cfg: Config, k: nat): bv16 {
    StoredAppTag(AppTagAt(cfg.destination.appTag, Has(cfg.flags, DST_INC_APP_TAG), k), cfg.destination.appMask)
  }

  function DestinationRef(cfg: Config, k: nat): bv32 {
    Reverse32(RefTagAt(cfg.destination.refTag, Has(cfg.flags, DST_FIX_REF_TAG), k))
  }

  function NewField(cfg: Config, k: nat, payload: seq<Byte>): Field {
    Field(Guard(cfg.flags, payload), DestinationApp(cfg, k), DestinationRef(cfg, k))
  }

  // Check

  datatype Fault = GuardMismatch | AppTagMismatch | RefTagMismatch | AllOnes

  function FaultBits(faults: set<Fault>): bv32 {
    (if GuardMismatch in faults then 1 else 0) | (if AppTagMismatch in faults then 2 else 0) |
    (if RefTagMismatch in faults then 4 else 0) | (if AllOnes in faults then 8 else 0)
  }

  /** The bits name the faults, and no other bit is set. */
  lemma FaultBitsExact(faults: set<Fault>)
    ensures FaultBits(faults) & 1 != 0 <==> GuardMismatch in faults
    ensures FaultBits(faults) & 2 != 0 <==> AppTagMismatch in faults
    ensures FaultBits(faults) & 4 != 0 <==> RefTagMismatch in faults
    ensures FaultBits(faults) & 8 != 0 <==> AllOnes in faults
    ensures FaultBits(faults) & 0xFFFF_FFF0 == 0
  {
  }

  predicate IsAllOnes(f: Field) {
    f.guard == 0xFFFF && f.appTag == 0xFFFF && f.refTag == 0xFFFF_FFFF
  }

  predicate AllOnesError(flags: bv32, f: Field) {
    Has(flags, SRC_F_DETECT_ALL) && Has(flags, SRC_F_ENABLE_ERROR) && IsAllOnes(f)
  }

  /** An F-detect rule switches the checks off for this block. */
  predicate Skipped(flags: bv32, f: Field) {
    || (Has(flags, SRC_F_DETECT_TAGS) && f.appTag == 0xFFFF && f.refTag == 0xFFFF_FFFF)
    || (Has(flags, SRC_F_DETECT_APP_TAG) && f.appTag == 0xFFFF)
  }

  predicate GuardBad(flags: bv32, payload: seq<Byte>, f: Field) {
    !Has(flags, SRC_GUARD_CHECK_DISABLE) && Guard(flags, payload) != f.guard
  }

  predicate RefTagBad(cfg: Config, k: nat, f: Field) {
    !Has(cfg.flags, SRC_REF_TAG_CHECK_DISABLE) && SourceRef(cfg, k) != f.refTag
  }

  predicate AppTagChecked(mask: bv16) {
    !mask != 0xFFFF
  }

  /** The application tag is compared exactly under a nonzero mask. */
  lemma AppTagCheckedIff(mask: bv16)
    ensures AppTagChecked(mask) <==> mask != 0
  {
    assert !!mask == mask;
  }

  predicate AppTagBad(cfg: Config, k: nat, f: Field) {
    AppTagChecked(cfg.source.appMask) && SourceApp(cfg, k) != f.appTag
  }

  function FieldFaults(cfg: Config, k: nat, payload: seq<Byte>, f: Field): set<Fault> {
    if AllOnesError(cfg.flags, f) then {AllOnes}
    else if Skipped(cfg.flags, f) then {}
    else
      (if GuardBad(cfg.flags, payload, f) then {GuardMismatch} else {}) +
      (if RefTagBad(cfg, k, f) then {RefTagMismatch} else {}) +
      (if AppTagBad(cfg, k, f) then {AppTagMismatch} else {})
  }

  function BlockFaults(cfg: Config, k: nat, block: seq<Byte>): set<Fault>
    requires |block| == cfg.Step()
  {
    FieldFaults(cfg, k, block[..cfg.blockSize], LoadField(block[cfg.blockSize..]))
  }

  datatype Verdict = Passed | Failed(block: nat, faults: set<Fault>)

  function FaultList(cfg: Config, blocks: seq<seq<Byte>>): (list: seq<set<Fault>>)
    requires Uniform(blocks, cfg.Step())
  {
    seq(|blocks|, k requires 0 <= k < |blocks| => BlockFaults(cfg, k, blocks[k]))
  }

  /** The first block with faults, and its faults. */
  function First(list: seq<set<Fault>>): (v: Verdict)
    ensures v.Passed? <==> forall k :: 0 <= k < |list| ==> list[k] == {}
    ensures v.Failed? ==>
              && v.block < |list|
              && v.faults == list[v.block] != {}
              && forall k :: 0 <= k < v.block ==> list[k] == {}
  {
    if list == [] then Passed
    else
      var n := |list| - 1;
      var before := First(list[..n]);
      if before.Failed? then before
      else if list[n] == {} then Passed
      else Failed(n, list[n])
  }

  function Check(cfg: Config, blocks: seq<seq<Byte>>): Verdict
    requires Uniform(blocks, cfg.Step())
  {
    First(FaultList(cfg, blocks))
  }

  /** Any block found to be the first with faults is the one Check reports. */
  lemma FirstIs(list: seq<set<Fault>>, k: nat)
    requires k < |list| && list[k] != {}
    requires forall i :: 0 <= i < k ==> list[i] == {}
    ensures First(list) == Failed(k, list[k])
  {
  }

  // Insert, strip and update, block by block

  function Insert(cfg: Config, payloads: seq<seq<Byte>>): (out: seq<seq<Byte>>)
    requires Uniform(payloads, cfg.blockSize)
    ensures |out| == |payloads| && Uniform(out, cfg.Step())
  {
    seq(|payloads|, k requires 0 <= k < |payloads| => payloads[k] + StoreField(NewField(cfg, k, payloads[k])))
  }

  function Strip(cfg: Config, blocks: seq<seq<Byte>>): (out: seq<seq<Byte>>)
    requires Uniform(blocks, cfg.Step())
    ensures |out| == |blocks| && Uniform(out, cfg.blockSize)
  {
    seq(|blocks|, k requires 0 <= k < |blocks| => blocks[k][..cfg.blockSize])
  }

  /** The field update writes: each part is new, or the source's where its pass-through flag is set. */
  function UpdatedField(cfg: Config, k: nat, payload: seq<Byte>, old': Field): Field {
    var fresh' := NewField(cfg, k, payload);
    Field(if Has(cfg.flags, DST_PASS_GUARD) then old'.guard else fresh'.guard,
          if Has(cfg.flags, DST_PASS_APP_TAG) then old'.appTag else fresh'.appTag,
          if Has(cfg.flags, DST_PASS_REF_TAG) then old'.refTag else fresh'.refTag)
  }

  function UpdateBlock(cfg: Config, k: nat, block: seq<Byte>): (out: seq<Byte>)
    requires |block| == cfg.Step()
    ensures |out| == cfg.Step()
  {
    var payload := block[..cfg.blockSize];
    payload + StoreField(UpdatedField(cfg, k, payload, LoadField(block[cfg.blockSize..])))
  }

  function Update(cfg: Config, blocks: seq<seq<Byte>>): (out: seq<seq<Byte>>)
    requires Uniform(blocks, cfg.Step())
    ensures |out| == |blocks| && Uniform(out, cfg.Step())
  {
    seq(|blocks|, k requires 0 <= k < |blocks| => UpdateBlock(cfg, k, blocks[k]))
  }

  // The same on whole buffers

  function CheckBuffer(cfg: Config, buffer: seq<Byte>): Verdict {
    Check(cfg, Blocks(buffer, cfg.Step()))
  }

  function InsertBuffer(cfg: Config, data: seq<Byte>): seq<Byte> {
    Join(Insert(cfg, Blocks(data, cfg.blockSize)))
  }

  function StripBuffer(cfg: Config, buffer: seq<Byte>): seq<Byte> {
    Join(Strip(cfg, Blocks(buffer, cfg.Step())))
  }

  function UpdateBuffer(cfg: Config, buffer: seq<Byte>): seq<Byte> {
    Join(Update(cfg, Blocks(buffer, cfg.Step())))
  }

  lemma InsertSize(cfg: Config, data: seq<Byte>)
    ensures |InsertBuffer(cfg, data)| == Offset(Count(|data|, cfg.blockSize), cfg.Step())
  {
    hide Guard;
    JoinLength(Insert(cfg, Blocks(data, cfg.blockSize)), cfg.Step());
  }

  lemma StripSize(cfg: Config, buffer: seq<Byte>)
    ensures |StripBuffer(cfg, buffer)| == Offset(Count(|buffer|, cfg.Step()), cfg.blockSize)
  {
    JoinLength(Strip(cfg, Blocks(buffer, cfg.Step())), cfg.blockSize);
  }

  lemma UpdateSize(cfg: Config, buffer: seq<Byte>)
    ensures |UpdateBuffer(cfg, buffer)| == Offset(Count(|buffer|, cfg.Step()), cfg.Step())
  {
    JoinLength(Update(cfg, Blocks(buffer, cfg.Step())), cfg.Step());
  }
}
