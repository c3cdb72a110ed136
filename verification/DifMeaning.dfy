/** What the integrity field holds and when it is at fault, by its bytes and by the bits of the flags. */
module DifMeaning {
  import opened Memory
  import opened BlockLayout
  import opened Numbers
  import opened Dif
  import opened DifTheorems
  import Crc16

  // The field's three numbers

  /** The reference tag of block k: a number of 32 bits that goes up by one with every block unless it is fixed. */
  function ReferenceTag(seed: bv32, fixed: bool, k: nat): nat {
    if fixed then Value32(seed) else (Value32(seed) + k) % 0x1_0000_0000
  }

  /** The application tag of block k, before its mask: a number of 16 bits that goes up only when it is to. */
  function ApplicationTag(seed: bv16, incrementing: bool, k: nat): (tag: nat)
    ensures tag < 0x1_0000
  {
    Fits16(seed);
    if incrementing then (Value16(seed) + k) % 0x1_0000 else Value16(seed)
  }

  /** A number of 16 bits with every bit cleared that the mask sets. */
  function Cleared(tag: nat, mask: bv16): nat
    requires tag < 0x1_0000
  {
    Value16(Without(Bits16(tag), mask))
  }

  function Bits16(n: nat): bv16
    requires n < 0x1_0000
  {
    n as bv16
  }

  function Without(x: bv16, mask: bv16): bv16 {
    x & !mask
  }

  /** The guard: the checksum from all zeros or all ones, as it is or complemented. */
  function GuardNumber(flags: bv32, payload: seq<Byte>): nat {
    var crc := Crc16.Crc(payload, if flags & 0x4_0000 != 0 then 0xFFFF else 0);
    Value16(if flags & 0x8_0000 != 0 then !crc else crc)
  }

  lemma NextModulo(x: nat, modulus: nat)
    requires 0 < modulus
    ensures (x + 1) % modulus == if x % modulus == modulus - 1 then 0 else x % modulus + 1
  {
    var q, r := x / modulus, x % modulus;
    assert x == q * modulus + r;
    if r == modulus - 1 {
      assert x + 1 == (q + 1) * modulus;
      Remainder(q + 1, 0, modulus);
    } else {
      Remainder(q, r + 1, modulus);
    }
  }

  lemma Remainder(q: nat, r: nat, modulus: nat)
    requires r < modulus
    ensures (q * modulus + r) % modulus == r
  {
    CountUnique(q * modulus + r, modulus, q, r);
  }

  lemma Up32(x: bv32, n: nat)
    requires Value32(x) == n % 0x1_0000_0000
    ensures Value32(x + 1) == (n + 1) % 0x1_0000_0000
  {
    Next32(x);
    Fits32(x);
    Known();
    hide Value32;
    NextModulo(n, 0x1_0000_0000);
  }

  lemma Up16(x: bv16, n: nat)
    requires Value16(x) == n % 0x1_0000
    ensures Value16(x + 1) == (n + 1) % 0x1_0000
  {
    Next16(x);
    Fits16(x);
    Known();
    hide Value16;
    NextModulo(n, 0x1_0000);
  }

  lemma TagsUp(app: bv16, incrementing: bool, ref: bv32, fixed: bool, k: nat)
    ensures AppTagAt(app, incrementing, k + 1) == AppTagAt(app, incrementing, k) + if incrementing then 1 else 0
    ensures RefTagAt(ref, fixed, k + 1) == RefTagAt(ref, fixed, k) + if fixed then 0 else 1
  {
  }

  lemma {:induction false} ReferenceTagIs(seed: bv32, fixed: bool, k: nat)
    ensures Value32(RefTagAt(seed, fixed, k)) == ReferenceTag(seed, fixed, k)
  {
    hide Value32, RefTagAt, AppTagAt;
    if k > 0 {
      ReferenceTagIs(seed, fixed, k - 1);
      TagsUp(0, false, seed, fixed, k - 1);
      if !fixed {
        Up32(RefTagAt(seed, fixed, k - 1), Value32(seed) + k - 1);
      }
    } else {
      TagsAtZero(0, false, seed, fixed);
      Fits32(seed);
    }
  }

  lemma {:induction false} ApplicationTagIs(seed: bv16, incrementing: bool, k: nat)
    ensures Value16(AppTagAt(seed, incrementing, k)) == ApplicationTag(seed, incrementing, k)
  {
    hide Value16, RefTagAt, AppTagAt;
    if k > 0 {
      ApplicationTagIs(seed, incrementing, k - 1);
      TagsUp(seed, incrementing, 0, false, k - 1);
      if incrementing {
        Up16(AppTagAt(seed, incrementing, k - 1), Value16(seed) + k - 1);
      }
    } else {
      TagsAtZero(seed, incrementing, 0, false);
      Fits16(seed);
    }
  }

  lemma BackTo16(x: bv16, n: nat)
    requires n == Value16(x)
    ensures n < 0x1_0000 && Bits16(n) == x
  {
  }

  lemma MaskedIs(x: bv16, mask: bv16)
    ensures Masked(x, mask) == Without(x, mask)
  {
  }

  lemma ClearedIs(seed: bv16, incrementing: bool, k: nat, mask: bv16)
    ensures Value16(Masked(AppTagAt(seed, incrementing, k), mask)) ==
            Cleared(ApplicationTag(seed, incrementing, k), mask)
  {
    hide AppTagAt, ApplicationTag, Value16, Masked, Without, Bits16;
    ApplicationTagIs(seed, incrementing, k);
    BackTo16(AppTagAt(seed, incrementing, k), ApplicationTag(seed, incrementing, k));
    MaskedIs(AppTagAt(seed, incrementing, k), mask);
  }

  lemma GuardIs(flags: bv32, payload: seq<Byte>)
    ensures Value16(Inverted(flags, Crc16.Crc(payload, CrcSeed(flags)))) == GuardNumber(flags, payload)
  {
    hide Value16, Crc16.Crc;
  }

  // What insert and update write

  /** The three numbers of a field. */
  predicate Holds(field: seq<Byte>, guard: nat, app: nat, ref: nat) {
    |field| == 8 && Number(field[..2]) == guard && Number(field[2..4]) == app && Number(field[4..]) == ref
  }

  lemma ThreeNumbers(guard: bv16, app: bv16, ref: bv32)
    ensures Holds(BigEndian16(guard) + BigEndian16(app) + BigEndian32(ref), Value16(guard), Value16(app), Value32(ref))
  {
    Number16(guard);
    Number16(app);
    Number32(ref);
    hide Value16, Value32, Number;
    var field := BigEndian16(guard) + BigEndian16(app) + BigEndian32(ref);
    assert field[..2] == BigEndian16(guard) && field[2..4] == BigEndian16(app) && field[4..] == BigEndian32(ref);
  }

  /** A new field, by the bits of the flags. */
  predicate IsNewField(cfg: Config, k: nat, payload: seq<Byte>, field: seq<Byte>) {
    Holds(field, GuardNumber(cfg.flags, payload),
          Cleared(ApplicationTag(cfg.destination.appTag, cfg.flags & 0x1000 != 0, k), cfg.destination.appMask),
          ReferenceTag(cfg.destination.refTag, cfg.flags & 0x8000 != 0, k))
  }

  lemma NewFieldMeans(cfg: Config, k: nat, payload: seq<Byte>)
    ensures IsNewField(cfg, k, payload, StoreField(NewField(cfg, k, payload)))
  {
    hide Value16, Value32, GuardNumber, Cleared, ApplicationTag, ReferenceTag, Holds, Masked, AppTagAt, RefTagAt,
         Inverted,
         CrcSeed, Crc16.Crc, BigEndian16, BigEndian32, StoreField, NewField;
    FieldIsBigEndian(cfg, k, payload);
    GuardIs(cfg.flags, payload);
    ClearedIs(cfg.destination.appTag, Has(cfg.flags, DST_INC_APP_TAG), k, cfg.destination.appMask);
    ReferenceTagIs(cfg.destination.refTag, Has(cfg.flags, DST_FIX_REF_TAG), k);
    ThreeNumbers(Inverted(cfg.flags, Crc16.Crc(payload, CrcSeed(cfg.flags))),
                 Masked(AppTagAt(cfg.destination.appTag, Has(cfg.flags, DST_INC_APP_TAG), k), cfg.destination.appMask),
                 RefTagAt(cfg.destination.refTag, Has(cfg.flags, DST_FIX_REF_TAG), k));
  }

  /** Every output block of insert is its payload and a field of these numbers. */
  lemma InsertMeans(cfg: Config, payloads: seq<seq<Byte>>, k: nat)
    requires Uniform(payloads, cfg.blockSize) && k < |payloads|
    ensures var out := Insert(cfg, payloads)[k];
            out[..cfg.blockSize] == payloads[k] && IsNewField(cfg, k, payloads[k], out[cfg.blockSize..])
  {
    hide IsNewField, StoreField, NewField;
    NewFieldMeans(cfg, k, payloads[k]);
  }

  /** A field of an updated block: part by part the source's where its bit says so, and a new one's otherwise. */
  predicate IsUpdatedField(cfg: Config, k: nat, payload: seq<Byte>, was: seq<Byte>, now: seq<Byte>)
    requires |was| == |now| == 8
  {
    && (if cfg.flags & 0x2000 != 0 then now[..2] == was[..2] else Number(now[..2]) == GuardNumber(cfg.flags, payload))
    && (if cfg.flags & 0x800 != 0 then now[2..4] == was[2..4]
        else Number(now[2..4]) ==
             Cleared(ApplicationTag(cfg.destination.appTag, cfg.flags & 0x1000 != 0, k), cfg.destination.appMask))
    && (if cfg.flags & 0x4000 != 0 then now[4..] == was[4..]
        else Number(now[4..]) == ReferenceTag(cfg.destination.refTag, cfg.flags & 0x8000 != 0, k))
  }

  /** Every output block of update is its payload and such a field. */
  lemma UpdateMeans(cfg: Config, blocks: seq<seq<Byte>>, k: nat)
    requires Uniform(blocks, cfg.Step()) && k < |blocks|
    ensures var size := cfg.blockSize;
            && Update(cfg, blocks)[k][..size] == blocks[k][..size]
            && IsUpdatedField(cfg, k, blocks[k][..size], blocks[k][size..], Update(cfg, blocks)[k][size..])
  {
    hide StoreField, NewField, GuardNumber, Cleared, ApplicationTag, ReferenceTag, Number, Update, Strip, Insert;
    var size := cfg.blockSize;
    UpdateFieldByField(cfg, blocks, k);
    StripKeeps(cfg, blocks, k);
    InsertMeans(cfg, Strip(cfg, blocks), k);
    Slices(Update(cfg, blocks)[k], size);
    Slices(blocks[k], size);
    Slices(Insert(cfg, Strip(cfg, blocks))[k], size);
  }

  lemma StripKeeps(cfg: Config, blocks: seq<seq<Byte>>, k: nat)
    requires Uniform(blocks, cfg.Step()) && k < |blocks|
    ensures Strip(cfg, blocks)[k] == blocks[k][..cfg.blockSize]
  {
  }

  lemma Slices(block: seq<Byte>, size: nat)
    requires |block| == size + 8
    ensures block[size..][..2] == block[size..size + 2] && block[size..][2..4] == block[size + 2..size + 4]
    ensures block[size..][4..] == block[size + 4..]
  {
  }

  // When check finds a fault

  predicate AllSet(s: seq<Byte>) {
    forall i :: 0 <= i < |s| ==> s[i] == 0xFF
  }

  /** The eight bytes of a field are set, and that is to be an error. */
  predicate FoundAllSet(flags: bv32, field: seq<Byte>) {
    flags & 1 != 0 && flags & 2 != 0 && AllSet(field)
  }

  /** The tags' bytes are set as asked for, and the block is not checked. */
  predicate PassedOver(flags: bv32, field: seq<Byte>)
    requires |field| == 8
  {
    (flags & 8 != 0 && AllSet(field[2..])) || (flags & 4 != 0 && AllSet(field[2..4]))
  }

  /** A fault of block k, by its bytes and the bits of the flags. */
  predicate Faulty(fault: Fault, cfg: Config, k: nat, block: seq<Byte>)
    requires |block| == cfg.Step()
  {
    var payload, field := block[..cfg.blockSize], block[cfg.blockSize..];
    if FoundAllSet(cfg.flags, field) then fault.AllOnes?
    else if PassedOver(cfg.flags, field) then false
    else
      match fault
      case AllOnes => false
      case GuardMismatch => cfg.flags & 0x20 == 0 && Number(field[..2]) != GuardNumber(cfg.flags, payload)
      case AppTagMismatch =>
        && cfg.source.appMask != 0
        && Number(field[2..4]) !=
           Cleared(ApplicationTag(cfg.source.appTag, cfg.flags & 0x10 != 0, k), cfg.source.appMask)
      case RefTagMismatch =>
        cfg.flags & 0x40 == 0 && Number(field[4..]) != ReferenceTag(cfg.source.refTag, cfg.flags & 0x80 != 0, k)
  }

  lemma SetBytes(field: seq<Byte>)
    requires |field| == 8
    ensures Load16(field[..2]) == 0xFFFF <==> AllSet(field[..2])
    ensures Load16(field[2..4]) == 0xFFFF <==> AllSet(field[2..4])
    ensures Load32(field[4..]) == 0xFFFF_FFFF <==> AllSet(field[4..])
    ensures AllSet(field[2..]) <==> AllSet(field[2..4]) && AllSet(field[4..])
    ensures AllSet(field) <==> AllSet(field[..2]) && AllSet(field[2..])
  {
    hide Load16, Load32;
    SetTwo(field[..2]);
    SetTwo(field[2..4]);
    SetFour(field[4..]);
    assert field[2..] == field[2..4] + field[4..];
    assert field == field[..2] + field[2..];
    SetJoin(field[2..4], field[4..]);
    SetJoin(field[..2], field[2..]);
  }

  lemma SetJoin(s: seq<Byte>, t: seq<Byte>)
    ensures AllSet(s + t) <==> AllSet(s) && AllSet(t)
  {
    if AllSet(s + t) {
      assert forall i :: 0 <= i < |s| ==> s[i] == (s + t)[i];
      assert forall i :: 0 <= i < |t| ==> t[i] == (s + t)[|s| + i];
    }
  }

  lemma SetTwo(s: seq<Byte>)
    requires |s| == 2
    ensures Load16(s) == 0xFFFF <==> AllSet(s)
  {
  }

  lemma SetFour(s: seq<Byte>)
    requires |s| == 4
    ensures Load32(s) == 0xFFFF_FFFF <==> AllSet(s)
  {
  }

  /** A loaded part is a byte-reversed value exactly when its bytes spell that value. */
  lemma Spells16(s: seq<Byte>, v: bv16)
    requires |s| == 2
    ensures Reverse16(v) == Load16(s) <==> Number(s) == Value16(v)
  {
    hide Value16, Reverse16, Load16, Store16, BigEndian16, Number;
    Number16(v);
    Reversed16(v);
    Load16Store16(Reverse16(v));
    Store16Load16(s);
    if Number(s) == Value16(v) {
      NumberInjective(s, BigEndian16(v));
    }
  }

  lemma Spells32(s: seq<Byte>, v: bv32)
    requires |s| == 4
    ensures Reverse32(v) == Load32(s) <==> Number(s) == Value32(v)
  {
    hide Value32, Reverse32, Load32, Store32, BigEndian32, Number;
    Number32(v);
    Reversed32(v);
    Load32Store32(Reverse32(v));
    Store32Load32(s);
    if Number(s) == Value32(v) {
      NumberInjective(s, BigEndian32(v));
    }
  }

  lemma GuardBadMeans(flags: bv32, payload: seq<Byte>, field: seq<Byte>)
    requires |field| == 8
    ensures GuardBad(flags, payload, LoadField(field)) <==>
            flags & 0x20 == 0 && Number(field[..2]) != GuardNumber(flags, payload)
  {
    hide Value16, GuardNumber, Crc16.Crc, Load16, Load32, Reverse16, Number, Inverted, CrcSeed;
    GuardIs(flags, payload);
    Spells16(field[..2], Inverted(flags, Crc16.Crc(payload, CrcSeed(flags))));
  }

  lemma AppTagBadMeans(cfg: Config, k: nat, field: seq<Byte>)
    requires |field| == 8
    ensures AppTagBad(cfg, k, LoadField(field)) <==>
            && cfg.source.appMask != 0
            && Number(field[2..4]) !=
               Cleared(ApplicationTag(cfg.source.appTag, cfg.flags & 0x10 != 0, k), cfg.source.appMask)
  {
    hide Value16, Load16, Load32, Reverse16, Number, Masked, AppTagAt, Cleared, ApplicationTag, AppTagChecked;
    AppTagCheckedIff(cfg.source.appMask);
    ClearedIs(cfg.source.appTag, Has(cfg.flags, SRC_INC_APP_TAG), k, cfg.source.appMask);
    Spells16(field[2..4],
             Masked(AppTagAt(cfg.source.appTag, Has(cfg.flags, SRC_INC_APP_TAG), k), cfg.source.appMask));
  }

  lemma RefTagBadMeans(cfg: Config, k: nat, field: seq<Byte>)
    requires |field| == 8
    ensures RefTagBad(cfg, k, LoadField(field)) <==>
            cfg.flags & 0x40 == 0 && Number(field[4..]) != ReferenceTag(cfg.source.refTag, cfg.flags & 0x80 != 0, k)
  {
    hide Value32, Load16, Load32, Reverse32, Number, RefTagAt, ReferenceTag;
    ReferenceTagIs(cfg.source.refTag, Has(cfg.flags, SRC_FIX_REF_TAG), k);
    Spells32(field[4..], RefTagAt(cfg.source.refTag, Has(cfg.flags, SRC_FIX_REF_TAG), k));
  }

  lemma DetectedMeans(flags: bv32, field: seq<Byte>)
    requires |field| == 8
    ensures AllOnesError(flags, LoadField(field)) <==> FoundAllSet(flags, field)
    ensures Skipped(flags, LoadField(field)) <==> PassedOver(flags, field)
  {
    hide Load16, Load32, AllSet;
    SetBytes(field);
  }

  /** The faults of a block, exactly. */
  lemma FaultsMean(cfg: Config, k: nat, block: seq<Byte>, fault: Fault)
    requires |block| == cfg.Step()
    ensures fault in BlockFaults(cfg, k, block) <==> Faulty(fault, cfg, k, block)
  {
    hide LoadField, AllOnesError, Skipped, GuardBad, AppTagBad, RefTagBad, FoundAllSet, PassedOver, Number, GuardNumber,
         Cleared, ApplicationTag, ReferenceTag;
    var field := block[cfg.blockSize..];
    DetectedMeans(cfg.flags, field);
    GuardBadMeans(cfg.flags, block[..cfg.blockSize], field);
    AppTagBadMeans(cfg, k, field);
    RefTagBadMeans(cfg, k, field);
  }

  /** The verdict on blocks: the first at fault, with its faults, by the bytes and the bits of the flags. */
  lemma CheckMeans(cfg: Config, blocks: seq<seq<Byte>>)
    requires Uniform(blocks, cfg.Step())
    ensures var v := Check(cfg, blocks);
            && (v.Passed? <==> forall k, f :: 0 <= k < |blocks| ==> !Faulty(f, cfg, k, blocks[k]))
            && (v.Failed? ==>
                  && v.block < |blocks|
                  && (exists f :: Faulty(f, cfg, v.block, blocks[v.block]))
                  && (forall f :: f in v.faults <==> Faulty(f, cfg, v.block, blocks[v.block]))
                  && forall k, f :: 0 <= k < v.block ==> !Faulty(f, cfg, k, blocks[k]))
  {
    hide BlockFaults, Faulty;
    var list, v := FaultList(cfg, blocks), Check(cfg, blocks);
    forall k, f | 0 <= k < |blocks|
      ensures f in list[k] <==> Faulty(f, cfg, k, blocks[k])
    {
      FaultsMean(cfg, k, blocks[k], f);
    }
    if v.Passed? {
      forall k, f | 0 <= k < |blocks|
        ensures !Faulty(f, cfg, k, blocks[k])
      {
        assert list[k] == {};
      }
    } else {
      var f :| f in v.faults;
      assert Faulty(f, cfg, v.block, blocks[v.block]);
      forall k, f | 0 <= k < v.block
        ensures !Faulty(f, cfg, k, blocks[k])
      {
        assert list[k] == {};
      }
    }
  }

  // Changed tags

  /** Among blocks that pass, one that is replaced decides the verdict. */
  lemma ReplacedBlock(cfg: Config, blocks: seq<seq<Byte>>, k: nat, changed: seq<Byte>)
    requires Uniform(blocks, cfg.Step()) && Check(cfg, blocks).Passed? && k < |blocks| && |changed| == cfg.Step()
    ensures var faults := BlockFaults(cfg, k, changed);
            Check(cfg, blocks[k := changed]) == if faults == {} then Passed else Failed(k, faults)
  {
    hide BlockFaults;
    var list := FaultList(cfg, blocks[k := changed]);
    forall i | 0 <= i < |list| && i != k
      ensures list[i] == {}
    {
      assert list[i] == FaultList(cfg, blocks)[i];
    }
    if list[k] != {} {
      FirstIs(list, k);
    }
  }

  /** A checked block that passes has no fault. */
  lemma PassingBlock(cfg: Config, blocks: seq<seq<Byte>>, k: nat, fault: Fault)
    requires Uniform(blocks, cfg.Step()) && Check(cfg, blocks).Passed? && k < |blocks|
    ensures !Faulty(fault, cfg, k, blocks[k])
  {
    hide BlockFaults, Faulty;
    assert FaultList(cfg, blocks)[k] == {};
    FaultsMean(cfg, k, blocks[k], fault);
  }

  /**
   * What check makes of a block whose field is changed in one tag: the tag's fault, unless the field now says
   * otherwise.
   */
  function TagVerdict(cfg: Config, k: nat, field: seq<Byte>, fault: Fault): Verdict
    requires |field| == 8
  {
    if FoundAllSet(cfg.flags, field) then Failed(k, {AllOnes})
    else if PassedOver(cfg.flags, field) then Passed
    else Failed(k, {fault})
  }

  lemma TagFaults(cfg: Config, k: nat, changed: seq<Byte>, fault: Fault)
    requires |changed| == cfg.Step() && fault != AllOnes
    requires var field := changed[cfg.blockSize..];
             !FoundAllSet(cfg.flags, field) && !PassedOver(cfg.flags, field) ==>
               forall f :: Faulty(f, cfg, k, changed) <==> f == fault
    ensures var faults := BlockFaults(cfg, k, changed);
            (if faults == {} then Passed else Failed(k, faults)) == TagVerdict(cfg, k, changed[cfg.blockSize..], fault)
  {
    hide BlockFaults, FoundAllSet, PassedOver, Number, GuardNumber, Cleared, ApplicationTag, ReferenceTag;
    forall f
      ensures f in BlockFaults(cfg, k, changed) <==> Faulty(f, cfg, k, changed)
    {
      FaultsMean(cfg, k, changed, f);
    }
    var faults, field := BlockFaults(cfg, k, changed), changed[cfg.blockSize..];
    var all := {AllOnes};
    assert FoundAllSet(cfg.flags, field) ==> faults == all;
    assert !FoundAllSet(cfg.flags, field) && PassedOver(cfg.flags, field) ==> faults == {};
    var one := {fault};
    assert !FoundAllSet(cfg.flags, field) && !PassedOver(cfg.flags, field) ==> faults == one;
  }

  /** Changing the reference tag of an accepted block whose tag is checked is found there, and nothing else is. */
  lemma ReferenceTagDetected(cfg: Config, blocks: seq<seq<Byte>>, k: nat, changed: seq<Byte>)
    requires Uniform(blocks, cfg.Step()) && Check(cfg, blocks).Passed? && k < |blocks|
    requires cfg.flags & 0x40 == 0 && !PassedOver(cfg.flags, blocks[k][cfg.blockSize..])
    requires |changed| == cfg.Step() && changed[..cfg.blockSize + 4] == blocks[k][..cfg.blockSize + 4]
    requires changed[cfg.blockSize + 4..] != blocks[k][cfg.blockSize + 4..]
    ensures Check(cfg, blocks[k := changed]) == TagVerdict(cfg, k, changed[cfg.blockSize..], RefTagMismatch)
  {
    hide BlockFaults, FoundAllSet, PassedOver, Number, GuardNumber, Cleared, ApplicationTag, ReferenceTag, Check;
    var size, block := cfg.blockSize, blocks[k];
    PassingBlock(cfg, blocks, k, AllOnes);
    PassingBlock(cfg, blocks, k, GuardMismatch);
    PassingBlock(cfg, blocks, k, AppTagMismatch);
    PassingBlock(cfg, blocks, k, RefTagMismatch);
    Slices(block, size);
    Slices(changed, size);
    assert changed[..size] == changed[..size + 4][..size] && block[..size] == block[..size + 4][..size];
    assert changed[size..size + 2] == changed[..size + 4][size..size + 2];
    assert block[size..size + 2] == block[..size + 4][size..size + 2];
    assert changed[size + 2..size + 4] == changed[..size + 4][size + 2..];
    assert block[size + 2..size + 4] == block[..size + 4][size + 2..];
    if Number(changed[size + 4..]) == Number(block[size + 4..]) {
      NumberInjective(changed[size + 4..], block[size + 4..]);
      assert false;
    }
    TagFaults(cfg, k, changed, RefTagMismatch);
    ReplacedBlock(cfg, blocks, k, changed);
  }

  /** The same for the application tag, where it has a mask. */
  lemma ApplicationTagDetected(cfg: Config, blocks: seq<seq<Byte>>, k: nat, changed: seq<Byte>)
    requires Uniform(blocks, cfg.Step()) && Check(cfg, blocks).Passed? && k < |blocks|
    requires cfg.source.appMask != 0 && !PassedOver(cfg.flags, blocks[k][cfg.blockSize..])
    requires |changed| == cfg.Step() && changed[..cfg.blockSize + 2] == blocks[k][..cfg.blockSize + 2]
    requires changed[cfg.blockSize + 4..] == blocks[k][cfg.blockSize + 4..] && changed != blocks[k]
    ensures Check(cfg, blocks[k := changed]) == TagVerdict(cfg, k, changed[cfg.blockSize..], AppTagMismatch)
  {
    hide BlockFaults, FoundAllSet, PassedOver, Number, GuardNumber, Cleared, ApplicationTag, ReferenceTag, Check;
    var size, block := cfg.blockSize, blocks[k];
    PassingBlock(cfg, blocks, k, AllOnes);
    PassingBlock(cfg, blocks, k, GuardMismatch);
    PassingBlock(cfg, blocks, k, AppTagMismatch);
    PassingBlock(cfg, blocks, k, RefTagMismatch);
    Slices(block, size);
    Slices(changed, size);
    assert changed[..size] == changed[..size + 2][..size] && block[..size] == block[..size + 2][..size];
    assert changed[size..size + 2] == changed[..size + 2][size..] && block[size..size + 2] == block[..size + 2][size..];
    assert changed == changed[..size + 2] + changed[size + 2..size + 4] + changed[size + 4..];
    assert block == block[..size + 2] + block[size + 2..size + 4] + block[size + 4..];
    if Number(changed[size + 2..size + 4]) == Number(block[size + 2..size + 4]) {
      NumberInjective(changed[size + 2..size + 4], block[size + 2..size + 4]);
      assert false;
    }
    TagFaults(cfg, k, changed, AppTagMismatch);
    ReplacedBlock(cfg, blocks, k, changed);
  }
}
