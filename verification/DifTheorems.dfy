/** What the four DIF operations promise each other. */
module DifTheorems {
  import opened Memory
  import opened BlockLayout
  import opened Registers
  import opened Dif
  import opened Numbers
  import Crc16
  import Crc16Bursts

  // Round trip

  /** Source and destination settings describe the same stream of tags. */
  predicate Matching(cfg: Config) {
    && cfg.source == cfg.destination
    && Has(cfg.flags, SRC_INC_APP_TAG) == Has(cfg.flags, DST_INC_APP_TAG)
    && Has(cfg.flags, SRC_FIX_REF_TAG) == Has(cfg.flags, DST_FIX_REF_TAG)
  }

  lemma InsertedBlock(cfg: Config, payloads: seq<seq<Byte>>, k: nat)
    requires Uniform(payloads, cfg.blockSize) && k < |payloads|
    ensures Insert(cfg, payloads)[k][..cfg.blockSize] == payloads[k]
    ensures LoadField(Insert(cfg, payloads)[k][cfg.blockSize..]) == NewField(cfg, k, payloads[k])
  {
    var field := NewField(cfg, k, payloads[k]);
    LoadStoreField(field);
    assert Insert(cfg, payloads)[k][cfg.blockSize..] == StoreField(field);
  }

  /** Under matching settings a freshly written field has no fault but the all-ones one. */
  lemma NewFieldPasses(cfg: Config, k: nat, payload: seq<Byte>)
    requires Matching(cfg)
    ensures FieldFaults(cfg, k, payload, NewField(cfg, k, payload)) ==
            if AllOnesError(cfg.flags, NewField(cfg, k, payload)) then {AllOnes} else {}
  {
  }

  lemma StripOfInsert(cfg: Config, payloads: seq<seq<Byte>>)
    requires Uniform(payloads, cfg.blockSize)
    ensures Strip(cfg, Insert(cfg, payloads)) == payloads
  {
    hide NewField;
    forall k | 0 <= k < |payloads|
      ensures Insert(cfg, payloads)[k][..cfg.blockSize] == payloads[k]
    {
      InsertedBlock(cfg, payloads, k);
    }
  }

  lemma CheckOfInsert(cfg: Config, payloads: seq<seq<Byte>>)
    requires Uniform(payloads, cfg.blockSize) && Matching(cfg)
    ensures Check(cfg, Insert(cfg, payloads)).Passed? <==>
            forall k :: 0 <= k < |payloads| ==> !AllOnesError(cfg.flags, NewField(cfg, k, payloads[k]))
  {
    hide NewField, FieldFaults, StoreField, LoadField, AllOnesError;
    var blocks := Insert(cfg, payloads);
    forall k | 0 <= k < |payloads|
      ensures FaultList(cfg, blocks)[k] == {} <==> !AllOnesError(cfg.flags, NewField(cfg, k, payloads[k]))
    {
      InsertedBlock(cfg, payloads, k);
      NewFieldPasses(cfg, k, payloads[k]);
    }
  }

  /** Strip returns what insert was given; check accepts it exactly when no written field trips the all-ones error. */
  lemma RoundTrip(cfg: Config, data: seq<Byte>)
    requires |data| % cfg.blockSize == 0
    ensures StripBuffer(cfg, InsertBuffer(cfg, data)) == data
    ensures Matching(cfg) ==>
              var payloads := Blocks(data, cfg.blockSize);
              CheckBuffer(cfg, InsertBuffer(cfg, data)).Passed? <==>
              forall k :: 0 <= k < |payloads| ==> !AllOnesError(cfg.flags, NewField(cfg, k, payloads[k]))
  {
    hide Insert, Strip, Check, NewField, AllOnesError, Matching, Config.Step;
    var payloads := Blocks(data, cfg.blockSize);
    BlocksOfJoin(Insert(cfg, payloads), cfg.Step());
    JoinOfBlocks(data, cfg.blockSize);
    StripOfInsert(cfg, payloads);
    if Matching(cfg) {
      CheckOfInsert(cfg, payloads);
    }
  }

  /** The round trip on the settings that cannot raise the all-ones error. */
  lemma RoundTripAccepted(cfg: Config, data: seq<Byte>)
    requires |data| % cfg.blockSize == 0 && Matching(cfg)
    requires !Has(cfg.flags, SRC_F_DETECT_ALL) || !Has(cfg.flags, SRC_F_ENABLE_ERROR)
    ensures CheckBuffer(cfg, InsertBuffer(cfg, data)).Passed?
  {
    hide Insert, Check, NewField, Config.Step;
    RoundTrip(cfg, data);
  }

  lemma Reversed16(v: bv16)
    ensures Store16(Reverse16(v)) == BigEndian16(v)
  {
  }

  lemma Reversed32(v: bv32)
    ensures Store32(Reverse32(v)) == BigEndian32(v)
  {
  }

  lemma FieldBytes(guard: bv16, app: bv16, ref: bv32)
    ensures StoreField(Field(Reverse16(guard), Reverse16(app), Reverse32(ref))) ==
            BigEndian16(guard) + BigEndian16(app) + BigEndian32(ref)
  {
    hide Store16, Store32, Reverse16, Reverse32, BigEndian16, BigEndian32;
    Reversed16(guard);
    Reversed16(app);
    Reversed32(ref);
  }

  /** On the medium every part of a new field lies with its most significant byte first. */
  lemma FieldIsBigEndian(cfg: Config, k: nat, payload: seq<Byte>)
    ensures StoreField(NewField(cfg, k, payload)) ==
            BigEndian16(Inverted(cfg.flags, Crc16.Crc(payload, CrcSeed(cfg.flags)))) +
            BigEndian16(Masked(AppTagAt(cfg.destination.appTag, Has(cfg.flags, DST_INC_APP_TAG), k),
                               cfg.destination.appMask)) +
            BigEndian32(RefTagAt(cfg.destination.refTag, Has(cfg.flags, DST_FIX_REF_TAG), k))
  {
    hide Crc16.Crc, CrcSeed, Has, AppTagAt, RefTagAt, StoreField, Reverse16, Reverse32, BigEndian16, BigEndian32,
         Inverted, Masked;
    FieldBytes(Inverted(cfg.flags, Crc16.Crc(payload, CrcSeed(cfg.flags))),
               Masked(AppTagAt(cfg.destination.appTag, Has(cfg.flags, DST_INC_APP_TAG), k), cfg.destination.appMask),
               RefTagAt(cfg.destination.refTag, Has(cfg.flags, DST_FIX_REF_TAG), k));
  }

  // Update against strip and insert

  lemma StoredParts(payload: seq<Byte>, f: Field)
    ensures var block := payload + StoreField(f); var size := |payload|;
            && block[..size] == payload
            && block[size..size + 2] == Store16(f.guard)
            && block[size + 2..size + 4] == Store16(f.appTag)
            && block[size + 4..] == Store32(f.refTag)
  {
    hide Store16, Store32;
  }

  /** Each field of an updated block is the source's or the one insertion after stripping writes, as its flag says. */
  lemma UpdateFieldByField(cfg: Config, blocks: seq<seq<Byte>>, k: nat)
    requires Uniform(blocks, cfg.Step()) && k < |blocks|
    ensures var size := cfg.blockSize;
            var was, now := blocks[k], Update(cfg, blocks)[k];
            var inserted := Insert(cfg, Strip(cfg, blocks))[k];
            && now[..size] == was[..size] == inserted[..size]
            && now[size..size + 2] == (if Has(cfg.flags, DST_PASS_GUARD) then was else inserted)[size..size + 2]
            && now[size + 2..size + 4] ==
               (if Has(cfg.flags, DST_PASS_APP_TAG) then was else inserted)[size + 2..size + 4]
            && now[size + 4..] == (if Has(cfg.flags, DST_PASS_REF_TAG) then was else inserted)[size + 4..]
  {
    hide NewField, StoreField, LoadField, Store16, Store32;
    var size := cfg.blockSize;
    var was := blocks[k];
    var payload, field := was[..size], LoadField(was[size..]);
    StoredParts(payload, UpdatedField(cfg, k, payload, field));
    StoredParts(payload, NewField(cfg, k, payload));
    StoreLoadField(was[size..]);
    StoredParts(payload, field);
    assert was == payload + StoreField(field);
  }

  /** With no pass-through flag, update is strip followed by insert under the destination settings. */
  lemma UpdateIsInsertAfterStrip(cfg: Config, buffer: seq<Byte>)
    requires !Has(cfg.flags, DST_PASS_GUARD) && !Has(cfg.flags, DST_PASS_APP_TAG) && !Has(cfg.flags, DST_PASS_REF_TAG)
    ensures UpdateBuffer(cfg, buffer) == InsertBuffer(cfg, StripBuffer(cfg, buffer))
  {
    hide NewField;
    var blocks := Blocks(buffer, cfg.Step());
    var stripped := Strip(cfg, blocks);
    BlocksOfJoin(stripped, cfg.blockSize);
    assert Update(cfg, blocks) == Insert(cfg, stripped);
  }

  // Guard detection

  lemma Reverse16Injective(x: bv16, y: bv16)
    requires Reverse16(x) == Reverse16(y)
    ensures x == y
  {
    hide Reverse16;
    Reverse16Twice(x);
    Reverse16Twice(y);
  }

  lemma Reverse16Twice(v: bv16)
    ensures Reverse16(Reverse16(v)) == v
  {
  }

  lemma ComplementInjective(x: bv16, y: bv16)
    requires !x == !y
    ensures x == y
  {
    assert !!x == x && !!y == y;
  }

  lemma GuardSeesCrc(cfg: Config, p: seq<Byte>, r: seq<Byte>)
    requires Guard(cfg.flags, p) == Guard(cfg.flags, r)
    ensures Crc16.Crc(p, CrcSeed(cfg.flags)) == Crc16.Crc(r, CrcSeed(cfg.flags))
  {
    hide Crc16.Crc, Reverse16, CrcSeed, Has;
    var c, d := Crc16.Crc(p, CrcSeed(cfg.flags)), Crc16.Crc(r, CrcSeed(cfg.flags));
    if Has(cfg.flags, INVERT_CRC_RESULT) {
      Reverse16Injective(!c, !d);
      ComplementInjective(c, d);
    } else {
      Reverse16Injective(c, d);
    }
  }

  /** Another payload with another checksum under the same field is a guard fault and no other. */
  lemma CorruptBlockFails(cfg: Config, k: nat, block: seq<Byte>, corrupt: seq<Byte>)
    requires |block| == |corrupt| == cfg.Step() && corrupt[cfg.blockSize..] == block[cfg.blockSize..]
    requires BlockFaults(cfg, k, block) == {}
    requires !Has(cfg.flags, SRC_GUARD_CHECK_DISABLE) && !Skipped(cfg.flags, LoadField(block[cfg.blockSize..]))
    requires var size, seed := cfg.blockSize, CrcSeed(cfg.flags);
             Crc16.Crc(corrupt[..size], seed) != Crc16.Crc(block[..size], seed)
    ensures BlockFaults(cfg, k, corrupt) == {GuardMismatch}
  {
    hide Guard, CrcSeed, Crc16.Crc, LoadField, Skipped, SourceApp, SourceRef;
    if Guard(cfg.flags, corrupt[..cfg.blockSize]) == Guard(cfg.flags, block[..cfg.blockSize]) {
      GuardSeesCrc(cfg, corrupt[..cfg.blockSize], block[..cfg.blockSize]);
      assert false;
    }
  }

  /** Among blocks that pass, such a block makes check fail there, with the guard bit and no other. */
  lemma GuardDetects(cfg: Config, blocks: seq<seq<Byte>>, k: nat, corrupt: seq<Byte>)
    requires Uniform(blocks, cfg.Step()) && Check(cfg, blocks).Passed? && k < |blocks|
    requires !Has(cfg.flags, SRC_GUARD_CHECK_DISABLE) && !Skipped(cfg.flags, LoadField(blocks[k][cfg.blockSize..]))
    requires |corrupt| == cfg.Step() && corrupt[cfg.blockSize..] == blocks[k][cfg.blockSize..]
    requires var size, seed := cfg.blockSize, CrcSeed(cfg.flags);
             Crc16.Crc(corrupt[..size], seed) != Crc16.Crc(blocks[k][..size], seed)
    ensures Check(cfg, blocks[k := corrupt]) == Failed(k, {GuardMismatch})
  {
    hide BlockFaults, Skipped, LoadField, CrcSeed, Crc16.Crc;
    var list := FaultList(cfg, blocks[k := corrupt]);
    CorruptBlockFails(cfg, k, blocks[k], corrupt) by {
      assert FaultList(cfg, blocks)[k] == {};
    }
    forall i | 0 <= i < k
      ensures list[i] == {}
    {
      assert list[i] == FaultList(cfg, blocks)[i];
    }
    FirstIs(list, k);
  }

  /**
   * A payload other than the one checked, differing from it within sixteen consecutive bits wherever they begin, is
   * found.
   */
  lemma GuardDetectsBurst(cfg: Config, blocks: seq<seq<Byte>>, k: nat, corrupt: seq<Byte>, p: nat)
    requires Uniform(blocks, cfg.Step()) && Check(cfg, blocks).Passed? && k < |blocks|
    requires !Has(cfg.flags, SRC_GUARD_CHECK_DISABLE) && !Skipped(cfg.flags, LoadField(blocks[k][cfg.blockSize..]))
    requires |corrupt| == cfg.Step() && corrupt[cfg.blockSize..] == blocks[k][cfg.blockSize..] && corrupt != blocks[k]
    requires Crc16Bursts.Burst(corrupt[..cfg.blockSize], blocks[k][..cfg.blockSize], p)
    ensures Check(cfg, blocks[k := corrupt]) == Failed(k, {GuardMismatch})
  {
    hide Check, Skipped, LoadField, CrcSeed, Crc16.Crc, Crc16Bursts.Burst;
    var size, seed := cfg.blockSize, CrcSeed(cfg.flags);
    assert corrupt == corrupt[..size] + corrupt[size..] && blocks[k] == blocks[k][..size] + blocks[k][size..];
    if Crc16.Crc(corrupt[..size], seed) == Crc16.Crc(blocks[k][..size], seed) {
      Crc16Bursts.CrcDetectsBurst(corrupt[..size], blocks[k][..size], p, seed);
      assert false;
    }
    GuardDetects(cfg, blocks, k, corrupt);
  }

  /** Corrupting bytes j and j + 1 of payload k makes check fail there, with the guard bit and no other. */
  lemma GuardDetectsPair(cfg: Config, blocks: seq<seq<Byte>>, k: nat, j: nat, a: Byte, b: Byte)
    requires Uniform(blocks, cfg.Step()) && Check(cfg, blocks).Passed?
    requires !Has(cfg.flags, SRC_GUARD_CHECK_DISABLE)
    requires k < |blocks| && j + 1 < cfg.blockSize
    requires !Skipped(cfg.flags, LoadField(blocks[k][cfg.blockSize..]))
    requires blocks[k][j] != a || blocks[k][j + 1] != b
    ensures Check(cfg, blocks[k := blocks[k][j := a][j + 1 := b]]) == Failed(k, {GuardMismatch})
  {
    hide Check, Skipped, LoadField, CrcSeed, Crc16.Crc;
    var size, seed := cfg.blockSize, CrcSeed(cfg.flags);
    var block, corrupt := blocks[k], blocks[k][j := a][j + 1 := b];
    assert corrupt[size..] == block[size..];
    assert corrupt[..size] == block[..size][j := a][j + 1 := b];
    if Crc16.Crc(corrupt[..size], seed) == Crc16.Crc(block[..size], seed) {
      Crc16.CrcDetectsPair(block[..size], j, a, b, seed);
      assert false;
    }
    GuardDetects(cfg, blocks, k, corrupt);
  }

  /** The same on a buffer: one or two adjacent corrupted payload bytes at p, found in the block that holds p. */
  lemma GuardDetectsBytes(cfg: Config, buffer: seq<Byte>, p: nat, a: Byte, b: Byte)
    requires CheckBuffer(cfg, buffer).Passed? && !Has(cfg.flags, SRC_GUARD_CHECK_DISABLE)
    requires p + 1 < |buffer| && Count(p, cfg.Step()) < Count(|buffer|, cfg.Step())
             && p % cfg.Step() + 1 < cfg.blockSize
    requires !Skipped(cfg.flags, LoadField(BlockAt(buffer, cfg.Step(), Count(p, cfg.Step()))[cfg.blockSize..]))
    requires buffer[p] != a || buffer[p + 1] != b
    ensures CheckBuffer(cfg, buffer[p := a][p + 1 := b]) == Failed(Count(p, cfg.Step()), {GuardMismatch})
  {
    hide Check, Skipped, LoadField;
    BlocksOfPairUpdate(buffer, cfg.Step(), p, a, b);
    GuardDetectsPair(cfg, Blocks(buffer, cfg.Step()), Count(p, cfg.Step()), p % cfg.Step(), a, b);
  }

  // Resuming after q blocks

  /** The settings under which block q is the first: both sides' tags advanced by q. */
  function Advance(cfg: Config, q: nat): Config {
    cfg.(source := cfg.source.(appTag := AppTagAt(cfg.source.appTag, Has(cfg.flags, SRC_INC_APP_TAG), q),
                               refTag := RefTagAt(cfg.source.refTag, Has(cfg.flags, SRC_FIX_REF_TAG), q)),
         destination := cfg.destination.(appTag := AppTagAt(cfg.destination.appTag, Has(cfg.flags, DST_INC_APP_TAG), q),
                                         refTag :=
                                           RefTagAt(cfg.destination.refTag, Has(cfg.flags, DST_FIX_REF_TAG), q)))
  }

  lemma AdvancedTags(cfg: Config, q: nat, k: nat)
    ensures SourceApp(Advance(cfg, q), k) == SourceApp(cfg, q + k)
    ensures SourceRef(Advance(cfg, q), k) == SourceRef(cfg, q + k)
    ensures DestinationApp(Advance(cfg, q), k) == DestinationApp(cfg, q + k)
    ensures DestinationRef(Advance(cfg, q), k) == DestinationRef(cfg, q + k)
  {
    hide NextAppTag, NextRefTag, Reverse16, Reverse32;
    IterateSum(NextAppTag(Has(cfg.flags, SRC_INC_APP_TAG)), cfg.source.appTag, q, k);
    IterateSum(NextRefTag(Has(cfg.flags, SRC_FIX_REF_TAG)), cfg.source.refTag, q, k);
    IterateSum(NextAppTag(Has(cfg.flags, DST_INC_APP_TAG)), cfg.destination.appTag, q, k);
    IterateSum(NextRefTag(Has(cfg.flags, DST_FIX_REF_TAG)), cfg.destination.refTag, q, k);
  }

  lemma AdvancedFaults(cfg: Config, q: nat, k: nat, block: seq<Byte>)
    requires |block| == cfg.Step()
    ensures BlockFaults(Advance(cfg, q), k, block) == BlockFaults(cfg, q + k, block)
  {
    AdvancedTags(cfg, q, k);
    hide SourceApp, SourceRef, Guard, AllOnesError, Skipped, LoadField, Has;
  }

  lemma AdvancedUpdate(cfg: Config, q: nat, k: nat, block: seq<Byte>)
    requires |block| == cfg.Step()
    ensures UpdateBlock(Advance(cfg, q), k, block) == UpdateBlock(cfg, q + k, block)
  {
    AdvancedTags(cfg, q, k);
    hide DestinationApp, DestinationRef, Guard, LoadField, StoreField, Has;
  }

  function Shifted(v: Verdict, q: nat): Verdict {
    match v
    case Passed => Passed
    case Failed(k, faults) => Failed(q + k, faults)
  }

  lemma FirstAfter(whole: seq<set<Fault>>, back: seq<set<Fault>>, q: nat)
    requires |whole| == q + |back|
    requires forall k :: 0 <= k < q ==> whole[k] == {}
    requires forall k :: 0 <= k < |back| ==> back[k] == whole[q + k]
    ensures First(whole) == Shifted(First(back), q)
  {
    match First(back)
    case Passed =>
      forall k | 0 <= k < |whole|
        ensures whole[k] == {}
      {
        if q <= k {
          assert back[k - q] == {};
        }
      }
    case Failed(k, faults) =>
      forall i | 0 <= i < q + k
        ensures whole[i] == {}
      {
        if q <= i {
          assert back[i - q] == {};
        }
      }
      FirstIs(whole, q + k);
  }

  /** Checking the rest with the tags of block q finds what checking the whole finds, q blocks later. */
  lemma CheckResumes(cfg: Config, blocks: seq<seq<Byte>>, q: nat)
    requires Uniform(blocks, cfg.Step()) && q <= |blocks|
    requires Check(cfg, blocks[..q]).Passed?
    ensures Check(cfg, blocks) == Shifted(Check(Advance(cfg, q), blocks[q..]), q)
  {
    hide BlockFaults;
    var whole, front := FaultList(cfg, blocks), FaultList(cfg, blocks[..q]);
    var back := FaultList(Advance(cfg, q), blocks[q..]);
    forall k | 0 <= k < q
      ensures whole[k] == {}
    {
      assert front[k] == whole[k];
    }
    forall k | 0 <= k < |back|
      ensures back[k] == whole[q + k]
    {
      AdvancedFaults(cfg, q, k, blocks[q..][k]);
    }
    FirstAfter(whole, back, q);
  }

  /** Updating the first q blocks and then the rest with block q's tags updates the whole. */
  lemma UpdateResumes(cfg: Config, blocks: seq<seq<Byte>>, q: nat)
    requires Uniform(blocks, cfg.Step()) && q <= |blocks|
    ensures Update(cfg, blocks) == Update(cfg, blocks[..q]) + Update(Advance(cfg, q), blocks[q..])
  {
    hide UpdateBlock;
    forall k | q <= k < |blocks|
      ensures Update(cfg, blocks)[k] == Update(Advance(cfg, q), blocks[q..])[k - q]
    {
      AdvancedUpdate(cfg, q, k - q, blocks[q..][k - q]);
    }
  }
}
