/** The legacy DIF routines: loops over a job's blocks in flat memory. */
module DifEngine {
  import opened Memory
  import opened BlockLayout
  import opened Dif
  import Crc16
  import MemMove

  datatype Status = Ok | CheckError

  method StoreWord16(mem: array<Byte>, a: nat, v: bv16)
    requires InBounds(mem[..], a, 2)
    modifies mem
    ensures mem[..] == Write(old(mem[..]), a, Store16(v))
  {
    var s := Store16(v);
    mem[a], mem[a + 1] := s[0], s[1];
  }

  method StoreWord32(mem: array<Byte>, a: nat, v: bv32)
    requires InBounds(mem[..], a, 4)
    modifies mem
    ensures mem[..] == Write(old(mem[..]), a, Store32(v))
  {
    var s := Store32(v);
    mem[a], mem[a + 1], mem[a + 2], mem[a + 3] := s[0], s[1], s[2], s[3];
  }

  class DifJob {
    const cfg: Config
    const source: nat
    const destination: nat
    const length: uint32
    var offset: uint32
    var result: bv32

    /** A job as the kernels pack it: every field they do not set is zero. */
    constructor (cfg: Config, source: nat, destination: nat, length: uint32)
      ensures this.cfg == cfg && this.source == source && this.destination == destination && this.length == length
      ensures offset == 0 && result == 0
    {
      this.cfg, this.source, this.destination, this.length := cfg, source, destination, length;
      offset, result := 0, 0;
    }

    ghost predicate SourceInBounds(m: seq<Byte>) {
      InBounds(m, source, length)
    }

    ghost function Source(m: seq<Byte>): seq<Byte>
      requires SourceInBounds(m)
    {
      Read(m, source, length)
    }

    /** dml_legacy_dif_check: the verdict on the source, and on failure where and why. */
    method Check(mem: array<Byte>) returns (status: Status)
      requires SourceInBounds(mem[..])
      modifies this
      ensures match CheckBuffer(cfg, Source(mem[..]))
              case Passed => status == Ok && result == 0 && offset == old(offset)
              case Failed(k, faults) =>
                status == CheckError && offset == Offset(k, cfg.Step()) && result == FaultBits(faults)
    {
      hide FieldFaults, FaultBits, LoadField, NextAppTag, NextRefTag, AppTagAt, RefTagAt, Has, Config.Step, Offset,
           Count;
      var step := cfg.Step();
      var blockCount := Count(length, step);
      ghost var list := FaultList(cfg, Blocks(Source(mem[..]), step));
      var appTag, refTag := cfg.source.appTag, cfg.source.refTag;
      TagsAtZero(cfg.source.appTag, Has(cfg.flags, SRC_INC_APP_TAG), cfg.source.refTag,
                 Has(cfg.flags, SRC_FIX_REF_TAG));
      for block := 0 to blockCount
        invariant offset == old(offset)
        invariant appTag == AppTagAt(cfg.source.appTag, Has(cfg.flags, SRC_INC_APP_TAG), block)
        invariant refTag == RefTagAt(cfg.source.refTag, Has(cfg.flags, SRC_FIX_REF_TAG), block)
        invariant forall k :: 0 <= k < block ==> list[k] == {}
      {
        BlockOfRead(mem[..], source, length, step, block);
        var faults := CheckBlock(mem, source + Offset(block, step), appTag, refTag, block);
        if faults != {} {
          FirstIs(list, block);
          offset := Offset(block, step);
          result := FaultBits(faults);
          return CheckError;
        }
        TagsNext(cfg.source.appTag, Has(cfg.flags, SRC_INC_APP_TAG), cfg.source.refTag, Has(cfg.flags, SRC_FIX_REF_TAG),
                 block);
        appTag := NextAppTag(Has(cfg.flags, SRC_INC_APP_TAG))(appTag);
        refTag := NextRefTag(Has(cfg.flags, SRC_FIX_REF_TAG))(refTag);
      }
      result := 0;
      return Ok;
    }

    /** The body of the check loop: everything wrong with one block. */
    method CheckBlock(mem: array<Byte>, a: nat, appTag: bv16, refTag: bv32, ghost k: nat) returns (faults: set<Fault>)
      requires InBounds(mem[..], a, cfg.Step())
      requires appTag == AppTagAt(cfg.source.appTag, Has(cfg.flags, SRC_INC_APP_TAG), k)
      requires refTag == RefTagAt(cfg.source.refTag, Has(cfg.flags, SRC_FIX_REF_TAG), k)
      ensures faults == BlockFaults(cfg, k, Read(mem[..], a, cfg.Step()))
    {
      hide LoadField, GuardBad, RefTagBad, AppTagBad, Skipped, AllOnesError;
      var size := cfg.blockSize;
      var field := LoadField(mem[a + size..a + size + FIELD_SIZE]);
      ghost var block := Read(mem[..], a, cfg.Step());
      assert block[..size] == Read(mem[..], a, size);
      assert block[size..] == mem[a + size..a + size + FIELD_SIZE];
      faults := {};
      if AllOnesError(cfg.flags, field) {
        return {AllOnes};
      }
      if !Skipped(cfg.flags, field) {
        var badGuard := CheckGuard(mem, a, field);
        if badGuard {
          faults := faults + {GuardMismatch};
        }
        var badRef, badApp := CheckTags(appTag, refTag, k, field);
        if badRef {
          faults := faults + {RefTagMismatch};
        }
        if badApp {
          faults := faults + {AppTagMismatch};
        }
      }
    }

    method CheckGuard(mem: array<Byte>, a: nat, field: Field) returns (bad: bool)
      requires InBounds(mem[..], a, cfg.blockSize)
      ensures bad == GuardBad(cfg.flags, Read(mem[..], a, cfg.blockSize), field)
    {
      hide Crc16.Crc, StoredGuard, CrcSeed, Has;
      bad := false;
      if !Has(cfg.flags, SRC_GUARD_CHECK_DISABLE) {
        var crc := Crc16.Calculate(mem, a, cfg.blockSize, CrcSeed(cfg.flags));
        bad := StoredGuard(cfg.flags, crc) != field.guard;
      }
    }

    method CheckTags(appTag: bv16, refTag: bv32, ghost k: nat, field: Field) returns (badRef: bool, badApp: bool)
      requires appTag == AppTagAt(cfg.source.appTag, Has(cfg.flags, SRC_INC_APP_TAG), k)
      requires refTag == RefTagAt(cfg.source.refTag, Has(cfg.flags, SRC_FIX_REF_TAG), k)
      ensures badRef == RefTagBad(cfg, k, field) && badApp == AppTagBad(cfg, k, field)
    {
      hide StoredAppTag, Reverse32, AppTagAt, RefTagAt, Has, AppTagChecked;
      badRef := !Has(cfg.flags, SRC_REF_TAG_CHECK_DISABLE) && Reverse32(refTag) != field.refTag;
      badApp := AppTagChecked(cfg.source.appMask) && StoredAppTag(appTag, cfg.source.appMask) != field.appTag;
    }

    /** dml_legacy_dif_insert: the destination becomes the source's blocks, each followed by its new field. */
    method Insert(mem: array<Byte>) returns (status: Status)
      requires SourceInBounds(mem[..])
      requires InBounds(mem[..], destination, Offset(Count(length, cfg.blockSize), cfg.Step()))
      requires Disjoint(source, length, destination, Offset(Count(length, cfg.blockSize), cfg.Step()))
      modifies mem
      ensures status == Ok
      ensures |InsertBuffer(cfg, Source(old(mem[..])))| == Offset(Count(length, cfg.blockSize), cfg.Step())
      ensures mem[..] == Write(old(mem[..]), destination, InsertBuffer(cfg, Source(old(mem[..]))))
    {
      hide NewField, NextAppTag, NextRefTag, AppTagAt, RefTagAt, Has, Config.Step, Offset, Count, Write, Read;
      var size, step := cfg.blockSize, cfg.Step();
      var blockCount := Count(length, size);
      ghost var m := mem[..];
      ghost var payloads := Blocks(Source(m), size);
      ghost var out := Dif.Insert(cfg, payloads);
      var appTag, refTag := cfg.destination.appTag, cfg.destination.refTag;
      TagsAtZero(cfg.destination.appTag, Has(cfg.flags, DST_INC_APP_TAG), cfg.destination.refTag,
                 Has(cfg.flags, DST_FIX_REF_TAG));
      InsertSize(cfg, Source(m));
      WriteNothing(m, destination);
      OffsetZero(step);
      for block := 0 to blockCount
        invariant appTag == AppTagAt(cfg.destination.appTag, Has(cfg.flags, DST_INC_APP_TAG), block)
        invariant refTag == RefTagAt(cfg.destination.refTag, Has(cfg.flags, DST_FIX_REF_TAG), block)
        invariant |Join(out[..block])| == Offset(block, step) <= Offset(blockCount, step)
        invariant mem[..] == Write(m, destination, Join(out[..block]))
      {
        WriteNextBlock(m, destination, out, step, block);
        ReadAcrossWrite(m, source, length, size, block, destination, Join(out[..block]));
        InsertBlock(mem, source + Offset(block, size), destination + Offset(block, step), appTag, refTag, block);
        TagsNext(cfg.destination.appTag, Has(cfg.flags, DST_INC_APP_TAG), cfg.destination.refTag,
                 Has(cfg.flags, DST_FIX_REF_TAG), block);
        appTag := NextAppTag(Has(cfg.flags, DST_INC_APP_TAG))(appTag);
        refTag := NextRefTag(Has(cfg.flags, DST_FIX_REF_TAG))(refTag);
      }
      assert out[..blockCount] == out;
      return Ok;
    }

    method InsertBlock(mem: array<Byte>, s: nat, d: nat, appTag: bv16, refTag: bv32, ghost k: nat)
      requires InBounds(mem[..], s, cfg.blockSize) && InBounds(mem[..], d, cfg.Step())
      requires appTag == AppTagAt(cfg.destination.appTag, Has(cfg.flags, DST_INC_APP_TAG), k)
      requires refTag == RefTagAt(cfg.destination.refTag, Has(cfg.flags, DST_FIX_REF_TAG), k)
      modifies mem
      ensures var payload := Read(old(mem[..]), s, cfg.blockSize);
              mem[..] == Write(old(mem[..]), d, payload + StoreField(NewField(cfg, k, payload)))
    {
      hide Crc16.Crc, CrcSeed, StoredGuard, StoredAppTag, Reverse32, AppTagAt, RefTagAt, Has, StoreField, Write, Read;
      var size := cfg.blockSize;
      ghost var m := mem[..];
      ghost var payload := Read(m, s, size);
      ghost var field := NewField(cfg, k, payload);
      MemMove.RefMemMove(mem, s, d, size);
      ReadBack(m, d, payload);
      var crc := Crc16.Calculate(mem, d, size, CrcSeed(cfg.flags));
      StoreWord16(mem, d + size + 2, StoredAppTag(appTag, cfg.destination.appMask));
      StoreWord32(mem, d + size + 4, Reverse32(refTag));
      StoreWord16(mem, d + size, StoredGuard(cfg.flags, crc));
      FieldStores(m, d, payload, field);
    }

    /** dml_legacy_dif_strip: a source that passes loses its fields; one that fails leaves memory as it was. */
    method Strip(mem: array<Byte>) returns (status: Status)
      requires SourceInBounds(mem[..])
      requires InBounds(mem[..], destination, Offset(Count(length, cfg.Step()), cfg.blockSize))
      requires Disjoint(source, length, destination, Offset(Count(length, cfg.Step()), cfg.blockSize))
      modifies this, mem
      ensures |StripBuffer(cfg, Source(old(mem[..])))| == Offset(Count(length, cfg.Step()), cfg.blockSize)
      ensures match CheckBuffer(cfg, Source(old(mem[..])))
              case Passed =>
                && status == Ok && result == 0 && offset == old(offset)
                && mem[..] == Write(old(mem[..]), destination, StripBuffer(cfg, Source(old(mem[..]))))
              case Failed(k, faults) =>
                && status == CheckError && offset == Offset(k, cfg.Step()) && result == FaultBits(faults)
                && mem[..] == old(mem[..])
    {
      hide Dif.Check, FaultBits, Config.Step, Offset, Count, Write, Read;
      var size, step := cfg.blockSize, cfg.Step();
      var blockCount := Count(length, step);
      ghost var m := mem[..];
      ghost var out := Dif.Strip(cfg, Blocks(Source(m), step));
      StripSize(cfg, Source(m));
      WriteNothing(m, destination);
      OffsetZero(size);
      status := Check(mem);
      if status != Ok {
        return;
      }
      for block := 0 to blockCount
        invariant |Join(out[..block])| == Offset(block, size) <= Offset(blockCount, size)
        invariant mem[..] == Write(m, destination, Join(out[..block]))
        invariant result == 0 && offset == old(offset)
      {
        WriteNextBlock(m, destination, out, size, block);
        ReadAcrossWrite(m, source, length, step, block, destination, Join(out[..block]));
        StripOne(mem, source + Offset(block, step), destination + Offset(block, size));
      }
      assert out[..blockCount] == out;
    }

    method StripOne(mem: array<Byte>, s: nat, d: nat)
      requires InBounds(mem[..], s, cfg.Step()) && InBounds(mem[..], d, cfg.blockSize)
      modifies mem
      ensures mem[..] == Write(old(mem[..]), d, Read(old(mem[..]), s, cfg.Step())[..cfg.blockSize])
    {
      MemMove.RefMemMove(mem, s, d, cfg.blockSize);
      assert Read(old(mem[..]), s, cfg.Step())[..cfg.blockSize] == Read(old(mem[..]), s, cfg.blockSize);
    }

    /**
     * dml_legacy_dif_update: a source that passes gets new fields but for the passed-through ones; one that fails
     * leaves memory as it was.
     */
    method Update(mem: array<Byte>) returns (status: Status)
      requires SourceInBounds(mem[..])
      requires InBounds(mem[..], destination, Offset(Count(length, cfg.Step()), cfg.Step()))
      requires Disjoint(source, length, destination, Offset(Count(length, cfg.Step()), cfg.Step()))
      modifies this, mem
      ensures |UpdateBuffer(cfg, Source(old(mem[..])))| == Offset(Count(length, cfg.Step()), cfg.Step())
      ensures match CheckBuffer(cfg, Source(old(mem[..])))
              case Passed =>
                && status == Ok && result == 0 && offset == old(offset)
                && mem[..] == Write(old(mem[..]), destination, UpdateBuffer(cfg, Source(old(mem[..]))))
              case Failed(k, faults) =>
                && status == CheckError && offset == Offset(k, cfg.Step()) && result == FaultBits(faults)
                && mem[..] == old(mem[..])
    {
      hide Dif.Check, FaultBits, Config.Step, Offset, Count, Dif.UpdateBlock, NextAppTag, NextRefTag, AppTagAt,
           RefTagAt, Has, Write, Read;
      var step := cfg.Step();
      var blockCount := Count(length, step);
      ghost var m := mem[..];
      ghost var out := Dif.Update(cfg, Blocks(Source(m), step));
      var appTag, refTag := cfg.destination.appTag, cfg.destination.refTag;
      TagsAtZero(cfg.destination.appTag, Has(cfg.flags, DST_INC_APP_TAG), cfg.destination.refTag,
                 Has(cfg.flags, DST_FIX_REF_TAG));
      UpdateSize(cfg, Source(m));
      WriteNothing(m, destination);
      OffsetZero(step);
      status := Check(mem);
      if status != Ok {
        return;
      }
      for block := 0 to blockCount
        invariant appTag == AppTagAt(cfg.destination.appTag, Has(cfg.flags, DST_INC_APP_TAG), block)
        invariant refTag == RefTagAt(cfg.destination.refTag, Has(cfg.flags, DST_FIX_REF_TAG), block)
        invariant |Join(out[..block])| == Offset(block, step) <= Offset(blockCount, step)
        invariant mem[..] == Write(m, destination, Join(out[..block]))
        invariant result == 0 && offset == old(offset)
      {
        WriteNextBlock(m, destination, out, step, block);
        ReadAcrossWrite(m, source, length, step, block, destination, Join(out[..block]));
        UpdateOne(mem, source + Offset(block, step), destination + Offset(block, step), appTag, refTag, block);
        TagsNext(cfg.destination.appTag, Has(cfg.flags, DST_INC_APP_TAG), cfg.destination.refTag,
                 Has(cfg.flags, DST_FIX_REF_TAG), block);
        appTag := NextAppTag(Has(cfg.flags, DST_INC_APP_TAG))(appTag);
        refTag := NextRefTag(Has(cfg.flags, DST_FIX_REF_TAG))(refTag);
      }
      assert out[..blockCount] == out;
    }

    method UpdateOne(mem: array<Byte>, s: nat, d: nat, appTag: bv16, refTag: bv32, ghost k: nat)
      requires InBounds(mem[..], s, cfg.Step()) && InBounds(mem[..], d, cfg.Step())
      requires appTag == AppTagAt(cfg.destination.appTag, Has(cfg.flags, DST_INC_APP_TAG), k)
      requires refTag == RefTagAt(cfg.destination.refTag, Has(cfg.flags, DST_FIX_REF_TAG), k)
      modifies mem
      ensures mem[..] == Write(old(mem[..]), d, UpdateBlock(cfg, k, Read(old(mem[..]), s, cfg.Step())))
    {
      hide Crc16.Crc, CrcSeed, StoredGuard, StoredAppTag, Reverse32, AppTagAt, RefTagAt, Has, StoreField, LoadField,
           Write;
      var size := cfg.blockSize;
      ghost var m := mem[..];
      ghost var block := Read(m, s, cfg.Step());
      ghost var payload, was := block[..size], LoadField(block[size..]);
      ghost var now := UpdatedField(cfg, k, payload, was);
      MemMove.RefMemMove(mem, s, d, cfg.Step());
      StoreLoadField(block[size..]);
      assert block == payload + StoreField(was);
      ReadFront(m, d, payload, StoreField(was));
      if !Has(cfg.flags, DST_PASS_GUARD) {
        var crc := Crc16.Calculate(mem, d, size, CrcSeed(cfg.flags));
        StoreWord16(mem, d + size, StoredGuard(cfg.flags, crc));
        StoreGuardPart(m, d, payload, was, now.guard);
      }
      ghost var f1 := was.(guard := now.guard);
      assert mem[..] == Write(m, d, payload + StoreField(f1));
      if !Has(cfg.flags, DST_PASS_APP_TAG) {
        StoreWord16(mem, d + size + 2, StoredAppTag(appTag, cfg.destination.appMask));
        StoreAppPart(m, d, payload, f1, now.appTag);
      }
      ghost var f2 := f1.(appTag := now.appTag);
      assert mem[..] == Write(m, d, payload + StoreField(f2));
      if !Has(cfg.flags, DST_PASS_REF_TAG) {
        StoreWord32(mem, d + size + 4, Reverse32(refTag));
        StoreRefPart(m, d, payload, f2, now.refTag);
      }
    }
  }

  lemma StoreGuardPart(m: seq<Byte>, d: nat, payload: seq<Byte>, f: Field, guard: bv16)
    requires InBounds(m, d, |payload| + FIELD_SIZE)
    ensures Write(Write(m, d, payload + StoreField(f)), d + |payload|, Store16(guard)) ==
            Write(m, d, payload + StoreField(f.(guard := guard)))
  {
    hide Store16, Store32;
    var rest := Store16(f.appTag) + Store32(f.refTag);
    WritePart(m, d, payload, Store16(f.guard), Store16(guard), rest);
    assert payload + StoreField(f) == payload + Store16(f.guard) + rest;
    assert payload + StoreField(f.(guard := guard)) == payload + Store16(guard) + rest;
  }

  lemma StoreAppPart(m: seq<Byte>, d: nat, payload: seq<Byte>, f: Field, appTag: bv16)
    requires InBounds(m, d, |payload| + FIELD_SIZE)
    ensures Write(Write(m, d, payload + StoreField(f)), d + |payload| + 2, Store16(appTag)) ==
            Write(m, d, payload + StoreField(f.(appTag := appTag)))
  {
    hide Store16, Store32;
    var front, rest := payload + Store16(f.guard), Store32(f.refTag);
    WritePart(m, d, front, Store16(f.appTag), Store16(appTag), rest);
    assert payload + StoreField(f) == front + Store16(f.appTag) + rest;
    assert payload + StoreField(f.(appTag := appTag)) == front + Store16(appTag) + rest;
  }

  lemma StoreRefPart(m: seq<Byte>, d: nat, payload: seq<Byte>, f: Field, refTag: bv32)
    requires InBounds(m, d, |payload| + FIELD_SIZE)
    ensures Write(Write(m, d, payload + StoreField(f)), d + |payload| + 4, Store32(refTag)) ==
            Write(m, d, payload + StoreField(f.(refTag := refTag)))
  {
    hide Store16, Store32;
    var front := payload + Store16(f.guard) + Store16(f.appTag);
    WritePart(m, d, front, Store32(f.refTag), Store32(refTag), []);
    assert payload + StoreField(f) == front + Store32(f.refTag) + [];
    assert payload + StoreField(f.(refTag := refTag)) == front + Store32(refTag) + [];
  }

  /** The three stores after the copied payload, in the order insert makes them, write one whole field. */
  lemma FieldStores(m: seq<Byte>, d: nat, payload: seq<Byte>, f: Field)
    requires InBounds(m, d, |payload| + FIELD_SIZE)
    ensures var size := |payload|;
            Write(Write(Write(Write(m, d, payload), d + size + 2, Store16(f.appTag)),
                        d + size + 4, Store32(f.refTag)), d + size, Store16(f.guard)) ==
            Write(m, d, payload + StoreField(f))
  {
    hide Store16, Store32, Write;
    var size := |payload|;
    WriteCommute(Write(Write(m, d, payload), d + size + 2, Store16(f.appTag)),
                 d + size + 4, Store32(f.refTag), d + size, Store16(f.guard));
    WriteCommute(Write(m, d, payload), d + size + 2, Store16(f.appTag), d + size, Store16(f.guard));
    WriteAppend(m, d, payload, Store16(f.guard));
    WriteAppend(m, d, payload + Store16(f.guard), Store16(f.appTag));
    WriteAppend(m, d, payload + Store16(f.guard) + Store16(f.appTag), Store32(f.refTag));
    assert payload + StoreField(f) == payload + Store16(f.guard) + Store16(f.appTag) + Store32(f.refTag);
  }
}
