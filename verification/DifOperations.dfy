/** What the four DIF operations leave in memory and in their records, by the bytes and the bits of the descriptor. */
module DifOperations {
  import opened Memory
  import opened BlockLayout
  import opened Operations
  import opened DifMeaning
  import Dif

  /** The block size a descriptor's flags name. */
  function BlockBytes(flags: bv8): (size: nat)
    ensures 512 <= size
  {
    if flags & 2 == 0 then 512 + 8 * (if flags & 1 == 0 then 0 else 1) else 4096 + 8 * (if flags & 1 == 0 then 0 else 1)
  }

  /** The bits of a descriptor's three flag bytes as the routines see them. */
  predicate Unpacked(flags: bv32, common: bv8, source: bv8, destination: bv8) {
    && (flags & 0x1 != 0 <==> source & 0x1 != 0) && (flags & 0x2 != 0 <==> source & 0x2 != 0)
    && (flags & 0x4 != 0 <==> source & 0x4 != 0) && (flags & 0x8 != 0 <==> source & 0x8 != 0)
    && (flags & 0x10 != 0 <==> source & 0x10 != 0) && (flags & 0x20 != 0 <==> source & 0x20 != 0)
    && (flags & 0x40 != 0 <==> source & 0x40 != 0) && (flags & 0x80 != 0 <==> source & 0x80 != 0)
    && (flags & 0x800 != 0 <==> destination & 0x8 != 0) && (flags & 0x1000 != 0 <==> destination & 0x10 != 0)
    && (flags & 0x2000 != 0 <==> destination & 0x20 != 0) && (flags & 0x4000 != 0 <==> destination & 0x40 != 0)
    && (flags & 0x8000 != 0 <==> destination & 0x80 != 0)
    && (flags & 0x4_0000 != 0 <==> common & 0x4 != 0) && (flags & 0x8_0000 != 0 <==> common & 0x8 != 0)
  }

  lemma PackedMeans(common: bv8, source: bv8, destination: bv8)
    ensures Unpacked(PackedFlags(common, source, destination), common, source, destination)
  {
  }

  lemma BlockSizeMeans(flags: bv8)
    ensures BlockSize(flags) == BlockBytes(flags)
  {
  }

  /**
   * The settings an operation's kernel packs: check and strip use the source side, insert the destination's, update
   * both.
   */
  lemma SettingsMean(dif: DifFields)
    ensures var cfg := SourceConfig(dif);
            && cfg.blockSize == BlockBytes(dif.flags) && cfg.source == dif.source
            && Unpacked(cfg.flags, dif.flags, dif.sourceFlags, 0)
    ensures var cfg := InsertConfig(dif);
            && cfg.blockSize == BlockBytes(dif.flags) && cfg.destination == dif.destination
            && Unpacked(cfg.flags, dif.flags, 0, dif.destinationFlags)
    ensures var cfg := UpdateConfig(dif);
            && cfg.blockSize == BlockBytes(dif.flags) && cfg.source == dif.source && cfg.destination == dif.destination
            && Unpacked(cfg.flags, dif.flags, dif.sourceFlags, dif.destinationFlags)
  {
    hide PackedFlags, Unpacked;
    PackedMeans(dif.flags, dif.sourceFlags, 0);
    PackedMeans(dif.flags, 0, dif.destinationFlags);
    PackedMeans(dif.flags, dif.sourceFlags, dif.destinationFlags);
    BlockSizeMeans(dif.flags);
  }

  // The verdict

  /** Block k of a source. */
  function SourceBlock(m: seq<Byte>, src: nat, size: nat, step: nat, k: nat): (block: seq<Byte>)
    requires InBounds(m, src, size) && 0 < step && k < size / step
    ensures |block| == step
  {
    BlockFits(size, step, k);
    m[src + k * step..src + k * step + step]
  }

  ghost predicate BlockFaulty(m: seq<Byte>, src: nat, size: nat, cfg: Dif.Config, fault: Dif.Fault, k: nat)
    requires InBounds(m, src, size) && k < size / cfg.Step()
  {
    Faulty(fault, cfg, k, SourceBlock(m, src, size, cfg.Step(), k))
  }

  /** No block before block k of a source is at fault. */
  ghost predicate CleanUpTo(m: seq<Byte>, src: nat, size: nat, cfg: Dif.Config, k: nat)
    requires InBounds(m, src, size) && k <= size / cfg.Step()
  {
    forall i, fault :: 0 <= i < k ==> !BlockFaulty(m, src, size, cfg, fault, i)
  }

  lemma BlocksAre(m: seq<Byte>, src: nat, size: nat, step: nat, k: nat)
    requires InBounds(m, src, size) && 0 < step && k < size / step
    ensures k < |Blocks(Read(m, src, size), step)|
    ensures Blocks(Read(m, src, size), step)[k] == SourceBlock(m, src, size, step, k)
  {
    BlockOfRead(m, src, size, step, k);
  }

  /** The record of a checked source: its status, the bits of its faults and where the block starts. */
  ghost predicate Reported(m: seq<Byte>, src: nat, size: nat, cfg: Dif.Config, r: Record, r': Record)
    requires InBounds(m, src, size)
  {
    var n := size / cfg.Step();
    if CleanUpTo(m, src, size, cfg, n) then r' == r.(status := 0x01, result := 0, bytesCompleted := 0)
    else
      exists k :: 0 <= k < n && CleanUpTo(m, src, size, cfg, k) && FaultAt(m, src, size, cfg, r, r', k)
  }

  ghost predicate FaultAt(m: seq<Byte>, src: nat, size: nat, cfg: Dif.Config, r: Record, r': Record, k: nat)
    requires InBounds(m, src, size) && k < size / cfg.Step()
  {
    && r' == r.(status := 0x09, result := r'.result, bytesCompleted := r'.bytesCompleted)
    && r'.bytesCompleted == k * cfg.Step() && r'.result & 0xF0 == 0 && r'.result != 0
    && (r'.result & 1 != 0 <==> BlockFaulty(m, src, size, cfg, Dif.GuardMismatch, k))
    && (r'.result & 2 != 0 <==> BlockFaulty(m, src, size, cfg, Dif.AppTagMismatch, k))
    && (r'.result & 4 != 0 <==> BlockFaulty(m, src, size, cfg, Dif.RefTagMismatch, k))
    && (r'.result & 8 != 0 <==> BlockFaulty(m, src, size, cfg, Dif.AllOnes, k))
  }

  lemma ResultBits(faults: set<Dif.Fault>)
    ensures var result := (Dif.FaultBits(faults) & 0xFF) as bv8;
            && result & 0xF0 == 0 && (faults != {} ==> result != 0)
            && (result & 1 != 0 <==> Dif.GuardMismatch in faults) && (result & 2 != 0 <==> Dif.AppTagMismatch in faults)
            && (result & 4 != 0 <==> Dif.RefTagMismatch in faults) && (result & 8 != 0 <==> Dif.AllOnes in faults)
  {
    if faults != {} {
      var f :| f in faults;
      match f
      case GuardMismatch =>
      case AppTagMismatch =>
      case RefTagMismatch =>
      case AllOnes =>
    }
  }

  lemma VerdictMeans(m: seq<Byte>, src: nat, size: nat, cfg: Dif.Config)
    requires InBounds(m, src, size)
    ensures var v, n := Dif.CheckBuffer(cfg, Read(m, src, size)), size / cfg.Step();
            && (v.Passed? <==> CleanUpTo(m, src, size, cfg, n))
            && (v.Failed? ==>
                  && v.block < n && CleanUpTo(m, src, size, cfg, v.block) && v.faults != {}
                  && forall fault :: fault in v.faults <==> BlockFaulty(m, src, size, cfg, fault, v.block))
  {
    var blocks, v := Blocks(Read(m, src, size), cfg.Step()), Dif.CheckBuffer(cfg, Read(m, src, size));
    CheckMeans(cfg, blocks);
    hide Faulty, Dif.Check;
    forall k | 0 <= k < size / cfg.Step()
      ensures blocks[k] == SourceBlock(m, src, size, cfg.Step(), k)
    {
      BlocksAre(m, src, size, cfg.Step(), k);
    }
    if v.Passed? {
      forall i, fault | 0 <= i < size / cfg.Step()
        ensures !BlockFaulty(m, src, size, cfg, fault, i)
      {
        assert !Faulty(fault, cfg, i, blocks[i]);
      }
    } else {
      var fault :| Faulty(fault, cfg, v.block, blocks[v.block]);
      assert BlockFaulty(m, src, size, cfg, fault, v.block);
      forall i, f | 0 <= i < v.block
        ensures !BlockFaulty(m, src, size, cfg, f, i)
      {
        assert !Faulty(f, cfg, i, blocks[i]);
      }
    }
  }

  lemma RecordMeans(m: seq<Byte>, src: nat, size: uint32, cfg: Dif.Config, r: Record)
    requires InBounds(m, src, size)
    ensures Reported(m, src, size, cfg, r, CheckedRecord(m, src, size, cfg, r))
  {
    hide Dif.CheckBuffer, BlockFaulty, CleanUpTo, Dif.FaultBits;
    VerdictMeans(m, src, size, cfg);
    var v, r' := Dif.CheckBuffer(cfg, Read(m, src, size)), CheckedRecord(m, src, size, cfg, r);
    if v.Failed? {
      ResultBits(v.faults);
      assert FaultAt(m, src, size, cfg, r, r', v.block);
    }
  }

  lemma CheckOperationMeans(m: seq<Byte>, d: Descriptor, r: Record)
    requires d.DifCheck? && Ready(m, d)
    ensures var o := Execute(m, d, r);
            o.memory == m && Reported(m, d.src, d.size, SourceConfig(d.dif), r, o.record)
  {
    hide CheckedRecord, Reported;
    RecordMeans(m, d.src, d.size, SourceConfig(d.dif), r);
  }

  // Output blocks

  /** Memory with output blocks written one after the other. */
  lemma WrittenBlock(m: seq<Byte>, dst: nat, out: seq<seq<Byte>>, step: nat, k: nat)
    requires Uniform(out, step) && k < |out| && InBounds(m, dst, |Join(out)|)
    ensures k * step + step <= |Join(out)| == |out| * step
    ensures Write(m, dst, Join(out))[dst + k * step..dst + k * step + step] == out[k]
  {
    JoinLength(out, step);
    JoinAt(out, step, k);
    WritePointwise(m, dst, Join(out));
    hide Write, Join;
  }

  /** Memory unchanged but for a buffer. */
  predicate Beside(m: seq<Byte>, m': seq<Byte>, a: nat, n: nat) {
    |m'| == |m| && forall p :: 0 <= p < |m| && !(a <= p < a + n) ==> m'[p] == m[p]
  }

  lemma WriteBeside(m: seq<Byte>, a: nat, s: seq<Byte>)
    requires InBounds(m, a, |s|)
    ensures Beside(m, Write(m, a, s), a, |s|)
  {
    WritePointwise(m, a, s);
    hide Write;
  }

  /** Block k of an output buffer. */
  function OutputBlock(m: seq<Byte>, dst: nat, step: nat, k: nat): (block: seq<Byte>)
    requires InBounds(m, dst + k * step, step)
    ensures |block| == step
  {
    m[dst + k * step..dst + k * step + step]
  }

  /** An output of n blocks, and nothing changed beside it. */
  ghost predicate Output(m: seq<Byte>, m': seq<Byte>, dst: nat, step: nat, n: nat) {
    Beside(m, m', dst, n * step) && InBounds(m, dst, n * step)
  }

  lemma OutputWritten(m: seq<Byte>, dst: nat, out: seq<seq<Byte>>, step: nat)
    requires Uniform(out, step) && InBounds(m, dst, |Join(out)|)
    ensures Output(m, Write(m, dst, Join(out)), dst, step, |out|)
    ensures forall k :: 0 <= k < |out| ==>
              && InBounds(m, dst + k * step, step)
              && OutputBlock(Write(m, dst, Join(out)), dst, step, k) == out[k]
  {
    hide Write, Join, Beside;
    JoinLength(out, step);
    WriteBeside(m, dst, Join(out));
    forall k | 0 <= k < |out|
      ensures InBounds(m, dst + k * step, step) && OutputBlock(Write(m, dst, Join(out)), dst, step, k) == out[k]
    {
      WrittenBlock(m, dst, out, step, k);
    }
  }

  /** A block that insert writes: the payload, and a new field. */
  ghost predicate Inserted(m: seq<Byte>, m': seq<Byte>, src: nat, dst: nat, size: nat, cfg: Dif.Config, k: nat)
    requires InBounds(m, src, size) && k < size / cfg.blockSize && InBounds(m', dst + k * cfg.Step(), cfg.Step())
  {
    var block, payload := OutputBlock(m', dst, cfg.Step(), k), SourceBlock(m, src, size, cfg.blockSize, k);
    block[..cfg.blockSize] == payload && IsNewField(cfg, k, payload, block[cfg.blockSize..])
  }

  lemma ExecutesInsert(m: seq<Byte>, d: Descriptor, r: Record)
    requires d.DifInsert? && Ready(m, d)
    ensures var cfg := InsertConfig(d.dif);
            var out := Dif.Insert(cfg, Blocks(Read(m, d.src, d.size), cfg.blockSize));
            && |out| == d.size / cfg.blockSize && InBounds(m, d.dst, |Join(out)|)
            && Execute(m, d, r) == Outcome(Write(m, d.dst, Join(out)), r.(status := 0x01, bytesCompleted := 0))
  {
    hide InsertConfig, Dif.Insert, Write, Join;
    Dif.InsertSize(InsertConfig(d.dif), Read(m, d.src, d.size));
  }

  /** Memory after an insert: each source block with its new field, and nothing else. */
  ghost predicate AllInserted(m: seq<Byte>, m': seq<Byte>, src: nat, dst: nat, size: nat, cfg: Dif.Config)
    requires InBounds(m, src, size)
  {
    && Output(m, m', dst, cfg.Step(), size / cfg.blockSize)
    && forall k :: 0 <= k < size / cfg.blockSize ==>
         InBounds(m', dst + k * cfg.Step(), cfg.Step()) && Inserted(m, m', src, dst, size, cfg, k)
  }

  lemma InsertedOutput(m: seq<Byte>, src: nat, dst: nat, size: nat, cfg: Dif.Config, payloads: seq<seq<Byte>>)
    requires InBounds(m, src, size) && payloads == Blocks(Read(m, src, size), cfg.blockSize)
    requires InBounds(m, dst, |Join(Dif.Insert(cfg, payloads))|)
    ensures AllInserted(m, Write(m, dst, Join(Dif.Insert(cfg, payloads))), src, dst, size, cfg)
  {
    hide Dif.Insert, IsNewField, Write, Join, Output, Read, Blocks;
    var out := Dif.Insert(cfg, payloads);
    OutputWritten(m, dst, out, cfg.Step());
    forall k | 0 <= k < size / cfg.blockSize
      ensures InBounds(m, dst + k * cfg.Step(), cfg.Step())
      ensures Inserted(m, Write(m, dst, Join(out)), src, dst, size, cfg, k)
    {
      BlocksAre(m, src, size, cfg.blockSize, k);
      InsertMeans(cfg, payloads, k);
    }
  }

  lemma InsertOperationMeans(m: seq<Byte>, d: Descriptor, r: Record)
    requires d.DifInsert? && Ready(m, d)
    ensures var o := Execute(m, d, r);
            && o.record == r.(status := 0x01, bytesCompleted := 0)
            && AllInserted(m, o.memory, d.src, d.dst, d.size, InsertConfig(d.dif))
  {
    hide InsertConfig, Dif.Insert, Write, Join, Execute, Read, Blocks, AllInserted;
    ExecutesInsert(m, d, r);
    var cfg := InsertConfig(d.dif);
    InsertedOutput(m, d.src, d.dst, d.size, cfg, Blocks(Read(m, d.src, d.size), cfg.blockSize));
  }

  // Strip and update

  /** A source with a block at fault leaves memory alone; the record tells either way. */
  lemma FailingOperationMeans(m: seq<Byte>, d: Descriptor, r: Record)
    requires (d.DifStrip? || d.DifUpdate?) && Ready(m, d)
    ensures var o, cfg := Execute(m, d, r), if d.DifStrip? then SourceConfig(d.dif) else UpdateConfig(d.dif);
            && Reported(m, d.src, d.size, cfg, r, o.record)
            && (!CleanUpTo(m, d.src, d.size, cfg, d.size / cfg.Step()) ==> o.memory == m)
  {
    hide CheckedRecord, Reported, Dif.CheckBuffer, Dif.StripBuffer, Dif.UpdateBuffer, CleanUpTo, SourceConfig,
         UpdateConfig;
    var cfg := if d.DifStrip? then SourceConfig(d.dif) else UpdateConfig(d.dif);
    RecordMeans(m, d.src, d.size, cfg, r);
    VerdictMeans(m, d.src, d.size, cfg);
  }

  /** A block that strip writes: the payload. */
  ghost predicate Stripped(m: seq<Byte>, m': seq<Byte>, src: nat, dst: nat, size: nat, cfg: Dif.Config, k: nat)
    requires InBounds(m, src, size) && k < size / cfg.Step() && InBounds(m', dst + k * cfg.blockSize, cfg.blockSize)
  {
    OutputBlock(m', dst, cfg.blockSize, k) == SourceBlock(m, src, size, cfg.Step(), k)[..cfg.blockSize]
  }

  lemma ExecutesStrip(m: seq<Byte>, d: Descriptor, r: Record)
    requires d.DifStrip? && Ready(m, d)
    requires Dif.CheckBuffer(SourceConfig(d.dif), Read(m, d.src, d.size)).Passed?
    ensures var cfg := SourceConfig(d.dif);
            var out := Dif.Strip(cfg, Blocks(Read(m, d.src, d.size), cfg.Step()));
            && |out| == d.size / cfg.Step() && InBounds(m, d.dst, |Join(out)|)
            && Execute(m, d, r).memory == Write(m, d.dst, Join(out))
  {
    hide SourceConfig, Dif.Strip, Write, Join, CheckedRecord, Dif.CheckBuffer;
    Dif.StripSize(SourceConfig(d.dif), Read(m, d.src, d.size));
  }

  /** Memory after a strip: each source block without its field, and nothing else. */
  ghost predicate AllStripped(m: seq<Byte>, m': seq<Byte>, src: nat, dst: nat, size: nat, cfg: Dif.Config)
    requires InBounds(m, src, size)
  {
    && Output(m, m', dst, cfg.blockSize, size / cfg.Step())
    && forall k :: 0 <= k < size / cfg.Step() ==>
         InBounds(m', dst + k * cfg.blockSize, cfg.blockSize) && Stripped(m, m', src, dst, size, cfg, k)
  }

  lemma StrippedOutput(m: seq<Byte>, src: nat, dst: nat, size: nat, cfg: Dif.Config, blocks: seq<seq<Byte>>)
    requires InBounds(m, src, size) && blocks == Blocks(Read(m, src, size), cfg.Step())
    requires InBounds(m, dst, |Join(Dif.Strip(cfg, blocks))|)
    ensures AllStripped(m, Write(m, dst, Join(Dif.Strip(cfg, blocks))), src, dst, size, cfg)
  {
    hide Dif.Strip, Write, Join, Output, Read, Blocks;
    var out := Dif.Strip(cfg, blocks);
    OutputWritten(m, dst, out, cfg.blockSize);
    forall k | 0 <= k < size / cfg.Step()
      ensures InBounds(m, dst + k * cfg.blockSize, cfg.blockSize)
      ensures Stripped(m, Write(m, dst, Join(out)), src, dst, size, cfg, k)
    {
      BlocksAre(m, src, size, cfg.Step(), k);
      StripKeeps(cfg, blocks, k);
    }
  }

  lemma StripOperationMeans(m: seq<Byte>, d: Descriptor, r: Record)
    requires d.DifStrip? && Ready(m, d)
    ensures var cfg := SourceConfig(d.dif);
            CleanUpTo(m, d.src, d.size, cfg, d.size / cfg.Step()) ==>
              AllStripped(m, Execute(m, d, r).memory, d.src, d.dst, d.size, cfg)
  {
    hide SourceConfig, Dif.Strip, Write, Join, Execute, Read, Blocks, CleanUpTo, Dif.CheckBuffer, AllStripped;
    var cfg := SourceConfig(d.dif);
    VerdictMeans(m, d.src, d.size, cfg);
    if CleanUpTo(m, d.src, d.size, cfg, d.size / cfg.Step()) {
      ExecutesStrip(m, d, r);
      StrippedOutput(m, d.src, d.dst, d.size, cfg, Blocks(Read(m, d.src, d.size), cfg.Step()));
    }
  }

  /** A block that update writes: the payload, and a field that is new but for the parts passed through. */
  ghost predicate Updated(m: seq<Byte>, m': seq<Byte>, src: nat, dst: nat, size: nat, cfg: Dif.Config, k: nat)
    requires InBounds(m, src, size) && k < size / cfg.Step() && InBounds(m', dst + k * cfg.Step(), cfg.Step())
  {
    var was, now := SourceBlock(m, src, size, cfg.Step(), k), OutputBlock(m', dst, cfg.Step(), k);
    && now[..cfg.blockSize] == was[..cfg.blockSize]
    && IsUpdatedField(cfg, k, was[..cfg.blockSize], was[cfg.blockSize..], now[cfg.blockSize..])
  }

  lemma ExecutesUpdate(m: seq<Byte>, d: Descriptor, r: Record)
    requires d.DifUpdate? && Ready(m, d)
    requires Dif.CheckBuffer(UpdateConfig(d.dif), Read(m, d.src, d.size)).Passed?
    ensures var cfg := UpdateConfig(d.dif);
            var out := Dif.Update(cfg, Blocks(Read(m, d.src, d.size), cfg.Step()));
            && |out| == d.size / cfg.Step() && InBounds(m, d.dst, |Join(out)|)
            && Execute(m, d, r).memory == Write(m, d.dst, Join(out))
  {
    hide UpdateConfig, Dif.Update, Write, Join, CheckedRecord, Dif.CheckBuffer;
    Dif.UpdateSize(UpdateConfig(d.dif), Read(m, d.src, d.size));
  }

  /** Memory after an update: each source block with its updated field, and nothing else. */
  ghost predicate AllUpdated(m: seq<Byte>, m': seq<Byte>, src: nat, dst: nat, size: nat, cfg: Dif.Config)
    requires InBounds(m, src, size)
  {
    && Output(m, m', dst, cfg.Step(), size / cfg.Step())
    && forall k :: 0 <= k < size / cfg.Step() ==>
         InBounds(m', dst + k * cfg.Step(), cfg.Step()) && Updated(m, m', src, dst, size, cfg, k)
  }

  lemma UpdatedOutput(m: seq<Byte>, src: nat, dst: nat, size: nat, cfg: Dif.Config, blocks: seq<seq<Byte>>)
    requires InBounds(m, src, size) && blocks == Blocks(Read(m, src, size), cfg.Step())
    requires InBounds(m, dst, |Join(Dif.Update(cfg, blocks))|)
    ensures AllUpdated(m, Write(m, dst, Join(Dif.Update(cfg, blocks))), src, dst, size, cfg)
  {
    hide Dif.Update, Write, Join, Output, Read, Blocks, IsUpdatedField;
    var out := Dif.Update(cfg, blocks);
    OutputWritten(m, dst, out, cfg.Step());
    forall k | 0 <= k < size / cfg.Step()
      ensures InBounds(m, dst + k * cfg.Step(), cfg.Step())
      ensures Updated(m, Write(m, dst, Join(out)), src, dst, size, cfg, k)
    {
      BlocksAre(m, src, size, cfg.Step(), k);
      UpdateMeans(cfg, blocks, k);
    }
  }

  lemma UpdateOperationMeans(m: seq<Byte>, d: Descriptor, r: Record)
    requires d.DifUpdate? && Ready(m, d)
    ensures var cfg := UpdateConfig(d.dif);
            CleanUpTo(m, d.src, d.size, cfg, d.size / cfg.Step()) ==>
              AllUpdated(m, Execute(m, d, r).memory, d.src, d.dst, d.size, cfg)
  {
    hide UpdateConfig, Dif.Update, Write, Join, Execute, Read, Blocks, CleanUpTo, Dif.CheckBuffer, AllUpdated;
    var cfg := UpdateConfig(d.dif);
    VerdictMeans(m, d.src, d.size, cfg);
    if CleanUpTo(m, d.src, d.size, cfg, d.size / cfg.Step()) {
      ExecutesUpdate(m, d, r);
      UpdatedOutput(m, d.src, d.dst, d.size, cfg, Blocks(Read(m, d.src, d.size), cfg.Step()));
    }
  }
}
