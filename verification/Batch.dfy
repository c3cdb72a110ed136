/** The software batch: a list of descriptors run in order until one does not plainly succeed. */
module Batch {
  import opened Memory
  import Operations
  import SoftwareDevice
  import Validation

  /** A descriptor in a batch list: one that names an operation, or one with an operation code nothing handles. */
  datatype Entry = Known(dsc: Operations.Descriptor) | Unknown

  /** Memory and the entries' own completion records. */
  datatype State = State(memory: seq<Byte>, records: seq<Operations.Record>)

  datatype BatchRecord = BatchRecord(status: bv8, descriptorsCompleted: nat)

  /** The batch has no case for drain. */
  predicate IsHandled(e: Entry) {
    e.Known? && !e.dsc.Drain?
  }

  predicate CanRun(m: seq<Byte>, e: Entry, cpu: SoftwareDevice.Processor) {
    IsHandled(e) ==> Operations.Ready(m, e.dsc) && SoftwareDevice.CompareAnswers(m, cpu, e.dsc)
  }

  /** Submitting entry i by itself; one that is not handled changes nothing. */
  function Submitted(s: State, e: Entry, i: nat, cpu: SoftwareDevice.Processor): (s': State)
    requires i < |s.records| && CanRun(s.memory, e, cpu)
    ensures |s'.records| == |s.records|
  {
    if IsHandled(e) then
      var o := Operations.Execute(s.memory, e.dsc, s.records[i]);
      State(o.memory, s.records[i := o.record])
    else s
  }

  predicate Succeeded(s: State, i: nat)
    requires i < |s.records|
  {
    s.records[i].status == Operations.SUCCESS
  }

  /** Submitting one by one, the first k entries are all handled and all plainly succeed. */
  predicate Reaches(s: State, list: seq<Entry>, k: nat, cpu: SoftwareDevice.Processor)
    requires |s.records| == |list|
    decreases k, 0
  {
    && k <= |list|
    && (k > 0 ==>
          && Reaches(s, list, k - 1, cpu)
          && CanRun(After(s, list, k - 1, cpu).memory, list[k - 1], cpu)
          && IsHandled(list[k - 1])
          && Succeeded(Submitted(After(s, list, k - 1, cpu), list[k - 1], k - 1, cpu), k - 1))
  }

  /** Where submitting the first k entries one by one leads. */
  function After(s: State, list: seq<Entry>, k: nat, cpu: SoftwareDevice.Processor): (s': State)
    requires |s.records| == |list| && Reaches(s, list, k, cpu)
    ensures |s'.records| == |list|
    decreases k, 1
  {
    if k == 0 then s else Submitted(After(s, list, k - 1, cpu), list[k - 1], k - 1, cpu)
  }

  /** Every entry the batch gets to can be run there. */
  ghost predicate Runnable(s: State, list: seq<Entry>, cpu: SoftwareDevice.Processor)
    requires |s.records| == |list|
  {
    forall k :: 0 <= k < |list| && Reaches(s, list, k, cpu) ==> CanRun(After(s, list, k, cpu).memory, list[k], cpu)
  }

  /**
   * A batch over a list from s ends in s' with record r, after k entries that are handled and succeed: it has run those
   * and, if there is one, the next. That one is counted too when its record says success, which an entry that is not
   * handled can only have from before.
   */
  ghost predicate Ends(s: State, list: seq<Entry>, cpu: SoftwareDevice.Processor, k: nat, s': State, r: BatchRecord)
    requires |s.records| == |list|
  {
    && Reaches(s, list, k, cpu) && !Reaches(s, list, k + 1, cpu)
    && (k < |list| ==> CanRun(After(s, list, k, cpu).memory, list[k], cpu))
    && s' == (if k < |list| then Submitted(After(s, list, k, cpu), list[k], k, cpu) else After(s, list, k, cpu))
    && r.descriptorsCompleted == (if k < |list| && Succeeded(s', k) then k + 1 else k)
    && r.status == if r.descriptorsCompleted == |list| then Operations.SUCCESS else Operations.BATCH_ERROR
  }

  class Runner {
    const mem: array<Byte>
    var records: seq<Operations.Record>

    constructor (mem: array<Byte>, records: seq<Operations.Record>)
      ensures this.mem == mem && this.records == records
    {
      this.mem, this.records := mem, records;
    }

    ghost function Now(): State
      reads this, mem
    {
      State(mem[..], records)
    }

    /** kernels::batch */
    method Run(list: seq<Entry>, cpu: SoftwareDevice.Processor) returns (r: BatchRecord, ghost k: nat)
      requires |records| == |list| && Runnable(Now(), list, cpu)
      modifies this, mem
      ensures Ends(old(Now()), list, cpu, k, Now(), r)
    {
      hide Operations.Ready, Operations.Execute, SoftwareDevice.CompareAnswers;
      ghost var start := Now();
      var status, index := Operations.PROCESSING, 0;
      k := 0;
      while index < |list| && status == Operations.PROCESSING
        invariant 0 <= index <= |list| && |records| == |list| && Reaches(start, list, k, cpu)
        invariant status == Operations.PROCESSING || status == Operations.BATCH_ERROR
        invariant status == Operations.PROCESSING ==> k == index && Now() == After(start, list, k, cpu)
        invariant status == Operations.BATCH_ERROR ==>
                    && k < |list| && !Reaches(start, list, k + 1, cpu)
                    && CanRun(After(start, list, k, cpu).memory, list[k], cpu)
                    && Now() == Submitted(After(start, list, k, cpu), list[k], k, cpu)
                    && index == if Succeeded(Now(), k) then k + 1 else k
        decreases |list| - index, if status == Operations.PROCESSING then 1 else 0
      {
        var entry := list[index];
        if IsHandled(entry) {
          var record := SoftwareDevice.Submit(mem, entry.dsc, records[index], cpu);
          records := records[index := record];
        } else {
          status := Operations.BATCH_ERROR;
        }
        if records[index].status != Operations.SUCCESS {
          status := Operations.BATCH_ERROR;
        } else {
          index := index + 1;
          if status == Operations.PROCESSING {
            k := k + 1;
          }
        }
      }
      if index == |list| {
        status := Operations.SUCCESS;
      }
      r := BatchRecord(status, index);
    }
  }

  // What the batch record tells

  lemma {:induction false} ReachesEarlier(s: State, list: seq<Entry>, j: nat, k: nat, cpu: SoftwareDevice.Processor)
    requires |s.records| == |list| && j <= k && Reaches(s, list, k, cpu)
    ensures Reaches(s, list, j, cpu)
    decreases k
  {
    if j < k {
      ReachesEarlier(s, list, j, k - 1, cpu);
    }
  }

  /** However it is run, a batch has one end. */
  lemma EndIsUnique(s: State, list: seq<Entry>, cpu: SoftwareDevice.Processor, k: nat, s1: State, r1: BatchRecord,
                    j: nat, s2: State, r2: BatchRecord)
    requires |s.records| == |list| && Ends(s, list, cpu, k, s1, r1) && Ends(s, list, cpu, j, s2, r2)
    ensures k == j && s1 == s2 && r1 == r2
  {
    hide Submitted, CanRun;
    if k < j {
      ReachesEarlier(s, list, k + 1, j, cpu);
    } else if j < k {
      ReachesEarlier(s, list, j + 1, k, cpu);
    }
  }

  /**
   * On a list of handled entries the count is the length of the longest prefix that succeeds, and the batch succeeds
   * exactly when that is the whole list; memory and records are those of submitting the prefix, and the entry that
   * stopped it, one by one.
   */
  lemma BatchIsSequential(s: State, list: seq<Entry>, cpu: SoftwareDevice.Processor, k: nat, s': State, r: BatchRecord)
    requires |s.records| == |list| && Ends(s, list, cpu, k, s', r)
    requires forall i :: 0 <= i < |list| ==> IsHandled(list[i])
    ensures r.descriptorsCompleted == k
    ensures r.status == Operations.SUCCESS <==> Reaches(s, list, |list|, cpu)
    ensures forall j: nat :: Reaches(s, list, j, cpu) <==> j <= k
    ensures Reaches(s, list, |list|, cpu) ==> s' == After(s, list, |list|, cpu)
  {
    hide Submitted;
    forall j: nat
      ensures Reaches(s, list, j, cpu) <==> j <= k
    {
      if j <= k {
        ReachesEarlier(s, list, j, k, cpu);
      } else if Reaches(s, list, j, cpu) {
        ReachesEarlier(s, list, k + 1, j, cpu);
      }
    }
  }

  /**
   * A batch succeeds exactly when every entry is handled and succeeds, or all but the last are and the last finds
   * success already in its record.
   */
  lemma BatchSucceedsIff(s: State, list: seq<Entry>, cpu: SoftwareDevice.Processor, k: nat, s': State, r: BatchRecord)
    requires |s.records| == |list| && Ends(s, list, cpu, k, s', r)
    ensures r.status == Operations.SUCCESS <==>
            || Reaches(s, list, |list|, cpu)
            || (|list| > 0 && Reaches(s, list, |list| - 1, cpu) && !IsHandled(list[|list| - 1]) &&
                Succeeded(After(s, list, |list| - 1, cpu), |list| - 1))
  {
    hide Operations.Execute, CanRun;
    var n := |list|;
    if Reaches(s, list, n, cpu) && k < n {
      ReachesEarlier(s, list, k + 1, n, cpu);
    }
    if n > 0 && Reaches(s, list, n - 1, cpu) && k < n - 1 {
      ReachesEarlier(s, list, k + 1, n - 1, cpu);
    }
  }

  /** The fifteen operations a batch carries out; drain is not one of them. */
  lemma HandledMeans(e: Entry)
    ensures IsHandled(e) <==>
            && e.Known?
            && var d := e.dsc;
               || d.Nop? || d.MemMove? || d.Fill? || d.Compare? || d.ComparePattern? || d.CreateDelta? || d.ApplyDelta?
               || d.Dualcast? || d.Crc? || d.CopyCrc? || d.DifCheck? || d.DifInsert? || d.DifStrip? || d.DifUpdate?
               || d.CacheFlush?
  {
  }

  /**
   * Where a batch ends at drain or an unknown code, that entry has changed nothing, and is counted if its old record
   * says success; where it ends at another entry, that entry's kernel reported no success.
   */
  lemma EndMeans(s: State, list: seq<Entry>, cpu: SoftwareDevice.Processor, k: nat, s': State, r: BatchRecord)
    requires |s.records| == |list| && Ends(s, list, cpu, k, s', r) && k < |list|
    ensures var before := After(s, list, k, cpu);
            if list[k] == Unknown || list[k] == Known(Operations.Drain) then
              s' == before && r.descriptorsCompleted == if before.records[k].status == 0x01 then k + 1 else k
            else s'.records[k].status != 0x01 && r.descriptorsCompleted == k
    ensures r.status == if r.descriptorsCompleted == |list| then 0x01 else 0x05
  {
    hide Operations.Execute, Operations.Ready, SoftwareDevice.CompareAnswers;
  }

  /**
   * An accepted batch of three no-ops and an unknown operation code whose record holds an old success: all four are
   * counted.
   */
  lemma UnknownEntryCounted(s: State, cpu: SoftwareDevice.Processor, address: nat) returns (s': State)
    requires |s.records| == 4 && s.records[3].status == Operations.SUCCESS && 0 < address
    ensures var list := [Known(Operations.Nop), Known(Operations.Nop), Known(Operations.Nop), Unknown];
            && Validation.ValidateBatch(address, |list|) == Validation.Success
            && Ends(s, list, cpu, 3, s', BatchRecord(Operations.SUCCESS, 4))
  {
    var list := [Known(Operations.Nop), Known(Operations.Nop), Known(Operations.Nop), Unknown];
    var s1 := Submitted(s, list[0], 0, cpu);
    var s2 := Submitted(s1, list[1], 1, cpu);
    s' := Submitted(s2, list[2], 2, cpu);
    assert After(s, list, 0, cpu) == s && After(s, list, 1, cpu) == s1 && After(s, list, 2, cpu) == s2;
    assert After(s, list, 3, cpu) == s';
  }
}
