/** Submission to the accelerator: round robin over devices, and circular probing of each device's queues. */
module Probing {
  import opened Memory

  /** A queue on a device. */
  datatype Probe = Probe(device: nat, queue: nat)

  datatype Status = Success | QueueBusy | Failure

  // The order of one device's queues

  /**
   * The queue indices enqueue_descriptor tries on a device with n queues: from the one after the last used to the end,
   * then from the start.
   */
  function Indices(last: nat, n: nat): seq<nat> {
    Range(last + 1, n) + Range(0, last + 1)
  }

  function Range(from: nat, to: nat): (r: seq<nat>)
    ensures |r| == if from <= to then to - from else 0
    ensures forall i :: 0 <= i < |r| ==> r[i] == from + i
  {
    if from >= to then [] else seq(to - from, i requires 0 <= i => from + i)
  }

  /** Every index tried is a queue of the device exactly when the last one used, perhaps on another device, is. */
  lemma IndicesInRangeIff(last: nat, n: nat)
    ensures last < n <==> forall i :: 0 <= i < |Indices(last, n)| ==> Indices(last, n)[i] < n
  {
    if n <= last {
      var order := Indices(last, n);
      assert order[|order| - 1] == last;
    }
  }

  /** With the last one in range, the order is circular. */
  lemma IndicesCircular(last: nat, n: nat, i: nat)
    requires last < n && i < n
    ensures |Indices(last, n)| == n && Indices(last, n)[i] == (last + 1 + i) % n
  {
    WrapOnce(last + 1 + i, n);
  }

  ghost predicate Distinct<T>(s: seq<T>) {
    forall i, j :: 0 <= i < j < |s| ==> s[i] != s[j]
  }

  /** Each queue is tried exactly once. */
  lemma IndicesExact(last: nat, n: nat)
    requires last < n
    ensures Distinct(Indices(last, n))
    ensures forall q :: q in Indices(last, n) <==> 0 <= q < n
  {
    var order := Indices(last, n);
    forall q | 0 <= q < n
      ensures q in order
    {
      if last < q {
        assert order[q - last - 1] == q;
      } else {
        assert order[n - last - 1 + q] == q;
      }
    }
  }

  // The order of one submission

  /** A device the dispatcher has accepted: its NUMA node, 64 bits wide, and the number of its queues, never zero. */
  datatype Device = Device(node: nat, queues: uint32)

  /** The index enqueue_descriptor keeps for a thread, set when the thread first comes to a device. */
  datatype Index = Unset | Last(queue: uint32)

  ghost predicate Populated(devices: seq<Device>) {
    forall i :: 0 <= i < |devices| ==> 0 < devices[i].queues
  }

  function DeviceAt(current: nat, i: nat, count: nat): (device: nat)
    requires 0 < count
    ensures device < count
  {
    (current + i) % count
  }

  /** The thread's index once it has come to this device. */
  function Came(device: Device, last: Index): (r: Index)
    requires 0 < device.queues
    ensures r.Last?
  {
    if last.Unset? then Last(device.queues - 1) else last
  }

  /** The thread's index after t devices visited in vain. */
  function Used(devices: seq<Device>, node: uint32, current: nat, last: Index, t: nat): (r: Index)
    requires Populated(devices) && (t > 0 ==> devices != [])
  {
    if t == 0 then last
    else
      var device := devices[DeviceAt(current, t - 1, |devices|)];
      var before := Used(devices, node, current, last, t - 1);
      if device.node == node then Came(device, before) else before
  }

  function QueuesOf(device: nat, last: nat, n: nat): seq<Probe> {
    seq(|Indices(last, n)|, i requires 0 <= i < |Indices(last, n)| => Probe(device, Indices(last, n)[i]))
  }

  /** The probes of the t-th visit, in vain. */
  function VisitOf(devices: seq<Device>, node: uint32, current: nat, last: Index, t: nat): seq<Probe>
    requires Populated(devices) && devices != []
  {
    var device := DeviceAt(current, t, |devices|);
    if devices[device].node != node then []
    else QueuesOf(device, Came(devices[device], Used(devices, node, current, last, t)).queue, devices[device].queues)
  }

  /** The probes of a submission that has visited t devices in vain. */
  function Order(devices: seq<Device>, node: uint32, current: nat, last: Index, t: nat): seq<Probe>
    requires Populated(devices) && (t > 0 ==> devices != [])
  {
    if t == 0 then [] else Order(devices, node, current, last, t - 1) + VisitOf(devices, node, current, last, t - 1)
  }

  /** The probes name queues that their devices have. */
  ghost predicate InRange(devices: seq<Device>, probes: seq<Probe>) {
    forall i :: 0 <= i < |probes| ==> probes[i].device < |devices| && probes[i].queue < devices[probes[i].device].queues
  }

  /** An index is a queue of every device on the node; one not yet set asks that those devices have equally many. */
  ghost predicate Fits(devices: seq<Device>, node: uint32, last: Index) {
    forall i, j :: 0 <= i < |devices| && 0 <= j < |devices| && devices[i].node == node && devices[j].node == node ==>
      if last.Unset? then devices[i].queues == devices[j].queues else last.queue < devices[i].queues
  }

  lemma WrapOnce(x: nat, count: nat)
    requires 0 < count && x < 2 * count
    ensures x % count == if x < count then x else x - count
  {
  }

  lemma DevicesDistinct(current: nat, i: nat, j: nat, count: nat)
    requires i < j < count && current < count
    ensures DeviceAt(current, i, count) != DeviceAt(current, j, count)
  {
    WrapOnce(current + i, count);
    WrapOnce(current + j, count);
  }

  lemma EveryDeviceVisited(current: nat, device: nat, count: nat)
    requires current < count && device < count
    ensures var i := if current <= device then device - current else device + count - current;
            0 <= i < count && DeviceAt(current, i, count) == device
  {
    WrapOnce(if current <= device then device else device + count, count);
  }

  /** The index a visit uses is a queue of the device it comes to. */
  lemma {:induction false} UsedFits(devices: seq<Device>, node: uint32, current: nat, last: Index, t: nat)
    requires Populated(devices) && devices != [] && Fits(devices, node, last)
    ensures Fits(devices, node, Used(devices, node, current, last, t))
  {
    hide DeviceAt;
    if t > 0 {
      UsedFits(devices, node, current, last, t - 1);
    }
  }

  ghost predicate Visited(current: nat, t: nat, count: nat, device: nat)
    requires t > 0 ==> 0 < count
  {
    exists i :: 0 <= i < t && DeviceAt(current, i, count) == device
  }

  lemma VisitedStep(current: nat, t: nat, count: nat, device: nat)
    requires 0 < t <= count
    ensures Visited(current, t, count, device) <==>
            Visited(current, t - 1, count, device) || device == DeviceAt(current, t - 1, count)
  {
    hide DeviceAt;
    if device == DeviceAt(current, t - 1, count) {
      assert Visited(current, t, count, device);
    }
  }

  lemma NewDevice(current: nat, t: nat, count: nat)
    requires 0 < t <= count && current < count
    ensures !Visited(current, t - 1, count, DeviceAt(current, t - 1, count))
  {
    forall i | 0 <= i < t - 1
      ensures DeviceAt(current, i, count) != DeviceAt(current, t - 1, count)
    {
      DevicesDistinct(current, i, t - 1, count);
    }
  }

  lemma QueuesMembers(device: nat, last: nat, n: nat)
    requires last < n
    ensures Distinct(QueuesOf(device, last, n))
    ensures forall p :: p in QueuesOf(device, last, n) <==> p.device == device && p.queue < n
  {
    IndicesExact(last, n);
    hide Indices;
    forall p: Probe | p.device == device && p.queue < n
      ensures p in QueuesOf(device, last, n)
    {
      assert p.queue in Indices(last, n);
      var i :| 0 <= i < |Indices(last, n)| && Indices(last, n)[i] == p.queue;
      assert QueuesOf(device, last, n)[i] == p;
    }
  }

  ghost predicate OnNode(devices: seq<Device>, node: uint32, p: Probe) {
    p.device < |devices| && devices[p.device].node == node && p.queue < devices[p.device].queues
  }

  lemma VisitMembers(devices: seq<Device>, node: uint32, current: nat, last: Index, t: nat)
    requires Populated(devices) && devices != [] && Fits(devices, node, last)
    ensures var probes := VisitOf(devices, node, current, last, t);
            && Distinct(probes)
            && forall p :: p in probes <==> OnNode(devices, node, p) && p.device == DeviceAt(current, t, |devices|)
  {
    hide DeviceAt, Used, QueuesOf;
    var device := DeviceAt(current, t, |devices|);
    UsedFits(devices, node, current, last, t);
    if devices[device].node == node {
      QueuesMembers(device, Came(devices[device], Used(devices, node, current, last, t)).queue, devices[device].queues);
    }
  }

  /** The probes after t visits are the queues, each once, of the visited devices on the node. */
  lemma {:induction false} OrderMembers(devices: seq<Device>, node: uint32, current: nat, last: Index, t: nat)
    requires current < |devices| && Populated(devices) && Fits(devices, node, last) && t <= |devices|
    ensures Distinct(Order(devices, node, current, last, t))
    ensures forall p :: p in Order(devices, node, current, last, t) <==>
              OnNode(devices, node, p) && Visited(current, t, |devices|, p.device)
  {
    hide DeviceAt, VisitOf;
    if t > 0 {
      OrderMembers(devices, node, current, last, t - 1);
      NewDevice(current, t, |devices|);
      VisitMembers(devices, node, current, last, t - 1);
      forall p: Probe
        ensures Visited(current, t, |devices|, p.device) <==>
                Visited(current, t - 1, |devices|, p.device) || p.device == DeviceAt(current, t - 1, |devices|)
      {
        VisitedStep(current, t, |devices|, p.device);
      }
      DistinctAppend(Order(devices, node, current, last, t - 1), VisitOf(devices, node, current, last, t - 1));
    }
  }

  lemma DistinctAppend<T>(a: seq<T>, b: seq<T>)
    requires Distinct(a) && Distinct(b) && forall x :: x in a ==> x !in b
    ensures Distinct(a + b)
  {
    forall i, j | 0 <= i < j < |a + b|
      ensures (a + b)[i] != (a + b)[j]
    {
      if i < |a| <= j {
        assert a[i] in a && b[j - |a|] in b;
      }
    }
  }

  /**
   * With an index that fits, a submission in vain has probed every queue of every device on the node once, and no
   * other.
   */
  lemma OrderExact(devices: seq<Device>, node: uint32, current: nat, last: Index)
    requires current < |devices| && Populated(devices) && Fits(devices, node, last)
    ensures Distinct(Order(devices, node, current, last, |devices|))
    ensures forall p :: p in Order(devices, node, current, last, |devices|) <==> OnNode(devices, node, p)
  {
    OrderMembers(devices, node, current, last, |devices|);
    hide Order, DeviceAt;
    forall p: Probe | p.device < |devices|
      ensures Visited(current, |devices|, |devices|, p.device)
    {
      EveryDeviceVisited(current, p.device, |devices|);
    }
  }

  lemma {:induction false} OrderPrefix(devices: seq<Device>, node: uint32, current: nat, last: Index, t: nat, u: nat)
    requires t <= u && devices != [] && Populated(devices)
    ensures Order(devices, node, current, last, t) <= Order(devices, node, current, last, u)
    decreases u
  {
    hide VisitOf;
    if t < u {
      OrderPrefix(devices, node, current, last, t, u - 1);
    }
  }

  /** The highest queue is tried, and so is the last index, whether the device has it or not. */
  lemma QueuesTried(device: nat, last: nat, n: nat)
    requires 0 < n
    ensures Probe(device, n - 1) in QueuesOf(device, last, n) && Probe(device, last) in QueuesOf(device, last, n)
  {
    var queues := QueuesOf(device, last, n);
    assert queues[|queues| - 1] == Probe(device, last);
    var highest := if last < n - 1 then n - 2 - last else n - 1;
    assert queues[highest] == Probe(device, n - 1);
  }

  lemma VisitInOrder(devices: seq<Device>, node: uint32, current: nat, last: Index, t: nat, p: Probe)
    requires t < |devices| && Populated(devices) && p in VisitOf(devices, node, current, last, t)
    ensures p in Order(devices, node, current, last, |devices|)
  {
    hide VisitOf;
    OrderPrefix(devices, node, current, last, t + 1, |devices|);
    assert p in Order(devices, node, current, last, t + 1);
  }

  lemma VisitTries(devices: seq<Device>, node: uint32, current: nat, last: Index, device: nat)
    requires current < |devices| && Populated(devices) && device < |devices| && devices[device].node == node
    ensures Probe(device, devices[device].queues - 1) in Order(devices, node, current, last, |devices|)
    ensures last.Last? ==> Probe(device, last.queue) in Order(devices, node, current, last, |devices|)
  {
    EveryDeviceVisited(current, device, |devices|);
    var t := if current <= device then device - current else device + |devices| - current;
    hide DeviceAt, Used, QueuesOf, Order;
    var used := Came(devices[device], Used(devices, node, current, last, t)).queue;
    QueuesTried(device, used, devices[device].queues);
    VisitInOrder(devices, node, current, last, t, Probe(device, devices[device].queues - 1));
    if last.Last? {
      UsedKept(devices, node, current, last, t);
      VisitInOrder(devices, node, current, last, t, Probe(device, last.queue));
    }
  }

  lemma {:induction false} UsedKept(devices: seq<Device>, node: uint32, current: nat, last: Index, t: nat)
    requires Populated(devices) && devices != [] && last.Last?
    ensures Used(devices, node, current, last, t) == last
  {
    hide DeviceAt;
    if t > 0 {
      UsedKept(devices, node, current, last, t - 1);
    }
  }

  /** The probes all refuse, but for the last when the submission succeeds. */
  ghost predicate StopsAtFirst(probes: seq<Probe>, accepts: Probe -> bool, success: bool) {
    && (success ==> probes != [] && accepts(probes[|probes| - 1]))
    && forall i :: 0 <= i < |probes| && (success ==> i < |probes| - 1) ==> !accepts(probes[i])
  }

  // Runs of one thread

  /** A thread's two indices. */
  datatype Thread = Thread(current: nat, last: Index)

  const FRESH := Thread(0, Unset)

  /** A submission: the node it asks for, the queues that would accept, and whether there is hardware at all. */
  datatype Call = Call(node: uint32, accepts: Probe -> bool, supported: bool)

  /** hardware_device::submit takes the thread from s to t, trying these queues in this order. */
  ghost predicate Submits(devices: seq<Device>, call: Call, s: Thread, t: Thread, status: Status, probes: seq<Probe>)
    requires Populated(devices)
  {
    var order := Order(devices, call.node, s.current, s.last, |devices|);
    && (status == Failure <==> !call.supported)
    && StopsAtFirst(probes, call.accepts, status == Success)
    && match status
       case Failure => probes == [] && t == s
       case QueueBusy =>
         probes == order && t == Thread(s.current, Used(devices, call.node, s.current, s.last, |devices|))
       case Success =>
         var taken := probes[|probes| - 1];
         && probes <= order && taken.device < |devices|
         && t.current == DeviceAt(taken.device, 1, |devices|) && t.last.Last? && t.last.queue == taken.queue
  }

  /** One submission of a run, with the queues it tried. */
  datatype Submission = Submission(call: Call, status: Status, probes: seq<Probe>, after: Thread)

  /** A thread's submissions, one after the other, starting fresh. */
  ghost predicate Run(devices: seq<Device>, run: seq<Submission>)
    requires Populated(devices)
  {
    forall i :: 0 <= i < |run| ==>
      Submits(devices, run[i].call, Before(run, i), run[i].after, run[i].status, run[i].probes)
  }

  function Before(run: seq<Submission>, i: nat): Thread
    requires i <= |run|
  {
    if i == 0 then FRESH else run[i - 1].after
  }

  ghost predicate RunInRange(devices: seq<Device>, run: seq<Submission>) {
    forall i :: 0 <= i < |run| ==> InRange(devices, run[i].probes)
  }

  /** The devices a submission can ask for, those whose node fits the 32 bits of a request, have equally many queues. */
  ghost predicate EqualCounts(devices: seq<Device>) {
    forall i, j :: 0 <= i < |devices| && 0 <= j < |devices|
                   && devices[i].node < TWO_TO_THE_32 && devices[j].node < TWO_TO_THE_32 ==>
      devices[i].queues == devices[j].queues
  }

  /** What a thread keeps: its device exists, and its index is a queue of every device a submission can ask for. */
  ghost predicate Steady(devices: seq<Device>, s: Thread) {
    && (devices != [] ==> s.current < |devices|)
    && (s.last.Last? ==> forall i :: 0 <= i < |devices| && devices[i].node < TWO_TO_THE_32 ==>
        s.last.queue < devices[i].queues)
  }

  lemma {:induction false} UsedSteady(devices: seq<Device>, node: uint32, s: Thread, t: nat)
    requires Populated(devices) && EqualCounts(devices) && Steady(devices, s) && (t > 0 ==> devices != [])
    ensures Steady(devices, Thread(s.current, Used(devices, node, s.current, s.last, t)))
  {
    hide DeviceAt;
    if t > 0 {
      UsedSteady(devices, node, s, t - 1);
    }
  }

  lemma {:induction false} NoDevices(node: uint32, current: nat, last: Index)
    ensures Order([], node, current, last, 0) == []
  {
  }

  lemma SubmitSteady(devices: seq<Device>, call: Call, s: Thread, t: Thread, status: Status, probes: seq<Probe>)
    requires Populated(devices) && EqualCounts(devices) && Steady(devices, s)
    requires Submits(devices, call, s, t, status, probes)
    ensures InRange(devices, probes) && Steady(devices, t)
  {
    hide Order, Used;
    if devices == [] {
      NoDevices(call.node, s.current, s.last);
      assert probes == [];
      UsedSteady(devices, call.node, s, 0);
    } else {
      OrderExact(devices, call.node, s.current, s.last);
      UsedSteady(devices, call.node, s, |devices|);
      var order := Order(devices, call.node, s.current, s.last, |devices|);
      forall i | 0 <= i < |probes|
        ensures OnNode(devices, call.node, probes[i])
      {
        assert probes[i] == order[i];
      }
    }
  }

  lemma {:induction false} EqualCountsStay(devices: seq<Device>, run: seq<Submission>, i: nat)
    requires Populated(devices) && EqualCounts(devices) && Run(devices, run) && i <= |run|
    ensures Steady(devices, Before(run, i)) && forall k :: 0 <= k < i ==> InRange(devices, run[k].probes)
  {
    hide Submits, EqualCounts, Steady, InRange;
    if i > 0 {
      EqualCountsStay(devices, run, i - 1);
      var step := run[i - 1];
      SubmitSteady(devices, step.call, Before(run, i - 1), step.after, step.status, step.probes);
    } else {
      FreshSteady(devices);
    }
  }

  lemma FreshSteady(devices: seq<Device>)
    ensures Steady(devices, FRESH)
  {
  }

  /** The probes of an order up to the first that is p. */
  lemma {:induction false} UpTo(order: seq<Probe>, p: Probe) returns (probes: seq<Probe>)
    requires p in order
    ensures probes <= order && probes != [] && probes[|probes| - 1] == p
    ensures forall i :: 0 <= i < |probes| - 1 ==> probes[i] != p
  {
    var last := |order| - 1;
    if p in order[..last] {
      probes := UpTo(order[..last], p);
    } else {
      probes := order;
      assert forall i :: 0 <= i < last ==> order[..last][i] == order[i];
    }
  }

  /** Every thread can come to have the highest queue of a device as its last index. */
  lemma TakeHighest(devices: seq<Device>, s: Thread, device: nat) returns (step: Submission)
    requires Populated(devices) && s.current < |devices| && device < |devices| && devices[device].node < TWO_TO_THE_32
    ensures Submits(devices, step.call, s, step.after, step.status, step.probes)
    ensures step.after.current < |devices| && step.after.last == Last(devices[device].queues - 1)
  {
    var node, p := devices[device].node, Probe(device, devices[device].queues - 1);
    VisitTries(devices, node, s.current, s.last, device);
    hide Order, Used, DeviceAt;
    var probes := UpTo(Order(devices, node, s.current, s.last, |devices|), p);
    var after := Thread(DeviceAt(device, 1, |devices|), Last(p.queue));
    var accepts := (q: Probe) => q == p;
    assert StopsAtFirst(probes, accepts, true);
    hide StopsAtFirst;
    step := Submission(Call(node, accepts, true), Success, probes, after);
  }

  /**
   * With every queue busy, an index that is set is tried on each device of the node, whether it has that queue or not.
   */
  lemma TryAll(devices: seq<Device>, s: Thread, device: nat) returns (step: Submission)
    requires Populated(devices) && s.current < |devices| && device < |devices| && devices[device].node < TWO_TO_THE_32
    requires s.last.Last?
    ensures Submits(devices, step.call, s, step.after, step.status, step.probes)
    ensures Probe(device, s.last.queue) in step.probes
  {
    VisitTries(devices, devices[device].node, s.current, s.last, device);
    hide Order, Used;
    var probes := Order(devices, devices[device].node, s.current, s.last, |devices|);
    var after := Thread(s.current, Used(devices, devices[device].node, s.current, s.last, |devices|));
    step := Submission(Call(devices[device].node, _ => false, true), QueueBusy, probes, after);
  }

  /**
   * Two devices that differ in their queues: a run that takes the highest queue of the larger and then finds all busy.
   */
  lemma UnequalCountsOverrun(devices: seq<Device>, a: nat, b: nat) returns (run: seq<Submission>)
    requires Populated(devices) && a < |devices| && b < |devices|
    requires devices[a].node < TWO_TO_THE_32 && devices[b].node < TWO_TO_THE_32 && devices[b].queues < devices[a].queues
    ensures Run(devices, run) && !RunInRange(devices, run)
  {
    var first := TakeHighest(devices, FRESH, a);
    var second := TryAll(devices, first.after, b);
    hide Submits;
    run := [first, second];
    assert Before(run, 0) == FRESH && Before(run, 1) == first.after;
    var i :| 0 <= i < |second.probes| && second.probes[i] == Probe(b, devices[a].queues - 1);
    assert !InRange(devices, run[1].probes);
  }

  /**
   * Every run of a fresh thread, whatever nodes it asks for and whichever queues accept, tries only queues that exist
   * exactly when the devices have equally many queues.
   */
  lemma RunsInRangeIff(devices: seq<Device>)
    requires Populated(devices)
    ensures EqualCounts(devices) <==> forall run :: Run(devices, run) ==> RunInRange(devices, run)
  {
    if EqualCounts(devices) {
      forall run | Run(devices, run)
        ensures RunInRange(devices, run)
      {
        EqualCountsStay(devices, run, |run|);
      }
    } else {
      hide Run, RunInRange;
      var i, j :| 0 <= i < |devices| && 0 <= j < |devices| && devices[i].node < TWO_TO_THE_32
                  && devices[j].node < TWO_TO_THE_32 && devices[i].queues != devices[j].queues;
      var run;
      if devices[j].queues < devices[i].queues {
        run := UnequalCountsOverrun(devices, i, j);
      } else {
        run := UnequalCountsOverrun(devices, j, i);
      }
    }
  }

  /** The second of two devices is probed at the first one's highest queue. */
  lemma SecondProbed(devices: seq<Device>)
    requires |devices| == 2 && Populated(devices) && devices[0].node == devices[1].node == 0
    ensures Probe(1, devices[0].queues - 1) in Order(devices, 0, 0, Unset, 2)
  {
    assert DeviceAt(0, 0, 2) == 0 && DeviceAt(0, 1, 2) == 1;
    assert Used(devices, 0, 0, Unset, 0) == Unset;
    assert Used(devices, 0, 0, Unset, 1) == Last(devices[0].queues - 1);
    hide DeviceAt, Used, Order, QueuesOf;
    QueuesTried(1, devices[0].queues - 1, devices[1].queues);
    VisitInOrder(devices, 0, 0, Unset, 1, Probe(1, devices[0].queues - 1));
  }

  lemma AllBusy(devices: seq<Device>, node: uint32) returns (step: Submission)
    requires Populated(devices)
    ensures step.probes == Order(devices, node, 0, Unset, |devices|) && step.status == QueueBusy
            && step.call.node == node
    ensures Submits(devices, step.call, FRESH, step.after, step.status, step.probes)
  {
    hide Used, Order;
    var after := Thread(0, Used(devices, node, 0, Unset, |devices|));
    step := Submission(Call(node, _ => false, true), QueueBusy, Order(devices, node, 0, Unset, |devices|), after);
  }

  /** Two devices with 4 and 2 queues: the first submission, finding every queue busy, indexes queue 3 of the second. */
  lemma FourAndTwo() returns (run: seq<Submission>)
    ensures var devices := [Device(0, 4), Device(0, 2)];
            Run(devices, run) && |run| == 1 && Probe(1, 3) in run[0].probes && !RunInRange(devices, run)
  {
    var devices := [Device(0, 4), Device(0, 2)];
    var step := AllBusy(devices, 0);
    SecondProbed(devices);
    hide Submits, Order, Used;
    run := [step];
    assert Before(run, 0) == FRESH;
    var i :| 0 <= i < |step.probes| && step.probes[i] == Probe(1, 3);
    assert !InRange(devices, run[0].probes);
  }

  /** One more queue tried. */
  lemma TryNext(probes: seq<Probe>, all: seq<Probe>, p: Probe, accepts: Probe -> bool)
    requires probes <= all && |probes| < |all| && all[|probes|] == p && StopsAtFirst(probes, accepts, false)
    ensures probes + [p] <= all && StopsAtFirst(probes + [p], accepts, accepts(p))
  {
  }

  /** The order of one device's queues, as the two loops come to them. */
  lemma QueueAt(device: nat, last: nat, n: nat, i: nat)
    ensures var all, passed := QueuesOf(device, last, n), if last < n then n - last - 1 else 0;
            && |all| == passed + last + 1
            && (i < |all| ==> all[i] == Probe(device, if i < passed then last + 1 + i else i - passed))
  {
  }

  // One thread's submitter

  /** The thread-local indices. */
  class Submitter {
    const devices: seq<Device>
    var currentDevice: nat
    var lastQueue: Index

    ghost predicate Valid()
      reads this
    {
      && Populated(devices) && (devices != [] ==> currentDevice < |devices|)
      && (lastQueue.Last? ==> lastQueue.queue + 1 < TWO_TO_THE_32)
    }

    ghost function State(): Thread
      reads this
    {
      Thread(currentDevice, lastQueue)
    }

    constructor (devices: seq<Device>)
      requires Populated(devices)
      ensures Valid() && this.devices == devices && State() == FRESH
    {
      this.devices, currentDevice, lastQueue := devices, 0, Unset;
    }

    /** hw_device::enqueue_descriptor */
    method Enqueue(device: nat, accepts: Probe -> bool) returns (ok: bool, ghost probes: seq<Probe>)
      requires Valid() && device < |devices|
      modifies this`lastQueue
      ensures Valid() && lastQueue.Last? && probes != [] && StopsAtFirst(probes, accepts, ok)
      ensures var all := QueuesOf(device, Came(devices[device], old(lastQueue)).queue, devices[device].queues);
              if ok then probes <= all && probes[|probes| - 1] == Probe(device, lastQueue.queue)
              else probes == all && lastQueue == Came(devices[device], old(lastQueue))
    {
      var queueCount := devices[device].queues;
      if lastQueue.Unset? {
        lastQueue := Last(queueCount - 1);
      }
      var last := lastQueue.queue;
      ghost var all := QueuesOf(device, last, queueCount);
      QueueAt(device, last, queueCount, 0);
      hide QueuesOf, StopsAtFirst, Indices;
      NoneTried(accepts);
      probes := [];
      var index := last + 1;
      while index < queueCount
        invariant lastQueue == Last(last) && |probes| == index - last - 1 && probes <= all
        invariant index == last + 1 || last < index <= queueCount
        invariant StopsAtFirst(probes, accepts, false)
      {
        QueueAt(device, last, queueCount, |probes|);
        TryNext(probes, all, Probe(device, index), accepts);
        probes := probes + [Probe(device, index)];
        if accepts(Probe(device, index)) {
          lastQueue := Last(index);
          return true, probes;
        }
        index := index + 1;
      }
      ghost var passed := |probes|;
      for index := 0 to last + 1
        invariant lastQueue == Last(last) && |probes| == passed + index && probes <= all
        invariant StopsAtFirst(probes, accepts, false)
      {
        QueueAt(device, last, queueCount, |probes|);
        TryNext(probes, all, Probe(device, index), accepts);
        probes := probes + [Probe(device, index)];
        if accepts(Probe(device, index)) {
          lastQueue := Last(index);
          return true, probes;
        }
      }
      return false, probes;
    }

    /**
     * One turn of the submission loop: the current device, if it is on the node, is tried, and the next becomes
     * current.
     */
    method Visit(node: uint32, accepts: Probe -> bool, ghost s: Thread, ghost t: nat, ghost before: seq<Probe>)
      returns (ok: bool, enqueued: bool, ghost probes: seq<Probe>)
      requires Valid() && s.current < |devices| && t < |devices|
      requires currentDevice == DeviceAt(s.current, t, |devices|)
               && lastQueue == Used(devices, node, s.current, s.last, t)
      requires before == Order(devices, node, s.current, s.last, t) && StopsAtFirst(before, accepts, false)
      modifies this
      ensures Valid() && currentDevice == DeviceAt(s.current, t + 1, |devices|)
      ensures StopsAtFirst(probes, accepts, ok) && before <= probes && (enqueued <==> |before| < |probes|)
      ensures probes <= Order(devices, node, s.current, s.last, t + 1)
      ensures ok ==> && probes[|probes| - 1].device == old(currentDevice) && lastQueue.Last?
                     && probes[|probes| - 1].queue == lastQueue.queue
                     && currentDevice == DeviceAt(old(currentDevice), 1, |devices|)
      ensures !ok ==> && lastQueue == Used(devices, node, s.current, s.last, t + 1)
                      && probes == Order(devices, node, s.current, s.last, t + 1)
    {
      hide Indices, QueuesOf, DeviceAt, StopsAtFirst;
      var device := currentDevice;
      NextDevice(s.current, t, |devices|);
      currentDevice := (currentDevice + 1) % |devices|;
      ok, enqueued, probes := false, false, before;
      if node == devices[device].node {
        enqueued := true;
        ghost var more;
        ok, more := Enqueue(device, accepts);
        StopsAppend(before, more, accepts, ok);
        probes := before + more;
      }
    }

    /** hardware_device::submit; cleared tells whether the completion record has been zeroed. */
    method Submit(node: uint32, accepts: Probe -> bool, supported: bool)
      returns (status: Status, cleared: bool, ghost probes: seq<Probe>)
      requires Valid()
      modifies this
      ensures Valid() && Submits(devices, Call(node, accepts, supported), old(State()), State(), status, probes)
      ensures cleared <==> probes != []
    {
      hide Indices, QueuesOf, DeviceAt, StopsAtFirst, Order, Used;
      ghost var s := State();
      NoProbes(devices, node, s, accepts);
      probes, cleared := [], false;
      if !supported {
        return Failure, cleared, probes;
      }
      FirstDevice(s.current, |devices|);
      var tried := 0;
      while tried < |devices|
        invariant 0 <= tried <= |devices| && Valid() && lastQueue == Used(devices, node, s.current, s.last, tried)
        invariant currentDevice == if devices == [] then s.current else DeviceAt(s.current, tried, |devices|)
        invariant probes == Order(devices, node, s.current, s.last, tried)
        invariant StopsAtFirst(probes, accepts, false)
        invariant cleared <==> probes != []
      {
        var ok, enqueued;
        ok, enqueued, probes := Visit(node, accepts, s, tried, probes);
        cleared := cleared || enqueued;
        if ok {
          OrderPrefix(devices, node, s.current, s.last, tried + 1, |devices|);
          return Success, cleared, probes;
        }
        tried := tried + 1;
      }
      FullCircle(s.current, |devices|);
      return QueueBusy, cleared, probes;
    }
  }

  lemma NoneTried(accepts: Probe -> bool)
    ensures StopsAtFirst([], accepts, false)
  {
  }

  lemma NoProbes(devices: seq<Device>, node: uint32, s: Thread, accepts: Probe -> bool)
    requires Populated(devices)
    ensures Order(devices, node, s.current, s.last, 0) == [] && StopsAtFirst([], accepts, false)
    ensures Used(devices, node, s.current, s.last, 0) == s.last
  {
  }

  lemma NextDevice(current: nat, i: nat, count: nat)
    requires current < count && i < count
    ensures (DeviceAt(current, i, count) + 1) % count == DeviceAt(DeviceAt(current, i, count), 1, count)
    ensures DeviceAt(DeviceAt(current, i, count), 1, count) == DeviceAt(current, i + 1, count)
  {
    WrapOnce(current + i, count);
    WrapOnce(current + i + 1, count);
    WrapOnce(DeviceAt(current, i, count) + 1, count);
  }

  lemma FirstDevice(current: nat, count: nat)
    requires count > 0 ==> current < count
    ensures count > 0 ==> DeviceAt(current, 0, count) == current
  {
    if count > 0 {
      WrapOnce(current, count);
    }
  }

  lemma StopsAppend(a: seq<Probe>, b: seq<Probe>, accepts: Probe -> bool, success: bool)
    requires StopsAtFirst(a, accepts, false) && StopsAtFirst(b, accepts, success)
    ensures StopsAtFirst(a + b, accepts, success)
    ensures success ==> b != [] && (a + b)[|a + b| - 1] == b[|b| - 1]
  {
  }

  lemma FullCircle(current: nat, count: nat)
    requires count > 0 ==> current < count
    ensures count > 0 ==> DeviceAt(current, count, count) == current
  {
    if count > 0 {
      WrapOnce(current + count, count);
    }
  }
}
