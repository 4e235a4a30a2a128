/** AQL packet submission: any number of submitters and the packet processor, interleaved step by step over
    one ring queue. The packet processor's side follows sections 2.8 and 2.9 of the HSA Platform System
    Architecture Specification 1.0: it takes packets in index order, waits for a valid header, and marks
    the header invalid when it is done with the packet. */
module AqlQueue {
  import opened Bits

  datatype Field =
    | CompletionSignal | WorkgroupX | WorkgroupY | WorkgroupZ | GridX | GridY | GridZ
    | GroupSegment | PrivateSegment | KernelObject | KernargAddress

  /** Packet bytes after the header; a field that is not listed is zero. */
  type Body = map<Field, nat>

  datatype Store = ZeroAll | Put(field: Field, value: nat)

  function Get(b: Body, f: Field): nat { if f in b then b[f] else 0 }

  function Apply(b: Body, w: Store): Body {
    match w
    case ZeroAll => map[]
    case Put(f, v) => b[f := v]
  }

  function ApplyAll(b: Body, ws: seq<Store>): Body {
    if ws == [] then b else Apply(ApplyAll(b, ws[..|ws| - 1]), ws[|ws| - 1])
  }

  /** What one submitter wants to run; `setup` is whatever its own Setup stores between the others. */
  datatype Job = Job(signal: nat, kernelObject: nat, setup: seq<(Field, nat)>, groupStatic: nat, groupDynamic: nat)

  function InitStores(signal: nat): seq<Store> {
    [ZeroAll, Put(CompletionSignal, signal),
     Put(WorkgroupX, 1), Put(WorkgroupY, 1), Put(WorkgroupZ, 1),
     Put(GridX, 1), Put(GridY, 1), Put(GridZ, 1),
     Put(GroupSegment, 0), Put(PrivateSegment, 0)]
  }

  function SetupStores(setup: seq<(Field, nat)>): (ws: seq<Store>)
    ensures |ws| == |setup|
  {
    seq(|setup|, i requires 0 <= i < |setup| => Put(setup[i].0, setup[i].1))
  }

  function GroupStore(job: Job): Store {
    Put(GroupSegment, (job.groupStatic + job.groupDynamic) % 0x1_0000_0000)
  }

  /** Every store to the packet body, in program order. */
  function Stores(job: Job): (ws: seq<Store>)
    ensures |ws| > 0 && ws[0] == ZeroAll
  {
    InitStores(job.signal) + [Put(KernelObject, job.kernelObject)] + SetupStores(job.setup) + [GroupStore(job)]
  }

  /** The number of dimensions put in the setup half of the header word. */
  function Dimensions(b: Body): nat {
    if Get(b, GridZ) > 1 then 3 else if Get(b, GridY) > 1 then 2 else 1
  }

  /** The header word counts the last dimension of the grid that is larger than one. */
  predicate GridHeader(header: nat, b: Body) {
    && 1 <= header <= 3
    && (header == 3 <==> Get(b, GridZ) > 1)
    && (header >= 2 <==> Get(b, GridY) > 1 || Get(b, GridZ) > 1)
  }

  function Final(job: Job): Body { ApplyAll(map[], Stores(job)) }

  // ---- the submitter's own code ----

  class Packet {
    var body: Body
    var header: nat

    /** InitDispatch, on the slot it reserved. */
    method InitDispatch(signal: nat)
      modifies this`body
      ensures body == ApplyAll(old(body), InitStores(signal))
    {
      InitApplied(body, signal);
      body := map[];
      body := body[CompletionSignal := signal];
      body := body[WorkgroupX := 1][WorkgroupY := 1][WorkgroupZ := 1];
      body := body[GridX := 1][GridY := 1][GridZ := 1];
      body := body[GroupSegment := 0];
      body := body[PrivateSegment := 0];
    }

    /** RunDispatch: the dimensions are read from the grid, the group size is stored, and the header word
        is published last. */
    method RunDispatch(groupStatic: nat, groupDynamic: nat)
      modifies this
      ensures body == Apply(old(body), Put(GroupSegment, (groupStatic + groupDynamic) % 0x1_0000_0000))
      ensures header == Dimensions(body) && GridHeader(header, old(body))
    {
      var dim := 1;
      if Get(body, GridY) > 1 { dim := 2; }
      if Get(body, GridZ) > 1 { dim := 3; }
      body := body[GroupSegment := (groupStatic + groupDynamic) % 0x1_0000_0000];
      header := dim;
    }
  }

  /** The body after the stores of InitDispatch, whatever it held before. */
  lemma InitApplied(b: Body, signal: nat)
    ensures ApplyAll(b, InitStores(signal))
         == map[CompletionSignal := signal][WorkgroupX := 1][WorkgroupY := 1][WorkgroupZ := 1]
               [GridX := 1][GridY := 1][GridZ := 1][GroupSegment := 0][PrivateSegment := 0]
  {
    var ws := InitStores(signal);
    FirstStores(b, ws, signal);
    ApplyPrefix(b, ws, 5);
    ApplyPrefix(b, ws, 6);
    ApplyPrefix(b, ws, 7);
    ApplyPrefix(b, ws, 8);
    ApplyPrefix(b, ws, 9);
    assert ws[..10] == ws;
  }

  lemma FirstStores(b: Body, ws: seq<Store>, signal: nat)
    requires ws == InitStores(signal)
    ensures ApplyAll(b, ws[..5]) == map[CompletionSignal := signal][WorkgroupX := 1][WorkgroupY := 1][WorkgroupZ := 1]
  {
    ApplyPrefix(b, ws, 0);
    ApplyPrefix(b, ws, 1);
    ApplyPrefix(b, ws, 2);
    ApplyPrefix(b, ws, 3);
    ApplyPrefix(b, ws, 4);
  }

  lemma ApplyPrefix(b: Body, ws: seq<Store>, n: nat)
    requires n < |ws|
    ensures ApplyAll(b, ws[..n + 1]) == Apply(ApplyAll(b, ws[..n]), ws[n])
    ensures n == 0 ==> ApplyAll(b, ws[..0]) == b
  {
    assert ws[..n + 1][..n] == ws[..n];
  }

  // ---- the protocol ----

  /** A slot's header is 0 while it is invalid, else the dimensions in it. */
  datatype Slot = Slot(header: nat, body: Body)

  /** A submitter between its reservation and its doorbell. */
  datatype Thread = Thread(job: Job, index: nat, done: nat, published: bool)

  datatype Delivered = Delivered(dimensions: nat, body: Body)

  /** `jobs[i]` is the job that reserved packet index i; `taken` is what the packet processor consumed. */
  datatype Queue = Queue(size: nat, slots: seq<Slot>, write: nat, read: nat, threads: map<nat, Thread>,
                         jobs: seq<Job>, taken: seq<Delivered>)

  function SlotOf(size: nat, index: nat): nat
    requires size > 0
  {
    And(index, size - 1)
  }

  datatype Action =
    | Reserve(t: nat, job: Job)
    | StoreNext(t: nat)
    | Publish(t: nat)
    | Ring(t: nat)
    | Consume

  ghost predicate Shape(q: Queue) { IsPow2(q.size) && |q.slots| == q.size }

  lemma SlotIsRemainder(size: nat, index: nat)
    requires IsPow2(size)
    ensures size > 0 && SlotOf(size, index) == index % size < size
  {
    var k: nat :| size == Pow2(k);
    AndMask(index, k);
  }

  /** What the code lets happen next. */
  ghost predicate Possible(q: Queue, a: Action)
    requires Shape(q)
  {
    SlotIsRemainder(q.size, q.read);
    match a
    case Reserve(t, _) => t !in q.threads
    case StoreNext(t) => t in q.threads && q.threads[t].done < |Stores(q.threads[t].job)|
    case Publish(t) => t in q.threads && q.threads[t].done == |Stores(q.threads[t].job)| && !q.threads[t].published
    case Ring(t) => t in q.threads && q.threads[t].published
    case Consume => q.slots[SlotOf(q.size, q.read)].header != 0
  }

  /** Fewer than `size` packets are outstanding. */
  predicate Room(q: Queue) { q.write < q.read + q.size }

  /** The environment does not let more than `size` packets be outstanding; nothing else restrains the submitters. */
  ghost predicate Enabled(q: Queue, a: Action)
    requires Shape(q)
  {
    Possible(q, a) && (a.Reserve? ==> Room(q))
  }

  ghost function Next(q: Queue, a: Action): (q': Queue)
    requires Shape(q) && Possible(q, a)
    ensures Shape(q')
  {
    match a
    case Reserve(t, job) =>
      q.(write := q.write + 1, threads := q.threads[t := Thread(job, q.write, 0, false)], jobs := q.jobs + [job])
    case StoreNext(t) =>
      var th := q.threads[t];
      SlotIsRemainder(q.size, th.index);
      var k := SlotOf(q.size, th.index);
      q.(slots := q.slots[k := q.slots[k].(body := Apply(q.slots[k].body, Stores(th.job)[th.done]))],
         threads := q.threads[t := th.(done := th.done + 1)])
    case Publish(t) =>
      var th := q.threads[t];
      SlotIsRemainder(q.size, th.index);
      var k := SlotOf(q.size, th.index);
      q.(slots := q.slots[k := q.slots[k].(header := Dimensions(q.slots[k].body))],
         threads := q.threads[t := th.(published := true)])
    case Ring(t) => q.(threads := q.threads - {t})
    case Consume =>
      SlotIsRemainder(q.size, q.read);
      var k := SlotOf(q.size, q.read);
      q.(slots := q.slots[k := q.slots[k].(header := 0)], read := q.read + 1,
         taken := q.taken + [Delivered(q.slots[k].header, q.slots[k].body)])
  }

  /** A fresh queue: all headers invalid, bodies arbitrary. */
  ghost predicate Initial(q: Queue) {
    && Shape(q) && q.write == q.read == 0 && q.threads == map[] && q.jobs == [] && q.taken == []
    && forall k :: 0 <= k < |q.slots| ==> q.slots[k].header == 0
  }

  // ---- the invariant ----

  /** Some submitter still works on this packet. */
  predicate Pending(q: Queue, index: nat) {
    exists t :: t in q.threads && !q.threads[t].published && q.threads[t].index == index
  }

  ghost predicate ThreadOk(q: Queue, t: nat)
    requires Shape(q) && t in q.threads
  {
    var th := q.threads[t];
    SlotIsRemainder(q.size, th.index);
    && th.index < q.write == |q.jobs| && th.job == q.jobs[th.index]
    && th.done <= |Stores(th.job)| && (th.published ==> th.done == |Stores(th.job)|)
    && (!th.published ==>
          && q.read <= th.index
          && (th.done > 0 ==> q.slots[th.index % q.size].body == ApplyAll(map[], Stores(th.job)[..th.done])))
  }

  ghost predicate SlotOk(q: Queue, index: nat)
    requires Shape(q)
  {
    SlotIsRemainder(q.size, index);
    var s := q.slots[index % q.size];
    if index < q.write == |q.jobs| && !Pending(q, index) then
      s == Slot(Dimensions(Final(q.jobs[index])), Final(q.jobs[index]))
    else s.header == 0
  }

  ghost predicate Inv(q: Queue) {
    && Shape(q) && q.read <= q.write <= q.read + q.size && q.write == |q.jobs| && q.read == |q.taken|
    && (forall t :: t in q.threads ==> ThreadOk(q, t))
    && (forall t, u :: t in q.threads && u in q.threads && t != u ==> q.threads[t].index != q.threads[u].index)
    && (forall index :: q.read <= index < q.read + q.size ==> SlotOk(q, index))
    && (forall i :: 0 <= i < |q.taken| ==>
          q.taken[i] == Delivered(Dimensions(Final(q.jobs[i])), Final(q.jobs[i])))
  }

  lemma WindowSlots(size: nat, a: nat, b: nat)
    requires size > 0 && a < b < a + size
    ensures a % size != b % size
  {
    if a % size == b % size {
      var p, q := a / size, b / size;
      assert a == p * size + a % size && b == q * size + b % size;
      if p < q { MulStep(p, q, size); } else { MulMono(q, p, size); }
    }
  }

  lemma InitialInv(q: Queue)
    requires Initial(q)
    ensures Inv(q)
  {
    forall index | q.read <= index < q.read + q.size ensures SlotOk(q, index) {
      SlotIsRemainder(q.size, index);
    }
  }

  lemma ReserveInv(q: Queue, t: nat, job: Job)
    requires Inv(q) && Enabled(q, Reserve(t, job))
    ensures Inv(Next(q, Reserve(t, job)))
  {
    var q' := Next(q, Reserve(t, job));
    forall index | q'.read <= index < q'.read + q'.size
      ensures SlotOk(q', index)
    {
      assert SlotOk(q, index);
      if index == q.write {
        assert q'.threads[t].index == index;
      } else {
        assert Pending(q, index) == Pending(q', index) by { PendingSame(q, q', index, t); }
      }
    }
    forall u | u in q'.threads ensures ThreadOk(q', u) {
      if u != t { assert ThreadOk(q, u); }
    }
    forall u, v | u in q'.threads && v in q'.threads && u != v
      ensures q'.threads[u].index != q'.threads[v].index
    {
      if u != t { assert ThreadOk(q, u); }
      if v != t { assert ThreadOk(q, v); }
    }
  }

  /** Pending is only about the threads other than t when t's packet is another one in both states. */
  lemma PendingSame(q: Queue, q': Queue, index: nat, t: nat)
    requires forall u :: u != t ==> (u in q.threads <==> u in q'.threads)
    requires forall u :: u != t && u in q.threads ==> q.threads[u] == q'.threads[u]
    requires t in q.threads ==> q.threads[t].index != index
    requires t in q'.threads ==> q'.threads[t].index != index
    ensures Pending(q, index) == Pending(q', index)
  {
    if Pending(q, index) {
      var u :| u in q.threads && !q.threads[u].published && q.threads[u].index == index;
      assert u in q'.threads;
    }
    if Pending(q', index) {
      var u :| u in q'.threads && !q'.threads[u].published && q'.threads[u].index == index;
      assert u in q.threads;
    }
  }

  /** A step of an unpublished submitter that changes only its own slot and record. */
  ghost predicate OwnStep(q: Queue, q': Queue, t: nat) {
    && Inv(q) && t in q.threads && !q.threads[t].published && q.size > 0
    && q'.size == q.size && q'.write == q.write && q'.read == q.read && q'.jobs == q.jobs && q'.taken == q.taken
    && |q'.slots| == |q.slots| && q.threads.Keys == q'.threads.Keys
    && q'.threads[t].index == q.threads[t].index
    && (forall u :: u in q.threads && u != t ==> q'.threads[u] == q.threads[u])
    && (forall k :: 0 <= k < q.size && k != q.threads[t].index % q.size ==> q'.slots[k] == q.slots[k])
  }

  lemma OtherSlot(q: Queue, q': Queue, t: nat, index: nat)
    requires OwnStep(q, q', t) && q.read <= index < q.read + q.size && index != q.threads[t].index
    ensures SlotOk(q', index) && index % q.size != q.threads[t].index % q.size
  {
    var mine := q.threads[t].index;
    assert ThreadOk(q, t) && SlotOk(q, index);
    PendingSame(q, q', index, t);
    SlotIsRemainder(q.size, index);
    if index < mine { WindowSlots(q.size, index, mine); } else { WindowSlots(q.size, mine, index); }
  }

  lemma OtherThread(q: Queue, q': Queue, t: nat, u: nat)
    requires OwnStep(q, q', t) && u in q.threads && u != t
    ensures ThreadOk(q', u)
  {
    assert ThreadOk(q, u);
    SlotIsRemainder(q.size, q.threads[u].index);
    if !q.threads[u].published { OtherSlot(q, q', t, q.threads[u].index); }
  }

  lemma OwnSlots(q: Queue, q': Queue, t: nat)
    requires OwnStep(q, q', t) && SlotOk(q', q.threads[t].index)
    ensures forall index :: q.read <= index < q.read + q.size ==> SlotOk(q', index)
  {
    forall index | q.read <= index < q.read + q.size ensures SlotOk(q', index) {
      if index != q.threads[t].index { OtherSlot(q, q', t, index); }
    }
  }

  lemma OwnThreads(q: Queue, q': Queue, t: nat)
    requires OwnStep(q, q', t) && ThreadOk(q', t)
    ensures forall u :: u in q'.threads ==> ThreadOk(q', u)
  {
    forall u | u in q'.threads ensures ThreadOk(q', u) {
      if u != t { OtherThread(q, q', t, u); }
    }
  }

  lemma OwnSlotInv(q: Queue, q': Queue, t: nat)
    requires OwnStep(q, q', t) && ThreadOk(q', t) && SlotOk(q', q.threads[t].index)
    ensures Inv(q')
  {
    OwnSlots(q, q', t);
    OwnThreads(q, q', t);
  }

  lemma StoreInv(q: Queue, t: nat)
    requires Inv(q) && Enabled(q, StoreNext(t))
    ensures Inv(Next(q, StoreNext(t)))
  {
    var q' := Next(q, StoreNext(t));
    var th := q.threads[t];
    assert ThreadOk(q, t);
    SlotIsRemainder(q.size, th.index);
    ApplyPrefix(q.slots[th.index % q.size].body, Stores(th.job), th.done);
    ApplyPrefix(map[], Stores(th.job), th.done);
    assert Pending(q, th.index);
    assert SlotOk(q, th.index);
    assert !q'.threads[t].published && q'.threads[t].index == th.index;
    assert Pending(q', th.index);
    OwnSlotInv(q, q', t);
  }

  lemma PublishInv(q: Queue, t: nat)
    requires Inv(q) && Enabled(q, Publish(t))
    ensures Inv(Next(q, Publish(t)))
  {
    var q' := Next(q, Publish(t));
    var th := q.threads[t];
    assert ThreadOk(q, t);
    SlotIsRemainder(q.size, th.index);
    assert Stores(th.job)[..th.done] == Stores(th.job);
    OwnSlotInv(q, q', t);
  }

  lemma RingInv(q: Queue, t: nat)
    requires Inv(q) && Enabled(q, Ring(t))
    ensures Inv(Next(q, Ring(t)))
  {
    var q' := Next(q, Ring(t));
    forall index | q'.read <= index < q'.read + q'.size
      ensures SlotOk(q', index)
    {
      assert SlotOk(q, index);
      assert Pending(q, index) == Pending(q', index) by {
        if Pending(q, index) {
          var u :| u in q.threads && !q.threads[u].published && q.threads[u].index == index;
          assert u in q'.threads;
        }
      }
    }
    forall u | u in q'.threads ensures ThreadOk(q', u) {
      assert ThreadOk(q, u);
    }
  }

  lemma NextRound(size: nat, i: nat)
    requires size > 0
    ensures (i + size) % size == i % size
  {
    MulAdd(i / size, 1, size);
    DivUnique(i + size, size, i / size + 1, i % size);
  }

  lemma ConsumeSlots(q: Queue, index: nat)
    requires Inv(q) && Enabled(q, Consume) && q.read < index <= q.read + q.size
    ensures SlotOk(Next(q, Consume), index)
  {
    var q' := Next(q, Consume);
    var head := q.read;
    SlotIsRemainder(q.size, head);
    SlotIsRemainder(q.size, index);
    assert Pending(q, index) == Pending(q', index);
    if index < head + q.size {
      assert SlotOk(q, index);
      WindowSlots(q.size, head, index);
    } else {
      NextRound(q.size, head);
    }
  }

  lemma ConsumeThreads(q: Queue, u: nat)
    requires Inv(q) && Enabled(q, Consume) && !Pending(q, q.read) && u in q.threads
    ensures ThreadOk(Next(q, Consume), u)
  {
    assert ThreadOk(q, u);
    SlotIsRemainder(q.size, q.read);
    SlotIsRemainder(q.size, q.threads[u].index);
    if !q.threads[u].published {
      assert q.threads[u].index != q.read;
      WindowSlots(q.size, q.read, q.threads[u].index);
    }
  }

  lemma ConsumeInv(q: Queue)
    requires Inv(q) && Enabled(q, Consume)
    ensures Inv(Next(q, Consume))
  {
    var q' := Next(q, Consume);
    SlotIsRemainder(q.size, q.read);
    assert SlotOk(q, q.read);
    assert !Pending(q, q.read) && q.read < q.write;
    forall index | q'.read <= index < q'.read + q'.size ensures SlotOk(q', index) {
      ConsumeSlots(q, index);
    }
    forall u | u in q'.threads ensures ThreadOk(q', u) {
      ConsumeThreads(q, u);
    }
  }

  // ---- whole runs ----

  /** A run: every action enabled when it is taken. */
  ghost predicate Runs(q: Queue, actions: seq<Action>, q': Queue)
    requires Shape(q)
    decreases |actions|
  {
    if actions == [] then q == q'
    else Enabled(q, actions[0]) && Runs(Next(q, actions[0]), actions[1..], q')
  }

  lemma StepInv(q: Queue, a: Action)
    requires Inv(q) && Enabled(q, a)
    ensures Inv(Next(q, a))
  {
    match a
    case Reserve(t, job) => ReserveInv(q, t, job);
    case StoreNext(t) => StoreInv(q, t);
    case Publish(t) => PublishInv(q, t);
    case Ring(t) => RingInv(q, t);
    case Consume => ConsumeInv(q);
  }

  lemma {:induction false} RunInv(q: Queue, actions: seq<Action>, q': Queue)
    requires Inv(q) && Runs(q, actions, q')
    ensures Inv(q')
    decreases |actions|
  {
    if actions != [] {
      StepInv(q, actions[0]);
      RunInv(Next(q, actions[0]), actions[1..], q');
    }
  }

  /** In every interleaving: the i-th packet consumed is the whole packet of the i-th reservation, so each
      packet is consumed at most once, in index order, and never before its last store. */
  lemma PacketsArriveWhole(q0: Queue, actions: seq<Action>, q: Queue, i: nat)
    requires Initial(q0) && Runs(q0, actions, q) && i < |q.taken|
    ensures |q.taken| == q.read <= q.write == |q.jobs|
    ensures q.taken[i] == Delivered(Dimensions(Final(q.jobs[i])), Final(q.jobs[i]))
  {
    InitialInv(q0);
    RunInv(q0, actions, q);
  }

  /** Two submitters at work at the same time never share a slot. */
  lemma SlotsNotShared(q0: Queue, actions: seq<Action>, q: Queue, t: nat, u: nat)
    requires Initial(q0) && Runs(q0, actions, q) && t in q.threads && u in q.threads && t != u
    requires !q.threads[t].published && !q.threads[u].published
    ensures q.size > 0 && SlotOf(q.size, q.threads[t].index) != SlotOf(q.size, q.threads[u].index)
  {
    InitialInv(q0);
    RunInv(q0, actions, q);
    var a, b := q.threads[t].index, q.threads[u].index;
    assert ThreadOk(q, t) && ThreadOk(q, u);
    SlotIsRemainder(q.size, a);
    SlotIsRemainder(q.size, b);
    if a < b { WindowSlots(q.size, a, b); } else { WindowSlots(q.size, b, a); }
  }

  lemma HeadPublished(q: Queue)
    requires Inv(q)
    ensures Enabled(q, Consume) <==> q.read < q.write && !Pending(q, q.read)
  {
    SlotIsRemainder(q.size, q.read);
    assert SlotOk(q, q.read);
  }

  /** The processor can take the oldest outstanding packet exactly when its submitter has published it. */
  lemma HeadReady(q0: Queue, actions: seq<Action>, q: Queue)
    requires Initial(q0) && Runs(q0, actions, q)
    ensures Shape(q) && (Enabled(q, Consume) <==> q.read < q.write && !Pending(q, q.read))
  {
    InitialInv(q0);
    RunInv(q0, actions, q);
    HeadPublished(q);
  }

  // ---- progress ----

  lemma {:induction false} RunsAppend(q: Queue, a: seq<Action>, q1: Queue, b: seq<Action>, q2: Queue)
    requires Shape(q) && Runs(q, a, q1) && Shape(q1) && Runs(q1, b, q2)
    ensures Runs(q, a + b, q2)
    decreases |a|
  {
    if a == [] {
      assert a + b == b;
    } else {
      assert (a + b)[1..] == a[1..] + b;
      RunsAppend(Next(q, a[0]), a[1..], q1, b, q2);
    }
  }

  lemma RunsOne(q: Queue, a: Action)
    requires Shape(q) && Enabled(q, a)
    ensures Runs(q, [a], Next(q, a))
  {
    assert [a][1..] == [];
  }

  /** The remaining stores of one submitter, one after the other. */
  lemma {:induction false} StoreRun(q: Queue, t: nat) returns (actions: seq<Action>, q': Queue)
    requires Shape(q) && t in q.threads && q.threads[t].done <= |Stores(q.threads[t].job)|
    ensures Runs(q, actions, q') && Shape(q')
    ensures q' == q.(slots := q'.slots, threads := q.threads[t := q.threads[t].(done := |Stores(q.threads[t].job)|)])
    ensures forall k :: 0 <= k < q.size ==> q'.slots[k].header == q.slots[k].header
    decreases |Stores(q.threads[t].job)| - q.threads[t].done
  {
    if q.threads[t].done == |Stores(q.threads[t].job)| {
      actions, q' := [], q;
    } else {
      var q1 := Next(q, StoreNext(t));
      var rest;
      rest, q' := StoreRun(q1, t);
      actions := [StoreNext(t)] + rest;
      RunsOne(q, StoreNext(t));
      RunsAppend(q, [StoreNext(t)], q1, rest, q');
    }
  }

  /** The submitter of the oldest packet finishes it and the processor takes it. */
  lemma DeliverHead(q: Queue) returns (actions: seq<Action>, q': Queue)
    requires Inv(q) && q.read < q.write
    ensures Runs(q, actions, q') && Inv(q') && q'.read == q.read + 1 && q'.write == q.write && q'.jobs == q.jobs
  {
    var q1 := q;
    actions := [];
    if Pending(q, q.read) {
      actions, q1 := PublishHead(q);
    }
    HeadPublished(q1);
    q' := Next(q1, Consume);
    RunsOne(q1, Consume);
    RunsAppend(q, actions, q1, [Consume], q');
    actions := actions + [Consume];
    RunInv(q, actions, q');
  }

  lemma PublishHead(q: Queue) returns (actions: seq<Action>, q': Queue)
    requires Inv(q) && Pending(q, q.read)
    ensures Runs(q, actions, q') && Inv(q') && !Pending(q', q.read)
    ensures q'.read == q.read && q'.write == q.write && q'.jobs == q.jobs
  {
    var t :| t in q.threads && !q.threads[t].published && q.threads[t].index == q.read;
    assert ThreadOk(q, t);
    var stores, q1 := StoreRun(q, t);
    q' := Next(q1, Publish(t));
    RunsOne(q1, Publish(t));
    RunsAppend(q, stores, q1, [Publish(t)], q');
    actions := stores + [Publish(t)];
    RunInv(q, actions, q');
  }

  lemma {:induction false} DeliverRest(q: Queue) returns (actions: seq<Action>, q': Queue)
    requires Inv(q)
    ensures Runs(q, actions, q') && Inv(q') && q'.read == q'.write && q'.jobs == q.jobs
    decreases q.write - q.read
  {
    if q.read == q.write {
      actions, q' := [], q;
    } else {
      var first, q1 := DeliverHead(q);
      var rest;
      rest, q' := DeliverRest(q1);
      RunsAppend(q, first, q1, rest, q');
      actions := first + rest;
    }
  }

  /** From every state that can be reached, every outstanding packet can still be delivered, whole and in order. */
  lemma AllDelivered(q0: Queue, actions: seq<Action>, q: Queue) returns (more: seq<Action>, q': Queue)
    requires Initial(q0) && Runs(q0, actions, q)
    ensures Runs(q0, actions + more, q') && q'.jobs == q.jobs && |q'.taken| == |q.jobs|
    ensures forall i :: 0 <= i < |q.jobs| ==> q'.taken[i] == Delivered(Dimensions(Final(q.jobs[i])), Final(q.jobs[i]))
  {
    InitialInv(q0);
    RunInv(q0, actions, q);
    more, q' := DeliverRest(q);
    RunsAppend(q0, actions, q, more, q');
  }

  // ---- one packet too many ----

  /** A run in which nothing but the code restrains the submitters. */
  ghost predicate FreeRuns(q: Queue, actions: seq<Action>, q': Queue)
    requires Shape(q)
    decreases |actions|
  {
    if actions == [] then q == q'
    else Possible(q, actions[0]) && FreeRuns(Next(q, actions[0]), actions[1..], q')
  }

  lemma {:induction false} RunsAreFree(q: Queue, actions: seq<Action>, q': Queue)
    requires Shape(q) && Runs(q, actions, q')
    ensures FreeRuns(q, actions, q')
    decreases |actions|
  {
    if actions != [] { RunsAreFree(Next(q, actions[0]), actions[1..], q'); }
  }

  lemma {:induction false} FreeAppend(q: Queue, a: seq<Action>, q1: Queue, b: seq<Action>, q2: Queue)
    requires Shape(q) && FreeRuns(q, a, q1) && Shape(q1) && FreeRuns(q1, b, q2)
    ensures FreeRuns(q, a + b, q2)
    decreases |a|
  {
    if a == [] {
      assert a + b == b;
    } else {
      assert (a + b)[1..] == a[1..] + b;
      FreeAppend(Next(q, a[0]), a[1..], q1, b, q2);
    }
  }

  lemma FreeSnoc(q: Queue, a: seq<Action>, q1: Queue, b: Action)
    requires Shape(q) && FreeRuns(q, a, q1) && Shape(q1) && Possible(q1, b)
    ensures FreeRuns(q, a + [b], Next(q1, b))
  {
    assert [b][1..] == [];
    FreeAppend(q, a, q1, [b], Next(q1, b));
  }

  /** A fresh queue after submitters 0 to n - 1 have reserved. */
  ghost function Reserved(q: Queue, job: Job, n: nat): Queue {
    q.(write := n, threads := map t: nat | t < n :: Thread(job, t, 0, false), jobs := seq(n, i => job))
  }

  lemma {:induction false} ReserveRun(q: Queue, job: Job, n: nat) returns (actions: seq<Action>)
    requires Initial(q)
    ensures FreeRuns(q, actions, Reserved(q, job, n))
    decreases n
  {
    if n == 0 {
      actions := [];
      assert Reserved(q, job, 0) == q;
    } else {
      actions := ReserveRun(q, job, n - 1);
      var q1 := Reserved(q, job, n - 1);
      FreeSnoc(q, actions, q1, Reserve(n - 1, job));
      actions := actions + [Reserve(n - 1, job)];
      assert Next(q1, Reserve(n - 1, job)) == Reserved(q, job, n) by {
        assert seq(n - 1, i => job) + [job] == seq(n, i => job);
      }
    }
  }

  /** With one reservation more than the queue has slots, two submitters share a slot: when the second has started
      on it before the first publishes, the processor takes a packet that is no one's. */
  lemma OverrunMixes(q0: Queue, job: Job) returns (actions: seq<Action>, q: Queue)
    requires Initial(q0)
    ensures FreeRuns(q0, actions, q) && |q.jobs| == q0.size + 1 && |q.taken| == 1
    ensures q.taken[0].body == map[] && q.taken[0] != Delivered(Dimensions(Final(q.jobs[0])), Final(q.jobs[0]))
  {
    SlotIsRemainder(q0.size, 0);
    SlotIsRemainder(q0.size, q0.size);
    var n := q0.size;
    actions := ReserveRun(q0, job, n + 1);
    var q1 := Reserved(q0, job, n + 1);
    var stores, q2 := StoreRun(q1, 0);
    RunsAreFree(q1, stores, q2);
    FreeAppend(q0, actions, q1, stores, q2);
    actions := actions + stores;
    FreeSnoc(q0, actions, q2, StoreNext(n));
    actions := actions + [StoreNext(n)];
    var q3 := Next(q2, StoreNext(n));
    FreeSnoc(q0, actions, q3, Publish(0));
    actions := actions + [Publish(0)];
    var q4 := Next(q3, Publish(0));
    FreeSnoc(q0, actions, q4, Consume);
    actions := actions + [Consume];
    q := Next(q4, Consume);
    GroupStored(job);
  }

  lemma GroupStored(job: Job)
    ensures GroupSegment in Final(job)
  {
    FinalInThreeParts(job);
  }

  /** The assumption on outstanding packets is the exact one: the next reservation gets a slot of its own
      if and only if fewer than `size` packets are outstanding. The code never looks at the read index. */
  lemma NextSlotFreeIff(q: Queue)
    requires Shape(q) && q.read <= q.write
    ensures q.size > 0
    ensures (forall i :: q.read <= i < q.write ==> SlotOf(q.size, i) != SlotOf(q.size, q.write))
            <==> q.write < q.read + q.size
  {
    SlotIsRemainder(q.size, q.write);
    if q.write < q.read + q.size {
      forall i | q.read <= i < q.write
        ensures SlotOf(q.size, i) != SlotOf(q.size, q.write)
      {
        SlotIsRemainder(q.size, i);
        WindowSlots(q.size, i, q.write);
      }
    } else {
      SlotComesAround(q.size, q.write - q.size);
    }
  }

  lemma SlotComesAround(size: nat, i: nat)
    requires IsPow2(size)
    ensures size > 0 && SlotOf(size, i) == SlotOf(size, i + size)
  {
    SlotIsRemainder(size, i);
    SlotIsRemainder(size, i + size);
    NextRound(size, i);
  }

  // ---- what is in a packet ----

  lemma {:induction false} ApplySplit(b: Body, a: seq<Store>, c: seq<Store>)
    ensures ApplyAll(b, a + c) == ApplyAll(ApplyAll(b, a), c)
    decreases |c|
  {
    if c == [] {
      assert a + c == a;
    } else {
      var n := |c| - 1;
      assert (a + c)[..|a + c| - 1] == a + c[..n];
      ApplySplit(b, a, c[..n]);
    }
  }

  lemma {:induction false} UntouchedBySetup(b: Body, setup: seq<(Field, nat)>, f: Field)
    requires forall i :: 0 <= i < |setup| ==> setup[i].0 != f
    ensures Get(ApplyAll(b, SetupStores(setup)), f) == Get(b, f)
    decreases |setup|
  {
    if setup != [] {
      var n := |setup| - 1;
      assert SetupStores(setup)[..n] == SetupStores(setup[..n]);
      UntouchedBySetup(b, setup[..n], f);
    }
  }

  lemma ApplyOne(b: Body, w: Store)
    ensures ApplyAll(b, [w]) == Apply(b, w)
  {
    ApplyPrefix(b, [w], 0);
    assert [w][..1] == [w];
  }

  /** The body before Setup runs. */
  function Prepared(job: Job): Body {
    ApplyAll(map[], InitStores(job.signal))[KernelObject := job.kernelObject]
  }

  /** A final packet: prepared, then Setup's stores, then the group size. */
  lemma FinalInThreeParts(job: Job)
    ensures Final(job) == Apply(ApplyAll(Prepared(job), SetupStores(job.setup)), GroupStore(job))
  {
    var a, k, c := InitStores(job.signal), [Put(KernelObject, job.kernelObject)], SetupStores(job.setup);
    ApplySplit(map[], a + k + c, [GroupStore(job)]);
    ApplySplit(map[], a + k, c);
    ApplySplit(map[], a, k);
    ApplyOne(ApplyAll(map[], a), Put(KernelObject, job.kernelObject));
    ApplyOne(ApplyAll(map[], a + k + c), GroupStore(job));
  }

  /** Every field of a delivered packet: the group size is the wrapped sum; a field that Setup stores last
      with some value has it; a field that Setup leaves alone has its initial value. */
  lemma PacketContents(job: Job, f: Field)
    ensures Get(Final(job), GroupSegment) == (job.groupStatic + job.groupDynamic) % 0x1_0000_0000
    ensures f != GroupSegment && (forall i :: 0 <= i < |job.setup| ==> job.setup[i].0 != f) ==>
              Get(Final(job), f) == match f
                                    case CompletionSignal => job.signal
                                    case KernelObject => job.kernelObject
                                    case PrivateSegment => 0
                                    case KernargAddress => 0
                                    case _ => 1
  {
    FinalInThreeParts(job);
    if forall i :: 0 <= i < |job.setup| ==> job.setup[i].0 != f {
      UntouchedBySetup(Prepared(job), job.setup, f);
      InitApplied(map[], job.signal);
    }
  }

  /** A field that Setup stores keeps the last value stored. */
  lemma SetupWins(job: Job, n: nat)
    requires n < |job.setup| && job.setup[n].0 != GroupSegment
    requires forall i :: n < i < |job.setup| ==> job.setup[i].0 != job.setup[n].0
    ensures Get(Final(job), job.setup[n].0) == job.setup[n].1
  {
    FinalInThreeParts(job);
    var first, last := job.setup[..n + 1], job.setup[n + 1..];
    assert SetupStores(job.setup) == SetupStores(first) + SetupStores(last);
    var b := Prepared(job);
    ApplySplit(b, SetupStores(first), SetupStores(last));
    ApplyPrefix(b, SetupStores(first), n);
    assert SetupStores(first)[..n + 1] == SetupStores(first);
    UntouchedBySetup(ApplyAll(b, SetupStores(first)), last, job.setup[n].0);
  }

  /** Setup stores v in the field, and nothing in it after that; or it leaves the field at 1. */
  predicate SetupLeaves(job: Job, f: Field, v: nat) {
    if forall i :: 0 <= i < |job.setup| ==> job.setup[i].0 != f then v == 1
    else
      exists n :: 0 <= n < |job.setup| && job.setup[n] == (f, v) && forall i :: n < i < |job.setup| ==> job.setup[i].0 != f
  }

  lemma SetupGives(job: Job, f: Field, v: nat)
    requires SetupLeaves(job, f, v) && (f == GridY || f == GridZ)
    ensures Get(Final(job), f) == v
  {
    PacketContents(job, f);
    if !(forall i :: 0 <= i < |job.setup| ==> job.setup[i].0 != f) {
      var n :| 0 <= n < |job.setup| && job.setup[n] == (f, v) && forall i :: n < i < |job.setup| ==> job.setup[i].0 != f;
      SetupWins(job, n);
    }
  }

  /** Every delivered packet is published with the dimensions of the grid that its submitter has set up: a grid that
      was left alone or set to one row has one. */
  lemma DeliveredDimensions(q0: Queue, actions: seq<Action>, q: Queue, i: nat, y: nat, z: nat)
    requires Initial(q0) && Runs(q0, actions, q) && i < |q.taken| && i < |q.jobs|
    requires SetupLeaves(q.jobs[i], GridY, y) && SetupLeaves(q.jobs[i], GridZ, z)
    ensures GridHeader(q.taken[i].dimensions, q.taken[i].body)
    ensures 1 <= q.taken[i].dimensions <= 3
    ensures q.taken[i].dimensions == 3 <==> z > 1
    ensures q.taken[i].dimensions >= 2 <==> y > 1 || z > 1
  {
    PacketsArriveWhole(q0, actions, q, i);
    SetupGives(q.jobs[i], GridY, y);
    SetupGives(q.jobs[i], GridZ, z);
  }

  /** And with the fields that its submitter has set up. */
  lemma DeliveredFields(q0: Queue, actions: seq<Action>, q: Queue, i: nat, n: nat)
    requires Initial(q0) && Runs(q0, actions, q) && i < |q.taken| && i < |q.jobs| && n < |q.jobs[i].setup|
    requires q.jobs[i].setup[n].0 != GroupSegment
    requires forall k :: n < k < |q.jobs[i].setup| ==> q.jobs[i].setup[k].0 != q.jobs[i].setup[n].0
    ensures Get(q.taken[i].body, q.jobs[i].setup[n].0) == q.jobs[i].setup[n].1
    ensures Get(q.taken[i].body, GroupSegment) == (q.jobs[i].groupStatic + q.jobs[i].groupDynamic) % 0x1_0000_0000
  {
    PacketsArriveWhole(q0, actions, q, i);
    PacketContents(q.jobs[i], GroupSegment);
    SetupWins(q.jobs[i], n);
  }
}
