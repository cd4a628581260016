/** The send queue: two semaphores and a mutex around a list, used by any number of threads. */
module SendQueue {

  // ---------------------------------------------------------------- the queue

  /** The permits of the two semaphores and the queued messages. */
  datatype Queue<T> = Queue(readable: nat, writable: nat, q: seq<T>)

  function TakeReadable<T>(c: Queue<T>): Queue<T>
    requires c.readable > 0
  {
    c.(readable := c.readable - 1)
  }

  function TakeWritable<T>(c: Queue<T>): Queue<T>
    requires c.writable > 0
  {
    c.(writable := c.writable - 1)
  }

  /** The two halves of push: under the mutex, and behind it. */
  function Enqueue<T>(c: Queue<T>, msg: T): Queue<T> {
    c.(q := c.q + [msg])
  }

  function ReleaseReadable<T>(c: Queue<T>): Queue<T> {
    c.(readable := c.readable + 1)
  }

  /** The two halves of pop. */
  function Dequeue<T>(c: Queue<T>): Queue<T>
    requires c.q != []
  {
    c.(q := c.q[1..])
  }

  function ReleaseWritable<T>(c: Queue<T>): Queue<T> {
    c.(writable := c.writable + 1)
  }

  /** One call at a time. */
  class MsgQueue<T> {
    var mReadable: nat
    var mWritable: nat
    var mQ: seq<T>

    ghost function Contents(): Queue<T>
      reads this
    {
      Queue(mReadable, mWritable, mQ)
    }

    constructor (capacity: nat)
      ensures Contents() == Queue(0, capacity, [])
    {
      mReadable, mWritable, mQ := 0, capacity, [];
    }

    /** tryAcquire: without a permit it waits for the timeout, and nobody else is running. */
    method Readable() returns (ok: bool)
      modifies this
      ensures ok == (old(mReadable) > 0)
      ensures Contents() == if ok then TakeReadable(old(Contents())) else old(Contents())
    {
      ok := mReadable > 0;
      if ok { mReadable := mReadable - 1; }
    }

    method Writable() returns (ok: bool)
      modifies this
      ensures ok == (old(mWritable) > 0)
      ensures Contents() == if ok then TakeWritable(old(Contents())) else old(Contents())
    {
      ok := mWritable > 0;
      if ok { mWritable := mWritable - 1; }
    }

    method Push(msg: T)
      modifies this
      ensures Contents() == ReleaseReadable(Enqueue(old(Contents()), msg))
    {
      mQ := mQ + [msg];
      mReadable := mReadable + 1;
    }

    /** dequeue needs a message. */
    method Pop() returns (msg: T)
      requires mQ != []
      modifies this
      ensures msg == old(mQ)[0] && Contents() == ReleaseWritable(Dequeue(old(Contents())))
    {
      msg := mQ[0];
      mQ := mQ[1..];
      mWritable := mWritable + 1;
    }
  }

  // ---------------------------------------------------------------- threads and their steps

  type Tid = nat

  /** Where a thread is: between calls; behind writable; between the halves of push; behind
      readable; between the halves of pop. */
  datatype Pc<T> = Idle | MayPush(msg: T) | Pushing | MayPop | Popping(msg: T)

  datatype Kind = KIdle | KMayPush | KPushing | KMayPop | KPopping

  function KindOf<T>(pc: Pc<T>): Kind {
    match pc
    case Idle => KIdle
    case MayPush(_) => KMayPush
    case Pushing => KPushing
    case MayPop => KMayPop
    case Popping(_) => KPopping
  }

  /** The queue, the threads, and what has happened: permits given up, and the messages that
      were enqueued and dequeued, in order. */
  datatype State<T> = State(c: Queue<T>, pcs: map<Tid, Pc<T>>, abandoned: nat, pushed: seq<T>, popped: seq<T>)

  datatype Action<T> =
    | GetWritable(msg: T)   // onSendMessage: writable succeeds
    | Overflow              // onSendMessage: no permit within the timeout, the message is dropped
    | DoEnqueue             // push, under the mutex
    | DoReleaseReadable     // push, the rest
    | GetReadable           // run: readable succeeds
    | Timeout               // run: no permit within the timeout
    | GiveUp                // run: no account is set up, and the loop continues without a pop
    | DoDequeue             // pop, under the mutex
    | DoReleaseWritable     // pop, the rest

  predicate Enabled<T>(s: State<T>, t: Tid, a: Action<T>) {
    t in s.pcs &&
    match a
    case GetWritable(_) => s.pcs[t].Idle? && s.c.writable > 0
    case Overflow => s.pcs[t].Idle? && s.c.writable == 0
    case DoEnqueue => s.pcs[t].MayPush?
    case DoReleaseReadable => s.pcs[t].Pushing?
    case GetReadable => s.pcs[t].Idle? && s.c.readable > 0
    case Timeout => s.pcs[t].Idle? && s.c.readable == 0
    case GiveUp => s.pcs[t].MayPop?
    case DoDequeue => s.pcs[t].MayPop?
    case DoReleaseWritable => s.pcs[t].Popping?
  }

  /** Dequeuing needs a message; that there is one is what has to be shown. */
  predicate Safe<T>(s: State<T>, a: Action<T>) {
    a.DoDequeue? ==> s.c.q != []
  }

  function Do<T>(s: State<T>, t: Tid, a: Action<T>): State<T>
    requires Enabled(s, t, a) && Safe(s, a)
  {
    match a
    case GetWritable(msg) => s.(c := TakeWritable(s.c), pcs := s.pcs[t := MayPush(msg)])
    case Overflow => s
    case DoEnqueue =>
      s.(c := Enqueue(s.c, s.pcs[t].msg), pcs := s.pcs[t := Pushing], pushed := s.pushed + [s.pcs[t].msg])
    case DoReleaseReadable => s.(c := ReleaseReadable(s.c), pcs := s.pcs[t := Idle])
    case GetReadable => s.(c := TakeReadable(s.c), pcs := s.pcs[t := MayPop])
    case Timeout => s
    case GiveUp => s.(pcs := s.pcs[t := Idle], abandoned := s.abandoned + 1)
    case DoDequeue =>
      s.(c := Dequeue(s.c), pcs := s.pcs[t := Popping(s.c.q[0])], popped := s.popped + [s.c.q[0]])
    case DoReleaseWritable => s.(c := ReleaseWritable(s.c), pcs := s.pcs[t := Idle])
  }

  ghost predicate Initial<T>(s: State<T>, capacity: nat) {
    s.c == Queue(0, capacity, []) && s.abandoned == 0 && s.pushed == [] && s.popped == []
    && forall t :: t in s.pcs ==> s.pcs[t].Idle?
  }

  // ---------------------------------------------------------------- the invariant

  function Holders<T>(pcs: map<Tid, Pc<T>>, k: Kind): set<Tid> {
    set t | t in pcs && KindOf(pcs[t]) == k
  }

  /** How many threads are at that point. */
  function Count<T>(pcs: map<Tid, Pc<T>>, k: Kind): nat {
    |Holders(pcs, k)|
  }

  function One(b: bool): nat {
    if b then 1 else 0
  }

  lemma CountMoves<T>(pcs: map<Tid, Pc<T>>, t: Tid, pc: Pc<T>, k: Kind)
    requires t in pcs
    ensures Count(pcs[t := pc], k) + One(KindOf(pcs[t]) == k) == Count(pcs, k) + One(KindOf(pc) == k)
  {
    hide Holders, KindOf;
    var after := pcs[t := pc];
    HoldersOf(pcs, k);
    HoldersOf(after, k);
    assert Holders(after, k) - {t} == Holders(pcs, k) - {t};
    Without(Holders(pcs, k), t);
    Without(Holders(after, k), t);
  }

  lemma HoldersOf<T>(pcs: map<Tid, Pc<T>>, k: Kind)
    ensures forall t :: t in Holders(pcs, k) <==> t in pcs && KindOf(pcs[t]) == k
  {
  }

  lemma Without(s: set<Tid>, t: Tid)
    ensures |s| == |s - {t}| + One(t in s)
  {
    if t in s { assert s == (s - {t}) + {t}; } else { assert s == s - {t}; }
  }

  lemma HolderCounts<T>(pcs: map<Tid, Pc<T>>, t: Tid)
    requires t in pcs
    ensures Count(pcs, KindOf(pcs[t])) >= 1
  {
    assert t in Holders(pcs, KindOf(pcs[t]));
  }

  lemma NobodyHolds<T>(pcs: map<Tid, Pc<T>>, k: Kind)
    requires k != KIdle && forall t :: t in pcs ==> pcs[t].Idle?
    ensures Count(pcs, k) == 0
  {
    assert Holders(pcs, k) == {};
  }

  /** Every queued message has a permit: free, held, given up, or still to be released. Every
      place has one too. And messages are neither lost nor reordered inside the queue. */
  ghost predicate Inv<T>(s: State<T>, capacity: nat) {
    && |s.c.q| == s.c.readable + Count(s.pcs, KMayPop) + s.abandoned + Count(s.pcs, KPushing)
    && s.c.writable + Count(s.pcs, KMayPush) + |s.c.q| + Count(s.pcs, KPopping) == capacity
    && s.pushed == s.popped + s.c.q
  }

  lemma InitialHolds<T>(s: State<T>, capacity: nat)
    requires Initial(s, capacity)
    ensures Inv(s, capacity)
  {
    NobodyHolds(s.pcs, KMayPop);
    NobodyHolds(s.pcs, KPushing);
    NobodyHolds(s.pcs, KMayPush);
    NobodyHolds(s.pcs, KPopping);
  }

  /** Whoever may pop finds a message. */
  lemma PopIsSafe<T>(s: State<T>, capacity: nat, t: Tid, a: Action<T>)
    requires Inv(s, capacity) && Enabled(s, t, a)
    ensures Safe(s, a)
  {
    if a.DoDequeue? { HolderCounts(s.pcs, t); }
  }

  lemma CountsAfter<T>(s: State<T>, t: Tid, pc: Pc<T>)
    requires t in s.pcs
    ensures forall k :: Count(s.pcs[t := pc], k) + One(KindOf(s.pcs[t]) == k) == Count(s.pcs, k) + One(KindOf(pc) == k)
  {
    forall k ensures Count(s.pcs[t := pc], k) + One(KindOf(s.pcs[t]) == k) == Count(s.pcs, k) + One(KindOf(pc) == k) {
      CountMoves(s.pcs, t, pc, k);
    }
  }

  /** Every step of every thread keeps the invariant. */
  lemma StepKeeps<T>(s: State<T>, capacity: nat, t: Tid, a: Action<T>)
    requires Inv(s, capacity) && Enabled(s, t, a) && Safe(s, a)
    ensures Inv(Do(s, t, a), capacity)
  {
    hide Count;
    CountsAfter(s, t, Do(s, t, a).pcs[t]);
    assert s.pcs[t := s.pcs[t]] == s.pcs;
    if a.DoEnqueue? {
      assert s.popped + s.c.q + [s.pcs[t].msg] == s.popped + (s.c.q + [s.pcs[t].msg]);
    } else if a.DoDequeue? {
      assert s.c.q == [s.c.q[0]] + s.c.q[1..];
      assert s.popped + s.c.q == s.popped + [s.c.q[0]] + s.c.q[1..];
    }
  }

  // ---------------------------------------------------------------- runs

  /** An interleaving: which thread does what, one after the other. */
  type Schedule<T> = seq<(Tid, Action<T>)>

  /** The states of a run; only steps that are enabled happen. */
  ghost predicate Runs<T>(s: State<T>, steps: Schedule<T>, end: State<T>)
    decreases |steps|
  {
    if steps == [] then end == s
    else
      var (t, a) := steps[0];
      Enabled(s, t, a) && Safe(s, a) && Runs(Do(s, t, a), steps[1..], end)
  }

  lemma {:induction false} RunKeeps<T>(s: State<T>, capacity: nat, steps: Schedule<T>, end: State<T>)
    requires Inv(s, capacity) && Runs(s, steps, end)
    ensures Inv(end, capacity)
    decreases |steps|
  {
    hide Inv, Enabled, Do;
    if steps != [] {
      var (t, a) := steps[0];
      StepKeeps(s, capacity, t, a);
      RunKeeps(Do(s, t, a), capacity, steps[1..], end);
    }
  }

  /** In every interleaving: the queue stays within its capacity, a pop meets a message, what was
      popped is what was pushed first, and permits account for messages and places. */
  lemma {:induction false} RunIsSafe<T>(s: State<T>, capacity: nat, steps: Schedule<T>, end: State<T>)
    requires Initial(s, capacity) && Runs(s, steps, end)
    ensures Inv(end, capacity)
    ensures |end.c.q| <= capacity && end.popped <= end.pushed
    ensures forall t, a :: Enabled(end, t, a) ==> Safe(end, a)
    ensures |end.popped| + end.abandoned <= |end.pushed|
  {
    InitialHolds(s, capacity);
    RunKeeps(s, capacity, steps, end);
    forall t, a | Enabled(end, t, a) ensures Safe(end, a) {
      PopIsSafe(end, capacity, t, a);
    }
  }

  /** A permit that was given up never comes back, so as many messages stay in the queue. */
  lemma {:induction false} AbandonedStay<T>(s: State<T>, capacity: nat, steps: Schedule<T>, end: State<T>)
    requires Inv(s, capacity) && Runs(s, steps, end)
    ensures s.abandoned <= end.abandoned <= |end.c.q|
    decreases |steps|
  {
    hide Count;
    if steps != [] {
      var (t, a) := steps[0];
      StepKeeps(s, capacity, t, a);
      AbandonedStay(Do(s, t, a), capacity, steps[1..], end);
    }
  }

  /** The queue is stuck: every place holds a message whose permit was given up. */
  ghost predicate Stuck<T>(s: State<T>, capacity: nat) {
    s.abandoned == capacity
  }

  /** A stuck queue stays as it is whatever the threads do, and only timeouts happen: nothing is
      sent any more, and every message is dropped. */
  lemma {:induction false} StuckForever<T>(s: State<T>, capacity: nat, steps: Schedule<T>, end: State<T>)
    requires Inv(s, capacity) && Stuck(s, capacity) && Runs(s, steps, end)
    ensures end == s && forall k :: 0 <= k < |steps| ==> steps[k].1.Overflow? || steps[k].1.Timeout?
    decreases |steps|
  {
    hide Count;
    if steps != [] {
      var (t, a) := steps[0];
      OnlyTimeouts(s, capacity, t, a);
      StuckForever(s, capacity, steps[1..], end);
      forall k | 0 <= k < |steps| ensures steps[k].1.Overflow? || steps[k].1.Timeout? {
        if k > 0 { assert steps[k] == steps[1..][k - 1]; }
      }
    }
  }

  lemma OnlyTimeouts<T>(s: State<T>, capacity: nat, t: Tid, a: Action<T>)
    requires Inv(s, capacity) && Stuck(s, capacity) && Enabled(s, t, a)
    ensures (a.Overflow? || a.Timeout?) && Do(s, t, a) == s
  {
    hide Count;
    HolderCounts(s.pcs, t);
  }

  /** Some message can be moved exactly when the queue is not stuck: with a thread at rest, one
      can be pushed or popped; otherwise a thread can go on. */
  lemma ProgressUnlessStuck<T>(s: State<T>, capacity: nat, t: Tid, msg: T)
    requires Inv(s, capacity) && t in s.pcs
    ensures (exists a :: Enabled(s, t, a) && !a.Overflow? && !a.Timeout?) <==>
      !s.pcs[t].Idle? || s.c.writable > 0 || s.c.readable > 0
    ensures (forall u :: u in s.pcs ==> s.pcs[u].Idle?) ==>
      (Stuck(s, capacity) <==> s.c.writable == 0 && s.c.readable == 0)
  {
    var pc := s.pcs[t];
    if pc.MayPush? { assert Enabled(s, t, DoEnqueue); }
    if pc.Pushing? { assert Enabled(s, t, DoReleaseReadable); }
    if pc.MayPop? { assert Enabled(s, t, GiveUp); }
    if pc.Popping? { assert Enabled(s, t, DoReleaseWritable); }
    if pc.Idle? && s.c.writable > 0 { assert Enabled(s, t, GetWritable(msg)); }
    if pc.Idle? && s.c.readable > 0 { assert Enabled(s, t, GetReadable); }
    if forall u :: u in s.pcs ==> s.pcs[u].Idle? {
      NobodyHolds(s.pcs, KMayPop);
      NobodyHolds(s.pcs, KPushing);
      NobodyHolds(s.pcs, KMayPush);
      NobodyHolds(s.pcs, KPopping);
    }
  }

  // ---------------------------------------------------------------- who does what

  /** The steps of onSendMessage; the other ones are those of run. */
  predicate Produces<T>(a: Action<T>) {
    a.GetWritable? || a.Overflow? || a.DoEnqueue? || a.DoReleaseReadable?
  }

  datatype Roles = Roles(producers: set<Tid>, consumers: set<Tid>)

  predicate InRole<T>(roles: Roles, t: Tid, a: Action<T>) {
    if Produces(a) then t in roles.producers else t in roles.consumers
  }

  predicate RolesKept<T>(roles: Roles, steps: Schedule<T>) {
    forall k :: 0 <= k < |steps| ==> InRole(roles, steps[k].0, steps[k].1)
  }

  /** Every thread either produces or consumes, and the calls under way are of that kind. */
  ghost predicate Cast<T>(roles: Roles, s: State<T>) {
    && roles.producers !! roles.consumers && roles.producers + roles.consumers == s.pcs.Keys
    && (forall t :: t in roles.producers ==> KindOf(s.pcs[t]) in {KIdle, KMayPush, KPushing})
    && (forall t :: t in roles.consumers ==> KindOf(s.pcs[t]) in {KIdle, KMayPop, KPopping})
  }

  /** In a run in which every thread keeps to its role, it stays so. */
  lemma {:induction false} RunKeepsCast<T>(roles: Roles, s: State<T>, capacity: nat, steps: Schedule<T>, end: State<T>)
    requires Inv(s, capacity) && Cast(roles, s) && Runs(s, steps, end) && RolesKept(roles, steps)
    ensures Inv(end, capacity) && Cast(roles, end)
    decreases |steps|
  {
    hide Inv;
    if steps != [] {
      var (t, a) := steps[0];
      StepKeeps(s, capacity, t, a);
      assert InRole(roles, steps[0].0, steps[0].1);
      RolesOfRest(roles, steps);
      RunKeepsCast(roles, Do(s, t, a), capacity, steps[1..], end);
    }
  }

  lemma RolesOfRest<T>(roles: Roles, steps: Schedule<T>)
    requires steps != [] && RolesKept(roles, steps)
    ensures RolesKept(roles, steps[1..])
  {
    hide InRole;
  }

  // ---------------------------------------------------------------- where runs can go

  lemma {:induction false} RunThen<T>(roles: Roles, s: State<T>, a: Schedule<T>, mid: State<T>, b: Schedule<T>, end: State<T>)
    requires Runs(s, a, mid) && Runs(mid, b, end) && RolesKept(roles, a) && RolesKept(roles, b)
    ensures Runs(s, a + b, end) && RolesKept(roles, a + b)
    decreases |a|
  {
    hide Enabled, Do, InRole;
    if a == [] {
      assert a + b == b;
    } else {
      var (t, x) := a[0];
      RunThen(roles, Do(s, t, x), a[1..], mid, b, end);
      assert (a + b)[0] == a[0] && (a + b)[1..] == a[1..] + b;
      forall k | 0 <= k < |a + b| ensures InRole(roles, (a + b)[k].0, (a + b)[k].1) {
        if k >= |a| { assert (a + b)[k] == b[k - |a|]; }
      }
    }
  }

  lemma {:induction false} OneStep<T>(roles: Roles, s: State<T>, t: Tid, a: Action<T>)
    requires Enabled(s, t, a) && Safe(s, a) && InRole(roles, t, a)
    ensures Runs(s, [(t, a)], Do(s, t, a)) && RolesKept(roles, [(t, a)])
  {
    hide Enabled, Do, InRole;
    var steps: Schedule<T> := [(t, a)];
    assert steps[1..] == [];
    assert Runs(Do(s, t, a), [], Do(s, t, a));
  }

  function Busy<T>(pcs: map<Tid, Pc<T>>): set<Tid> {
    set t | t in pcs && !pcs[t].Idle?
  }

  /** A thread inside a call can finish it, and no permit is given up. */
  lemma {:induction false} CallFinishes<T>(roles: Roles, s: State<T>, capacity: nat, t: Tid)
    returns (steps: Schedule<T>, end: State<T>)
    requires Inv(s, capacity) && Cast(roles, s) && t in s.pcs && !s.pcs[t].Idle?
    ensures Runs(s, steps, end) && RolesKept(roles, steps) && Inv(end, capacity) && Cast(roles, end)
    ensures end.pcs == s.pcs[t := Idle] && end.abandoned == s.abandoned
    decreases match s.pcs[t] case MayPush(_) => 1 case MayPop => 1 case _ => 0
  {
    hide Count, Runs, RolesKept;
    var a := match s.pcs[t]
      case MayPush(_) => DoEnqueue
      case Pushing => DoReleaseReadable
      case MayPop => DoDequeue
      case _ => DoReleaseWritable;
    PopIsSafe(s, capacity, t, a);
    StepKeeps(s, capacity, t, a);
    OneStep(roles, s, t, a);
    steps, end := [(t, a)], Do(s, t, a);
    if !end.pcs[t].Idle? {
      var more, last := CallFinishes(roles, end, capacity, t);
      RunThen(roles, s, steps, end, more, last);
      assert s.pcs[t := end.pcs[t]][t := Idle] == s.pcs[t := Idle];
      steps, end := steps + more, last;
    }
  }

  ghost predicate AtRest<T>(s: State<T>) {
    forall t :: t in s.pcs ==> s.pcs[t].Idle?
  }

  /** All calls under way can be finished without giving up a permit. */
  lemma {:induction false} CallsFinish<T>(roles: Roles, s: State<T>, capacity: nat)
    returns (steps: Schedule<T>, end: State<T>)
    requires Inv(s, capacity) && Cast(roles, s)
    ensures Runs(s, steps, end) && RolesKept(roles, steps) && Inv(end, capacity) && Cast(roles, end) && AtRest(end)
    ensures end.abandoned == s.abandoned
    decreases Busy(s.pcs)
  {
    hide Inv, Cast;
    if t :| t in Busy(s.pcs) {
      var first, mid := CallFinishes(roles, s, capacity, t);
      assert t !in Busy(mid.pcs) && Busy(mid.pcs) <= Busy(s.pcs);
      var more, last := CallsFinish(roles, mid, capacity);
      RunThen(roles, s, first, mid, more, last);
      steps, end := first + more, last;
    } else {
      steps, end := [], s;
      forall t | t in s.pcs ensures s.pcs[t].Idle? { assert t !in Busy(s.pcs); }
    }
  }

  /** What the invariant says at rest. */
  lemma RestCounts<T>(s: State<T>, capacity: nat)
    requires Inv(s, capacity) && AtRest(s)
    ensures |s.c.q| == s.c.readable + s.abandoned && s.c.writable + |s.c.q| == capacity
  {
    hide Count;
    NobodyHolds(s.pcs, KMayPop);
    NobodyHolds(s.pcs, KPushing);
    NobodyHolds(s.pcs, KMayPush);
    NobodyHolds(s.pcs, KPopping);
  }

  /** A consumer can take a permit and give it up. */
  lemma {:induction false} PermitIsLost<T>(roles: Roles, s: State<T>, capacity: nat, t: Tid)
    returns (steps: Schedule<T>, end: State<T>)
    requires Inv(s, capacity) && AtRest(s) && t in s.pcs && t in roles.consumers && s.c.readable > 0
    ensures Runs(s, steps, end) && RolesKept(roles, steps) && Inv(end, capacity) && AtRest(end) && end.pcs == s.pcs
    ensures end.c == TakeReadable(s.c) && end.abandoned == s.abandoned + 1 && end.popped == s.popped
  {
    hide Inv, Runs, RolesKept;
    StepKeeps(s, capacity, t, GetReadable);
    OneStep(roles, s, t, GetReadable);
    var mid := Do(s, t, GetReadable);
    StepKeeps(mid, capacity, t, GiveUp);
    OneStep(roles, mid, t, GiveUp);
    end := Do(mid, t, GiveUp);
    assert s.pcs[t := MayPop][t := Idle] == s.pcs;
    steps := [(t, GetReadable)] + [(t, GiveUp)];
    RunThen(roles, s, [(t, GetReadable)], mid, [(t, GiveUp)], end);
  }

  /** A producer can push a message into a free place. */
  lemma {:induction false} MessageIsPushed<T>(roles: Roles, s: State<T>, capacity: nat, t: Tid, msg: T)
    returns (steps: Schedule<T>, end: State<T>)
    requires Inv(s, capacity) && AtRest(s) && t in s.pcs && t in roles.producers && s.c.writable > 0
    ensures Runs(s, steps, end) && RolesKept(roles, steps) && Inv(end, capacity) && AtRest(end) && end.pcs == s.pcs
    ensures end.c.writable == s.c.writable - 1 && end.c.readable == s.c.readable + 1
    ensures end.abandoned == s.abandoned && end.popped == s.popped
  {
    hide Inv, Runs, RolesKept;
    StepKeeps(s, capacity, t, GetWritable(msg));
    OneStep(roles, s, t, GetWritable(msg));
    var s1 := Do(s, t, GetWritable(msg));
    StepKeeps(s1, capacity, t, DoEnqueue);
    OneStep(roles, s1, t, DoEnqueue);
    var s2 := Do(s1, t, DoEnqueue);
    StepKeeps(s2, capacity, t, DoReleaseReadable);
    OneStep(roles, s2, t, DoReleaseReadable);
    end := Do(s2, t, DoReleaseReadable);
    assert s.pcs[t := MayPush(msg)][t := Pushing][t := Idle] == s.pcs;
    RunThen(roles, s, [(t, GetWritable(msg))], s1, [(t, DoEnqueue)], s2);
    steps := [(t, GetWritable(msg))] + [(t, DoEnqueue)] + [(t, DoReleaseReadable)];
    RunThen(roles, s, [(t, GetWritable(msg))] + [(t, DoEnqueue)], s2, [(t, DoReleaseReadable)], end);
  }

  /** A consumer can pop a message whose permit is free. */
  lemma {:induction false} MessageIsPopped<T>(roles: Roles, s: State<T>, capacity: nat, t: Tid)
    returns (steps: Schedule<T>, end: State<T>)
    requires Inv(s, capacity) && AtRest(s) && t in s.pcs && t in roles.consumers && s.c.readable > 0
    ensures Runs(s, steps, end) && RolesKept(roles, steps) && Inv(end, capacity) && AtRest(end) && end.pcs == s.pcs
    ensures end.c.readable == s.c.readable - 1 && end.abandoned == s.abandoned
  {
    hide Inv, Runs, RolesKept;
    StepKeeps(s, capacity, t, GetReadable);
    OneStep(roles, s, t, GetReadable);
    var s1 := Do(s, t, GetReadable);
    PopIsSafe(s1, capacity, t, DoDequeue);
    StepKeeps(s1, capacity, t, DoDequeue);
    OneStep(roles, s1, t, DoDequeue);
    var s2 := Do(s1, t, DoDequeue);
    StepKeeps(s2, capacity, t, DoReleaseWritable);
    OneStep(roles, s2, t, DoReleaseWritable);
    end := Do(s2, t, DoReleaseWritable);
    assert s.pcs[t := MayPop][t := Popping(s.c.q[0])][t := Idle] == s.pcs;
    RunThen(roles, s, [(t, GetReadable)], s1, [(t, DoDequeue)], s2);
    steps := [(t, GetReadable)] + [(t, DoDequeue)] + [(t, DoReleaseWritable)];
    RunThen(roles, s, [(t, GetReadable)] + [(t, DoDequeue)], s2, [(t, DoReleaseWritable)], end);
  }

  /** At rest, a producer and a consumer can bring the queue into the stuck state: one pushes and the
      other takes without an account, until every place is used up. */
  lemma {:induction false} RestGetsStuck<T>(roles: Roles, s: State<T>, capacity: nat, p: Tid, c: Tid, msg: T)
    returns (steps: Schedule<T>, end: State<T>)
    requires Inv(s, capacity) && AtRest(s) && {p, c} <= s.pcs.Keys && p in roles.producers && c in roles.consumers
    ensures Runs(s, steps, end) && RolesKept(roles, steps) && Inv(end, capacity) && Stuck(end, capacity)
    ensures end.popped == s.popped && |end.c.q| == capacity
    decreases 2 * s.c.writable + s.c.readable
  {
    hide Inv, AtRest, InRole;
    RestCounts(s, capacity);
    steps, end := [], s;
    if s.c.readable > 0 || s.c.writable > 0 {
      var first, mid;
      if s.c.readable > 0 {
        first, mid := PermitIsLost(roles, s, capacity, c);
      } else {
        first, mid := MessageIsPushed(roles, s, capacity, p, msg);
      }
      var more, last := RestGetsStuck(roles, mid, capacity, p, c, msg);
      RunThen(roles, s, first, mid, more, last);
      steps, end := first + more, last;
    }
  }

  /** From every reachable state with a producer and a consumer some run gets stuck, with every thread
      in its role. */
  lemma {:induction false} StuckIsReached<T>(roles: Roles, s: State<T>, capacity: nat, msg: T)
    requires Inv(s, capacity) && Cast(roles, s) && roles.producers != {} && roles.consumers != {}
    ensures exists steps, end :: Runs(s, steps, end) && RolesKept(roles, steps) && Stuck(end, capacity)
  {
    hide Inv, Runs, RolesKept;
    var p :| p in roles.producers;
    var c :| c in roles.consumers;
    var first, mid := CallsFinish(roles, s, capacity);
    var more, end := RestGetsStuck(roles, mid, capacity, p, c, msg);
    RunThen(roles, s, first, mid, more, end);
  }

  /** From the start: every place holds a message, none was ever sent, and that is how it stays. */
  lemma {:induction false} FreshQueueGetsStuck<T>(roles: Roles, s: State<T>, capacity: nat, msg: T)
    requires Initial(s, capacity) && Cast(roles, s) && roles.producers != {} && roles.consumers != {}
    ensures exists steps, end ::
      && Runs(s, steps, end) && RolesKept(roles, steps) && |end.c.q| == capacity && end.popped == []
      && forall more, last :: Runs(end, more, last) ==> last == end
  {
    hide Inv, Runs, RolesKept;
    InitialHolds(s, capacity);
    var p :| p in roles.producers;
    var c :| c in roles.consumers;
    var steps, end := RestGetsStuck(roles, s, capacity, p, c, msg);
    forall more, last | Runs(end, more, last) ensures last == end {
      StuckForever(end, capacity, more, last);
    }
  }

  /** At rest, the messages whose permits are free can be popped. */
  lemma {:induction false} RestDrains<T>(roles: Roles, s: State<T>, capacity: nat, t: Tid)
    returns (steps: Schedule<T>, end: State<T>)
    requires Inv(s, capacity) && AtRest(s) && t in s.pcs && t in roles.consumers
    ensures Runs(s, steps, end) && RolesKept(roles, steps) && |end.c.q| == s.abandoned
    decreases s.c.readable
  {
    hide Inv, AtRest, InRole;
    RestCounts(s, capacity);
    steps, end := [], s;
    if s.c.readable > 0 {
      var first, mid := MessageIsPopped(roles, s, capacity, t);
      var more, last := RestDrains(roles, mid, capacity, t);
      RunThen(roles, s, first, mid, more, last);
      steps, end := first + more, last;
    }
  }

  /** From a reachable state with a consumer, a run in which every thread keeps to its role can bring
      the queue down to n messages exactly when no more than n permits have been given up: to none,
      exactly when none has. Threads out of their roles could not do better. */
  lemma {:induction false} DrainedExactly<T>(roles: Roles, s: State<T>, capacity: nat, n: nat)
    requires Inv(s, capacity) && Cast(roles, s) && roles.consumers != {}
    ensures (exists steps, end :: Runs(s, steps, end) && RolesKept(roles, steps) && |end.c.q| <= n) <==> s.abandoned <= n
    ensures (exists steps, end :: Runs(s, steps, end) && RolesKept(roles, steps) && end.c.q == []) <==> s.abandoned == 0
    ensures forall steps, end :: Runs(s, steps, end) ==> s.abandoned <= |end.c.q|
  {
    hide Inv, Runs, RolesKept;
    forall steps, end | Runs(s, steps, end) ensures s.abandoned <= |end.c.q| {
      AbandonedStay(s, capacity, steps, end);
    }
    var t :| t in roles.consumers;
    var first, mid := CallsFinish(roles, s, capacity);
    var more, end := RestDrains(roles, mid, capacity, t);
    RunThen(roles, s, first, mid, more, end);
    assert Runs(s, first + more, end) && RolesKept(roles, first + more) && |end.c.q| == s.abandoned;
  }

  // ---------------------------------------------------------------- the sender thread

  datatype Option<T> = None | Some(value: T)

  /** TxThread as far as it uses its queue; a message is what onSendMessage makes of its
      arguments. One call at a time; interleaved calls are the steps above. */
  class TxThread<T> {
    var txq: MsgQueue<T>
    ghost var abandoned: nat
    ghost var capacity: nat

    constructor (capacity: nat)
      ensures Valid() && fresh(txq) && txq.mQ == [] && abandoned == 0 && this.capacity == capacity
    {
      txq := new MsgQueue(capacity);
      this.abandoned, this.capacity := 0, capacity;
    }

    /** What the invariant says when no call is under way. */
    ghost predicate Valid()
      reads this, txq
    {
      |txq.mQ| == txq.mReadable + abandoned && txq.mWritable + |txq.mQ| == capacity
    }

    /** The message is queued, or dropped when every place is taken. */
    method OnSendMessage(msg: T) returns (queued: bool)
      requires Valid()
      modifies txq
      ensures Valid() && queued == (|old(txq.mQ)| < capacity)
      ensures txq.mQ == if queued then old(txq.mQ) + [msg] else old(txq.mQ)
    {
      queued := txq.Writable();
      if queued { txq.Push(msg); }
    }

    /** One turn of run. Without an account the permit that was taken is lost, and with it the
        turn of the oldest message. */
    method RunOnce(hasAccount: bool) returns (msg: Option<T>)
      requires Valid()
      modifies this`abandoned, txq
      ensures Valid()
      ensures |old(txq.mQ)| == old(abandoned) ==> msg == None && abandoned == old(abandoned) && txq.mQ == old(txq.mQ)
      ensures |old(txq.mQ)| > old(abandoned) && !hasAccount ==>
        msg == None && abandoned == old(abandoned) + 1 && txq.mQ == old(txq.mQ)
      ensures |old(txq.mQ)| > old(abandoned) && hasAccount ==>
        msg == Some(old(txq.mQ)[0]) && abandoned == old(abandoned) && txq.mQ == old(txq.mQ)[1..]
    {
      var ok := txq.Readable();
      if !ok { return None; }
      if !hasAccount {
        abandoned := abandoned + 1;
        return None;
      }
      var m := txq.Pop();
      return Some(m);
    }
  }
}
