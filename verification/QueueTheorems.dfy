/** The main results about the queue: every interleaving refines an atomic bounded FIFO, and locks make progress. */
module QueueTheorems {
  import opened Options
  import opened QueueMachine
  import opened QueueInvariant

  // ---------- safety of runs ----------

  lemma {:induction false} RunKeepsInvariant(s: State, actions: seq<Action>)
    requires Inv(s)
    ensures Run(s, actions) != Fault
    ensures Run(s, actions).Stepped? ==> Inv(Run(s, actions).state)
    decreases |actions|
  {
    if actions != [] {
      StepIsSafe(s, actions[0]);
      if Next(s, actions[0]).Stepped? {
        RunKeepsInvariant(Next(s, actions[0]).state, actions[1..]);
      }
    }
  }

  /** No interleaving of any number of threads reaches a wild access or a division by zero. */
  lemma EveryRunIsSafe(s: State, actions: seq<Action>)
    requires Created(s)
    ensures Run(s, actions) != Fault
    ensures Run(s, actions).Stepped? ==> Inv(Run(s, actions).state)
  {
    CreatedIsSafe(s);
    RunKeepsInvariant(s, actions);
  }

  // ---------- first in, first out ----------

  /** How many items the buffer holds: the size, corrected for updates whose size store is still to come. */
  function LiveLength(s: State): int {
    s.mem.size + Bit(EnqueuePending(HolderPc(s, Pusher))) - Bit(DequeuePending(HolderPc(s, Popper)))
  }

  /** The cyclic slice of the buffer that starts at the head. */
  function Contents(s: State): seq<Item> {
    var m := s.mem;
    if m.capacity == 0 || |m.buffer| != m.capacity || LiveLength(s) < 0 then []
    else seq(LiveLength(s), k requires 0 <= k => m.buffer[(m.head + k) % m.capacity])
  }

  lemma ModAdd(a: nat, k: nat, n: nat)
    requires 0 < n
    ensures (a % n + k) % n == (a + k) % n
  {
    var b := a % n + k;
    assert a + k == n * (a / n + b / n) + b % n;
    ModUnique(a + k, n, a / n + b / n, b % n);
  }

  /** Items enqueued so far = items dequeued so far, then the buffer's slice: none lost, repeated or reordered. */
  lemma FirstInFirstOut(s: State)
    requires Inv(s)
    ensures 0 <= LiveLength(s) <= s.mem.capacity && s.mem.size <= s.mem.capacity
    ensures s.mem.enqueued == s.mem.dequeued + Contents(s)
  {
    var m := s.mem;
    if m.capacity > 0 {
      forall k: nat | k < LiveLength(s) ensures Contents(s)[k] == m.enqueued[|m.dequeued| + k] {
        ModAdd(|m.dequeued|, k, m.capacity);
      }
      assert m.enqueued == m.dequeued + m.enqueued[|m.dequeued|..];
      assert Contents(s) == m.enqueued[|m.dequeued|..];
    }
  }

  lemma HolderStays(s: State, a: Action, t: Tid, l: Lock)
    requires Inv(s) && Next(s, a).Stepped? && t in s.pcs && t != a.t && Holds(s.pcs[t], l)
    ensures var s' := Next(s, a).state;
      Inv(s') && t in s'.pcs && s'.pcs[t] == s.pcs[t] && HolderPc(s, l) == HolderPc(s', l) == s.pcs[t]
  {
    StepIsSafe(s, a);
    OneThreadMoves(s, a);
    HolderIs(s, t, l);
    HolderIs(Next(s, a).state, t, l);
  }

  /**
   * A thread's test stays true until its own size store: no step of another thread
   * moves it, and the size stays below the capacity (above zero for a dequeue).
   */
  lemma GuardIsStable(s: State, a: Action, t: Tid)
    requires Inv(s) && Next(s, a).Stepped? && t in s.pcs && t != a.t
    requires EnqueueGuarded(s.pcs[t]) || DequeueGuarded(s.pcs[t])
    ensures var s' := Next(s, a).state;
      && t in s'.pcs && s'.pcs[t] == s.pcs[t]
      && (EnqueueGuarded(s.pcs[t]) ==> s.mem.size < s.mem.capacity && s'.mem.size < s'.mem.capacity)
      && (DequeueGuarded(s.pcs[t]) ==> s.mem.size > 0 && s'.mem.size > 0)
  {
    HolderStays(s, a, t, if EnqueueGuarded(s.pcs[t]) then Pusher else Popper);
  }

  // ---------- refinement of an atomic queue ----------

  /** A call seen from outside: it takes effect at one instant between its invocation and its return. */
  datatype Call = Free | Enqueuing(elem: Item) | Enqueued | Dequeuing | Dequeued(item: Item)

  datatype AtomicQueue = AtomicQueue(capacity: nat, items: seq<Item>, calls: map<Tid, Call>)

  datatype Event = InvokeEnqueue(t: Tid, elem: Item) | InvokeDequeue(t: Tid) | TakeEffect(t: Tid) | Return(t: Tid)

  function AtomicNext(q: AtomicQueue, e: Event): Option<AtomicQueue> {
    if e.t !in q.calls then None else
    match (e, q.calls[e.t])
    case (InvokeEnqueue(t, x), Free) => Some(q.(calls := q.calls[t := Enqueuing(x)]))
    case (InvokeDequeue(t), Free) => Some(q.(calls := q.calls[t := Dequeuing]))
    case (TakeEffect(t), Enqueuing(x)) =>
      if |q.items| < q.capacity then Some(q.(items := q.items + [x], calls := q.calls[t := Enqueued])) else None
    case (TakeEffect(t), Dequeuing) =>
      if q.items != [] then Some(q.(items := q.items[1..], calls := q.calls[t := Dequeued(q.items[0])])) else None
    case (Return(t), Enqueued) => Some(q.(calls := q.calls[t := Free]))
    case (Return(t), Dequeued(_)) => Some(q.(calls := q.calls[t := Free]))
    case _ => None
  }

  function CallOf(pc: Pc): Call {
    match pc
    case Idle => Free
    case ELock(e) => Enqueuing(e)
    case ETest(e) => Enqueuing(e)
    case EWait(e) => Enqueuing(e)
    case EAsleep(e) => Enqueuing(e)
    case EWake(e) => Enqueuing(e)
    case ELockTail(e) => Enqueuing(e)
    case EWrite(e) => Enqueuing(e)
    case EAdvance(e) => Enqueuing(e)
    case DUnlockHead(i) => Dequeued(i)
    case DLockSize(i) => Dequeued(i)
    case DLoad(i) => Dequeued(i)
    case DStore(i, _) => Dequeued(i)
    case DUnlockSize(i) => Dequeued(i)
    case DSignal(i) => Dequeued(i)
    case DUnlock(i) => Dequeued(i)
    case _ => if InEnqueue(pc) then Enqueued else Dequeuing
  }

  function Calls(pcs: map<Tid, Pc>): map<Tid, Call> {
    map t | t in pcs :: CallOf(pcs[t])
  }

  function Atomic(s: State): AtomicQueue {
    AtomicQueue(s.mem.capacity, Contents(s), Calls(s.pcs))
  }

  /** What a step of the machine is to the atomic queue; most steps are invisible. */
  function Visible(s: State, a: Action): Option<Event> {
    if a.t !in s.pcs then None else
    match a
    case CallEnqueue(t, e) => Some(InvokeEnqueue(t, e))
    case CallDequeue(t) => Some(InvokeDequeue(t))
    case SpuriousWake(_) => None
    case Step(t, _) =>
      var pc := s.pcs[t];
      if pc.EAdvance? || pc.DAdvance? then Some(TakeEffect(t))
      else if pc.EUnlock? || pc.DUnlock? then Some(Return(t))
      else None
  }

  /** The calls after a step: only the stepping thread's call can change. */
  lemma CallsAfter(s: State, a: Action)
    requires Next(s, a).Stepped?
    ensures a.t in s.pcs && a.t in Next(s, a).state.pcs
    ensures Calls(Next(s, a).state.pcs) == Calls(s.pcs)[a.t := CallOf(Next(s, a).state.pcs[a.t])]
  {
    OneThreadMoves(s, a);
  }

  /** The two histories after a step. */
  lemma HistoryAfter(s: State, a: Action)
    requires Next(s, a).Stepped?
    ensures var m, m', pc := s.mem, Next(s, a).state.mem, s.pcs[a.t];
      && m'.capacity == m.capacity
      && m'.enqueued == (if a.Step? && pc.EAdvance? then m.enqueued + [pc.elem] else m.enqueued)
      && m'.dequeued == (if a.Step? && pc.DAdvance? then m.dequeued + [pc.item] else m.dequeued)
  {
  }

  /** How the call of the stepping thread changes. */
  lemma CallAfter(s: State, a: Action)
    requires Next(s, a).Stepped? && a.t in Next(s, a).state.pcs
    ensures var pc, call' := s.pcs[a.t], CallOf(Next(s, a).state.pcs[a.t]);
      match Visible(s, a)
      case None => call' == CallOf(pc)
      case Some(InvokeEnqueue(_, e)) => pc == Idle && call' == Enqueuing(e)
      case Some(InvokeDequeue(_)) => pc == Idle && call' == Dequeuing
      case Some(TakeEffect(_)) => if pc.EAdvance? then call' == Enqueued else pc.DAdvance? && call' == Dequeued(pc.item)
      case Some(Return(_)) => (pc.EUnlock? || pc.DUnlock?) && call' == Free
  {
  }

  /** How the buffer's slice changes: only at the two instants at which a call takes effect. */
  lemma ContentsAfter(s: State, a: Action)
    requires Inv(s) && Next(s, a).Stepped?
    ensures var pc, items, items' := s.pcs[a.t], Contents(s), Contents(Next(s, a).state);
      if a.Step? && pc.EAdvance? then |items| < s.mem.capacity && items' == items + [pc.elem]
      else if a.Step? && pc.DAdvance? then items != [] && items[0] == pc.item && items' == items[1..]
      else items' == items
  {
    var s' := Next(s, a).state;
    StepIsSafe(s, a);
    FirstInFirstOut(s);
    FirstInFirstOut(s');
    HistoryAfter(s, a);
    var m, m' := s.mem, s'.mem;
    assert Contents(s) == m.enqueued[|m.dequeued|..];
    assert Contents(s') == m'.enqueued[|m'.dequeued|..];
  }

  /** Every step of every thread is a step of the atomic queue, or changes nothing that it shows. */
  lemma StepRefines(s: State, a: Action)
    requires Inv(s) && Next(s, a).Stepped?
    ensures match Visible(s, a)
      case None => Atomic(Next(s, a).state) == Atomic(s)
      case Some(e) => AtomicNext(Atomic(s), e) == Some(Atomic(Next(s, a).state))
  {
    var s' := Next(s, a).state;
    ContentsAfter(s, a);
    CallsAfter(s, a);
    CallAfter(s, a);
    HistoryAfter(s, a);
    PartsRefine(Atomic(s), Atomic(s'), a.t, s.pcs[a.t], s'.pcs[a.t], Visible(s, a));
  }

  /** The refinement of one step, from what it does to the items and to the stepping thread's call. */
  lemma PartsRefine(q: AtomicQueue, q': AtomicQueue, t: Tid, pc: Pc, pc': Pc, v: Option<Event>)
    requires t in q.calls && q.calls[t] == CallOf(pc)
    requires q'.capacity == q.capacity && q'.calls == q.calls[t := CallOf(pc')]
    requires v.Some? ==> v.value.t == t
    requires match v
      case None => CallOf(pc') == CallOf(pc) && q'.items == q.items
      case Some(InvokeEnqueue(_, e)) => pc == Idle && CallOf(pc') == Enqueuing(e) && q'.items == q.items
      case Some(InvokeDequeue(_)) => pc == Idle && CallOf(pc') == Dequeuing && q'.items == q.items
      case Some(TakeEffect(_)) =>
        if pc.EAdvance? then
          CallOf(pc') == Enqueued && |q.items| < q.capacity && q'.items == q.items + [pc.elem]
        else
          && pc.DAdvance? && CallOf(pc') == Dequeued(pc.item)
          && q.items != [] && q.items[0] == pc.item && q'.items == q.items[1..]
      case Some(Return(_)) => (pc.EUnlock? || pc.DUnlock?) && CallOf(pc') == Free && q'.items == q.items
    ensures match v
      case None => q' == q
      case Some(e) => AtomicNext(q, e) == Some(q')
  {
    assert q.calls[t := q.calls[t]] == q.calls;
  }

  /** The visible events of a run, in order. */
  function Trace(s: State, actions: seq<Action>): seq<Event>
    decreases |actions|
  {
    if actions == [] || !Next(s, actions[0]).Stepped? then []
    else
      var e := Visible(s, actions[0]);
      (if e.Some? then [e.value] else []) + Trace(Next(s, actions[0]).state, actions[1..])
  }

  function AtomicRun(q: AtomicQueue, events: seq<Event>): Option<AtomicQueue>
    decreases |events|
  {
    if events == [] then Some(q)
    else
      var q' := AtomicNext(q, events[0]);
      if q'.None? then None else AtomicRun(q'.value, events[1..])
  }

  /** Every run of the fine-grained queue is, event for event, a run of the atomic bounded FIFO. */
  lemma {:induction false} RunRefines(s: State, actions: seq<Action>)
    requires Inv(s) && Run(s, actions).Stepped?
    ensures AtomicRun(Atomic(s), Trace(s, actions)) == Some(Atomic(Run(s, actions).state))
    decreases |actions|
  {
    if actions != [] {
      var s' := Next(s, actions[0]).state;
      StepRefines(s, actions[0]);
      StepIsSafe(s, actions[0]);
      RunRefines(s', actions[1..]);
      var e := Visible(s, actions[0]);
      if e.Some? {
        assert Trace(s, actions)[1..] == Trace(s', actions[1..]);
      } else {
        assert Trace(s, actions) == Trace(s', actions[1..]);
      }
    }
  }

  /** From pcq_create on: the atomic queue starts empty, and no call has been made. */
  lemma EveryRunRefines(s: State, actions: seq<Action>)
    requires Created(s) && Run(s, actions).Stepped?
    ensures var s' := Run(s, actions).state;
      && AtomicRun(AtomicQueue(s.mem.capacity, [], map t | t in s.pcs :: Free), Trace(s, actions)) == Some(Atomic(s'))
      && s'.mem.enqueued == s'.mem.dequeued + Contents(s')
  {
    EveryRunIsSafe(s, actions);
    EveryRunIsSafe(s, []);
    RunRefines(s, actions);
    FirstInFirstOut(s);
    FirstInFirstOut(Run(s, actions).state);
    assert Contents(s) == [];
    assert Calls(s.pcs) == map t | t in s.pcs :: Free;
  }

  // ---------- progress of the locks ----------

  /** Inside a call and not asleep on a condition variable. */
  predicate Active(pc: Pc) {
    pc != Idle && !pc.EAsleep? && !pc.DAsleep?
  }

  /** The lock that the thread's next step takes, if it takes one. */
  function Wants(pc: Pc): Option<Lock> {
    match pc
    case ELock(_) => Some(Pusher)
    case EWake(_) => Some(Pusher)
    case ELockTail(_) => Some(Tail)
    case ELockSize => Some(Size)
    case DLock => Some(Popper)
    case DWake => Some(Popper)
    case DLockHead => Some(Head)
    case DLockSize(_) => Some(Size)
    case _ => None
  }

  /** Locks are taken in the order outer, index or size; a thread that wants one holds only smaller ones. */
  function Rank(l: Lock): nat {
    match l
    case Pusher => 0
    case Popper => 0
    case _ => 1
  }

  lemma HoldersWantMore(pc: Pc, l: Lock)
    requires Holds(pc, l)
    ensures Active(pc)
    ensures Wants(pc).Some? ==> Rank(Wants(pc).value) > Rank(l)
  {
  }

  /** Which threads a signal sent by this thread could wake. */
  function Sleepers(s: State, pc: Pc): set<Tid> {
    if pc.ESignal? then DequeueSleepers(s.pcs) else EnqueueSleepers(s.pcs)
  }

  /** A thread that wants no lock, or a free one, can step. */
  lemma UnblockedCanStep(s: State, t: Tid)
    requires Inv(s) && t in s.pcs && Active(s.pcs[t])
    requires Wants(s.pcs[t]).Some? ==> Wants(s.pcs[t]).value !in s.locks
    ensures Next(s, Step(t, Sleepers(s, s.pcs[t]))).Stepped?
  {
    StepIsSafe(s, Step(t, Sleepers(s, s.pcs[t])));
  }

  /** Following the locks from a blocked thread to their holders ends, and ends at a thread that can step. */
  lemma {:induction false} SomeThreadCanStep(s: State, t: Tid) returns (u: Tid)
    requires Inv(s) && t in s.pcs && Active(s.pcs[t])
    ensures u in s.pcs && Active(s.pcs[u]) && Next(s, Step(u, Sleepers(s, s.pcs[u]))).Stepped?
    decreases if Wants(s.pcs[t]).Some? then 2 - Rank(Wants(s.pcs[t]).value) else 0
  {
    var l := Wants(s.pcs[t]);
    if l.None? || l.value !in s.locks {
      UnblockedCanStep(s, t);
      u := t;
    } else {
      var h := s.locks[l.value];
      HoldersWantMore(s.pcs[h], l.value);
      u := SomeThreadCanStep(s, h);
    }
  }

  /** Whenever some thread is inside a call and not asleep, such a thread can step: the locks never deadlock. */
  lemma LocksNeverDeadlock(s: State)
    requires Inv(s) && exists t :: t in s.pcs && Active(s.pcs[t])
    ensures exists u, woken :: u in s.pcs && Active(s.pcs[u]) && Next(s, Step(u, woken)).Stepped?
  {
    var t :| t in s.pcs && Active(s.pcs[t]);
    var u := SomeThreadCanStep(s, t);
    assert Next(s, Step(u, Sleepers(s, s.pcs[u]))).Stepped?;
  }
}
