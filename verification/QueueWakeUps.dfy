/** Which queues can lose a wake-up: exactly those with a slot that two threads use. */
module QueueWakeUps {
  import opened QueueMachine
  import opened QueueInvariant
  import opened QueueTheorems

  ghost predicate Reachable(s: State, s': State) {
    exists actions :: Run(s, actions) == Stepped(s')
  }

  lemma {:induction false} RunThen(s: State, actions: seq<Action>, a: Action)
    requires Run(s, actions).Stepped? && Next(Run(s, actions).state, a).Stepped?
    ensures Run(s, actions + [a]) == Next(Run(s, actions).state, a)
    decreases |actions|
  {
    if actions == [] {
      assert [a][1..] == [];
    } else {
      assert (actions + [a])[1..] == actions[1..] + [a];
      RunThen(Next(s, actions[0]).state, actions[1..], a);
    }
  }

  lemma ReachableThen(s: State, s1: State, a: Action)
    requires Reachable(s, s1) && Next(s1, a).Stepped?
    ensures Reachable(s, Next(s1, a).state)
  {
    var actions :| Run(s, actions) == Stepped(s1);
    RunThen(s, actions, a);
  }

  lemma ReachableIsSafe(s: State, s': State)
    requires Created(s) && Reachable(s, s')
    ensures Inv(s')
  {
    var actions :| Run(s, actions) == Stepped(s');
    EveryRunIsSafe(s, actions);
  }

  // ---------- one thread takes several steps ----------

  function At(m: Memory, locks: map<Lock, Tid>, pcs: map<Tid, Pc>, t: Tid, pc: Pc): State {
    State(m, locks, pcs[t := pc])
  }

  /** Thread t goes from pc to pc' inside pcq_enqueue; nobody is woken. */
  lemma EnqueuerGoes(s: State, m: Memory, locks: map<Lock, Tid>, pcs: map<Tid, Pc>, t: Tid, pc: Pc,
                     m': Memory, locks': map<Lock, Tid>, pc': Pc)
    requires Reachable(s, At(m, locks, pcs, t, pc)) && InEnqueue(pc)
    requires EnqueueStep(At(m, locks, pcs, t, pc), t, pc, {}) == Stepped(State(m', locks', pcs[t := pc][t := pc']))
    ensures Reachable(s, At(m', locks', pcs, t, pc'))
  {
    assert pcs[t := pc][t := pc'] == pcs[t := pc'];
    ReachableThen(s, At(m, locks, pcs, t, pc), Step(t, {}));
  }

  lemma DequeuerGoes(s: State, m: Memory, locks: map<Lock, Tid>, pcs: map<Tid, Pc>, t: Tid, pc: Pc,
                     m': Memory, locks': map<Lock, Tid>, pc': Pc)
    requires Reachable(s, At(m, locks, pcs, t, pc)) && !InEnqueue(pc)
    requires DequeueStep(At(m, locks, pcs, t, pc), t, pc, {}) == Stepped(State(m', locks', pcs[t := pc][t := pc']))
    ensures Reachable(s, At(m', locks', pcs, t, pc'))
  {
    assert pcs[t := pc][t := pc'] == pcs[t := pc'];
    ReachableThen(s, At(m, locks, pcs, t, pc), Step(t, {}));
  }

  lemma LockThenUnlock(locks: map<Lock, Tid>, l: Lock, t: Tid)
    requires l !in locks
    ensures locks[l := t] - {l} == locks
  {
  }

  /** A signal may wake these threads. */
  predicate MayWake(sleepers: set<Tid>, woken: set<Tid>) {
    woken <= sleepers && (sleepers != {} ==> woken != {})
  }

  lemma NobodyWoken(pcs: map<Tid, Pc>)
    ensures WakeAll(pcs, {}) == pcs
  {
  }

  lemma WakeOthers(pcs: map<Tid, Pc>, t: Tid, pc: Pc, woken: set<Tid>, pc': Pc)
    requires t in pcs
    ensures WakeAll(pcs[t := pc], woken)[t := pc'] == WakeAll(pcs, woken)[t := pc']
  {
  }

  /** A signal wakes one of the sleeping threads of the other side at least, if there are any, and no other thread. */
  lemma SignalWakes(s: State, t: Tid, woken: set<Tid>)
    requires t in s.pcs && (s.pcs[t].ESignal? || s.pcs[t].DSignal?) && Next(s, Step(t, woken)).Stepped?
    ensures var s' := Next(s, Step(t, woken)).state;
      && s'.pcs.Keys == s.pcs.Keys
      && (forall u :: u in s.pcs && u != t ==> s'.pcs[u] == s.pcs[u] || WokenBy(s.pcs[t], s.pcs[u], s'.pcs[u]))
      && ((exists u :: u in s.pcs && Sleeping(s.pcs[t], s.pcs[u])) ==>
            exists u :: u in s.pcs && WokenBy(s.pcs[t], s.pcs[u], s'.pcs[u]))
  {
    var s' := Next(s, Step(t, woken)).state;
    if u :| u in s.pcs && Sleeping(s.pcs[t], s.pcs[u]) {
      assert u in if s.pcs[t].ESignal? then DequeueSleepers(s.pcs) else EnqueueSleepers(s.pcs);
      var w :| w in woken;
      assert WokenBy(s.pcs[t], s.pcs[w], s'.pcs[w]);
    }
  }

  /** An enqueuing thread signals to those asleep in pcq_dequeue, and the other way round. */
  predicate Sleeping(signaller: Pc, pc: Pc) {
    if signaller.ESignal? then pc.DAsleep? else pc.EAsleep?
  }

  predicate WokenBy(signaller: Pc, before: Pc, after: Pc) {
    if signaller.ESignal? then before.DAsleep? && after.DWake?
    else before.EAsleep? && after == EWake(before.elem)
  }

  // ---------- a whole call, alone ----------

  /** The memory after a whole pcq_enqueue call. */
  function AfterEnqueue(m: Memory, e: Item): Memory
    requires m.tail < |m.buffer| && m.capacity > 0
  {
    m.(buffer := m.buffer[m.tail := e], tail := (m.tail + 1) % m.capacity,
       enqueued := m.enqueued + [e], size := m.size + 1)
  }

  /** The memory after a whole pcq_dequeue call. */
  function AfterDequeue(m: Memory): Memory
    requires m.head < |m.buffer| && m.capacity > 0 && m.size > 0
  {
    m.(head := (m.head + 1) % m.capacity, dequeued := m.dequeued + [m.buffer[m.head]], size := m.size - 1)
  }

  /** Alone, a thread gets from the lock to the tail advance when there is a free slot. */
  lemma AloneWrites(s: State, m: Memory, locks: map<Lock, Tid>, pcs: map<Tid, Pc>, t: Tid, e: Item)
    requires Reachable(s, At(m, locks, pcs, t, ELock(e)))
    requires Pusher !in locks && Tail !in locks && m.size != m.capacity && m.tail < |m.buffer|
    ensures Reachable(s, At(m.(buffer := m.buffer[m.tail := e]), locks[Pusher := t][Tail := t], pcs, t, EAdvance(e)))
  {
    var outer := locks[Pusher := t];
    EnqueuerGoes(s, m, locks, pcs, t, ELock(e), m, outer, ETest(e));
    EnqueuerGoes(s, m, outer, pcs, t, ETest(e), m, outer, ELockTail(e));
    EnqueuerGoes(s, m, outer, pcs, t, ELockTail(e), m, outer[Tail := t], EWrite(e));
    EnqueuerGoes(s, m, outer[Tail := t], pcs, t, EWrite(e),
                 m.(buffer := m.buffer[m.tail := e]), outer[Tail := t], EAdvance(e));
  }

  lemma AloneAdvances(s: State, m: Memory, outer: map<Lock, Tid>, pcs: map<Tid, Pc>, t: Tid, e: Item)
    requires Reachable(s, At(m, outer[Tail := t], pcs, t, EAdvance(e)))
    requires Tail !in outer && Size !in outer && m.capacity > 0
    ensures Reachable(s, At(m.(tail := (m.tail + 1) % m.capacity, enqueued := m.enqueued + [e]),
                            outer[Size := t], pcs, t, ELoad))
  {
    var m' := m.(tail := (m.tail + 1) % m.capacity, enqueued := m.enqueued + [e]);
    LockThenUnlock(outer, Tail, t);
    EnqueuerGoes(s, m, outer[Tail := t], pcs, t, EAdvance(e), m', outer[Tail := t], EUnlockTail);
    EnqueuerGoes(s, m', outer[Tail := t], pcs, t, EUnlockTail, m', outer, ELockSize);
    EnqueuerGoes(s, m', outer, pcs, t, ELockSize, m', outer[Size := t], ELoad);
  }

  lemma AloneStores(s: State, m: Memory, outer: map<Lock, Tid>, pcs: map<Tid, Pc>, t: Tid)
    requires Reachable(s, At(m, outer[Size := t], pcs, t, ELoad))
    requires Size !in outer && m.size < SIZE_MAX
    ensures Reachable(s, At(m.(size := m.size + 1), outer, pcs, t, ESignal))
  {
    var m', inner := m.(size := m.size + 1), outer[Size := t];
    LockThenUnlock(outer, Size, t);
    EnqueuerGoes(s, m, inner, pcs, t, ELoad, m, inner, EStore(m.size));
    EnqueuerGoes(s, m, inner, pcs, t, EStore(m.size), m', inner, EUnlockSize);
    EnqueuerGoes(s, m', inner, pcs, t, EUnlockSize, m', outer, ESignal);
  }

  lemma AloneReturns(s: State, m: Memory, locks: map<Lock, Tid>, pcs: map<Tid, Pc>, t: Tid, woken: set<Tid>)
    requires Reachable(s, At(m, locks[Pusher := t], pcs, t, ESignal)) && t in pcs
    requires Pusher !in locks && MayWake(DequeueSleepers(pcs[t := ESignal]), woken)
    ensures Reachable(s, At(m, locks, WakeAll(pcs, woken), t, Idle))
  {
    WakeOthers(pcs, t, ESignal, woken, EUnlock);
    ReachableThen(s, At(m, locks[Pusher := t], pcs, t, ESignal), Step(t, woken));
    LockThenUnlock(locks, Pusher, t);
    EnqueuerGoes(s, m, locks[Pusher := t], WakeAll(pcs, woken), t, EUnlock, m, locks, Idle);
  }

  /**
   * With a free slot, a thread that runs alone finishes its pcq_enqueue call: its element is in the tail slot,
   * the size is one larger, and some of the sleeping consumers are awake, if there are any.
   */
  lemma AloneEnqueues(s: State, m: Memory, locks: map<Lock, Tid>, pcs: map<Tid, Pc>, t: Tid, e: Item, woken: set<Tid>)
    requires Reachable(s, At(m, locks, pcs, t, ELock(e))) && t in pcs
    requires Pusher !in locks && Tail !in locks && Size !in locks
    requires m.size < m.capacity <= SIZE_MAX && m.tail < |m.buffer|
    requires MayWake(DequeueSleepers(pcs[t := ESignal]), woken)
    ensures Reachable(s, At(AfterEnqueue(m, e), locks, WakeAll(pcs, woken), t, Idle))
  {
    var w := m.(buffer := m.buffer[m.tail := e]);
    var v := w.(tail := (m.tail + 1) % m.capacity, enqueued := m.enqueued + [e]);
    AloneWrites(s, m, locks, pcs, t, e);
    AloneAdvances(s, w, locks[Pusher := t], pcs, t, e);
    AloneStores(s, v, locks[Pusher := t], pcs, t);
    AloneReturns(s, v.(size := m.size + 1), locks, pcs, t, woken);
  }

  lemma ItemAtTest(s: State, m: Memory, locks: map<Lock, Tid>, pcs: map<Tid, Pc>, t: Tid)
    requires Reachable(s, At(m, locks, pcs, t, DLock))
    requires Popper !in locks && m.size != 0
    ensures Reachable(s, At(m, locks[Popper := t], pcs, t, DLockHead))
  {
    DequeuerGoes(s, m, locks, pcs, t, DLock, m, locks[Popper := t], DTest);
    DequeuerGoes(s, m, locks[Popper := t], pcs, t, DTest, m, locks[Popper := t], DLockHead);
  }

  lemma AloneReads(s: State, m: Memory, locks: map<Lock, Tid>, pcs: map<Tid, Pc>, t: Tid)
    requires Reachable(s, At(m, locks, pcs, t, DLock))
    requires Popper !in locks && Head !in locks && m.size != 0 && m.head < |m.buffer|
    ensures Reachable(s, At(m, locks[Popper := t][Head := t], pcs, t, DAdvance(m.buffer[m.head])))
  {
    var outer := locks[Popper := t];
    ItemAtTest(s, m, locks, pcs, t);
    DequeuerGoes(s, m, outer, pcs, t, DLockHead, m, outer[Head := t], DRead);
    DequeuerGoes(s, m, outer[Head := t], pcs, t, DRead, m, outer[Head := t], DAdvance(m.buffer[m.head]));
  }

  lemma AlonePasses(s: State, m: Memory, outer: map<Lock, Tid>, pcs: map<Tid, Pc>, t: Tid, i: Item)
    requires Reachable(s, At(m, outer[Head := t], pcs, t, DAdvance(i)))
    requires Head !in outer && Size !in outer && m.capacity > 0
    ensures Reachable(s, At(m.(head := (m.head + 1) % m.capacity, dequeued := m.dequeued + [i]),
                            outer[Size := t], pcs, t, DLoad(i)))
  {
    var m' := m.(head := (m.head + 1) % m.capacity, dequeued := m.dequeued + [i]);
    LockThenUnlock(outer, Head, t);
    DequeuerGoes(s, m, outer[Head := t], pcs, t, DAdvance(i), m', outer[Head := t], DUnlockHead(i));
    DequeuerGoes(s, m', outer[Head := t], pcs, t, DUnlockHead(i), m', outer, DLockSize(i));
    DequeuerGoes(s, m', outer, pcs, t, DLockSize(i), m', outer[Size := t], DLoad(i));
  }

  lemma AloneStoresLess(s: State, m: Memory, outer: map<Lock, Tid>, pcs: map<Tid, Pc>, t: Tid, i: Item)
    requires Reachable(s, At(m, outer[Size := t], pcs, t, DLoad(i)))
    requires Size !in outer && m.size > 0
    ensures Reachable(s, At(m.(size := m.size - 1), outer[Size := t], pcs, t, DUnlockSize(i)))
  {
    var m', inner := m.(size := m.size - 1), outer[Size := t];
    DequeuerGoes(s, m, inner, pcs, t, DLoad(i), m, inner, DStore(i, m.size));
    DequeuerGoes(s, m, inner, pcs, t, DStore(i, m.size), m', inner, DUnlockSize(i));
  }

  lemma AloneSignals(s: State, m: Memory, outer: map<Lock, Tid>, pcs: map<Tid, Pc>, t: Tid, i: Item, woken: set<Tid>)
    requires Reachable(s, At(m, outer[Size := t], pcs, t, DUnlockSize(i))) && t in pcs
    requires Size !in outer && MayWake(EnqueueSleepers(pcs[t := DSignal(i)]), woken)
    ensures Reachable(s, At(m, outer, WakeAll(pcs, woken), t, DUnlock(i)))
  {
    LockThenUnlock(outer, Size, t);
    DequeuerGoes(s, m, outer[Size := t], pcs, t, DUnlockSize(i), m, outer, DSignal(i));
    WakeOthers(pcs, t, DSignal(i), woken, DUnlock(i));
    ReachableThen(s, At(m, outer, pcs, t, DSignal(i)), Step(t, woken));
  }

  lemma AloneLeaves(s: State, m: Memory, locks: map<Lock, Tid>, pcs: map<Tid, Pc>, t: Tid, i: Item)
    requires Reachable(s, At(m, locks[Popper := t], pcs, t, DUnlock(i))) && Popper !in locks
    ensures Reachable(s, At(m, locks, pcs, t, Idle))
  {
    LockThenUnlock(locks, Popper, t);
    DequeuerGoes(s, m, locks[Popper := t], pcs, t, DUnlock(i), m, locks, Idle);
  }

  /** The same for pcq_dequeue on a queue that holds an item. */
  lemma AloneDequeues(s: State, m: Memory, locks: map<Lock, Tid>, pcs: map<Tid, Pc>, t: Tid, woken: set<Tid>)
    requires Reachable(s, At(m, locks, pcs, t, DLock)) && t in pcs
    requires Popper !in locks && Head !in locks && Size !in locks
    requires 0 < m.size && 0 < m.capacity && m.head < |m.buffer|
    requires MayWake(EnqueueSleepers(pcs[t := DSignal(m.buffer[m.head])]), woken)
    ensures Reachable(s, At(AfterDequeue(m), locks, WakeAll(pcs, woken), t, Idle))
  {
    var i := m.buffer[m.head];
    var v := m.(head := (m.head + 1) % m.capacity, dequeued := m.dequeued + [i]);
    AloneReads(s, m, locks, pcs, t);
    AlonePasses(s, m, locks[Popper := t], pcs, t, i);
    AloneStoresLess(s, v, locks[Popper := t], pcs, t, i);
    var w := v.(size := m.size - 1);
    AloneSignals(s, w, locks[Popper := t], pcs, t, i, woken);
    AloneLeaves(s, w, locks, WakeAll(pcs, woken), t, i);
  }

  // ---------- a lost wake-up ----------

  /** A consumer sleeps on a queue that holds an item, and no thread is active that could wake it. */
  ghost predicate ConsumerStranded(s: State) {
    && Contents(s) != []
    && (exists t :: t in s.pcs && s.pcs[t].DAsleep?)
    && (forall t :: t in s.pcs ==> !Active(s.pcs[t]))
  }

  /** A producer sleeps on a queue that has space, and no thread is active that could wake it. */
  ghost predicate ProducerStranded(s: State) {
    && |Contents(s)| < s.mem.capacity
    && (exists t :: t in s.pcs && s.pcs[t].EAsleep?)
    && (forall t :: t in s.pcs ==> !Active(s.pcs[t]))
  }

  lemma Called(s: State, s1: State, t: Tid, a: Action)
    requires Reachable(s, s1) && t in s1.pcs && s1.pcs[t] == Idle
    requires a == CallDequeue(t) || exists e :: a == CallEnqueue(t, e)
    ensures Reachable(s, At(s1.mem, s1.locks, s1.pcs, t, if a.CallDequeue? then DLock else ELock(a.elem)))
  {
    ReachableThen(s, s1, a);
  }

  lemma EmptyAtTest(s: State, m: Memory, locks: map<Lock, Tid>, pcs: map<Tid, Pc>, t: Tid)
    requires Reachable(s, At(m, locks, pcs, t, DLock))
    requires Popper !in locks && m.size == 0
    ensures Reachable(s, At(m, locks[Popper := t], pcs, t, DWait))
  {
    DequeuerGoes(s, m, locks, pcs, t, DLock, m, locks[Popper := t], DTest);
    DequeuerGoes(s, m, locks[Popper := t], pcs, t, DTest, m, locks[Popper := t], DWait);
  }

  lemma FullAtTest(s: State, m: Memory, locks: map<Lock, Tid>, pcs: map<Tid, Pc>, t: Tid, e: Item)
    requires Reachable(s, At(m, locks, pcs, t, ELock(e)))
    requires Pusher !in locks && m.size == m.capacity
    ensures Reachable(s, At(m, locks[Pusher := t], pcs, t, EWait(e)))
  {
    EnqueuerGoes(s, m, locks, pcs, t, ELock(e), m, locks[Pusher := t], ETest(e));
    EnqueuerGoes(s, m, locks[Pusher := t], pcs, t, ETest(e), m, locks[Pusher := t], EWait(e));
  }

  /** Thread u makes a whole enqueue call while the others are idle, or about to sleep. */
  lemma EnqueuesBetween(s: State, m: Memory, locks: map<Lock, Tid>, pcs: map<Tid, Pc>, u: Tid, e: Item)
    requires Reachable(s, State(m, locks, pcs)) && u in pcs && pcs[u] == Idle
    requires Pusher !in locks && Tail !in locks && Size !in locks
    requires m.size < m.capacity <= SIZE_MAX && m.tail < |m.buffer|
    requires DequeueSleepers(pcs) == {}
    ensures Reachable(s, State(AfterEnqueue(m, e), locks, pcs))
  {
    Called(s, State(m, locks, pcs), u, CallEnqueue(u, e));
    assert DequeueSleepers(pcs[u := ESignal]) == {} by {
      forall t | t in DequeueSleepers(pcs[u := ESignal]) ensures t in DequeueSleepers(pcs) { }
    }
    AloneEnqueues(s, m, locks, pcs, u, e, {});
    NobodyWoken(pcs);
    assert pcs[u := Idle] == pcs;
  }

  lemma DequeuesBetween(s: State, m: Memory, locks: map<Lock, Tid>, pcs: map<Tid, Pc>, u: Tid)
    requires Reachable(s, State(m, locks, pcs)) && u in pcs && pcs[u] == Idle
    requires Popper !in locks && Head !in locks && Size !in locks
    requires 0 < m.size && 0 < m.capacity && m.head < |m.buffer|
    requires EnqueueSleepers(pcs) == {}
    ensures Reachable(s, State(AfterDequeue(m), locks, pcs))
  {
    var pc := DSignal(m.buffer[m.head]);
    Called(s, State(m, locks, pcs), u, CallDequeue(u));
    assert EnqueueSleepers(pcs[u := pc]) == {} by {
      forall t | t in EnqueueSleepers(pcs[u := pc]) ensures t in EnqueueSleepers(pcs) { }
    }
    AloneDequeues(s, m, locks, pcs, u, {});
    NobodyWoken(pcs);
    assert pcs[u := Idle] == pcs;
  }

  /** The wait after the test: the outer lock is given up, and the thread sleeps. */
  lemma FallsAsleep(s: State, m: Memory, pcs: map<Tid, Pc>, t: Tid, l: Lock, pc: Pc)
    requires Reachable(s, At(m, map[l := t], pcs, t, pc))
    requires (l == Popper && pc == DWait) || (l == Pusher && pc.EWait?)
    ensures Reachable(s, At(m, map[], pcs, t, if pc == DWait then DAsleep else EAsleep(pc.elem)))
  {
    var none: map<Lock, Tid> := map[];
    LockThenUnlock(none, l, t);
    assert none[l := t] == map[l := t];
    if l == Pusher {
      EnqueuerGoes(s, m, map[l := t], pcs, t, pc, m, none, EAsleep(pc.elem));
    } else {
      DequeuerGoes(s, m, map[l := t], pcs, t, pc, m, none, DAsleep);
    }
  }

  /**
   * A pcq_dequeue call tests the size and finds 0; before it waits, a whole pcq_enqueue call runs and signals
   * nobody; then the dequeuing thread falls asleep on a queue that holds an element, while no thread is active.
   * The signal is sent without the lock that the sleeper tests under.
   */
  lemma WakeUpsCanBeLost(s: State, t: Tid, u: Tid, e: Item)
    requires Created(s) && s.mem.capacity >= 1 && t in s.pcs && u in s.pcs && t != u
    ensures exists s' ::
      Reachable(s, s') && s'.pcs == s.pcs[t := DAsleep] && Contents(s') == [e] && ConsumerStranded(s')
  {
    var m, pop: map<Lock, Tid>, pcs := s.mem, map[Popper := t], s.pcs[t := DWait];
    FindsNothing(s, t);
    assert DequeueSleepers(pcs) == {};
    EnqueuesBetween(s, m, pop, pcs, u, e);
    FallsAsleep(s, AfterEnqueue(m, e), s.pcs, t, Popper, DWait);
    StrandedOnOne(At(AfterEnqueue(m, e), map[], s.pcs, t, DAsleep), m, t, e);
  }

  lemma FindsNothing(s: State, t: Tid)
    requires Created(s) && t in s.pcs
    ensures Reachable(s, At(s.mem, map[Popper := t], s.pcs, t, DWait))
  {
    StartsThere(s);
    Called(s, s, t, CallDequeue(t));
    EmptyAtTest(s, s.mem, s.locks, s.pcs, t);
    assert s.locks[Popper := t] == map[Popper := t];
  }

  lemma StartsThere(s: State)
    ensures Reachable(s, s)
  {
    assert Run(s, []) == Stepped(s);
  }

  lemma StrandedOnOne(s: State, m: Memory, t: Tid, e: Item)
    requires m.capacity == |m.buffer| >= 1 && m.head == m.tail == m.size == 0
    requires s.mem == AfterEnqueue(m, e) && s.locks == map[]
    requires t in s.pcs && s.pcs[t] == DAsleep && forall u :: u in s.pcs && u != t ==> s.pcs[u] == Idle
    ensures Contents(s) == [e] && ConsumerStranded(s)
  {
    assert Contents(s)[0] == e;
  }

  /** Alone, a thread can fill a new queue. */
  lemma {:induction false} Fills(s: State, u: Tid, k: nat) returns (m: Memory)
    requires Created(s) && u in s.pcs && k <= s.mem.capacity
    ensures Reachable(s, State(m, map[], s.pcs)) && m.size == k && m.capacity == s.mem.capacity
    ensures Inv(State(m, map[], s.pcs))
  {
    if k == 0 {
      m := s.mem;
      StartsThere(s);
    } else {
      var m0 := Fills(s, u, k - 1);
      assert DequeueSleepers(s.pcs) == {};
      EnqueuesBetween(s, m0, map[], s.pcs, u, 0);
      m := AfterEnqueue(m0, 0);
    }
    ReachableIsSafe(s, State(m, map[], s.pcs));
  }

  /** The same on the other side: a producer finds the queue full, and sleeps after an item has been taken out. */
  lemma WakeUpsCanBeLostByProducers(s: State, t: Tid, u: Tid, e: Item)
    requires Created(s) && s.mem.capacity >= 1 && t in s.pcs && u in s.pcs && t != u
    ensures exists s' :: Reachable(s, s') && s'.pcs == s.pcs[t := EAsleep(e)] && ProducerStranded(s')
  {
    var m := FindsNoSpace(s, t, u, e);
    var pcs := s.pcs[t := EWait(e)];
    assert EnqueueSleepers(pcs) == {};
    DequeuesBetween(s, m, map[Pusher := t], pcs, u);
    FallsAsleep(s, AfterDequeue(m), s.pcs, t, Pusher, EWait(e));
    SpaceIsLeft(At(AfterDequeue(m), map[], s.pcs, t, EAsleep(e)), m, t);
  }

  lemma FindsNoSpace(s: State, t: Tid, u: Tid, e: Item) returns (m: Memory)
    requires Created(s) && t in s.pcs && u in s.pcs
    ensures Reachable(s, At(m, map[Pusher := t], s.pcs, t, EWait(e)))
    ensures Inv(State(m, map[], s.pcs)) && m.size == m.capacity == s.mem.capacity
  {
    var none: map<Lock, Tid> := map[];
    m := Fills(s, u, s.mem.capacity);
    Called(s, State(m, none, s.pcs), t, CallEnqueue(t, e));
    FullAtTest(s, m, none, s.pcs, t, e);
    assert none[Pusher := t] == map[Pusher := t];
  }

  lemma SpaceIsLeft(s: State, m: Memory, t: Tid)
    requires m.head < |m.buffer| && 0 < m.size == m.capacity && s.mem == AfterDequeue(m) && s.locks == map[]
    requires t in s.pcs && s.pcs[t].EAsleep? && forall u :: u in s.pcs && u != t ==> s.pcs[u] == Idle
    ensures ProducerStranded(s)
  {
    assert |Contents(s)| <= LiveLength(s) == m.size - 1;
  }

  // ---------- otherwise none is lost ----------

  /** A thread that waits or sleeps has found the queue empty, or full, and it still is. */
  ghost predicate TestsHold(s: State) {
    forall t :: t in s.pcs ==>
      && (s.pcs[t].DWait? || s.pcs[t].DAsleep? ==> s.mem.size == 0)
      && (s.pcs[t].EWait? || s.pcs[t].EAsleep? ==> s.mem.size == s.mem.capacity)
  }

  predicate OneThread(pcs: map<Tid, Pc>) {
    forall t, u :: t in pcs && u in pcs ==> t == u
  }

  lemma LoneStepKeepsTest(s: State, a: Action)
    requires OneThread(s.pcs) && TestsHold(s) && Next(s, a).Stepped?
    ensures OneThread(Next(s, a).state.pcs) && TestsHold(Next(s, a).state)
  {
    OneThreadMoves(s, a);
  }

  lemma {:induction false} LoneRunKeepsTest(s: State, actions: seq<Action>)
    requires OneThread(s.pcs) && TestsHold(s) && Run(s, actions).Stepped?
    ensures OneThread(Run(s, actions).state.pcs) && TestsHold(Run(s, actions).state)
    decreases |actions|
  {
    if actions != [] {
      LoneStepKeepsTest(s, actions[0]);
      LoneRunKeepsTest(Next(s, actions[0]).state, actions[1..]);
    }
  }

  /** While all threads are idle or asleep nothing is pending: the size counts the items. */
  lemma QuietLength(s: State)
    requires Inv(s) && forall t :: t in s.pcs ==> !Active(s.pcs[t])
    ensures |Contents(s)| == s.mem.size
  {
    FirstInFirstOut(s);
    if Pusher in s.locks { HoldersWantMore(s.pcs[s.locks[Pusher]], Pusher); }
    if Popper in s.locks { HoldersWantMore(s.pcs[s.locks[Popper]], Popper); }
  }

  /** With a single thread, or no slot, nobody sleeps when it need not. */
  lemma NobodyStranded(s: State, s': State)
    requires Created(s) && Reachable(s, s') && (s.mem.capacity == 0 || OneThread(s.pcs))
    ensures !ConsumerStranded(s') && !ProducerStranded(s')
  {
    ReachableIsSafe(s, s');
    FirstInFirstOut(s');
    var actions :| Run(s, actions) == Stepped(s');
    CapacityStays(s, actions);
    if OneThread(s.pcs) { LoneRunKeepsTest(s, actions); }
    if ConsumerStranded(s') || ProducerStranded(s') { QuietLength(s'); }
  }

  lemma {:induction false} CapacityStays(s: State, actions: seq<Action>)
    requires Run(s, actions).Stepped?
    ensures Run(s, actions).state.mem.capacity == s.mem.capacity
    decreases |actions|
  {
    if actions != [] {
      HistoryAfter(s, actions[0]);
      CapacityStays(Next(s, actions[0]).state, actions[1..]);
    }
  }

  predicate TwoThreads(pcs: map<Tid, Pc>) {
    exists t, u :: t in pcs && u in pcs && t != u
  }

  /**
   * "Sleep until the queue has an element" can fail if and only if the queue has a slot and two threads use it:
   * then, and only then, a consumer may sleep on a queue that holds an item while nobody is there to wake it.
   */
  lemma ConsumersStrandedIff(s: State)
    requires Created(s)
    ensures (exists s' :: Reachable(s, s') && ConsumerStranded(s')) <==> s.mem.capacity >= 1 && TwoThreads(s.pcs)
  {
    if s.mem.capacity >= 1 && TwoThreads(s.pcs) {
      var t, u :| t in s.pcs && u in s.pcs && t != u;
      WakeUpsCanBeLost(s, t, u, 0);
    } else {
      forall s' | Reachable(s, s') ensures !ConsumerStranded(s') { NobodyStranded(s, s'); }
    }
  }

  /** "Sleep until the queue has space" can fail under the same condition. */
  lemma ProducersStrandedIff(s: State)
    requires Created(s)
    ensures (exists s' :: Reachable(s, s') && ProducerStranded(s')) <==> s.mem.capacity >= 1 && TwoThreads(s.pcs)
  {
    if s.mem.capacity >= 1 && TwoThreads(s.pcs) {
      var t, u :| t in s.pcs && u in s.pcs && t != u;
      WakeUpsCanBeLostByProducers(s, t, u, 0);
    } else {
      forall s' | Reachable(s, s') ensures !ProducerStranded(s') { NobodyStranded(s, s'); }
    }
  }
}
