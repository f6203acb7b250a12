/** What every reachable state of the queue machine satisfies: safety of all interleavings. */
module QueueInvariant {
  import opened QueueMachine

  // ---------- ownership: the locks exclude ----------

  ghost predicate Ownership(locks: map<Lock, Tid>, pcs: map<Tid, Pc>) {
    && (forall l :: l in locks ==> locks[l] in pcs && Holds(pcs[locks[l]], l))
    && (forall t, l :: t in pcs && Holds(pcs[t], l) ==> l in locks && locks[l] == t)
  }

  /** A thread moves from one program point to another and the locks change to match. */
  lemma OwnershipMoves(locks: map<Lock, Tid>, pcs: map<Tid, Pc>, t: Tid,
                       locks': map<Lock, Tid>, pcs': map<Tid, Pc>)
    requires Ownership(locks, pcs) && t in pcs && pcs'.Keys == pcs.Keys
    requires forall u :: u in pcs && u != t ==> pcs'[u] == pcs[u] || pcs'[u] == Woken(pcs[u])
    requires forall l :: l in locks' && locks'[l] == t <==> Holds(pcs'[t], l)
    requires forall l :: l in locks && locks[l] != t ==> l in locks' && locks'[l] == locks[l]
    requires forall l :: l in locks' && locks'[l] != t ==> l in locks && locks'[l] == locks[l]
    ensures Ownership(locks', pcs')
  {
    forall u, l | u in pcs && u != t ensures Holds(pcs'[u], l) == Holds(pcs[u], l) { }
  }

  lemma AcquireOwns(s: State, t: Tid, l: Lock, pc: Pc)
    requires Ownership(s.locks, s.pcs) && t in s.pcs && l !in s.locks
    requires forall k: Lock :: Holds(pc, k) <==> (Holds(s.pcs[t], k) || k == l)
    ensures Ownership(s.locks[l := t], s.pcs[t := pc])
  {
    OwnershipMoves(s.locks, s.pcs, t, s.locks[l := t], s.pcs[t := pc]);
  }

  lemma ReleaseOwns(s: State, t: Tid, l: Lock, pc: Pc)
    requires Ownership(s.locks, s.pcs) && t in s.pcs && Holds(s.pcs[t], l)
    requires forall k: Lock :: Holds(pc, k) <==> (Holds(s.pcs[t], k) && k != l)
    ensures Ownership(s.locks - {l}, s.pcs[t := pc])
  {
    OwnershipMoves(s.locks, s.pcs, t, s.locks - {l}, s.pcs[t := pc]);
  }

  lemma MoveOwns(s: State, t: Tid, woken: set<Tid>, pc: Pc)
    requires Ownership(s.locks, s.pcs) && t in s.pcs
    requires forall k: Lock :: Holds(pc, k) <==> Holds(s.pcs[t], k)
    ensures Ownership(s.locks, s.pcs[t := pc])
    ensures Ownership(s.locks, WakeAll(s.pcs, woken)[t := pc])
  {
    OwnershipMoves(s.locks, s.pcs, t, s.locks, s.pcs[t := pc]);
    OwnershipMoves(s.locks, s.pcs, t, s.locks, WakeAll(s.pcs, woken)[t := pc]);
  }

  /** The steps that take no lock and give none back. */
  lemma EnqueueMoveOwns(s: State, t: Tid, woken: set<Tid>)
    requires Ownership(s.locks, s.pcs) && t in s.pcs
    ensures var o := EnqueueStep(s, t, s.pcs[t], woken);
      o.Stepped? && o.state.locks == s.locks && (forall l: Lock :: Holds(o.state.pcs[t], l) <==> Holds(s.pcs[t], l))
      ==> Ownership(o.state.locks, o.state.pcs)
  {
    var o := EnqueueStep(s, t, s.pcs[t], woken);
    if o.Stepped? && (forall l: Lock :: Holds(o.state.pcs[t], l) <==> Holds(s.pcs[t], l)) {
      MoveOwns(s, t, woken, o.state.pcs[t]);
    }
  }

  predicate EnqueueAcquires(pc: Pc) { pc.ELock? || pc.EWake? || pc.ELockTail? || pc.ELockSize? }

  predicate EnqueueReleases(pc: Pc) { pc.EWait? || pc.EUnlockTail? || pc.EUnlockSize? || pc.EUnlock? }

  lemma EnqueueAcquireOwns(s: State, t: Tid, woken: set<Tid>)
    requires Ownership(s.locks, s.pcs) && t in s.pcs && EnqueueAcquires(s.pcs[t])
    ensures var o := EnqueueStep(s, t, s.pcs[t], woken);
      o.Stepped? ==> Ownership(o.state.locks, o.state.pcs)
  {
    var pc := s.pcs[t];
    if pc.ELockTail? {
      if Tail !in s.locks { AcquireOwns(s, t, Tail, EWrite(pc.elem)); }
    } else if pc.ELockSize? {
      if Size !in s.locks { AcquireOwns(s, t, Size, ELoad); }
    } else {
      if Pusher !in s.locks { AcquireOwns(s, t, Pusher, ETest(pc.elem)); }
    }
  }

  lemma EnqueueReleaseOwns(s: State, t: Tid, woken: set<Tid>)
    requires Ownership(s.locks, s.pcs) && t in s.pcs && EnqueueReleases(s.pcs[t])
    ensures var o := EnqueueStep(s, t, s.pcs[t], woken);
      o.Stepped? ==> Ownership(o.state.locks, o.state.pcs)
  {
    var pc := s.pcs[t];
    if pc.EWait? {
      ReleaseOwns(s, t, Pusher, EAsleep(pc.elem));
    } else if pc.EUnlockTail? {
      ReleaseOwns(s, t, Tail, ELockSize);
    } else if pc.EUnlockSize? {
      ReleaseOwns(s, t, Size, ESignal);
    } else {
      ReleaseOwns(s, t, Pusher, Idle);
    }
  }

  lemma EnqueueStepOwns(s: State, t: Tid, woken: set<Tid>)
    requires Ownership(s.locks, s.pcs) && t in s.pcs
    ensures var o := EnqueueStep(s, t, s.pcs[t], woken);
      o.Stepped? ==> Ownership(o.state.locks, o.state.pcs)
  {
    if EnqueueAcquires(s.pcs[t]) {
      EnqueueAcquireOwns(s, t, woken);
    } else if EnqueueReleases(s.pcs[t]) {
      EnqueueReleaseOwns(s, t, woken);
    } else {
      EnqueueMoveOwns(s, t, woken);
    }
  }

  /** The steps that take no lock and give none back. */
  lemma DequeueMoveOwns(s: State, t: Tid, woken: set<Tid>)
    requires Ownership(s.locks, s.pcs) && t in s.pcs
    ensures var o := DequeueStep(s, t, s.pcs[t], woken);
      o.Stepped? && o.state.locks == s.locks && (forall l: Lock :: Holds(o.state.pcs[t], l) <==> Holds(s.pcs[t], l))
      ==> Ownership(o.state.locks, o.state.pcs)
  {
    var o := DequeueStep(s, t, s.pcs[t], woken);
    if o.Stepped? && (forall l: Lock :: Holds(o.state.pcs[t], l) <==> Holds(s.pcs[t], l)) {
      MoveOwns(s, t, woken, o.state.pcs[t]);
    }
  }

  predicate DequeueAcquires(pc: Pc) { pc.DLock? || pc.DWake? || pc.DLockHead? || pc.DLockSize? }

  predicate DequeueReleases(pc: Pc) { pc.DWait? || pc.DUnlockHead? || pc.DUnlockSize? || pc.DUnlock? }

  lemma DequeueAcquireOwns(s: State, t: Tid, woken: set<Tid>)
    requires Ownership(s.locks, s.pcs) && t in s.pcs && DequeueAcquires(s.pcs[t])
    ensures var o := DequeueStep(s, t, s.pcs[t], woken);
      o.Stepped? ==> Ownership(o.state.locks, o.state.pcs)
  {
    var pc := s.pcs[t];
    if pc.DLockHead? {
      if Head !in s.locks { AcquireOwns(s, t, Head, DRead); }
    } else if pc.DLockSize? {
      if Size !in s.locks { AcquireOwns(s, t, Size, DLoad(pc.item)); }
    } else {
      if Popper !in s.locks { AcquireOwns(s, t, Popper, DTest); }
    }
  }

  lemma DequeueReleaseOwns(s: State, t: Tid, woken: set<Tid>)
    requires Ownership(s.locks, s.pcs) && t in s.pcs && DequeueReleases(s.pcs[t])
    ensures var o := DequeueStep(s, t, s.pcs[t], woken);
      o.Stepped? ==> Ownership(o.state.locks, o.state.pcs)
  {
    var pc := s.pcs[t];
    if pc.DWait? {
      ReleaseOwns(s, t, Popper, DAsleep);
    } else if pc.DUnlockHead? {
      ReleaseOwns(s, t, Head, DLockSize(pc.item));
    } else if pc.DUnlockSize? {
      ReleaseOwns(s, t, Size, DSignal(pc.item));
    } else {
      ReleaseOwns(s, t, Popper, Idle);
    }
  }

  lemma DequeueStepOwns(s: State, t: Tid, woken: set<Tid>)
    requires Ownership(s.locks, s.pcs) && t in s.pcs
    ensures var o := DequeueStep(s, t, s.pcs[t], woken);
      o.Stepped? ==> Ownership(o.state.locks, o.state.pcs)
  {
    if DequeueAcquires(s.pcs[t]) {
      DequeueAcquireOwns(s, t, woken);
    } else if DequeueReleases(s.pcs[t]) {
      DequeueReleaseOwns(s, t, woken);
    } else {
      DequeueMoveOwns(s, t, woken);
    }
  }

  lemma OwnershipKept(s: State, a: Action)
    requires Ownership(s.locks, s.pcs) && Next(s, a).Stepped?
    ensures Ownership(Next(s, a).state.locks, Next(s, a).state.pcs)
  {
    match a
    case Step(t, woken) => EnqueueStepOwns(s, t, woken); DequeueStepOwns(s, t, woken);
    case _ => MoveOwns(s, a.t, {}, Next(s, a).state.pcs[a.t]);
  }

  // ---------- data: size, indices and buffer, given where the two inner threads are ----------

  /** The program counter of the thread that holds a lock; Idle when the lock is free. */
  function HolderPc(s: State, l: Lock): Pc {
    if l in s.locks && s.locks[l] in s.pcs then s.pcs[s.locks[l]] else Idle
  }

  /** The tail has moved and the size has not been stored yet. */
  predicate EnqueuePending(p: Pc) { p.EUnlockTail? || p.ELockSize? || p.ELoad? || p.EStore? }

  predicate DequeuePending(c: Pc) { c.DUnlockHead? || c.DLockSize? || c.DLoad? || c.DStore? }

  /** Between the exit of the wait loop and the thread's own size store. */
  predicate EnqueueGuarded(p: Pc) { p.ELockTail? || p.EWrite? || p.EAdvance? || EnqueuePending(p) }

  predicate DequeueGuarded(c: Pc) { c.DLockHead? || c.DRead? || c.DAdvance? || DequeuePending(c) }

  function Bit(b: bool): nat { if b then 1 else 0 }

  ghost predicate Sizes(m: Memory, p: Pc, c: Pc) {
    && |m.buffer| == m.capacity <= SIZE_MAX
    && m.size <= m.capacity
    && (EnqueueGuarded(p) ==> m.size < m.capacity)
    && (DequeueGuarded(c) ==> m.size > 0)
    && (p.EStore? ==> p.loaded == m.size && !c.DStore?)
    && (c.DStore? ==> c.loaded == m.size)
    && |m.enqueued| - |m.dequeued| == m.size + Bit(EnqueuePending(p)) - Bit(DequeuePending(c))
  }

  ghost predicate Indices(m: Memory) {
    if m.capacity == 0 then m.tail == m.head == 0
    else m.tail == |m.enqueued| % m.capacity && m.head == |m.dequeued| % m.capacity
  }

  /** What the head has passed is a prefix of what the tail has passed, and the rest is still in its slots. */
  ghost predicate Slots(m: Memory) {
    && m.dequeued <= m.enqueued
    && (m.capacity > 0 && |m.buffer| == m.capacity ==>
          forall j {:trigger m.enqueued[j]} :: |m.dequeued| <= j < |m.enqueued| ==>
            m.buffer[j % m.capacity] == m.enqueued[j])
  }

  ghost predicate InFlight(m: Memory, p: Pc, c: Pc) {
    && (p.EAdvance? ==> m.tail < |m.buffer| && m.buffer[m.tail] == p.elem)
    && (c.DAdvance? ==> |m.dequeued| < |m.enqueued| && m.enqueued[|m.dequeued|] == c.item)
  }

  ghost predicate Data(m: Memory, p: Pc, c: Pc) {
    Sizes(m, p, c) && Indices(m) && Slots(m) && InFlight(m, p, c)
  }

  ghost predicate Inv(s: State) {
    Ownership(s.locks, s.pcs) && Data(s.mem, HolderPc(s, Pusher), HolderPc(s, Popper))
  }

  // ---------- arithmetic of the cyclic buffer ----------

  lemma NoMultipleBetween(d: int, n: nat)
    requires 0 < n
    ensures !(0 < n * d < n)
  {
    if d >= 1 { assert n * d >= n; } else { assert n * d <= 0; }
  }

  lemma ModDistinct(i: nat, j: nat, n: nat)
    requires 0 < n && i < j < i + n
    ensures i % n != j % n
  {
    assert j - i == n * (j / n - i / n) + (j % n - i % n);
    NoMultipleBetween(j / n - i / n, n);
  }

  lemma ModUnique(a: int, n: nat, q: int, r: nat)
    requires 0 < n && r < n && a == n * q + r
    ensures a % n == r
  {
    assert a % n - r == n * (q - a / n);
    assert r - a % n == n * (a / n - q);
    NoMultipleBetween(q - a / n, n);
    NoMultipleBetween(a / n - q, n);
  }

  lemma ModSuccessor(i: nat, n: nat)
    requires 0 < n
    ensures (i % n + 1) % n == (i + 1) % n
  {
    var q, r := i / n, i % n;
    assert i + 1 == n * q + (r + 1);
    if r + 1 < n {
      ModUnique(i + 1, n, q, r + 1);
    } else {
      WrapsAround(i + 1, n, q + 1);
      ModUnique(n, n, 1, 0);
    }
  }

  lemma WrapsAround(a: nat, n: nat, q: nat)
    requires 0 < n && a == n * (q - 1) + n
    ensures a % n == 0
  {
    assert a == n * q + 0;
    ModUnique(a, n, q, 0);
  }

  // ---------- data: one lemma per step that changes it ----------

  /** The slot at the tail holds no item that is still to be dequeued. */
  lemma WriteKeepsData(m: Memory, e: Item, c: Pc)
    requires Data(m, EWrite(e), c)
    ensures m.tail < |m.buffer|
    ensures Data(m.(buffer := m.buffer[m.tail := e]), EAdvance(e), c)
  {
    forall j | |m.dequeued| <= j < |m.enqueued| ensures j % m.capacity != m.tail {
      ModDistinct(j, |m.enqueued|, m.capacity);
    }
  }

  lemma TailAdvanceKeepsData(m: Memory, e: Item, c: Pc)
    requires Data(m, EAdvance(e), c)
    ensures m.capacity > 0
    ensures Data(m.(tail := (m.tail + 1) % m.capacity, enqueued := m.enqueued + [e]), EUnlockTail, c)
  {
    ModSuccessor(|m.enqueued|, m.capacity);
  }

  lemma ReadKeepsData(m: Memory, p: Pc)
    requires Data(m, p, DRead)
    ensures m.head < |m.buffer|
    ensures Data(m, p, DAdvance(m.buffer[m.head]))
  {
    assert |m.dequeued| < |m.enqueued|;
    assert m.buffer[|m.dequeued| % m.capacity] == m.enqueued[|m.dequeued|];
  }

  lemma HeadAdvanceKeepsData(m: Memory, i: Item, p: Pc)
    requires Data(m, p, DAdvance(i))
    ensures m.capacity > 0
    ensures Data(m.(head := (m.head + 1) % m.capacity, dequeued := m.dequeued + [i]), p, DUnlockHead(i))
  {
    ModSuccessor(|m.dequeued|, m.capacity);
  }

  /** What steps that touch neither slots, indices nor histories keep, when c is the program point inside popper. */
  ghost predicate EnqueueSized(s: State, t: Tid, o: Outcome, c: Pc) {
    && o != Fault
    && (o.Stepped? ==>
          && t in o.state.pcs && !o.state.pcs[t].EAdvance?
          && o.state.mem == s.mem.(size := o.state.mem.size)
          && Sizes(o.state.mem, if Holds(o.state.pcs[t], Pusher) then o.state.pcs[t] else Idle, c))
  }

  lemma EnqueueLocksSized(s: State, t: Tid, pc: Pc, woken: set<Tid>, c: Pc)
    requires pc.ELock? || pc.EWake? || pc.ELockTail?
    requires Sizes(s.mem, if Holds(pc, Pusher) then pc else Idle, c)
    ensures EnqueueSized(s, t, EnqueueStep(s, t, pc, woken), c)
  {
  }

  lemma EnqueueTestsSized(s: State, t: Tid, pc: Pc, woken: set<Tid>, c: Pc)
    requires pc.ETest? || pc.EWait? || pc.EAsleep?
    requires Sizes(s.mem, if Holds(pc, Pusher) then pc else Idle, c)
    ensures EnqueueSized(s, t, EnqueueStep(s, t, pc, woken), c)
  {
  }

  lemma EnqueueLeavesSized(s: State, t: Tid, pc: Pc, woken: set<Tid>, c: Pc)
    requires pc.EUnlockSize? || pc.ESignal? || pc.EUnlock?
    requires Sizes(s.mem, pc, c)
    ensures EnqueueSized(s, t, EnqueueStep(s, t, pc, woken), c)
  {
  }

  lemma EnqueueCountsSized(s: State, t: Tid, pc: Pc, woken: set<Tid>, c: Pc)
    requires EnqueuePending(pc) && Sizes(s.mem, pc, c) && !(Holds(pc, Size) && Holds(c, Size))
    ensures EnqueueSized(s, t, EnqueueStep(s, t, pc, woken), c)
  {
  }

  lemma EnqueueStepKeepsSizes(s: State, t: Tid, pc: Pc, woken: set<Tid>, c: Pc)
    requires InEnqueue(pc) && !pc.EWrite? && !pc.EAdvance?
    requires Sizes(s.mem, if Holds(pc, Pusher) then pc else Idle, c)
    requires !(Holds(pc, Size) && Holds(c, Size))
    ensures EnqueueSized(s, t, EnqueueStep(s, t, pc, woken), c)
  {
    if EnqueuePending(pc) {
      EnqueueCountsSized(s, t, pc, woken, c);
    } else if pc.EUnlockSize? || pc.ESignal? || pc.EUnlock? {
      EnqueueLeavesSized(s, t, pc, woken, c);
    } else if pc.ETest? || pc.EWait? || pc.EAsleep? {
      EnqueueTestsSized(s, t, pc, woken, c);
    } else {
      EnqueueLocksSized(s, t, pc, woken, c);
    }
  }

  lemma EnqueueStepKeepsData(s: State, t: Tid, pc: Pc, woken: set<Tid>, c: Pc)
    requires InEnqueue(pc) && Data(s.mem, if Holds(pc, Pusher) then pc else Idle, c)
    requires !(Holds(pc, Size) && Holds(c, Size))
    ensures var o := EnqueueStep(s, t, pc, woken);
      && o != Fault
      && (o.Stepped? ==>
            t in o.state.pcs && Data(o.state.mem, if Holds(o.state.pcs[t], Pusher) then o.state.pcs[t] else Idle, c))
  {
    if pc.EWrite? {
      WriteKeepsData(s.mem, pc.elem, c);
    } else if pc.EAdvance? {
      TailAdvanceKeepsData(s.mem, pc.elem, c);
    } else {
      EnqueueStepKeepsSizes(s, t, pc, woken, c);
    }
  }

  ghost predicate DequeueSized(s: State, t: Tid, o: Outcome, p: Pc) {
    && o != Fault
    && (o.Stepped? ==>
          && t in o.state.pcs && !o.state.pcs[t].DAdvance?
          && o.state.mem == s.mem.(size := o.state.mem.size)
          && Sizes(o.state.mem, p, if Holds(o.state.pcs[t], Popper) then o.state.pcs[t] else Idle))
  }

  lemma DequeueLocksSized(s: State, t: Tid, pc: Pc, woken: set<Tid>, p: Pc)
    requires pc.DLock? || pc.DWake? || pc.DLockHead?
    requires Sizes(s.mem, p, if Holds(pc, Popper) then pc else Idle)
    ensures DequeueSized(s, t, DequeueStep(s, t, pc, woken), p)
  {
  }

  lemma DequeueTestsSized(s: State, t: Tid, pc: Pc, woken: set<Tid>, p: Pc)
    requires pc.DTest? || pc.DWait? || pc.DAsleep?
    requires Sizes(s.mem, p, if Holds(pc, Popper) then pc else Idle)
    ensures DequeueSized(s, t, DequeueStep(s, t, pc, woken), p)
  {
  }

  lemma DequeueLeavesSized(s: State, t: Tid, pc: Pc, woken: set<Tid>, p: Pc)
    requires pc.DUnlockSize? || pc.DSignal? || pc.DUnlock?
    requires Sizes(s.mem, p, pc)
    ensures DequeueSized(s, t, DequeueStep(s, t, pc, woken), p)
  {
  }

  lemma DequeueCountsSized(s: State, t: Tid, pc: Pc, woken: set<Tid>, p: Pc)
    requires DequeuePending(pc) && Sizes(s.mem, p, pc) && !(Holds(pc, Size) && Holds(p, Size))
    ensures DequeueSized(s, t, DequeueStep(s, t, pc, woken), p)
  {
  }

  lemma DequeueStepKeepsSizes(s: State, t: Tid, pc: Pc, woken: set<Tid>, p: Pc)
    requires !InEnqueue(pc) && !pc.DRead? && !pc.DAdvance?
    requires Sizes(s.mem, p, if Holds(pc, Popper) then pc else Idle)
    requires !(Holds(pc, Size) && Holds(p, Size))
    ensures DequeueSized(s, t, DequeueStep(s, t, pc, woken), p)
  {
    if DequeuePending(pc) {
      DequeueCountsSized(s, t, pc, woken, p);
    } else if pc.DUnlockSize? || pc.DSignal? || pc.DUnlock? {
      DequeueLeavesSized(s, t, pc, woken, p);
    } else if pc.DTest? || pc.DWait? || pc.DAsleep? {
      DequeueTestsSized(s, t, pc, woken, p);
    } else if pc != Idle {
      DequeueLocksSized(s, t, pc, woken, p);
    }
  }

  lemma DequeueStepKeepsData(s: State, t: Tid, pc: Pc, woken: set<Tid>, p: Pc)
    requires !InEnqueue(pc) && Data(s.mem, p, if Holds(pc, Popper) then pc else Idle)
    requires !(Holds(pc, Size) && Holds(p, Size))
    ensures var o := DequeueStep(s, t, pc, woken);
      && o != Fault
      && (o.Stepped? ==>
            t in o.state.pcs && Data(o.state.mem, p, if Holds(o.state.pcs[t], Popper) then o.state.pcs[t] else Idle))
  {
    if pc.DRead? {
      ReadKeepsData(s.mem, p);
    } else if pc.DAdvance? {
      HeadAdvanceKeepsData(s.mem, pc.item, p);
    } else {
      DequeueStepKeepsSizes(s, t, pc, woken, p);
    }
  }

  // ---------- the invariant ----------

  ghost predicate OthersStay(pcs: map<Tid, Pc>, t: Tid, pcs': map<Tid, Pc>) {
    && t in pcs && pcs'.Keys == pcs.Keys
    && (forall u :: u in pcs && u != t ==> pcs'[u] == pcs[u] || pcs'[u] == Woken(pcs[u]))
  }

  lemma OneThreadMoves(s: State, a: Action)
    requires Next(s, a).Stepped?
    ensures OthersStay(s.pcs, a.t, Next(s, a).state.pcs)
  {
  }

  lemma SleepersHoldNothing(pc: Pc, l: Lock)
    ensures Woken(pc) == pc || (!Holds(pc, l) && !Holds(Woken(pc), l))
  {
  }

  /** The thread inside a lock is the one whose program counter says so. */
  lemma HolderIs(s: State, t: Tid, l: Lock)
    requires Ownership(s.locks, s.pcs) && t in s.pcs && Holds(s.pcs[t], l)
    ensures l in s.locks && s.locks[l] == t && HolderPc(s, l) == s.pcs[t]
  {
  }

  /** Who is inside a lock after a step of thread t. */
  lemma HolderAfter(s: State, t: Tid, s': State, l: Lock)
    requires Ownership(s.locks, s.pcs) && Ownership(s'.locks, s'.pcs) && OthersStay(s.pcs, t, s'.pcs)
    ensures HolderPc(s', l) == if Holds(s'.pcs[t], l) then s'.pcs[t]
                               else if Holds(s.pcs[t], l) then Idle else HolderPc(s, l)
  {
    if Holds(s'.pcs[t], l) {
      HolderIs(s', t, l);
    } else if l in s'.locks {
      var u := s'.locks[l];
      SleepersHoldNothing(s.pcs[u], l);
      HolderIs(s, u, l);
    } else if l in s.locks {
      var u := s.locks[l];
      SleepersHoldNothing(s.pcs[u], l);
      if u != t { HolderIs(s', u, l); }
    }
  }

  lemma OneThreadInSize(s: State)
    requires Ownership(s.locks, s.pcs)
    ensures !(Holds(HolderPc(s, Pusher), Size) && Holds(HolderPc(s, Popper), Size))
  {
    if Holds(HolderPc(s, Pusher), Size) && Holds(HolderPc(s, Popper), Size) {
      HolderIs(s, s.locks[Pusher], Size);
      HolderIs(s, s.locks[Popper], Size);
    }
  }

  lemma EnqueueStepIsSafe(s: State, t: Tid, woken: set<Tid>, p: Pc, c: Pc)
    requires Inv(s) && p == HolderPc(s, Pusher) && c == HolderPc(s, Popper)
    requires t in s.pcs && InEnqueue(s.pcs[t])
    ensures var o := EnqueueStep(s, t, s.pcs[t], woken);
      && o != Fault
      && (o.Stepped? ==>
            && t in o.state.pcs
            && Data(o.state.mem, if Holds(o.state.pcs[t], Pusher) then o.state.pcs[t]
                                 else if Holds(s.pcs[t], Pusher) then Idle else p, c))
  {
    OneThreadInSize(s);
    if Holds(s.pcs[t], Pusher) {
      HolderIs(s, t, Pusher);
      EnqueueStepKeepsData(s, t, p, woken, c);
    } else if Pusher !in s.locks {
      EnqueueStepKeepsData(s, t, s.pcs[t], woken, c);
    }
  }

  lemma DequeueStepIsSafe(s: State, t: Tid, woken: set<Tid>, p: Pc, c: Pc)
    requires Inv(s) && p == HolderPc(s, Pusher) && c == HolderPc(s, Popper)
    requires t in s.pcs && !InEnqueue(s.pcs[t])
    ensures var o := DequeueStep(s, t, s.pcs[t], woken);
      && o != Fault
      && (o.Stepped? ==>
            && t in o.state.pcs
            && Data(o.state.mem, p, if Holds(o.state.pcs[t], Popper) then o.state.pcs[t]
                                    else if Holds(s.pcs[t], Popper) then Idle else c))
  {
    OneThreadInSize(s);
    if Holds(s.pcs[t], Popper) {
      HolderIs(s, t, Popper);
      DequeueStepKeepsData(s, t, c, woken, p);
    } else if Popper !in s.locks {
      DequeueStepKeepsData(s, t, s.pcs[t], woken, p);
    }
  }

  /** An enqueue never enters the popper lock, and a dequeue never the pusher lock. */
  lemma EnqueueStaysOnItsSide(s: State, t: Tid, pc: Pc, woken: set<Tid>)
    requires InEnqueue(pc)
    ensures !Holds(pc, Popper)
    ensures var o := EnqueueStep(s, t, pc, woken);
      o.Stepped? ==> t in o.state.pcs && !Holds(o.state.pcs[t], Popper)
  {
  }

  lemma DequeueStaysOnItsSide(s: State, t: Tid, pc: Pc, woken: set<Tid>)
    requires !InEnqueue(pc)
    ensures !Holds(pc, Pusher)
    ensures var o := DequeueStep(s, t, pc, woken);
      o.Stepped? ==> t in o.state.pcs && !Holds(o.state.pcs[t], Pusher)
  {
  }

  /** The program counter inside a lock after thread t has moved from pc to pc'. */
  function Inside(l: Lock, before: Pc, pc: Pc, pc': Pc): Pc {
    if Holds(pc', l) then pc' else if Holds(pc, l) then Idle else before
  }

  /** The outcome of a step of thread t does not fault, and leaves the data as the invariant has them. */
  ghost predicate DataAfter(s: State, t: Tid, o: Outcome)
    requires t in s.pcs
  {
    && o != Fault
    && (o.Stepped? ==>
          && t in o.state.pcs
          && Data(o.state.mem, Inside(Pusher, HolderPc(s, Pusher), s.pcs[t], o.state.pcs[t]),
                               Inside(Popper, HolderPc(s, Popper), s.pcs[t], o.state.pcs[t])))
  }

  lemma EnqueueDataKept(s: State, t: Tid, woken: set<Tid>)
    requires Inv(s) && t in s.pcs && InEnqueue(s.pcs[t])
    ensures DataAfter(s, t, EnqueueStep(s, t, s.pcs[t], woken))
  {
    EnqueueStepIsSafe(s, t, woken, HolderPc(s, Pusher), HolderPc(s, Popper));
    EnqueueStaysOnItsSide(s, t, s.pcs[t], woken);
  }

  lemma DequeueDataKept(s: State, t: Tid, woken: set<Tid>)
    requires Inv(s) && t in s.pcs && !InEnqueue(s.pcs[t])
    ensures DataAfter(s, t, DequeueStep(s, t, s.pcs[t], woken))
  {
    DequeueStepIsSafe(s, t, woken, HolderPc(s, Pusher), HolderPc(s, Popper));
    DequeueStaysOnItsSide(s, t, s.pcs[t], woken);
  }

  /** Calls and spurious wake-ups hold no lock before or after. */
  lemma CallDataKept(s: State, a: Action)
    requires Inv(s) && a.t in s.pcs && !a.Step?
    ensures DataAfter(s, a.t, Next(s, a))
  {
    var o := Next(s, a);
    if o.Stepped? {
      assert forall l: Lock :: !Holds(s.pcs[a.t], l) && !Holds(o.state.pcs[a.t], l);
    }
  }

  lemma DataKept(s: State, a: Action)
    requires Inv(s) && a.t in s.pcs
    ensures DataAfter(s, a.t, Next(s, a))
  {
    if !a.Step? {
      CallDataKept(s, a);
    } else {
      if InEnqueue(s.pcs[a.t]) {
        EnqueueDataKept(s, a.t, a.woken);
      } else {
        DequeueDataKept(s, a.t, a.woken);
      }
    }
  }

  /** Every step keeps the invariant, and none faults. */
  lemma StepIsSafe(s: State, a: Action)
    requires Inv(s)
    ensures Next(s, a) != Fault
    ensures Next(s, a).Stepped? ==> Inv(Next(s, a).state)
  {
    if a.t in s.pcs {
      DataKept(s, a);
      if Next(s, a).Stepped? {
        OwnershipKept(s, a);
        OneThreadMoves(s, a);
        HolderAfter(s, a.t, Next(s, a).state, Pusher);
        HolderAfter(s, a.t, Next(s, a).state, Popper);
      }
    }
  }

  lemma CreatedIsSafe(s: State)
    requires Created(s)
    ensures Inv(s)
  {
  }
}
