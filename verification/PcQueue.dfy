/** The queue itself: its fields and buffer, changed in place by one atomic step of one thread at a time. */
module PcQueue {
  import opened Options
  import opened QueueMachine
  import opened QueueInvariant
  import opened QueueTheorems

  /** An action of the machine took the queue from s to s': the invariant is kept, and the atomic FIFO agrees. */
  ghost predicate Took(s: State, a: Action, s': State) {
    && Next(s, a) == Stepped(s') && Inv(s')
    && (match Visible(s, a)
        case None => Atomic(s') == Atomic(s)
        case Some(e) => AtomicNext(Atomic(s), e) == Some(Atomic(s')))
  }

  lemma Takes(s: State, a: Action)
    requires Inv(s) && Next(s, a) != Disabled
    ensures Next(s, a).Stepped? && Took(s, a, Next(s, a).state)
  {
    StepIsSafe(s, a);
    StepRefines(s, a);
  }

  lemma RunOn(s: State, actions: seq<Action>, i: nat)
    requires i < |actions|
    ensures var o := Next(s, actions[i]);
      Run(s, actions[i..]) == if o.Stepped? then Run(o.state, actions[i + 1..]) else o
  {
    assert actions[i..][1..] == actions[i + 1..];
  }

  /** A step of a thread inside pcq_enqueue; whom it may wake matters only when it is the signal. */
  lemma EnqueuerTakes(s: State, t: Tid, woken: set<Tid>)
    requires Inv(s) && t in s.pcs && InEnqueue(s.pcs[t]) && Next(s, Step(t, woken)) != Disabled
    ensures var o := EnqueueStep(s, t, s.pcs[t], woken);
      && o.Stepped? && Took(s, Step(t, woken), o.state)
      && (EnqueueAcquires(s.pcs[t]) || EnqueueReleases(s.pcs[t]) ==> EnqueueStep(s, t, s.pcs[t], {}) == o)
  {
    Takes(s, Step(t, woken));
  }

  lemma DequeuerTakes(s: State, t: Tid, woken: set<Tid>)
    requires Inv(s) && t in s.pcs && !InEnqueue(s.pcs[t]) && Next(s, Step(t, woken)) != Disabled
    ensures var o := DequeueStep(s, t, s.pcs[t], woken);
      && o.Stepped? && Took(s, Step(t, woken), o.state)
      && (DequeueAcquires(s.pcs[t]) || DequeueReleases(s.pcs[t]) ==> DequeueStep(s, t, s.pcs[t], {}) == o)
  {
    Takes(s, Step(t, woken));
  }

  class PcQueue {
    const capacity: nat
    const buffer: array<Item>
    var head: nat
    var tail: nat
    var size: nat
    var locks: map<Lock, Tid>
    var pcs: map<Tid, Pc>
    ghost var enqueued: seq<Item>
    ghost var dequeued: seq<Item>

    ghost function View(): State
      reads this, buffer
    {
      State(Memory(capacity, buffer[..], head, tail, size, enqueued, dequeued), locks, pcs)
    }

    constructor (capacity: nat, threads: set<Tid>)
      requires capacity < 0x1_0000_0000_0000_0000
      ensures Created(View()) && Inv(View()) && this.capacity == capacity && pcs.Keys == threads
      ensures fresh(buffer)
    {
      this.capacity := capacity;
      buffer := new Item[capacity];
      head, tail, size := 0, 0, 0;
      locks := map[];
      pcs := map t | t in threads :: Idle;
      enqueued, dequeued := [], [];
      new;
      CreatedIsSafe(View());
    }

    /** An idle thread calls pcq_enqueue or pcq_dequeue, or a sleeping one wakes up spuriously. */
    method Call(a: Action)
      requires Inv(View()) && !a.Step? && Next(View(), a) != Disabled
      modifies `pcs
      ensures Took(old(View()), a, View())
    {
      ghost var s := View();
      Takes(s, a);
      match a
      case CallEnqueue(t, e) => pcs := pcs[t := ELock(e)];
      case CallDequeue(t) => pcs := pcs[t := DLock];
      case SpuriousWake(t) => pcs := pcs[t := Woken(pcs[t])];
    }

    /** The steps of pcq_enqueue that take a mutex or give one back. */
    method EnqueuerLocks(t: Tid)
      requires t in pcs && (EnqueueAcquires(pcs[t]) || EnqueueReleases(pcs[t]))
      requires EnqueueStep(View(), t, pcs[t], {}).Stepped?
      modifies `locks, `pcs
      ensures View() == old(EnqueueStep(View(), t, pcs[t], {})).state
    {
      match pcs[t]
      case ELock(e) =>
        locks, pcs := locks[Pusher := t], pcs[t := ETest(e)];
      case EWait(e) =>
        locks, pcs := locks - {Pusher}, pcs[t := EAsleep(e)];
      case EWake(e) =>
        locks, pcs := locks[Pusher := t], pcs[t := ETest(e)];
      case ELockTail(e) =>
        locks, pcs := locks[Tail := t], pcs[t := EWrite(e)];
      case EUnlockTail =>
        locks, pcs := locks - {Tail}, pcs[t := ELockSize];
      case ELockSize =>
        locks, pcs := locks[Size := t], pcs[t := ELoad];
      case EUnlockSize =>
        locks, pcs := locks - {Size}, pcs[t := ESignal];
      case EUnlock =>
        locks, pcs := locks - {Pusher}, pcs[t := Idle];
    }

    /** The other steps: tests, loads and stores, and the signal. */
    method EnqueuerData(t: Tid, woken: set<Tid>)
      requires t in pcs && InEnqueue(pcs[t]) && !EnqueueAcquires(pcs[t]) && !EnqueueReleases(pcs[t])
      requires EnqueueStep(View(), t, pcs[t], woken).Stepped?
      modifies this, buffer
      ensures View() == old(EnqueueStep(View(), t, pcs[t], woken)).state
    {
      match pcs[t]
      case ETest(e) =>
        pcs := pcs[t := if size == capacity then EWait(e) else ELockTail(e)];
      case EWrite(e) =>
        buffer[tail] := e;
        pcs := pcs[t := EAdvance(e)];
      case EAdvance(e) =>
        tail := (tail + 1) % capacity;
        enqueued := enqueued + [e];
        pcs := pcs[t := EUnlockTail];
      case ELoad =>
        pcs := pcs[t := EStore(size)];
      case EStore(loaded) =>
        size := Increment(loaded);
        pcs := pcs[t := EUnlockSize];
      case ESignal =>
        pcs := WakeAll(pcs, woken)[t := EUnlock];
    }

    /**
     * The next atomic step of a thread inside pcq_enqueue; the scheduler picks only threads that are not blocked.
     * The slot that is written and the divisor of the tail are in range because of the invariant.
     */
    method Enqueuer(t: Tid, woken: set<Tid>)
      requires Inv(View()) && t in pcs && InEnqueue(pcs[t]) && Next(View(), Step(t, woken)) != Disabled
      modifies this, buffer
      ensures Took(old(View()), Step(t, woken), View())
    {
      EnqueuerTakes(View(), t, woken);
      if EnqueueAcquires(pcs[t]) || EnqueueReleases(pcs[t]) {
        EnqueuerLocks(t);
      } else {
        EnqueuerData(t, woken);
      }
    }

    /** The steps of pcq_dequeue that take a mutex or give one back. */
    method DequeuerLocks(t: Tid)
      requires t in pcs && (DequeueAcquires(pcs[t]) || DequeueReleases(pcs[t]))
      requires DequeueStep(View(), t, pcs[t], {}).Stepped?
      modifies `locks, `pcs
      ensures View() == old(DequeueStep(View(), t, pcs[t], {})).state
    {
      match pcs[t]
      case DLock =>
        locks, pcs := locks[Popper := t], pcs[t := DTest];
      case DWait =>
        locks, pcs := locks - {Popper}, pcs[t := DAsleep];
      case DWake =>
        locks, pcs := locks[Popper := t], pcs[t := DTest];
      case DLockHead =>
        locks, pcs := locks[Head := t], pcs[t := DRead];
      case DUnlockHead(i) =>
        locks, pcs := locks - {Head}, pcs[t := DLockSize(i)];
      case DLockSize(i) =>
        locks, pcs := locks[Size := t], pcs[t := DLoad(i)];
      case DUnlockSize(i) =>
        locks, pcs := locks - {Size}, pcs[t := DSignal(i)];
      case DUnlock(i) =>
        locks, pcs := locks - {Popper}, pcs[t := Idle];
    }

    /** The other steps: tests, loads and stores, and the signal. */
    method DequeuerData(t: Tid, woken: set<Tid>)
      requires t in pcs && !InEnqueue(pcs[t]) && !DequeueAcquires(pcs[t]) && !DequeueReleases(pcs[t])
      requires DequeueStep(View(), t, pcs[t], woken).Stepped?
      modifies this, buffer
      ensures View() == old(DequeueStep(View(), t, pcs[t], woken)).state
    {
      match pcs[t]
      case DTest =>
        pcs := pcs[t := if size == 0 then DWait else DLockHead];
      case DRead =>
        pcs := pcs[t := DAdvance(buffer[head])];
      case DAdvance(i) =>
        head := (head + 1) % capacity;
        dequeued := dequeued + [i];
        pcs := pcs[t := DUnlockHead(i)];
      case DLoad(i) =>
        pcs := pcs[t := DStore(i, size)];
      case DStore(i, loaded) =>
        size := Decrement(loaded);
        pcs := pcs[t := DUnlockSize(i)];
      case DSignal(i) =>
        pcs := WakeAll(pcs, woken)[t := DUnlock(i)];
    }

    /** The next atomic step of a thread inside pcq_dequeue; at its last one the taken item is returned. */
    method Dequeuer(t: Tid, woken: set<Tid>) returns (item: Item)
      requires Inv(View()) && t in pcs && !InEnqueue(pcs[t]) && Next(View(), Step(t, woken)) != Disabled
      modifies this, buffer
      ensures Took(old(View()), Step(t, woken), View())
      ensures Visible(old(View()), Step(t, woken)) == Some(Return(t)) ==> old(Atomic(View())).calls[t] == Dequeued(item)
    {
      DequeuerTakes(View(), t, woken);
      item := if pcs[t].DUnlock? then pcs[t].item else 0;
      if DequeueAcquires(pcs[t]) || DequeueReleases(pcs[t]) {
        DequeuerLocks(t);
      } else {
        DequeuerData(t, woken);
      }
    }

    /** One action of the schedule. */
    method Perform(a: Action)
      requires Inv(View()) && Next(View(), a) != Disabled
      modifies this, buffer
      ensures Took(old(View()), a, View())
    {
      if a.Step? {
        if InEnqueue(pcs[a.t]) {
          Enqueuer(a.t, a.woken);
        } else {
          var item := Dequeuer(a.t, a.woken);
        }
      } else {
        Call(a);
      }
    }

    /**
     * A whole schedule: it never fails, and the calls that it invokes, lets take effect and returns
     * are a run of the atomic FIFO.
     */
    method PerformAll(actions: seq<Action>)
      requires Inv(View()) && Run(View(), actions) != Disabled
      modifies this, buffer
      ensures Inv(View()) && Run(old(View()), actions) == Stepped(View())
      ensures AtomicRun(old(Atomic(View())), Trace(old(View()), actions)) == Some(Atomic(View()))
      ensures enqueued == dequeued + QueueTheorems.Contents(View())
    {
      ghost var s := View();
      RunKeepsInvariant(s, actions);
      RunRefines(s, actions);
      var i := 0;
      while i < |actions|
        invariant 0 <= i <= |actions| && Inv(View())
        invariant Run(View(), actions[i..]) == Run(s, actions)
      {
        RunOn(View(), actions, i);
        Perform(actions[i]);
        i := i + 1;
      }
      FirstInFirstOut(View());
    }
  }
}
