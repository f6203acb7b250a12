/**
 * The two-sided bounded queue (producer-consumer/producer-consumer.c) as a machine of atomic steps.
 *
 * Each thread has a program counter inside pcq_enqueue or pcq_dequeue. Every lock, unlock, load, store,
 * wait and signal is a step of its own, and any thread may take the next one. Reads of the size outside
 * its lock are assumed sequentially consistent.
 */
module QueueMachine {

  type Tid = nat
  /** An element: the queue moves pointers and never looks at what they point to. */
  type Item = int

  /** The largest size_t. */
  const SIZE_MAX: nat := 0xFFFF_FFFF_FFFF_FFFF

  datatype Lock = Pusher | Popper | Tail | Head | Size

  /** Where a thread is; the comment gives the source line that it is about to execute. */
  datatype Pc =
    | Idle
    | ELock(elem: Item)         // 40
    | ETest(elem: Item)         // 41
    | EWait(elem: Item)         // 42, the queue was full
    | EAsleep(elem: Item)       // 42, on the pusher condition variable
    | EWake(elem: Item)         // 42, taking the lock again
    | ELockTail(elem: Item)     // 45
    | EWrite(elem: Item)        // 46
    | EAdvance(elem: Item)      // 47
    | EUnlockTail               // 48
    | ELockSize                 // 50
    | ELoad                     // 51
    | EStore(loaded: nat)       // 51
    | EUnlockSize               // 52
    | ESignal                   // 54
    | EUnlock                   // 55
    | DLock                     // 62
    | DTest                     // 63
    | DWait                     // 64, the queue was empty
    | DAsleep                   // 64, on the popper condition variable
    | DWake                     // 64, taking the lock again
    | DLockHead                 // 67
    | DRead                     // 68
    | DAdvance(item: Item)      // 69
    | DUnlockHead(item: Item)   // 70
    | DLockSize(item: Item)     // 72
    | DLoad(item: Item)         // 73
    | DStore(item: Item, loaded: nat) // 73
    | DUnlockSize(item: Item)   // 74
    | DSignal(item: Item)       // 76
    | DUnlock(item: Item)       // 77

  /**
   * The fields of the queue, and two history variables: the items in the order in which the tail
   * moved past them, and in the order in which the head did.
   */
  datatype Memory = Memory(
    capacity: nat, buffer: seq<Item>, head: nat, tail: nat, size: nat,
    enqueued: seq<Item>, dequeued: seq<Item>)

  /** The queue, who holds which of its mutexes, and the threads. */
  datatype State = State(mem: Memory, locks: map<Lock, Tid>, pcs: map<Tid, Pc>)

  datatype Action =
    | CallEnqueue(t: Tid, elem: Item)
    | CallDequeue(t: Tid)
    | Step(t: Tid, woken: set<Tid>)   // woken matters only when the step is a signal
    | SpuriousWake(t: Tid)

  /** Disabled: the thread is blocked. Fault: a wild array access or a division by zero. */
  datatype Outcome = Disabled | Fault | Stepped(state: State)

  // ---------- the kinds of step ----------

  function Goto(s: State, t: Tid, pc: Pc): Outcome {
    Stepped(s.(pcs := s.pcs[t := pc]))
  }

  function Update(s: State, t: Tid, mem: Memory, pc: Pc): Outcome {
    Stepped(s.(mem := mem, pcs := s.pcs[t := pc]))
  }

  function Acquire(s: State, t: Tid, l: Lock, pc: Pc): Outcome {
    if l in s.locks then Disabled
    else Stepped(s.(locks := s.locks[l := t], pcs := s.pcs[t := pc]))
  }

  function Release(s: State, t: Tid, l: Lock, pc: Pc): Outcome {
    Stepped(s.(locks := s.locks - {l}, pcs := s.pcs[t := pc]))
  }

  function EnqueueSleepers(pcs: map<Tid, Pc>): set<Tid> {
    set t | t in pcs && pcs[t].EAsleep?
  }

  function DequeueSleepers(pcs: map<Tid, Pc>): set<Tid> {
    set t | t in pcs && pcs[t].DAsleep?
  }

  function Woken(pc: Pc): Pc {
    match pc
    case EAsleep(e) => EWake(e)
    case DAsleep => DWake
    case _ => pc
  }

  function WakeAll(pcs: map<Tid, Pc>, woken: set<Tid>): map<Tid, Pc> {
    map t | t in pcs :: if t in woken then Woken(pcs[t]) else pcs[t]
  }

  /** pthread_cond_signal wakes at least one of the threads that sleep there, if any. */
  function Signal(s: State, t: Tid, sleepers: set<Tid>, woken: set<Tid>, pc: Pc): Outcome {
    if woken <= sleepers && (sleepers != {} ==> woken != {})
    then Stepped(s.(pcs := WakeAll(s.pcs, woken)[t := pc]))
    else Disabled
  }

  /** Additions to and subtractions from a size_t wrap around. */
  function Increment(n: nat): nat { if n == SIZE_MAX then 0 else n + 1 }

  function Decrement(n: nat): nat { if n == 0 then SIZE_MAX else n - 1 }

  // ---------- pcq_enqueue and pcq_dequeue ----------

  function EnqueueStep(s: State, t: Tid, pc: Pc, woken: set<Tid>): Outcome {
    var m := s.mem;
    match pc
    case ELock(e) => Acquire(s, t, Pusher, ETest(e))
    case ETest(e) => Goto(s, t, if m.size == m.capacity then EWait(e) else ELockTail(e))
    case EWait(e) => Release(s, t, Pusher, EAsleep(e))
    case EWake(e) => Acquire(s, t, Pusher, ETest(e))
    case ELockTail(e) => Acquire(s, t, Tail, EWrite(e))
    case EWrite(e) =>
      if m.tail >= |m.buffer| then Fault
      else Update(s, t, m.(buffer := m.buffer[m.tail := e]), EAdvance(e))
    case EAdvance(e) =>
      if m.capacity == 0 then Fault
      else Update(s, t, m.(tail := (m.tail + 1) % m.capacity, enqueued := m.enqueued + [e]), EUnlockTail)
    case EUnlockTail => Release(s, t, Tail, ELockSize)
    case ELockSize => Acquire(s, t, Size, ELoad)
    case ELoad => Goto(s, t, EStore(m.size))
    case EStore(l) => Update(s, t, m.(size := Increment(l)), EUnlockSize)
    case EUnlockSize => Release(s, t, Size, ESignal)
    case ESignal => Signal(s, t, DequeueSleepers(s.pcs), woken, EUnlock)
    case EUnlock => Release(s, t, Pusher, Idle)
    case _ => Disabled
  }

  function DequeueStep(s: State, t: Tid, pc: Pc, woken: set<Tid>): Outcome {
    var m := s.mem;
    match pc
    case DLock => Acquire(s, t, Popper, DTest)
    case DTest => Goto(s, t, if m.size == 0 then DWait else DLockHead)
    case DWait => Release(s, t, Popper, DAsleep)
    case DWake => Acquire(s, t, Popper, DTest)
    case DLockHead => Acquire(s, t, Head, DRead)
    case DRead => if m.head >= |m.buffer| then Fault else Goto(s, t, DAdvance(m.buffer[m.head]))
    case DAdvance(i) =>
      if m.capacity == 0 then Fault
      else Update(s, t, m.(head := (m.head + 1) % m.capacity, dequeued := m.dequeued + [i]), DUnlockHead(i))
    case DUnlockHead(i) => Release(s, t, Head, DLockSize(i))
    case DLockSize(i) => Acquire(s, t, Size, DLoad(i))
    case DLoad(i) => Goto(s, t, DStore(i, m.size))
    case DStore(i, l) => Update(s, t, m.(size := Decrement(l)), DUnlockSize(i))
    case DUnlockSize(i) => Release(s, t, Size, DSignal(i))
    case DSignal(i) => Signal(s, t, EnqueueSleepers(s.pcs), woken, DUnlock(i))
    case DUnlock(i) => Release(s, t, Popper, Idle)
    case _ => Disabled
  }

  /** The program counters inside pcq_enqueue. */
  predicate InEnqueue(pc: Pc) {
    pc.ELock? || pc.EAsleep? || pc.EWake? || Holds(pc, Pusher)
  }

  function Next(s: State, a: Action): Outcome {
    if a.t !in s.pcs then Disabled else
    var pc := s.pcs[a.t];
    match a
    case CallEnqueue(t, e) => if pc == Idle then Goto(s, t, ELock(e)) else Disabled
    case CallDequeue(t) => if pc == Idle then Goto(s, t, DLock) else Disabled
    case Step(t, woken) => if InEnqueue(pc) then EnqueueStep(s, t, pc, woken) else DequeueStep(s, t, pc, woken)
    case SpuriousWake(t) => if pc.EAsleep? || pc.DAsleep? then Goto(s, t, Woken(pc)) else Disabled
  }

  /** A run of the machine; it stops at the first action that is disabled or faults. */
  function Run(s: State, actions: seq<Action>): Outcome
    decreases |actions|
  {
    if actions == [] then Stepped(s)
    else
      var o := Next(s, actions[0]);
      if o.Stepped? then Run(o.state, actions[1..]) else o
  }

  /** After pcq_create, with any threads that have not called the queue yet. The buffer is not initialised. */
  predicate Created(s: State) {
    var m := s.mem;
    && m.capacity <= SIZE_MAX && |m.buffer| == m.capacity
    && m.head == m.tail == m.size == 0
    && m.enqueued == m.dequeued == []
    && s.locks == map[]
    && (forall t :: t in s.pcs ==> s.pcs[t] == Idle)
  }

  /** Which program points lie between taking a lock and giving it back. */
  predicate Holds(pc: Pc, l: Lock) {
    match l
    case Pusher => pc.ETest? || pc.EWait? || pc.ELockTail? || pc.EWrite? || pc.EAdvance? || pc.EUnlockTail?
      || pc.ELockSize? || pc.ELoad? || pc.EStore? || pc.EUnlockSize? || pc.ESignal? || pc.EUnlock?
    case Popper => pc.DTest? || pc.DWait? || pc.DLockHead? || pc.DRead? || pc.DAdvance? || pc.DUnlockHead?
      || pc.DLockSize? || pc.DLoad? || pc.DStore? || pc.DUnlockSize? || pc.DSignal? || pc.DUnlock?
    case Tail => pc.EWrite? || pc.EAdvance? || pc.EUnlockTail?
    case Head => pc.DRead? || pc.DAdvance? || pc.DUnlockHead?
    case Size => pc.ELoad? || pc.EStore? || pc.EUnlockSize? || pc.DLoad? || pc.DStore? || pc.DUnlockSize?
  }
}
