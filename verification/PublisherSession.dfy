/**
 * A publisher's session among those of other workers: between any two of its calls to TécnicoFS,
 * the others may have made any number of theirs.
 */
module PublisherSession {
  import opened Options
  import opened CStrings
  import opened FsModel
  import opened FsAbstract
  import opened FsRuns
  import opened BoxFormat

  // ---------- files that are only appended to ----------

  predicate IsName(path: Option<CString>, name: CString) {
    ValidPath(path) && path.value[1..] == name
  }

  /** The operation writes to this file, if at all, at its end, and neither truncates nor removes it. */
  ghost predicate Appends(a: AbsFs, op: Op, name: CString)
    requires AbsInv(a)
  {
    match op
    case Open(path, mode) => !(mode.trunc && IsName(path, name))
    case Write(h, _) => h in a.handles && a.handles[h].name == name ==>
      HandleInside(a, h) && a.handles[h].offset == |a.files[name]|
    case Unlink(path) => !IsName(path, name)
    case _ => true
  }

  ghost predicate OnlyAppends(a: AbsFs, ops: seq<Op>, name: CString)
    requires AbsInv(a) && GuardedRun(a, ops)
    decreases |ops|
  {
    ops == [] ||
    (Appends(a, ops[0], name) &&
     (AbsStepKeepsInv(a, ops[0]); OnlyAppends(AbsStep(a, ops[0]).state, ops[1..], name)))
  }

  /** The buffer of an accepted write to this file; nothing for any other operation. */
  ghost function Accepted(a: AbsFs, op: Op, name: CString): seq<Byte>
    requires AbsInv(a)
  {
    if op.Write? && op.handle in a.handles && a.handles[op.handle].name == name && AbsStep(a, op).value != -1
    then op.buffer else []
  }

  ghost function AllAccepted(a: AbsFs, ops: seq<Op>, name: CString): seq<Byte>
    requires AbsInv(a) && GuardedRun(a, ops)
    decreases |ops|
  {
    if ops == [] then []
    else
      AbsStepKeepsInv(a, ops[0]);
      Accepted(a, ops[0], name) + AllAccepted(AbsStep(a, ops[0]).state, ops[1..], name)
  }

  lemma AppendStep(a: AbsFs, op: Op, name: CString)
    requires AbsInv(a) && Guarded(a, op) && name in a.files && Appends(a, op, name)
    ensures var a' := AbsStep(a, op).state;
      && name in a'.files && a'.blockSize == a.blockSize
      && a'.files[name] == Cut(a.files[name] + Accepted(a, op, name), a.blockSize)
  {
    var c := a.files[name];
    assert c + [] == c && Cut(c, a.blockSize) == c;
    if op.Write? {
      assert HandleInside(a, op.handle);
      if op.handle in a.handles && a.handles[op.handle].name == name {
        AppendedIsCut(c, op.buffer, a.blockSize);
      }
    }
  }

  /**
   * Over any guarded run, whoever takes part in it: a file that is only appended to holds, up to the end of
   * its block, what it held before and then the buffers of all accepted writes, in order.
   */
  lemma {:induction false} AppendsAccumulate(a: AbsFs, ops: seq<Op>, name: CString)
    requires AbsInv(a) && GuardedRun(a, ops) && name in a.files && OnlyAppends(a, ops, name)
    ensures var a' := AbsRun(a, ops).0;
      && AbsInv(a') && name in a'.files && a'.blockSize == a.blockSize
      && a'.files[name] == Cut(a.files[name] + AllAccepted(a, ops, name), a.blockSize)
    decreases |ops|
  {
    if ops == [] {
      assert a.files[name] + [] == a.files[name];
    } else {
      AbsStepKeepsInv(a, ops[0]);
      AppendStep(a, ops[0], name);
      var a1 := AbsStep(a, ops[0]).state;
      AppendsAccumulate(a1, ops[1..], name);
      CutTwice(a.files[name], Accepted(a, ops[0], name), AllAccepted(a1, ops[1..], name), a.blockSize);
    }
  }

  // ---------- the publisher among other workers ----------

  /** What the publisher's next call is; the comment gives the source line. */
  datatype Phase =
    | Opening           // 95, 101: a packet is read, and the box opened
    | Writing(h: int)   // 108
    | Closing(h: int)   // 114
    | Ended

  /** The file system, and the session: what is still to come, the counter, and what has been written. */
  datatype Session = Session(fs: AbsFs, phase: Phase, rest: seq<CString>, boxSize: nat, stored: seq<CString>)

  datatype Turn = Mine | Others(op: Op)

  function Start(a: AbsFs, messages: seq<CString>, boxSize: nat): Session {
    Session(a, Opening, messages, boxSize, [])
  }

  /** The publisher's next call, if it makes one. */
  function NextCall(s: Session, box: CString): Option<Op> {
    match s.phase
    case Opening => if s.rest == [] then None else Some(Open(BoxPath(box), APPEND))
    case Writing(h) => if s.rest == [] then None else Some(Write(h, s.rest[0] + [NUL]))
    case Closing(h) => Some(Close(h))
    case Ended => None
  }

  /** The session after its own call has been answered. */
  function Answered(s: Session, r: AbsReply): Session {
    match s.phase
    case Opening => s.(fs := r.state, phase := if r.value == -1 then Ended else Writing(r.value))
    case Writing(h) =>
      if s.rest == [] || r.value == -1 then s.(fs := r.state, phase := Ended)
      else s.(fs := r.state, phase := Closing(h), rest := s.rest[1..], stored := s.stored + [s.rest[0]],
              boxSize := AddSize(s.boxSize, |s.rest[0]| + 1))
    case Closing(h) => s.(fs := r.state, phase := if r.value == -1 then Ended else Opening)
    case Ended => s
  }

  ghost function After(s: Session, box: CString, turn: Turn): Session
    requires AbsInv(s.fs)
  {
    match turn
    case Mine =>
      var op := NextCall(s, box);
      if op.None? then s.(phase := Ended) else Answered(s, AbsStep(s.fs, op.value))
    case Others(op) => s.(fs := AbsStep(s.fs, op).state)
  }

  /** The handle that the publisher holds, or -1. */
  function Held(s: Session): int {
    if s.phase.Writing? || s.phase.Closing? then s.phase.h else -1
  }

  /**
   * What the other workers may do: anything that is guarded, except to write to this box (it has one publisher),
   * truncate or remove it, or close the publisher's handle.
   */
  ghost predicate Considerate(s: Session, box: CString, turn: Turn) {
    turn.Others? ==>
      && Guarded(s.fs, turn.op)
      && (match turn.op
          case Open(path, mode) => !(mode.trunc && IsName(path, box))
          case Write(h, _) => h in s.fs.handles ==> s.fs.handles[h].name != box
          case Unlink(path) => !IsName(path, box)
          case Close(h) => h != Held(s)
          case Read(_, _) => true)
  }

  /** In every state of a session. */
  ghost predicate InSession(s: Session, box: CString) {
    && AbsInv(s.fs) && box in s.fs.files && box != []
    && (s.phase.Writing? || s.phase.Closing? ==>
          && s.phase.h >= 0 && s.phase.h in s.fs.handles
          && s.fs.handles[s.phase.h].name == box)
    && (s.phase.Writing? ==> s.rest != [] && s.fs.handles[s.phase.h].offset == |s.fs.files[box]|)
  }

  lemma OwnTurnKeeps(s: Session, box: CString)
    requires InSession(s, box)
    ensures InSession(After(s, box, Mine), box)
  {
    var op := NextCall(s, box);
    if op.Some? {
      AbsStepKeepsInv(s.fs, op.value);
      if s.phase.Opening? {
        OpenedForAppend(s.fs, box);
      } else if s.phase.Writing? {
        assert HandleInside(s.fs, s.phase.h);
      }
    }
  }

  /** The open of a publisher: a free handle at the end of the box, unless none is left; nothing else changes. */
  lemma OpenedForAppend(a: AbsFs, box: CString)
    requires box in a.files && box != []
    ensures var r, h := AbsOpen(a, BoxPath(box), APPEND), LowestFree(a.handles, 0, a.openCount);
      && r.value == h && (h != -1 ==> h >= 0 && h !in a.handles)
      && r.state == if h == -1 then a else a.(handles := a.handles[h := Handle(box, |a.files[box]|)])
  {
    var path: CString := BoxPath(box).value;
    assert path[1..] == box;
    assert a.files[box := a.files[box]] == a.files;
    LowestFreeFacts(a.handles, 0, a.openCount);
  }

  lemma OthersTurnKeeps(s: Session, box: CString, op: Op)
    requires InSession(s, box) && Considerate(s, box, Others(op))
    ensures InSession(After(s, box, Others(op)), box)
  {
    AbsStepKeepsInv(s.fs, op);
    if op.Open? {
      LowestFreeFacts(s.fs.handles, 0, s.fs.openCount);
    } else if op.Write? || op.Read? {
      assert HandleInside(s.fs, op.handle);
    }
    if s.phase.Writing? {
      assert HandleInside(s.fs, s.phase.h);
    }
  }

  lemma TurnKeeps(s: Session, box: CString, turn: Turn)
    requires InSession(s, box) && Considerate(s, box, turn)
    ensures InSession(After(s, box, turn), box)
  {
    match turn
    case Mine => OwnTurnKeeps(s, box);
    case Others(op) => OthersTurnKeeps(s, box, op);
  }

  /** The publisher's turn, phase by phase. */
  lemma OwnTurn(s: Session, box: CString)
    requires InSession(s, box)
    ensures var s' := After(s, box, Mine);
      match s.phase
      case Opening =>
        var r := AbsOpen(s.fs, BoxPath(box), APPEND);
        s.rest != [] ==> s' == s.(fs := r.state, phase := if r.value == -1 then Ended else Writing(r.value))
      case Writing(h) =>
        && HandleInside(s.fs, h)
        && var r := AbsWrite(s.fs, h, s.rest[0] + [NUL]);
           s' == if r.value == -1 then s.(fs := r.state, phase := Ended)
                 else Session(r.state, Closing(h), s.rest[1..],
                              AddSize(s.boxSize, |s.rest[0]| + 1), s.stored + [s.rest[0]])
      case Closing(h) =>
        var r := AbsClose(s.fs, h);
        s' == s.(fs := r.state, phase := if r.value == -1 then Ended else Opening)
      case Ended => s' == s
  {
    if s.phase.Writing? { assert HandleInside(s.fs, s.phase.h); }
  }

  // ---------- whole schedules ----------

  ghost predicate Polite(s: Session, box: CString, schedule: seq<Turn>)
    requires InSession(s, box)
    decreases |schedule|
  {
    schedule == [] ||
    (Considerate(s, box, schedule[0]) &&
     (TurnKeeps(s, box, schedule[0]); Polite(After(s, box, schedule[0]), box, schedule[1..])))
  }

  ghost function AfterAll(s: Session, box: CString, schedule: seq<Turn>): (r: Session)
    requires InSession(s, box) && Polite(s, box, schedule)
    ensures InSession(r, box)
    decreases |schedule|
  {
    if schedule == [] then s
    else
      TurnKeeps(s, box, schedule[0]);
      AfterAll(After(s, box, schedule[0]), box, schedule[1..])
  }

  /** The call that a turn makes to TécnicoFS. */
  function CallOf(s: Session, box: CString, turn: Turn): Option<Op> {
    match turn
    case Mine => NextCall(s, box)
    case Others(op) => Some(op)
  }

  ghost function Calls(s: Session, box: CString, schedule: seq<Turn>): seq<Op>
    requires InSession(s, box) && Polite(s, box, schedule)
    decreases |schedule|
  {
    if schedule == [] then []
    else
      TurnKeeps(s, box, schedule[0]);
      var op := CallOf(s, box, schedule[0]);
      (if op.Some? then [op.value] else []) + Calls(After(s, box, schedule[0]), box, schedule[1..])
  }

  /** Every call is guarded and appends; it is an accepted write to the box exactly when a message is stored. */
  lemma TurnAppends(s: Session, box: CString, turn: Turn)
    requires InSession(s, box) && Considerate(s, box, turn)
    ensures var op, s' := CallOf(s, box, turn), After(s, box, turn);
      && (op.None? ==> s'.fs == s.fs && s'.stored == s.stored)
      && (op.Some? ==>
            && Guarded(s.fs, op.value) && Appends(s.fs, op.value, box) && s'.fs == AbsStep(s.fs, op.value).state
            && if Accepted(s.fs, op.value, box) == [] then s'.stored == s.stored
               else s.rest != [] && s'.stored == s.stored + [s.rest[0]]
                    && Accepted(s.fs, op.value, box) == s.rest[0] + [NUL])
  {
    if turn.Mine? && s.phase.Writing? { assert HandleInside(s.fs, s.phase.h); }
  }

  lemma {:induction false} ConcatAppend(messages: seq<CString>, m: CString)
    ensures Concat(messages + [m]) == Concat(messages) + (m + [NUL])
  {
    if messages == [] {
      assert (messages + [m])[1..] == [];
    } else {
      ConcatAppend(messages[1..], m);
      assert (messages + [m])[1..] == messages[1..] + [m];
      assert Concat(messages) == messages[0] + [NUL] + Concat(messages[1..]);
    }
  }

  /** A single publisher's session meets the conditions of AppendsAccumulate, and what it stores is what is accepted. */
  lemma {:induction false} SessionAppends(s: Session, box: CString, schedule: seq<Turn>)
    requires InSession(s, box) && Polite(s, box, schedule)
    ensures var ops, s' := Calls(s, box, schedule), AfterAll(s, box, schedule);
      && GuardedRun(s.fs, ops) && OnlyAppends(s.fs, ops, box)
      && AbsRun(s.fs, ops).0 == s'.fs
      && Concat(s'.stored) == Concat(s.stored) + AllAccepted(s.fs, ops, box)
    decreases |schedule|
  {
    if schedule != [] {
      var turn := schedule[0];
      var op, s1 := CallOf(s, box, turn), After(s, box, turn);
      TurnKeeps(s, box, turn);
      TurnAppends(s, box, turn);
      SessionAppends(s1, box, schedule[1..]);
      var rest := Calls(s1, box, schedule[1..]);
      if op.None? {
        assert Calls(s, box, schedule) == rest;
      } else {
        FirstCall(s.fs, op.value, rest, box);
        assert Calls(s, box, schedule) == [op.value] + rest;
        StoredGrows(s, s1, Accepted(s.fs, op.value, box), AllAccepted(s1.fs, rest, box),
                    AfterAll(s1, box, schedule[1..]));
      }
    }
  }

  lemma FirstCall(a: AbsFs, op: Op, rest: seq<Op>, box: CString)
    requires AbsInv(a) && Guarded(a, op) && Appends(a, op, box)
    requires AbsInv(AbsStep(a, op).state) && GuardedRun(AbsStep(a, op).state, rest)
    requires OnlyAppends(AbsStep(a, op).state, rest, box)
    ensures var ops, a' := [op] + rest, AbsStep(a, op).state;
      && GuardedRun(a, ops) && OnlyAppends(a, ops, box)
      && AbsRun(a, ops).0 == AbsRun(a', rest).0
      && AllAccepted(a, ops, box) == Accepted(a, op, box) + AllAccepted(a', rest, box)
  {
    assert ([op] + rest)[1..] == rest;
  }

  lemma StoredGrows(s: Session, s1: Session, first: seq<Byte>, later: seq<Byte>, s': Session)
    requires if first == [] then s1.stored == s.stored
             else s.rest != [] && s1.stored == s.stored + [s.rest[0]] && first == s.rest[0] + [NUL]
    requires Concat(s'.stored) == Concat(s1.stored) + later
    ensures Concat(s'.stored) == Concat(s.stored) + (first + later)
  {
    if first != [] { ConcatAppend(s.stored, s.rest[0]); }
  }

  /** The session's own bookkeeping: nothing is skipped, and box_size counts what has been written. */
  ghost predicate Tracks(s: Session, messages: seq<CString>, boxSize: nat) {
    && s.stored + s.rest == messages
    && s.boxSize == AddSize(boxSize, |Concat(s.stored)|)
  }

  lemma TurnTracks(s: Session, box: CString, turn: Turn, messages: seq<CString>, boxSize: nat)
    requires InSession(s, box) && Tracks(s, messages, boxSize)
    ensures Tracks(After(s, box, turn), messages, boxSize)
  {
    var s' := After(s, box, turn);
    if s'.stored != s.stored {
      ConcatAppend(s.stored, s.rest[0]);
      AddSizeTwice(boxSize, |Concat(s.stored)|, |s.rest[0]| + 1);
      assert s.rest == [s.rest[0]] + s.rest[1..];
    }
  }

  lemma {:induction false} ScheduleTracks(s: Session, box: CString, schedule: seq<Turn>,
                                          messages: seq<CString>, boxSize: nat)
    requires InSession(s, box) && Polite(s, box, schedule) && Tracks(s, messages, boxSize)
    ensures Tracks(AfterAll(s, box, schedule), messages, boxSize)
    decreases |schedule|
  {
    if schedule != [] {
      TurnKeeps(s, box, schedule[0]);
      TurnTracks(s, box, schedule[0], messages, boxSize);
      ScheduleTracks(After(s, box, schedule[0]), box, schedule[1..], messages, boxSize);
    }
  }

  lemma StartsInSession(a: AbsFs, box: CString, messages: seq<CString>, boxSize: nat)
    requires AbsInv(a) && box in a.files && box != [] && boxSize < 0x1_0000_0000_0000_0000
    ensures InSession(Start(a, messages, boxSize), box)
    ensures Tracks(Start(a, messages, boxSize), messages, boxSize)
  {
  }

  /**
   * Whatever other workers do between the calls of a box's only publisher, at every moment of its session the
   * box holds, up to the end of its block, what it held before and then the messages written so far, each with its
   * terminator; these are a prefix of the messages sent; and box_size counts all their bytes.
   */
  lemma EveryScheduleStores(a: AbsFs, box: CString, messages: seq<CString>, boxSize: nat, schedule: seq<Turn>)
    requires AbsInv(a) && box in a.files && box != [] && boxSize < 0x1_0000_0000_0000_0000
    requires InSession(Start(a, messages, boxSize), box) && Polite(Start(a, messages, boxSize), box, schedule)
    ensures var s := AfterAll(Start(a, messages, boxSize), box, schedule);
      && box in s.fs.files && s.fs.files[box] == Cut(a.files[box] + Concat(s.stored), a.blockSize)
      && s.stored + s.rest == messages
      && s.boxSize == (boxSize + |Concat(s.stored)|) % 0x1_0000_0000_0000_0000
  {
    var s0 := Start(a, messages, boxSize);
    StartsInSession(a, box, messages, boxSize);
    SessionStores(s0, box, schedule);
    ScheduleTracks(s0, box, schedule, messages, boxSize);
  }

  lemma SessionStores(s: Session, box: CString, schedule: seq<Turn>)
    requires InSession(s, box) && Polite(s, box, schedule) && s.stored == []
    ensures var s' := AfterAll(s, box, schedule);
      && box in s'.fs.files
      && s'.fs.files[box] == Cut(s.fs.files[box] + Concat(s'.stored), s.fs.blockSize)
  {
    SessionAppends(s, box, schedule);
    AppendsAccumulate(s.fs, Calls(s, box, schedule), box);
    assert Concat(s.stored) == [];
  }

  /** i_size is box_size cut at the block size at every moment of every session, while the counter does not wrap. */
  lemma SizesAlwaysAgree(a: AbsFs, box: CString, messages: seq<CString>, boxSize: nat, schedule: seq<Turn>)
    requires AbsInv(a) && box in a.files && box != [] && boxSize < 0x1_0000_0000_0000_0000
    requires InSession(Start(a, messages, boxSize), box) && Polite(Start(a, messages, boxSize), box, schedule)
    requires |a.files[box]| == Smaller(boxSize, a.blockSize)
    ensures var s := AfterAll(Start(a, messages, boxSize), box, schedule);
      boxSize + |Concat(s.stored)| < 0x1_0000_0000_0000_0000 ==> |s.fs.files[box]| == Smaller(s.boxSize, a.blockSize)
  {
    EveryScheduleStores(a, box, messages, boxSize, schedule);
    var s := AfterAll(Start(a, messages, boxSize), box, schedule);
    if boxSize + |Concat(s.stored)| < 0x1_0000_0000_0000_0000 { AddSizeExact(boxSize, |Concat(s.stored)|); }
  }

  // ---------- the states of a schedule, one by one ----------

  ghost predicate TurnAt(states: seq<Session>, box: CString, schedule: seq<Turn>, k: nat)
    requires k < |schedule| && k + 1 < |states|
  {
    && InSession(states[k], box) && Considerate(states[k], box, schedule[k])
    && states[k + 1] == After(states[k], box, schedule[k])
  }

  ghost predicate AreStates(states: seq<Session>, box: CString, schedule: seq<Turn>) {
    && |states| == |schedule| + 1
    && (forall k {:trigger TurnAt(states, box, schedule, k)} :: 0 <= k < |schedule| ==>
          TurnAt(states, box, schedule, k))
  }

  /** The session before each turn of the schedule, and after the last. */
  lemma {:induction false} StatesOf(s: Session, box: CString, schedule: seq<Turn>) returns (states: seq<Session>)
    requires InSession(s, box) && Polite(s, box, schedule)
    ensures AreStates(states, box, schedule)
    ensures states[0] == s && states[|schedule|] == AfterAll(s, box, schedule)
    decreases |schedule|
  {
    states := [s];
    if schedule != [] {
      TurnKeeps(s, box, schedule[0]);
      var later := StatesOf(After(s, box, schedule[0]), box, schedule[1..]);
      states := [s] + later;
      forall k | 0 <= k < |schedule| ensures TurnAt(states, box, schedule, k) {
        if k > 0 { assert TurnAt(later, box, schedule[1..], k - 1); }
      }
    }
  }

  // ---------- when a session stops early ----------

  /** The publisher's next call fails: no handle is left, or no block for a file that is still empty. */
  predicate Refused(s: Session, box: CString) {
    match s.phase
    case Opening => s.rest != [] && LowestFree(s.fs.handles, 0, s.fs.openCount) == -1
    case Writing(_) => box in s.fs.files && s.fs.files[box] == [] && s.fs.blockSize > 0 && NoBlockLeft(s.fs)
    case _ => false
  }

  /** A refusal ends the session and changes nothing; a handle that was opened for the write stays open. */
  lemma RefusalEnds(s: Session, box: CString)
    requires InSession(s, box)
    ensures var s' := After(s, box, Mine);
      && (Refused(s, box) ==> s' == s.(phase := Ended))
      && (s'.phase == Ended <==> s.phase == Ended || (s.phase == Opening && s.rest == []) || Refused(s, box))
  {
    OpenedForAppend(s.fs, box);
    if s.phase.Writing? { assert HandleInside(s.fs, s.phase.h); }
  }

  ghost predicate EverRefused(s: Session, box: CString, schedule: seq<Turn>)
    requires InSession(s, box) && Polite(s, box, schedule)
    decreases |schedule|
  {
    schedule != [] &&
    ((schedule[0] == Mine && Refused(s, box)) ||
     (TurnKeeps(s, box, schedule[0]); EverRefused(After(s, box, schedule[0]), box, schedule[1..])))
  }

  /** A session that is over has stored all its messages if and only if none of its calls was refused. */
  lemma {:induction false} AllStoredIff(s: Session, box: CString, schedule: seq<Turn>)
    requires InSession(s, box) && Polite(s, box, schedule) && s.phase != Ended
    requires AfterAll(s, box, schedule).phase == Ended
    ensures AfterAll(s, box, schedule).rest == [] <==> !EverRefused(s, box, schedule)
    decreases |schedule|
  {
    var s1 := After(s, box, schedule[0]);
    TurnKeeps(s, box, schedule[0]);
    if schedule[0] == Mine { RefusalEnds(s, box); }
    if s1.phase == Ended {
      EndedStays(s1, box, schedule[1..]);
    } else {
      AllStoredIff(s1, box, schedule[1..]);
    }
  }

  lemma {:induction false} EndedStays(s: Session, box: CString, schedule: seq<Turn>)
    requires InSession(s, box) && Polite(s, box, schedule) && s.phase == Ended
    ensures var s' := AfterAll(s, box, schedule);
      s'.phase == Ended && s'.rest == s.rest && s'.stored == s.stored && s'.boxSize == s.boxSize
    ensures !EverRefused(s, box, schedule)
    decreases |schedule|
  {
    if schedule != [] {
      TurnKeeps(s, box, schedule[0]);
      EndedStays(After(s, box, schedule[0]), box, schedule[1..]);
    }
  }

  // ---------- replay of what a session has stored so far ----------

  /**
   * A subscriber that reads a box, empty before the session, at any moment of it, finds exactly the messages
   * written so far if and only if none of them is empty and they fill less than the block and the buffer.
   */
  lemma ReplayDuringSession(a: AbsFs, box: CString, messages: seq<CString>, schedule: seq<Turn>)
    requires AbsInv(a) && box in a.files && box != [] && a.files[box] == [] && a.blockSize == 1024
    requires InSession(Start(a, messages, 0), box) && Polite(Start(a, messages, 0), box, schedule)
    ensures var s := AfterAll(Start(a, messages, 0), box, schedule);
      Walk(Filled(s.fs.files[box], MESSAGE_SIZE)) == Some(s.stored)
      <==> (forall i :: 0 <= i < |s.stored| ==> s.stored[i] != []) && |Concat(s.stored)| < 1024
  {
    var s := AfterAll(Start(a, messages, 0), box, schedule);
    EveryScheduleStores(a, box, messages, 0, schedule);
    assert [] + Concat(s.stored) == Concat(s.stored);
    BlockHoldsTheBuffer(Concat(s.stored), 1024, MESSAGE_SIZE);
    ReplayUndoesPublishing(s.stored, MESSAGE_SIZE);
  }

  // ---------- the special case without other workers ----------

  function OwnTurns(n: nat): (r: seq<Turn>)
    ensures |r| == n && forall i :: 0 <= i < n ==> r[i] == Mine
  {
    seq(n, i => Mine)
  }

  lemma {:induction false} EndedAlone(s: Session, box: CString, n: nat)
    requires InSession(s, box) && s.phase == Ended
    ensures Polite(s, box, OwnTurns(n)) && AfterAll(s, box, OwnTurns(n)) == s
    decreases n
  {
    if n > 0 {
      TurnKeeps(s, box, Mine);
      EndedAlone(s, box, n - 1);
      assert OwnTurns(n)[1..] == OwnTurns(n - 1);
    }
  }

  lemma OwnTurnFirst(s: Session, box: CString, n: nat)
    requires InSession(s, box) && n > 0
    requires InSession(After(s, box, Mine), box) && Polite(After(s, box, Mine), box, OwnTurns(n - 1))
    ensures Polite(s, box, OwnTurns(n))
    ensures AfterAll(s, box, OwnTurns(n)) == AfterAll(After(s, box, Mine), box, OwnTurns(n - 1))
  {
    assert OwnTurns(n)[1..] == OwnTurns(n - 1);
  }

  /** What the undisturbed loop makes of a session. */
  ghost predicate EndsAs(s: Session, end: Session, p: Published) {
    end.fs == p.fs && end.boxSize == p.boxSize && |end.stored| == |s.stored| + p.count
  }

  /** The undisturbed loop is the schedule in which every turn is the publisher's. */
  lemma {:induction false} AloneIsASchedule(s: Session, box: CString)
    requires InSession(s, box) && s.phase == Opening
    ensures Polite(s, box, OwnTurns(3 * |s.rest| + 1))
    ensures EndsAs(s, AfterAll(s, box, OwnTurns(3 * |s.rest| + 1)), PublishAlone(s.fs, box, s.rest, s.boxSize))
    decreases |s.rest|, 1
  {
    var n, s1 := 3 * |s.rest| + 1, After(s, box, Mine);
    TurnKeeps(s, box, Mine);
    OwnTurn(s, box);
    if s.rest == [] || s1.phase == Ended {
      EndedAlone(s1, box, n - 1);
    } else {
      WriteAlone(s1, box, n - 1);
      PublishOpened(s, box);
    }
    OwnTurnFirst(s, box, n);
  }

  /** The loop from a handle on, when the session has one. */
  ghost function PublishFrom(a: AbsFs, box: CString, h: int, messages: seq<CString>, boxSize: nat): Published
    requires AbsInv(a) && messages != []
  {
    assert HandleInside(a, h);
    var w := AbsWrite(a, h, messages[0] + [NUL]);
    AbsStepKeepsInv(a, Write(h, messages[0] + [NUL]));
    if w.value == -1 then Published(w.state, boxSize, 0)
    else
      var c := AbsClose(w.state, h);
      AbsStepKeepsInv(w.state, Close(h));
      var size' := AddSize(boxSize, |messages[0]| + 1);
      if c.value == -1 then Published(c.state, size', 0)
      else
        var rest := PublishAlone(c.state, box, messages[1..], size');
        Published(rest.fs, rest.boxSize, rest.count + 1)
  }

  lemma PublishOpened(s: Session, box: CString)
    requires InSession(s, box) && s.phase == Opening && s.rest != []
    ensures var r := AbsOpen(s.fs, BoxPath(box), APPEND);
      r.value != -1 ==>
        && AbsInv(r.state)
        && PublishAlone(s.fs, box, s.rest, s.boxSize) == PublishFrom(r.state, box, r.value, s.rest, s.boxSize)
  {
    OpenedInside(s.fs, box);
  }

  /** A message has been written; its handle is closed, and the loop goes on. */
  lemma CloseAlone(s: Session, box: CString, n: nat)
    requires InSession(s, box) && s.phase.Closing? && n == 3 * |s.rest| + 2
    ensures Polite(s, box, OwnTurns(n))
    ensures var a := AbsClose(s.fs, s.phase.h).state;
      AbsInv(a) && EndsAs(s, AfterAll(s, box, OwnTurns(n)), PublishAlone(a, box, s.rest, s.boxSize))
    decreases |s.rest|, 2
  {
    TurnKeeps(s, box, Mine);
    OwnTurn(s, box);
    AloneIsASchedule(After(s, box, Mine), box);
    OwnTurnFirst(s, box, n);
  }

  lemma WriteAlone(s: Session, box: CString, n: nat)
    requires InSession(s, box) && s.phase.Writing? && n == 3 * |s.rest|
    ensures Polite(s, box, OwnTurns(n))
    ensures EndsAs(s, AfterAll(s, box, OwnTurns(n)), PublishFrom(s.fs, box, s.phase.h, s.rest, s.boxSize))
    decreases |s.rest|, 0
  {
    var s1 := After(s, box, Mine);
    TurnKeeps(s, box, Mine);
    OwnTurn(s, box);
    if s1.phase == Ended {
      EndedAlone(s1, box, n - 1);
    } else {
      CloseAlone(s1, box, n - 1);
    }
    OwnTurnFirst(s, box, n);
  }

  lemma TurnFirst(s: Session, box: CString, turn: Turn, rest: seq<Turn>)
    requires InSession(s, box) && Considerate(s, box, turn)
    requires InSession(After(s, box, turn), box) && Polite(After(s, box, turn), box, rest)
    ensures Polite(s, box, [turn] + rest)
    ensures AfterAll(s, box, [turn] + rest) == AfterAll(After(s, box, turn), box, rest)
  {
    assert ([turn] + rest)[1..] == rest;
  }

  /** The states in which HandleTakenBetween starts, and after its first message: h is the only free handle. */
  predicate OneHandleLeft(s: Session, box: CString, h: int) {
    && s.phase == Opening && s.rest != []
    && OneFree(s.fs.handles, h, s.fs.openCount)
    && box in s.fs.files && s.fs.files[box] != []
  }

  lemma StoresOne(s: Session, box: CString, h: int)
    requires InSession(s, box) && OneHandleLeft(s, box, h)
    ensures Polite(s, box, [Mine, Mine, Mine])
    ensures var s' := AfterAll(s, box, [Mine, Mine, Mine]);
      && s'.stored == s.stored + [s.rest[0]] && s'.rest == s.rest[1..] && s'.phase == Opening
      && (s'.rest != [] ==> OneHandleLeft(s', box, h))
  {
    OneFreeIsFound(s.fs.handles, h, 0, s.fs.openCount);
    OpenedForAppend(s.fs, box);
    TurnKeeps(s, box, Mine);
    var s1 := After(s, box, Mine);
    WrittenNotEmpty(s1, box);
    TurnKeeps(s1, box, Mine);
    var s2 := After(s1, box, Mine);
    OwnTurn(s1, box);
    OwnTurn(s2, box);
    TurnKeeps(s2, box, Mine);
    var s3 := After(s2, box, Mine);
    assert s3.fs.handles.Keys == s.fs.handles.Keys;
    assert OneFree(s3.fs.handles, h, s3.fs.openCount);
    ThreeTurns(s, box);
  }

  lemma ThreeTurns(s: Session, box: CString)
    requires InSession(s, box)
    ensures Polite(s, box, [Mine, Mine, Mine])
    ensures InSession(After(s, box, Mine), box) && InSession(After(After(s, box, Mine), box, Mine), box)
    ensures AfterAll(s, box, [Mine, Mine, Mine]) == After(After(After(s, box, Mine), box, Mine), box, Mine)
  {
    TurnKeeps(s, box, Mine);
    var s1 := After(s, box, Mine);
    TurnKeeps(s1, box, Mine);
    var s2 := After(s1, box, Mine);
    TurnKeeps(s2, box, Mine);
    TurnFirst(s2, box, Mine, []);
    TurnFirst(s1, box, Mine, [Mine]);
    TurnFirst(s, box, Mine, [Mine, Mine]);
    assert [Mine] + [] == [Mine] && [Mine] + [Mine] == [Mine, Mine] && [Mine] + [Mine, Mine] == [Mine, Mine, Mine];
  }

  lemma WrittenNotEmpty(s: Session, box: CString)
    requires InSession(s, box) && s.phase.Writing? && s.fs.files[box] != []
    ensures After(s, box, Mine).fs.files[box] != [] && After(s, box, Mine).phase.Closing?
    ensures After(s, box, Mine).fs.handles.Keys == s.fs.handles.Keys
  {
    OwnTurn(s, box);
    assert HandleInside(s.fs, s.phase.h);
  }

  /** Another session opens the box with the last handle: the publisher's next open fails. */
  lemma LosesTheHandle(s: Session, box: CString, h: int)
    requires InSession(s, box) && OneHandleLeft(s, box, h)
    ensures var schedule := [Others(Open(BoxPath(box), APPEND)), Mine];
      && Polite(s, box, schedule)
      && AfterAll(s, box, schedule).phase == Ended
      && AfterAll(s, box, schedule).stored == s.stored && AfterAll(s, box, schedule).rest == s.rest
  {
    var take := Others(Open(BoxPath(box), APPEND));
    var s1 := After(s, box, take);
    OneFreeIsFound(s.fs.handles, h, 0, s.fs.openCount);
    OpenedForAppend(s.fs, box);
    TurnKeeps(s, box, take);
    NoneFree(s1.fs.handles, 0, s1.fs.openCount);
    OpenedForAppend(s1.fs, box);
    TurnKeeps(s1, box, Mine);
    TurnFirst(s1, box, Mine, []);
    TurnFirst(s, box, take, [Mine]);
    assert [Mine] + [] == [Mine] && [take] + [Mine] == [take, Mine];
  }

  lemma {:induction false} OneAfterTheOther(s: Session, box: CString, first: seq<Turn>, second: seq<Turn>)
    requires InSession(s, box) && Polite(s, box, first) && Polite(AfterAll(s, box, first), box, second)
    ensures Polite(s, box, first + second)
    ensures AfterAll(s, box, first + second) == AfterAll(AfterAll(s, box, first), box, second)
    decreases |first|
  {
    if first == [] {
      assert first + second == second;
    } else {
      TurnKeeps(s, box, first[0]);
      OneAfterTheOther(After(s, box, first[0]), box, first[1..], second);
      assert (first + second)[1..] == first[1..] + second;
    }
  }

  /**
   * With other workers the condition of AloneStoresAllIff is not enough: one handle is free at the start;
   * the first message is stored; then another session opens the box, and the publisher's next open fails.
   */
  lemma HandleTakenBetween(a: AbsFs, box: CString, m1: CString, m2: CString, h: int)
    requires AbsInv(a) && box in a.files && box != [] && a.files[box] != [] && OneFree(a.handles, h, a.openCount)
    ensures CanPublish(a, box)
    ensures var s0, schedule := Start(a, [m1, m2], 0), [Mine, Mine, Mine] + [Others(Open(BoxPath(box), APPEND)), Mine];
      && InSession(s0, box) && Polite(s0, box, schedule)
      && (var s := AfterAll(s0, box, schedule); s.phase == Ended && s.stored == [m1] && s.rest == [m2])
  {
    var s0 := Start(a, [m1, m2], 0);
    OneFreeIsFound(a.handles, h, 0, a.openCount);
    StoresOne(s0, box, h);
    assert s0.rest[1..] == [m2] && [] + [m1] == [m1];
    var s1 := AfterAll(s0, box, [Mine, Mine, Mine]);
    LosesTheHandle(s1, box, h);
    OneAfterTheOther(s0, box, [Mine, Mine, Mine], [Others(Open(BoxPath(box), APPEND)), Mine]);
  }
}
