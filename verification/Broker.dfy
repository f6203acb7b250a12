/**
 * The sessions of the broker's worker (mbroker/mbroker.c) on the file system in memory;
 * a pipe is a sequence of packets.
 */
module Broker {
  import opened Options
  import opened CStrings
  import opened FsModel
  import opened FsAbstract
  import opened FsRuns
  import opened LinkedList
  import opened BoxFormat
  import opened Registry
  import opened PublisherSession
  import opened GuardedTfs

  // ---------- other workers ----------

  /** One call of another worker. */
  method Perform(fs: T.Tfs, op: Op)
    requires Ready(fs) && Guarded(Contents(fs), op)
    modifies fs.inodeTable, fs.freeInodes, fs.fsData, fs.freeBlocks, fs.openFileTable, fs.freeOpenFiles
    ensures AbsInv(old(Contents(fs))) && Ready(fs)
    ensures Contents(fs) == AbsStep(old(Contents(fs)), op).state
  {
    var r: int;
    match op
    case Open(path, mode) => r := TfsOpen(fs, path, mode);
    case Close(h) => r := TfsClose(fs, h);
    case Write(h, buffer) => r := TfsWrite(fs, h, buffer);
    case Read(h, len) =>
      var buffer := new Byte[len](_ => NUL);
      r := TfsRead(fs, h, buffer, len);
    case Unlink(path) => r := TfsUnlink(fs, path);
  }

  // ---------- publisher ----------

  /** The tables in memory stand for these files and handles. */
  ghost predicate Shows(fs: T.Tfs, a: AbsFs)
    reads fs, fs.inodeTable, fs.freeInodes, fs.fsData, fs.freeBlocks, fs.openFileTable, fs.freeOpenFiles
  {
    Ready(fs) && Contents(fs) == a
  }

  /** Turn k of the schedule, and whose it is. */
  ghost predicate IsTurn(states: seq<Session>, box: CString, schedule: seq<Turn>, k: nat, turn: Turn) {
    AreStates(states, box, schedule) && k < |schedule| && schedule[k] == turn
  }

  /** Two moments of a session between which only other workers have made calls. */
  predicate SameSession(s: Session, s': Session) {
    s' == s.(fs := s'.fs)
  }

  lemma OthersTurn(states: seq<Session>, box: CString, schedule: seq<Turn>, k: nat, op: Op)
    requires IsTurn(states, box, schedule, k, Others(op))
    ensures AbsInv(states[k].fs) && Guarded(states[k].fs, op)
    ensures states[k + 1] == states[k].(fs := AbsStep(states[k].fs, op).state)
  {
    assert TurnAt(states, box, schedule, k);
  }

  /** The others make their calls, until it is the publisher's turn or the schedule ends. */
  method AwaitTurn(fs: T.Tfs, box: CString, schedule: seq<Turn>, i: nat, ghost states: seq<Session>) returns (j: nat)
    requires AreStates(states, box, schedule) && i <= |schedule| && Shows(fs, states[i].fs)
    modifies fs.inodeTable, fs.freeInodes, fs.fsData, fs.freeBlocks, fs.openFileTable, fs.freeOpenFiles
    ensures i <= j <= |schedule| && Shows(fs, states[j].fs) && SameSession(states[i], states[j])
    ensures j < |schedule| ==> schedule[j] == Mine
  {
    j := i;
    while j < |schedule| && schedule[j].Others?
      invariant i <= j <= |schedule| && Shows(fs, states[j].fs) && SameSession(states[i], states[j])
    {
      OthersTurn(states, box, schedule, j, schedule[j].op);
      Perform(fs, schedule[j].op);
      j := j + 1;
    }
  }

  lemma OwnTurnAt(states: seq<Session>, box: CString, schedule: seq<Turn>, k: nat)
    requires IsTurn(states, box, schedule, k, Mine)
    ensures InSession(states[k], box) && states[k + 1] == After(states[k], box, Mine)
  {
    assert TurnAt(states, box, schedule, k);
  }

  method OpenBox(fs: T.Tfs, box: CString, schedule: seq<Turn>, i: nat, ghost states: seq<Session>) returns (handle: int)
    requires IsTurn(states, box, schedule, i, Mine) && Shows(fs, states[i].fs)
    requires states[i].phase == Opening && states[i].rest != []
    modifies fs.inodeTable, fs.freeInodes, fs.fsData, fs.freeBlocks, fs.openFileTable, fs.freeOpenFiles
    ensures Shows(fs, states[i + 1].fs)
    ensures states[i + 1] ==
      states[i].(fs := states[i + 1].fs, phase := if handle == -1 then Ended else Writing(handle))
  {
    OwnTurnAt(states, box, schedule, i);
    OwnTurn(states[i], box);
    handle := TfsOpen(fs, BoxPath(box), APPEND);
  }

  method WriteBox(fs: T.Tfs, box: CString, handle: int, message: CString,
                  schedule: seq<Turn>, i: nat, ghost states: seq<Session>)
    returns (written: int)
    requires IsTurn(states, box, schedule, i, Mine) && Shows(fs, states[i].fs)
    requires states[i].phase == Writing(handle) && states[i].rest != [] && states[i].rest[0] == message
    modifies fs.inodeTable, fs.fsData, fs.freeBlocks, fs.openFileTable
    ensures Shows(fs, states[i + 1].fs)
    ensures var s, s' := states[i], states[i + 1];
      s' == if written == -1 then s.(fs := s'.fs, phase := Ended)
            else Session(s'.fs, Closing(handle), s.rest[1..], AddSize(s.boxSize, |message| + 1), s.stored + [message])
  {
    OwnTurnAt(states, box, schedule, i);
    OwnTurn(states[i], box);
    written := TfsWrite(fs, handle, message + [NUL]);
  }

  method CloseBox(fs: T.Tfs, box: CString, handle: int, schedule: seq<Turn>, i: nat, ghost states: seq<Session>)
    returns (closed: int)
    requires IsTurn(states, box, schedule, i, Mine) && Shows(fs, states[i].fs) && states[i].phase == Closing(handle)
    modifies fs.freeOpenFiles
    ensures Shows(fs, states[i + 1].fs)
    ensures states[i + 1] == states[i].(fs := states[i + 1].fs, phase := if closed == -1 then Ended else Opening)
  {
    OwnTurnAt(states, box, schedule, i);
    OwnTurn(states[i], box);
    closed := TfsClose(fs, handle);
  }

  /** The publisher makes no more calls: the loop has been left, or it has read the end of the pipe. */
  predicate Done(s: Session) {
    s.phase == Ended || (s.phase == Opening && s.rest == [])
  }

  lemma DoneTurn(states: seq<Session>, box: CString, schedule: seq<Turn>, k: nat)
    requires IsTurn(states, box, schedule, k, Mine) && Done(states[k])
    ensures states[k + 1] == states[k].(phase := Ended)
  {
    OwnTurnAt(states, box, schedule, k);
  }

  /** Where a loop that does not go on may stand: the schedule is over, or the publisher makes no more calls. */
  predicate Over(states: seq<Session>, schedule: seq<Turn>, j: nat)
    requires j < |states|
  {
    j == |schedule| || Done(states[j])
  }

  /** One iteration of the loop; goOn is false when it breaks, or when the schedule ends inside it. */
  method StoreMessage(fs: T.Tfs, node: ListNode, box: CString, message: CString,
                      schedule: seq<Turn>, i: nat, ghost states: seq<Session>)
    returns (stored: bool, goOn: bool, j: nat)
    requires AreStates(states, box, schedule) && i <= |schedule| && Shows(fs, states[i].fs)
    requires states[i].phase == Opening && states[i].rest != [] && states[i].rest[0] == message
    requires node.file.boxSize == states[i].boxSize
    modifies node`file, fs.inodeTable, fs.freeInodes, fs.fsData, fs.freeBlocks, fs.openFileTable, fs.freeOpenFiles
    ensures i <= j <= |schedule| && Shows(fs, states[j].fs)
    ensures node.file == old(node.file).(boxSize := states[j].boxSize)
    ensures |states[j].stored| == |states[i].stored| + (if stored then 1 else 0)
    ensures if goOn then stored && states[j].phase == Opening && states[j].rest == states[i].rest[1..]
            else Over(states, schedule, j)
  {
    stored, goOn := false, false;
    var isOpen, handle;
    isOpen, handle, j := OpenForMessage(fs, box, schedule, i, states);
    if !isOpen { return; }
    stored, j := WriteMessage(fs, node, box, message, handle, schedule, j, states);
    if !stored { return; }
    goOn, j := CloseAfterMessage(fs, box, handle, schedule, j, states);
  }

  method OpenForMessage(fs: T.Tfs, box: CString, schedule: seq<Turn>, i: nat, ghost states: seq<Session>)
    returns (isOpen: bool, handle: int, j: nat)
    requires AreStates(states, box, schedule) && i <= |schedule| && Shows(fs, states[i].fs)
    requires states[i].phase == Opening && states[i].rest != []
    modifies fs.inodeTable, fs.freeInodes, fs.fsData, fs.freeBlocks, fs.openFileTable, fs.freeOpenFiles
    ensures i <= j <= |schedule| && Shows(fs, states[j].fs)
    ensures isOpen ==> states[j] == states[i].(fs := states[j].fs, phase := Writing(handle))
    ensures !isOpen ==> Over(states, schedule, j)
    ensures states[j] == states[i].(fs := states[j].fs, phase := states[j].phase)
  {
    j := AwaitTurn(fs, box, schedule, i, states);
    if j == |schedule| { return false, -1, j; }
    handle := OpenBox(fs, box, schedule, j, states);
    isOpen, j := handle != -1, j + 1;
  }

  method WriteMessage(fs: T.Tfs, node: ListNode, box: CString, message: CString, handle: int,
                      schedule: seq<Turn>, i: nat, ghost states: seq<Session>)
    returns (stored: bool, j: nat)
    requires AreStates(states, box, schedule) && i <= |schedule| && Shows(fs, states[i].fs)
    requires states[i].phase == Writing(handle) && states[i].rest != [] && states[i].rest[0] == message
    requires node.file.boxSize == states[i].boxSize
    modifies node`file, fs.inodeTable, fs.freeInodes, fs.fsData, fs.freeBlocks, fs.openFileTable, fs.freeOpenFiles
    ensures i <= j <= |schedule| && Shows(fs, states[j].fs)
    ensures node.file == old(node.file).(boxSize := states[j].boxSize)
    ensures stored ==> states[j].phase == Closing(handle) && states[j].rest == states[i].rest[1..]
    ensures |states[j].stored| == |states[i].stored| + (if stored then 1 else 0)
    ensures !stored ==> Over(states, schedule, j)
  {
    stored := false;
    j := AwaitTurn(fs, box, schedule, i, states);
    if j < |schedule| {
      var written := WriteBox(fs, box, handle, message, schedule, j, states);
      j := j + 1;
      if written != -1 {
        stored := true;
        Count(fs, node, |message| + 1, states[j].fs);
      }
    }
  }

  method CloseAfterMessage(fs: T.Tfs, box: CString, handle: int,
                           schedule: seq<Turn>, i: nat, ghost states: seq<Session>)
    returns (goOn: bool, j: nat)
    requires AreStates(states, box, schedule) && i <= |schedule| && Shows(fs, states[i].fs)
    requires states[i].phase == Closing(handle)
    modifies fs.inodeTable, fs.freeInodes, fs.fsData, fs.freeBlocks, fs.openFileTable, fs.freeOpenFiles
    ensures i <= j <= |schedule| && Shows(fs, states[j].fs)
    ensures states[j] == states[i].(fs := states[j].fs, phase := states[j].phase)
    ensures if goOn then states[j].phase == Opening else Over(states, schedule, j)
  {
    j := AwaitTurn(fs, box, schedule, i, states);
    if j == |schedule| { return false, j; }
    var closed := CloseBox(fs, box, handle, schedule, j, states);
    goOn, j := closed != -1, j + 1;
  }

  /** box_size counts what has been written, whether or not it fitted. */
  method Count(ghost fs: T.Tfs, node: ListNode, n: nat, ghost a: AbsFs)
    requires Shows(fs, a)
    modifies node`file
    ensures Shows(fs, a) && node.file == old(node.file).(boxSize := AddSize(old(node.file.boxSize), n))
  {
    node.file := node.file.(boxSize := AddSize(node.file.boxSize, n));
  }

  /** After the loop nothing changes for the session any more. */
  predicate Finishing(states: seq<Session>, schedule: seq<Turn>, i: nat, j: nat) {
    && i <= j <= |schedule| < |states| && Over(states, schedule, j)
    && states[j].boxSize == states[i].boxSize && states[j].stored == states[i].stored
  }

  /** When the loop is over, the other workers go on. */
  method Finish(fs: T.Tfs, box: CString, schedule: seq<Turn>, i: nat, ghost states: seq<Session>)
    requires AreStates(states, box, schedule) && i <= |schedule| && Shows(fs, states[i].fs)
    requires Over(states, schedule, i)
    modifies fs.inodeTable, fs.freeInodes, fs.fsData, fs.freeBlocks, fs.openFileTable, fs.freeOpenFiles
    ensures var end := states[|schedule|];
      Shows(fs, end.fs) && end.boxSize == states[i].boxSize && end.stored == states[i].stored
  {
    var j := i;
    while j < |schedule|
      invariant Finishing(states, schedule, i, j) && Shows(fs, states[j].fs)
    {
      if schedule[j].Others? {
        OthersTurn(states, box, schedule, j, schedule[j].op);
        Perform(fs, schedule[j].op);
      } else {
        DoneTurn(states, box, schedule, j);
      }
      j := j + 1;
    }
  }

  /**
   * The loop that stores what a publisher sends: each message is appended with its terminator through a
   * handle of its own. A failed open or write ends the loop; a failed write leaves the handle open.
   * The schedule says which calls the other workers make in between.
   */
  method PublisherLoop(fs: T.Tfs, node: ListNode, box: CString, packets: seq<CString>, schedule: seq<Turn>)
    returns (count: nat)
    requires Ready(fs) && InSession(Start(Contents(fs), packets, node.file.boxSize), box)
    requires Polite(Start(Contents(fs), packets, node.file.boxSize), box, schedule)
    modifies node`file, fs.inodeTable, fs.freeInodes, fs.fsData, fs.freeBlocks, fs.openFileTable, fs.freeOpenFiles
    ensures Ready(fs)
    ensures var end := old(AfterAll(Start(Contents(fs), packets, node.file.boxSize), box, schedule));
      && Contents(fs) == end.fs
      && node.file == old(node.file).(boxSize := end.boxSize)
      && count == |end.stored|
  {
    ghost var states := StatesOf(Start(Contents(fs), packets, node.file.boxSize), box, schedule);
    count := StoreAll(fs, node, box, packets, schedule, states);
  }

  /** Between two iterations of the loop, of which count have stored their message. */
  predicate BetweenMessages(states: seq<Session>, schedule: seq<Turn>, packets: seq<CString>,
                            i: nat, count: nat, goOn: bool)
  {
    && i <= |schedule| < |states| && count == |states[i].stored| <= |packets|
    && if goOn then states[i].phase == Opening && states[i].rest == packets[count..] else Over(states, schedule, i)
  }

  method StoreAll(fs: T.Tfs, node: ListNode, box: CString, packets: seq<CString>,
                  schedule: seq<Turn>, ghost states: seq<Session>)
    returns (count: nat)
    requires AreStates(states, box, schedule) && Shows(fs, states[0].fs)
    requires states[0] == Start(states[0].fs, packets, node.file.boxSize)
    modifies node`file, fs.inodeTable, fs.freeInodes, fs.fsData, fs.freeBlocks, fs.openFileTable, fs.freeOpenFiles
    ensures var end := states[|schedule|];
      && Shows(fs, end.fs)
      && node.file == old(node.file).(boxSize := end.boxSize)
      && count == |end.stored|
  {
    var i, goOn := 0, true;
    count := 0;
    while goOn && count < |packets|
      invariant BetweenMessages(states, schedule, packets, i, count, goOn) && Shows(fs, states[i].fs)
      invariant node.file == old(node.file).(boxSize := states[i].boxSize)
      decreases |packets| - count, goOn
    {
      var stored;
      stored, goOn, i := StoreMessage(fs, node, box, packets[count], schedule, i, states);
      if stored { count := count + 1; }
    }
    Finish(fs, box, schedule, i, states);
  }

  // ---------- creating and removing boxes ----------

  /** What the broker knows of its boxes. */
  ghost predicate Keeps(fs: T.Tfs, list: List, b: Boxes)
    reads fs, fs.inodeTable, fs.freeInodes, fs.fsData, fs.freeBlocks, fs.openFileTable, fs.freeOpenFiles
    reads list, list.repr
  {
    Shows(fs, b.fs) && list.Kept() && list.files == b.files && list.TailIsLast() == b.tailIsLast
  }

  method OpenNew(fs: T.Tfs, ghost list: List, box: CString, ghost b: Boxes) returns (handle: int)
    requires Keeps(fs, list, b)
    modifies fs.inodeTable, fs.freeInodes, fs.fsData, fs.freeBlocks, fs.openFileTable, fs.freeOpenFiles
    ensures var r := AbsOpen(b.fs, BoxPath(box), CREATING);
      Keeps(fs, list, b.(fs := r.state)) && handle == r.value && list.repr == old(list.repr)
  {
    handle := TfsOpen(fs, BoxPath(box), CREATING);
  }

  method AddNode(ghost fs: T.Tfs, list: List, box: CString, ghost b: Boxes) returns (ghost node: ListNode)
    requires Keeps(fs, list, b)
    modifies list, list.repr`next
    ensures Keeps(fs, list, Append(b, TfsFile(box, 0, 0, 0)))
    ensures fresh(node) && list.repr == old(list.repr) + {node}
  {
    node := list.Add(TfsFile(box, 0, 0, 0));
  }

  method CloseNew(fs: T.Tfs, ghost list: List, handle: int, ghost b: Boxes)
    requires Keeps(fs, list, b)
    modifies fs.freeOpenFiles
    ensures Keeps(fs, list, b.(fs := AbsClose(b.fs, handle).state)) && list.repr == old(list.repr)
  {
    var closed := TfsClose(fs, handle);
  }

  /** What follows the open of a new file: a node, and the close; nothing when the open has failed. */
  method AddAndClose(fs: T.Tfs, list: List, box: CString, handle: int, ghost b: Boxes, ghost b': Boxes)
    returns (r: int, ghost added: set<ListNode>)
    requires Keeps(fs, list, b)
    requires b' == if handle == -1 then b
                   else Append(b, TfsFile(box, 0, 0, 0)).(fs := AbsClose(b.fs, handle).state)
    modifies list, list.repr`next, fs.freeOpenFiles
    ensures Keeps(fs, list, b') && r == (if handle == -1 then -1 else 0)
    ensures fresh(added) && list.repr == old(list.repr) + added
  {
    if handle == -1 { return -1, {}; }
    ghost var node := AddNode(fs, list, box, b);
    ghost var b1 := Append(b, TfsFile(box, 0, 0, 0));
    assert b1.fs == b.fs;
    CloseNew(fs, list, handle, b1);
    return 0, {node};
  }

  method HasNode(ghost fs: T.Tfs, list: List, box: CString, ghost b: Boxes) returns (found: bool)
    requires Keeps(fs, list, b)
    ensures Keeps(fs, list, b) && list.repr == old(list.repr) && found == Listed(b.files, box)
  {
    var node := list.SearchNode(box);
    found := node != null;
  }

  /** CREATE_MAILBOX: the file, the node, and the return code for the manager. */
  method CreateMailbox(fs: T.Tfs, list: List, box: CString, ghost b: Boxes)
    returns (r: int, ghost b': Boxes, ghost added: set<ListNode>)
    requires Keeps(fs, list, b)
    modifies list, list.repr`next
    modifies fs.inodeTable, fs.freeInodes, fs.fsData, fs.freeBlocks, fs.openFileTable, fs.freeOpenFiles
    ensures (b', r) == Create(b, box) && Keeps(fs, list, b')
    ensures fresh(added) && list.repr == old(list.repr) + added
  {
    var found := HasNode(fs, list, box, b);
    if found { return -1, b, {}; }
    r, b', added := CreateFile(fs, list, box, b);
  }

  /** The part of CREATE_MAILBOX that follows the search in the list. */
  method CreateFile(fs: T.Tfs, list: List, box: CString, ghost b: Boxes)
    returns (r: int, ghost b': Boxes, ghost added: set<ListNode>)
    requires Keeps(fs, list, b) && !Listed(b.files, box)
    modifies list, list.repr`next
    modifies fs.inodeTable, fs.freeInodes, fs.fsData, fs.freeBlocks, fs.openFileTable, fs.freeOpenFiles
    ensures (b', r) == Create(b, box) && Keeps(fs, list, b')
    ensures fresh(added) && list.repr == old(list.repr) + added
  {
    b' := Create(b, box).0;
    var handle := OpenNew(fs, list, box, b);
    r, added := AddAndClose(fs, list, box, handle, b.(fs := AbsOpen(b.fs, BoxPath(box), CREATING).state), b');
  }

  method UnlinkBox(fs: T.Tfs, ghost list: List, box: CString, ghost b: Boxes) returns (r: int)
    requires Keeps(fs, list, b) && Guarded(b.fs, Op.Unlink(BoxPath(box)))
    modifies fs.freeInodes, fs.fsData, fs.freeBlocks
    ensures var reply := AbsUnlink(b.fs, BoxPath(box));
      Keeps(fs, list, b.(fs := reply.state)) && r == reply.value
  {
    r := TfsUnlink(fs, BoxPath(box));
  }

  method RemoveNode(ghost fs: T.Tfs, list: List, box: CString, ghost b: Boxes)
    requires Keeps(fs, list, b) && b.files != []
    modifies list, list.repr`next
    ensures Keeps(fs, list, Boxes(b.fs, BrokerRemoval(b.files, box), TailAfterRemoval(b.files, b.tailIsLast, box)))
    ensures list.repr == old(list.repr)
  {
    list.RemoveBox(box);
  }

  /** REMOVE_MAILBOX; the source asks for a node in the list when the file could be unlinked. */
  method RemoveMailbox(fs: T.Tfs, list: List, box: CString, ghost b: Boxes) returns (r: int)
    requires Keeps(fs, list, b) && Guarded(b.fs, Op.Unlink(BoxPath(box)))
    requires Remove(b, box).Some?
    modifies list, list.repr`next
    modifies fs.freeInodes, fs.fsData, fs.freeBlocks
    ensures Keeps(fs, list, Remove(b, box).value.0) && r == Remove(b, box).value.1
    ensures list.repr == old(list.repr)
  {
    r := UnlinkBox(fs, list, box, b);
    if r == -1 { return; }
    RemoveNode(fs, list, box, b.(fs := AbsUnlink(b.fs, BoxPath(box)).state));
  }

  method CallFor(fs: T.Tfs, ghost list: List, op: Op, ghost b: Boxes)
    requires Keeps(fs, list, b) && Guarded(b.fs, op)
    modifies fs.inodeTable, fs.freeInodes, fs.fsData, fs.freeBlocks, fs.openFileTable, fs.freeOpenFiles
    ensures AbsInv(b.fs) && Keeps(fs, list, b.(fs := AbsStep(b.fs, op).state)) && list.repr == old(list.repr)
  {
    Perform(fs, op);
  }

  /** One request, by whichever worker takes it. */
  method Serve(fs: T.Tfs, list: List, r: Request, ghost b: Boxes, ghost b': Boxes) returns (ghost added: set<ListNode>)
    requires Keeps(fs, list, b) && AbsInv(b.fs) && Admissible(b, r) && Served(b, r) == Some(b')
    modifies list, list.repr`next
    modifies fs.inodeTable, fs.freeInodes, fs.fsData, fs.freeBlocks, fs.openFileTable, fs.freeOpenFiles
    ensures Keeps(fs, list, b')
    ensures fresh(added) && list.repr == old(list.repr) + added
  {
    added := {};
    if r.Creation? {
      var code;
      ghost var after;
      code, after, added := CreateMailbox(fs, list, r.box, b);
    } else {
      ServeOther(fs, list, r, b, b');
    }
  }

  method ServeOther(fs: T.Tfs, list: List, r: Request, ghost b: Boxes, ghost b': Boxes)
    requires Keeps(fs, list, b) && AbsInv(b.fs) && Admissible(b, r) && Served(b, r) == Some(b') && !r.Creation?
    modifies list, list.repr`next
    modifies fs.inodeTable, fs.freeInodes, fs.fsData, fs.freeBlocks, fs.openFileTable, fs.freeOpenFiles
    ensures Keeps(fs, list, b') && list.repr == old(list.repr)
  {
    if r.Removal? {
      var code := RemoveMailbox(fs, list, r.box, b);
    } else {
      CallFor(fs, list, r.op, b);
    }
  }

  lemma NextRequest(b: Boxes, requests: seq<Request>, i: nat)
    requires AbsInv(b.fs) && Agree(b) && i < |requests|
    requires AllAdmissible(b, requests[i..]) && !LeavesFile(b, requests[i..])
    ensures Admissible(b, requests[i]) && Served(b, requests[i]).Some?
    ensures var b' := Served(b, requests[i]).value;
      && AbsInv(b'.fs) && Agree(b')
      && AllAdmissible(b', requests[i + 1..]) && !LeavesFile(b', requests[i + 1..])
  {
    assert requests[i..][1..] == requests[i + 1..];
    AlwaysAgreeIff(b, requests[i..]);
    ServedInside(b, requests[i]);
    AlwaysAgreeIff(Served(b, requests[i]).value, requests[i + 1..]) by {
      assert AlwaysAgree(b, requests[i..]);
    }
  }

  /** Any number of requests: while no creation leaves its file without a node, list and directory agree in memory. */
  method ServeAll(fs: T.Tfs, list: List, requests: seq<Request>, ghost b: Boxes) returns (ghost b': Boxes)
    requires Keeps(fs, list, b) && AbsInv(b.fs) && Agree(b)
    requires AllAdmissible(b, requests) && !LeavesFile(b, requests)
    modifies list, list.repr`next
    modifies fs.inodeTable, fs.freeInodes, fs.fsData, fs.freeBlocks, fs.openFileTable, fs.freeOpenFiles
    ensures Keeps(fs, list, b') && Agree(b')
  {
    var i := 0;
    b' := b;
    assert requests[0..] == requests;
    while i < |requests|
      invariant i <= |requests| && Keeps(fs, list, b') && AbsInv(b'.fs) && Agree(b')
      invariant AllAdmissible(b', requests[i..]) && !LeavesFile(b', requests[i..])
      invariant fresh(list.repr - old(list.repr))
    {
      NextRequest(b', requests, i);
      ghost var after := Served(b', requests[i]).value;
      ghost var added := Serve(fs, list, requests[i], b', after);
      b' := after;
      i := i + 1;
    }
  }

  // ---------- subscriber ----------

  /** The walk stands at p, before this message, and has sent the messages before it. */
  ghost predicate WalkAt(bytes: seq<Byte>, p: nat, sent: seq<CString>, message: CString) {
    && p <= |bytes| && Terminated(bytes[p..]) && StringAt(bytes[p..]) == message
    && Walk(bytes[p..]).Some?
    && Walk(bytes) == Some(sent + Walk(bytes[p..]).value)
  }

  lemma WalkStarts(bytes: seq<Byte>)
    requires Walk(bytes).Some?
    ensures Terminated(bytes) && WalkAt(bytes, 0, [], StringAt(bytes))
  {
    assert bytes[0..] == bytes && [] + Walk(bytes).value == Walk(bytes).value;
  }

  lemma WalkGoesOn(bytes: seq<Byte>, p: nat, sent: seq<CString>, message: CString)
    requires WalkAt(bytes, p, sent, message) && message != []
    ensures var q := p + |message| + 1;
      q <= |bytes| && Terminated(bytes[q..]) && WalkAt(bytes, q, sent + [message], StringAt(bytes[q..]))
  {
    var q := p + |message| + 1;
    assert bytes[p..][|message| + 1..] == bytes[q..];
    assert sent + ([message] + Walk(bytes[q..]).value) == sent + [message] + Walk(bytes[q..]).value;
  }

  lemma WalkStops(bytes: seq<Byte>, p: nat, sent: seq<CString>, message: CString)
    requires WalkAt(bytes, p, sent, message) && message == []
    ensures Walk(bytes) == Some(sent)
  {
    assert sent + [] == sent;
  }

  /** The string at a position of the buffer, as strlen and strcpy see it. */
  method StringFrom(buffer: array<Byte>, p: nat) returns (s: CString)
    requires p <= buffer.Length && Terminated(buffer[..][p..])
    ensures s == StringAt(buffer[..][p..])
  {
    assert buffer[p..] == buffer[..][p..];
    s := StringAt(buffer[p..]);
  }

  /** The strlen walk over the buffer: each string found is one packet, until the empty one. */
  method SendStored(buffer: array<Byte>) returns (sent: seq<CString>)
    requires Walk(buffer[..]).Some?
    ensures Walk(buffer[..]) == Some(sent)
  {
    sent := [];
    var p := 0;
    ghost var bytes := buffer[..];
    WalkStarts(bytes);
    var message := StringAt(buffer[..]);
    while |message| > 0
      invariant 0 <= p <= buffer.Length && buffer[..] == bytes && WalkAt(bytes, p, sent, message)
      decreases buffer.Length - p
    {
      WalkGoesOn(bytes, p, sent, message);
      sent := sent + [message];
      p := p + |message| + 1;
      message := StringFrom(buffer, p);
    }
    WalkStops(bytes, p, sent, message);
  }

  /** These calls do not use the handle. */
  predicate Spares(ops: seq<Op>, h: int) {
    forall i :: 0 <= i < |ops| ==>
      ops[i] != Op.Close(h) && (ops[i].Write? || ops[i].Read? ==> ops[i].handle != h)
  }

  lemma {:induction false} SparedHandle(a: AbsFs, ops: seq<Op>, h: int)
    requires AbsInv(a) && GuardedRun(a, ops) && h in a.handles && Spares(ops, h)
    ensures var a' := AbsRun(a, ops).0;
      AbsInv(a') && h in a'.handles && a'.handles[h] == a.handles[h] && a'.handles[h].name in a'.files
    decreases |ops|
  {
    if ops == [] {
      assert HandleInside(a, h);
    } else {
      AbsStepKeepsInv(a, ops[0]);
      StepOfReader(a, ops[0], h);
      SparedHandle(AbsStep(a, ops[0]).state, ops[1..], h);
    }
  }

  /** What the others may do between a subscriber's open and its read, and where the strlen calls stay in the buffer. */
  ghost predicate MayReplay(a: AbsFs, box: CString, others: seq<Op>) {
    var o := AbsOpen(a, BoxPath(box), READ);
    o.value != -1 ==>
      && AbsInv(o.state) && GuardedRun(o.state, others) && Spares(others, o.value)
      && (var a' := AbsRun(o.state, others).0;
          box in a'.files ==> HasEmptyString(Filled(a'.files[box], MESSAGE_SIZE)))
  }

  method PerformAll(fs: T.Tfs, ops: seq<Op>, ghost a: AbsFs)
    requires Shows(fs, a) && AbsInv(a) && GuardedRun(a, ops)
    modifies fs.inodeTable, fs.freeInodes, fs.fsData, fs.freeBlocks, fs.openFileTable, fs.freeOpenFiles
    ensures Shows(fs, AbsRun(a, ops).0)
  {
    var i := 0;
    ghost var b := a;
    assert ops[0..] == ops;
    while i < |ops|
      invariant i <= |ops| && Shows(fs, b) && AbsInv(b) && GuardedRun(b, ops[i..])
      invariant AbsRun(b, ops[i..]).0 == AbsRun(a, ops).0
    {
      assert ops[i..][1..] == ops[i + 1..];
      AbsStepKeepsInv(b, ops[i]);
      b := AbsStep(b, ops[i]).state;
      Perform(fs, ops[i]);
      i := i + 1;
    }
  }

  /**
   * A subscriber's first packets: the box is opened at its beginning, up to MESSAGE_SIZE bytes are read
   * into a zeroed buffer, and its strings are sent. Other workers make their calls between the open and the read.
   */
  method SubscriberReplay(fs: T.Tfs, box: CString, others: seq<Op>) returns (handle: int, sent: seq<CString>)
    requires Ready(fs) && MayReplay(Contents(fs), box, others)
    modifies fs.inodeTable, fs.freeInodes, fs.fsData, fs.freeBlocks, fs.openFileTable, fs.freeOpenFiles
    ensures Ready(fs)
    ensures var o := AbsOpen(old(Contents(fs)), BoxPath(box), READ);
      && handle == o.value
      && (handle == -1 ==> sent == [] && Contents(fs) == old(Contents(fs)))
      && (handle != -1 ==>
            && AbsInv(o.state) && GuardedRun(o.state, others)
            && var a := AbsRun(o.state, others).0;
               && box in a.files && Walk(Filled(a.files[box], MESSAGE_SIZE)) == Some(sent)
               && Contents(fs) ==
                    a.(handles := a.handles[handle := Handle(box, Smaller(|a.files[box]|, MESSAGE_SIZE))]))
  {
    sent := [];
    ghost var o := AbsOpen(Contents(fs), BoxPath(box), READ);
    OpenedToRead(Contents(fs), box);
    handle := TfsOpen(fs, BoxPath(box), READ);
    if handle == -1 { return; }
    SparedHandle(o.state, others, handle);
    PerformAll(fs, others, o.state);
    WalkStaysInside(Filled(AbsRun(o.state, others).0.files[box], MESSAGE_SIZE));
    var buffer := ReadBox(fs, handle, box, AbsRun(o.state, others).0);
    sent := SendStored(buffer);
  }

  /** The buffer after the read of a whole box, as far as it fits. */
  method ReadBox(fs: T.Tfs, handle: int, ghost box: CString, ghost a: AbsFs) returns (buffer: array<Byte>)
    requires Shows(fs, a) && AbsInv(a) && handle in a.handles && a.handles[handle] == Handle(box, 0) && box in a.files
    modifies fs.openFileTable
    ensures Shows(fs, a.(handles := a.handles[handle := Handle(box, Smaller(|a.files[box]|, MESSAGE_SIZE))]))
    ensures buffer[..] == Filled(a.files[box], MESSAGE_SIZE)
  {
    ReadFromStart(a, handle, box);
    buffer := ZeroedBuffer();
    var n := TfsRead(fs, handle, buffer, MESSAGE_SIZE);
  }

  method ZeroedBuffer() returns (buffer: array<Byte>)
    ensures fresh(buffer) && buffer[..] == Zeros(MESSAGE_SIZE)
  {
    buffer := new Byte[MESSAGE_SIZE](_ => NUL);
    assert buffer[..] == Zeros(MESSAGE_SIZE);
  }

  /** Reading a whole box, as far as it fits, into a zeroed buffer. */
  lemma ReadFromStart(a: AbsFs, h: int, box: CString)
    requires AbsInv(a) && h in a.handles && a.handles[h] == Handle(box, 0)
    ensures HandleInside(a, h) && box in a.files
    ensures var r := AbsRead(a, h, MESSAGE_SIZE);
      && r.state == a.(handles := a.handles[h := Handle(box, Smaller(|a.files[box]|, MESSAGE_SIZE))])
      && |r.bytes| <= MESSAGE_SIZE
      && r.bytes + Zeros(MESSAGE_SIZE)[|r.bytes|..] == Filled(a.files[box], MESSAGE_SIZE)
  {
    assert HandleInside(a, h);
  }

  lemma OpenedToRead(a: AbsFs, box: CString)
    requires AbsInv(a)
    ensures var r := AbsOpen(a, BoxPath(box), READ);
      && r.state.files == a.files
      && (r.value == -1 ==> r.state == a)
      && (r.value != -1 ==> box in a.files && r.state.handles == a.handles[r.value := Handle(box, 0)])
  {
    var path: CString := BoxPath(box).value;
    assert path[1..] == box;
    if box in a.files { assert a.files[box := a.files[box]] == a.files; }
  }
}
