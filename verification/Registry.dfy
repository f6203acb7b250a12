/**
 * The broker's two records of its boxes, the list and the directory of TécnicoFS, and the sessions
 * that create and remove boxes (mbroker/mbroker.c), each without calls of other workers inside it.
 */
module Registry {
  import opened Options
  import opened CStrings
  import opened Directory
  import opened FsModel
  import opened FsAbstract
  import opened FsAnswers
  import opened LinkedList
  import opened BoxFormat

  /** What TécnicoFS holds, the boxes of the list from its head on, and whether `tail` is the last of them. */
  datatype Boxes = Boxes(fs: AbsFs, files: seq<TfsFile>, tailIsLast: bool)

  const CREATING: Mode := Mode(true, false, false)

  predicate Listed(files: seq<TfsFile>, box: CString) {
    FirstNamed(files, box) < |files|
  }

  /** list_add: behind a tail that is not in the list any more, the node is lost. */
  function Append(b: Boxes, file: TfsFile): Boxes {
    if b.files == [] || b.tailIsLast then b.(files := b.files + [file], tailIsLast := true) else b
  }

  /** CREATE_MAILBOX, with its return code. */
  function Create(b: Boxes, box: CString): (Boxes, int) {
    if Listed(b.files, box) then (b, -1)
    else
      var r := AbsOpen(b.fs, BoxPath(box), CREATING);
      if r.value == -1 then (b.(fs := r.state), -1)
      else (Append(b, TfsFile(box, 0, 0, 0)).(fs := AbsClose(r.state, r.value).state), 0)
  }

  /** REMOVE_MAILBOX, with its return code; None when search_prev_node reads through the head of an empty list. */
  function Remove(b: Boxes, box: CString): Option<(Boxes, int)> {
    var r := AbsUnlink(b.fs, BoxPath(box));
    if r.value == -1 then Some((b, -1))
    else if b.files == [] then None
    else Some((Boxes(r.state, BrokerRemoval(b.files, box), TailAfterRemoval(b.files, b.tailIsLast, box)), 0))
  }

  // ---------- agreement ----------

  predicate Distinct(files: seq<TfsFile>) {
    forall i, j :: 0 <= i < j < |files| ==> files[i].boxName != files[j].boxName
  }

  /** The list names every file of the directory once, and nothing else. */
  ghost predicate Agree(b: Boxes) {
    && Distinct(b.files)
    && (forall n: CString :: n in b.fs.files <==> Listed(b.files, n))
  }

  /** The open creates the file, and then finds no handle for it. */
  predicate CreatedNotOpened(b: Boxes, box: CString) {
    && !Listed(b.files, box) && box != [] && box !in b.fs.files
    && !NoInodeLeft(b.fs) && |box| < MAX_FILE_NAME && !DirectoryFull(b.fs)
    && LowestFree(b.fs.handles, 0, b.fs.openCount) == -1
  }

  /** The file is created and opened, but its node goes behind a tail that is not in the list any more. */
  predicate NodeLost(b: Boxes, box: CString) {
    && !Listed(b.files, box) && AbsOpen(b.fs, BoxPath(box), CREATING).value != -1
    && b.files != [] && !b.tailIsLast
  }

  lemma ListedIs(files: seq<TfsFile>, n: CString)
    ensures Listed(files, n) <==> exists i :: 0 <= i < |files| && files[i].boxName == n
  {
    if Listed(files, n) { assert files[FirstNamed(files, n)].boxName == n; }
  }

  lemma ListedAppend(files: seq<TfsFile>, file: TfsFile, n: CString)
    ensures Listed(files + [file], n) <==> Listed(files, n) || file.boxName == n
  {
    ListedIs(files, n);
    ListedIs(files + [file], n);
    if Listed(files, n) { assert (files + [file])[FirstNamed(files, n)].boxName == n; }
    if file.boxName == n { assert (files + [file])[|files|].boxName == n; }
  }

  lemma ListedRemove(files: seq<TfsFile>, box: CString, n: CString)
    requires Distinct(files) && Listed(files, box)
    ensures var files' := BrokerRemoval(files, box);
      && Distinct(files') && (Listed(files', n) <==> Listed(files, n) && n != box)
  {
    var k := FirstNamed(files, box);
    var files' := BrokerRemoval(files, box);
    assert forall i :: 0 <= i < |files'| ==> files'[i] == files[if i < k then i else i + 1];
    ListedIs(files, n);
    ListedIs(files', n);
    if Listed(files, n) && n != box {
      var j := FirstNamed(files, n);
      assert files'[if j < k then j else j - 1].boxName == n;
    }
  }

  /**
   * A creation answers 0 if and only if the list does not have the box, its name is not empty, a handle is left,
   * and the file exists or there is room for it. The file is then there, empty if it is new and untouched if not,
   * and no handle stays open. A box that is listed changes nothing.
   */
  lemma CreateAnswers(b: Boxes, box: CString)
    ensures var (b', r) := Create(b, box); var made := box !in b.fs.files && RoomFor(b.fs, box);
      && (r == 0 || r == -1)
      && (r == 0 <==> !Listed(b.files, box) && box != [] && (box in b.fs.files || made) && HandleLeft(b.fs))
      && (Listed(b.files, box) || box == [] ==> b' == b)
      && (!Listed(b.files, box) && box != [] ==>
            b'.fs == if made then b.fs.(files := b.fs.files[box := []]) else b.fs)
      && (r == -1 ==> b'.files == b.files && b'.tailIsLast == b.tailIsLast)
      && (r == 0 && (b.files == [] || b.tailIsLast) ==>
            b'.files == b.files + [TfsFile(box, 0, 0, 0)] && b'.tailIsLast)
  {
    BoxPathNames(box);
    if box == [] {
      BadPathAnswers(b.fs, BoxPath(box), CREATING);
    } else {
      OpenAnswers(b.fs, BoxPath(box), box, CREATING);
      var r := AbsOpen(b.fs, BoxPath(box), CREATING);
      if r.value != -1 { OpenedAndClosed(b.fs, r); }
    }
  }

  lemma OpenedAndClosed(a: AbsFs, r: AbsReply)
    requires r.value !in a.handles && r.value in r.state.handles
    requires r.state.handles == a.handles[r.value := r.state.handles[r.value]]
    ensures AbsClose(r.state, r.value).state == r.state.(handles := a.handles)
  {
    assert r.state.handles - {r.value} == a.handles;
  }

  /** While list and directory agree, a box that is created is new. */
  lemma CreatedIsNew(b: Boxes, box: CString)
    requires Agree(b) && Create(b, box).1 == 0
    ensures box !in b.fs.files && box in Create(b, box).0.fs.files && Create(b, box).0.fs.files[box] == []
  {
    CreateAnswers(b, box);
  }

  /** With the broker's tables, 64 inodes and blocks of 1024 bytes, there is room for 23 boxes. */
  lemma BrokerHolds23Boxes(b: Boxes, box: CString)
    requires Agree(b) && b.fs.inodeCount == 64 && b.fs.blockSize == 1024 && HandleLeft(b.fs)
    requires |b.fs.files| <= 23
    ensures Create(b, box).1 == 0 <==> box !in b.fs.files && 1 <= |box| <= 39 && |b.fs.files| < 23
  {
    CreateAnswers(b, box);
    RoomInBlockOf1024(b.fs, box);
  }

  /**
   * A removal answers -1 and changes nothing unless there is a file of that name. Otherwise it removes the file and
   * answers 0, unless the list is empty: then it reads a null pointer.
   */
  lemma RemoveAnswers(b: Boxes, box: CString)
    ensures var r := Remove(b, box); var named := box != [] && box in b.fs.files;
      && (!named ==> r == Some((b, -1)))
      && (named && b.files == [] ==> r == None)
      && (named && b.files != [] ==>
            && r.Some? && r.value.1 == 0 && r.value.0.fs == b.fs.(files := b.fs.files - {box})
            && |r.value.0.files| == |b.files| - 1)
  {
    BoxPathNames(box);
    if box == [] {
      BadPathAnswers(b.fs, BoxPath(box), CREATING);
    } else {
      UnlinkAnswers(b.fs, BoxPath(box), box);
      PathNamesIs(BoxPath(box), box);
    }
  }

  /** What a creating open of a name that the list does not have does, when list and directory agree. */
  lemma CreateIs(b: Boxes, box: CString)
    requires Agree(b) && !Listed(b.files, box)
    ensures var (b', r) := Create(b, box); var refused :=
        box == [] || NoInodeLeft(b.fs) || |box| >= MAX_FILE_NAME || DirectoryFull(b.fs);
      && (refused ==> b' == b && r == -1)
      && (!refused ==> b'.fs == b.fs.(files := b.fs.files[box := []]))
      && (refused ==> !CreatedNotOpened(b, box) && !NodeLost(b, box))
      && (CreatedNotOpened(b, box) ==> b'.files == b.files && b'.tailIsLast == b.tailIsLast && r == -1)
      && (NodeLost(b, box) ==> b'.files == b.files && !b'.tailIsLast && r == 0 && !CreatedNotOpened(b, box))
      && (!refused && !CreatedNotOpened(b, box) && !NodeLost(b, box) ==>
            b'.files == b.files + [TfsFile(box, 0, 0, 0)] && b'.tailIsLast && r == 0)
  {
    var path: CString := BoxPath(box).value;
    assert path[1..] == box;
    LowestFreeFacts(b.fs.handles, 0, b.fs.openCount);
    var h := LowestFree(b.fs.handles, 0, b.fs.openCount);
    if h != -1 { assert b.fs.handles[h := Handle(box, 0)] - {h} == b.fs.handles; }
  }

  /**
   * Creating a box keeps list and directory in agreement unless the file is created and finds no handle,
   * or its node is lost because the last of several boxes was removed before.
   */
  lemma CreateKeepsAgreementIff(b: Boxes, box: CString)
    requires Agree(b)
    ensures Agree(Create(b, box).0) <==> !CreatedNotOpened(b, box) && !NodeLost(b, box)
  {
    if !Listed(b.files, box) {
      CreateIs(b, box);
      var b' := Create(b, box).0;
      if b'.files == b.files + [TfsFile(box, 0, 0, 0)] {
        forall n: CString ensures n in b'.fs.files <==> Listed(b'.files, n) {
          ListedAppend(b.files, TfsFile(box, 0, 0, 0), n);
        }
        forall i | 0 <= i < |b.files| ensures b.files[i].boxName != box { ListedIs(b.files, box); }
      } else if CreatedNotOpened(b, box) || NodeLost(b, box) {
        assert box in b'.fs.files && !Listed(b'.files, box);
      }
    }
  }

  /** While they agree, removing a box reads no null pointer, takes exactly that box out, and keeps the agreement. */
  lemma RemoveKeepsAgreement(b: Boxes, box: CString)
    requires Agree(b)
    ensures var r := Remove(b, box);
      && r.Some? && Agree(r.value.0)
      && (r.value.1 == 0 <==> ValidPath(BoxPath(box)) && Listed(b.files, box))
      && r.value.0.files == if r.value.1 == 0 then WithoutFirst(b.files, box) else b.files
  {
    var path: CString := BoxPath(box).value;
    assert path[1..] == box;
    if box in b.fs.files {
      ListedIs(b.files, box);
      BrokerRemovalIsExact(b.files, box);
      RemovedAgree(b, box, TailAfterRemoval(b.files, b.tailIsLast, box));
    }
  }

  lemma RemovedAgree(b: Boxes, box: CString, tail: bool)
    requires Agree(b) && Listed(b.files, box)
    ensures Agree(Boxes(b.fs.(files := b.fs.files - {box}), BrokerRemoval(b.files, box), tail))
  {
    var files := BrokerRemoval(b.files, box);
    ListedRemove(b.files, box, box);
    forall n: CString ensures n in b.fs.files - {box} <==> Listed(files, n) {
      ListedRemove(b.files, box, n);
    }
  }

  /** A removal that succeeds takes out exactly the box of that name if and only if the list has one. */
  lemma RemovalIsExactIff(b: Boxes, box: CString)
    requires AbsUnlink(b.fs, BoxPath(box)).value == 0
    ensures var r := Remove(b, box);
      (r.Some? && r.value.0.files == WithoutFirst(b.files, box)) <==> Listed(b.files, box)
  {
    ListedIs(b.files, box);
    if b.files != [] { BrokerRemovalIsExact(b.files, box); }
  }

  /**
   * Once a file has no node, its removal succeeds and takes the head of the list, a box of another name
   * that stays in the directory; on an empty list it reads a null pointer.
   */
  lemma RemovalTakesTheHead(b: Boxes, box: CString)
    requires Agree(b) && (CreatedNotOpened(b, box) || NodeLost(b, box))
    ensures var (b1, r1) := Create(b, box); var r2 := Remove(b1, box);
      && r1 == (if NodeLost(b, box) then 0 else -1) && b1.files == b.files && box in b1.fs.files
      && if b.files == [] then r2 == None
         else
           && r2 == Some((Boxes(b.fs, b.files[1..], |b.files| == 1 || b.tailIsLast), 0))
           && b.files[0].boxName != box && b.files[0].boxName in b.fs.files
  {
    CreateIs(b, box);
    assert b.fs.files[box := []] - {box} == b.fs.files;
    RemovesWithoutNode(Create(b, box).0, box);
    if b.files != [] {
      ListedIs(b.files, b.files[0].boxName);
    }
  }

  /** The removal of a file that has no node. */
  lemma RemovesWithoutNode(b: Boxes, box: CString)
    requires !Listed(b.files, box) && box in b.fs.files && box != []
    ensures b.files == [] ==> Remove(b, box) == None
    ensures b.files != [] ==>
      && b.files[0].boxName != box
      && Remove(b, box) == Some((Boxes(b.fs.(files := b.fs.files - {box}), b.files[1..],
                                       |b.files| == 1 || b.tailIsLast), 0))
  {
    var path: CString := BoxPath(box).value;
    assert path[1..] == box;
    if b.files != [] {
      ListedIs(b.files, box);
      assert b.files[0].boxName != box;
      assert b.files[..0] + b.files[1..] == b.files[1..];
    }
  }

  // ---------- runs ----------

  /** What workers do: the two sessions, or a call of another session to TécnicoFS. */
  datatype Request = Creation(box: CString) | Removal(box: CString) | Call(op: Op)

  /** The calls of other sessions neither create nor remove files; files in use are not removed or truncated. */
  ghost predicate Admissible(b: Boxes, r: Request) {
    match r
    case Creation(_) => true
    case Removal(box) => Guarded(b.fs, Unlink(BoxPath(box)))
    case Call(op) => Guarded(b.fs, op) && !op.Unlink? && (op.Open? ==> !op.mode.creat)
  }

  ghost function Served(b: Boxes, r: Request): Option<Boxes>
    requires AbsInv(b.fs)
  {
    match r
    case Creation(box) => Some(Create(b, box).0)
    case Removal(box) =>
      var after := Remove(b, box);
      if after.None? then None else Some(after.value.0)
    case Call(op) => Some(b.(fs := AbsStep(b.fs, op).state))
  }

  lemma ServedInside(b: Boxes, r: Request)
    requires AbsInv(b.fs) && Admissible(b, r) && Served(b, r).Some?
    ensures AbsInv(Served(b, r).value.fs)
  {
    match r
    case Creation(box) =>
      var open := Open(BoxPath(box), CREATING);
      AbsStepKeepsInv(b.fs, open);
      AbsStepKeepsInv(AbsStep(b.fs, open).state, Close(AbsStep(b.fs, open).value));
    case Removal(box) => AbsStepKeepsInv(b.fs, Unlink(BoxPath(box)));
    case Call(op) => AbsStepKeepsInv(b.fs, op);
  }

  ghost predicate AllAdmissible(b: Boxes, requests: seq<Request>)
    requires AbsInv(b.fs)
    decreases |requests|
  {
    requests == [] ||
    (Admissible(b, requests[0]) &&
     (Served(b, requests[0]).Some? ==>
        (ServedInside(b, requests[0]); AllAdmissible(Served(b, requests[0]).value, requests[1..]))))
  }

  /** At every moment list and directory agree, and no request reads a null pointer. */
  ghost predicate AlwaysAgree(b: Boxes, requests: seq<Request>)
    requires AbsInv(b.fs) && AllAdmissible(b, requests)
    decreases |requests|
  {
    && Agree(b)
    && (requests == [] ||
        (Served(b, requests[0]).Some? &&
         (ServedInside(b, requests[0]); AlwaysAgree(Served(b, requests[0]).value, requests[1..]))))
  }

  /** Some creation of the run leaves its file without a node. */
  ghost predicate LeavesFile(b: Boxes, requests: seq<Request>)
    requires AbsInv(b.fs) && AllAdmissible(b, requests)
    decreases |requests|
  {
    requests != [] &&
    ((requests[0].Creation? && (CreatedNotOpened(b, requests[0].box) || NodeLost(b, requests[0].box))) ||
     (Served(b, requests[0]).Some? &&
      (ServedInside(b, requests[0]); LeavesFile(Served(b, requests[0]).value, requests[1..]))))
  }

  lemma CallKeepsAgreement(b: Boxes, op: Op)
    requires AbsInv(b.fs) && Agree(b) && Admissible(b, Call(op))
    ensures Agree(Served(b, Call(op)).value)
  {
    var fs := AbsStep(b.fs, op).state;
    if op.Write? { assert HandleInside(b.fs, op.handle); }
    assert fs.files.Keys == b.fs.files.Keys;
    forall n: CString ensures n in fs.files <==> Listed(b.files, n) { assert n in fs.files <==> n in fs.files.Keys; }
  }

  /**
   * From any broker in agreement, in particular an empty one, list and directory agree at every moment of a run
   * if and only if no creation in it finds no handle for its new file, or loses its node.
   */
  lemma {:induction false} AlwaysAgreeIff(b: Boxes, requests: seq<Request>)
    requires AbsInv(b.fs) && Agree(b) && AllAdmissible(b, requests)
    ensures AlwaysAgree(b, requests) <==> !LeavesFile(b, requests)
    decreases |requests|
  {
    if requests != [] {
      var r := requests[0];
      match r {
        case Creation(box) => CreateKeepsAgreementIff(b, box);
        case Removal(box) => RemoveKeepsAgreement(b, box);
        case Call(op) => CallKeepsAgreement(b, op);
      }
      ServedInside(b, r);
      var b' := Served(b, r).value;
      if Agree(b') {
        AlwaysAgreeIff(b', requests[1..]);
      } else {
        NeverAgrees(b', requests[1..]);
      }
    }
  }

  lemma NeverAgrees(b: Boxes, requests: seq<Request>)
    requires AbsInv(b.fs) && AllAdmissible(b, requests) && !Agree(b)
    ensures !AlwaysAgree(b, requests)
  {
  }

  // ---------- how the broker gets there ----------

  /** A broker that has just been started, with room for two files and one handle. */
  ghost predicate Empty(b: Boxes) {
    && AbsInv(b.fs) && b.fs.files == map[] && b.fs.handles == map[] && b.files == []
    && b.fs.inodeCount >= 3 && b.fs.blockSize >= 2 * ENTRY_SIZE && b.fs.openCount >= 1
  }

  predicate GoodName(box: CString) {
    1 <= |box| < MAX_FILE_NAME
  }

  lemma EmptyAgrees(b: Boxes)
    requires Empty(b)
    ensures Agree(b)
  {
  }

  /** A creation while a handle, an inode and a slot are free and the tail is right. */
  lemma CreatesOne(b: Boxes, box: CString)
    requires Agree(b) && GoodName(box) && !Listed(b.files, box) && (b.files == [] || b.tailIsLast)
    requires |b.fs.files| + 2 <= b.fs.inodeCount && (|b.fs.files| + 1) * ENTRY_SIZE <= b.fs.blockSize
    requires b.fs.handles == map[] && b.fs.openCount >= 1
    ensures Create(b, box)
      == (Boxes(b.fs.(files := b.fs.files[box := []]), b.files + [TfsFile(box, 0, 0, 0)], true), 0)
    ensures Agree(Create(b, box).0)
  {
    assert LowestFree(b.fs.handles, 0, b.fs.openCount) == 0;
    assert !NoInodeLeft(b.fs) && !DirectoryFull(b.fs);
    CreateIs(b, box);
    CreateKeepsAgreementIff(b, box);
  }

  /** The list after the last of two boxes has been removed: one box, and a tail that is not in it. */
  lemma LastOfTwoRemoved(b: Boxes, x: CString, y: CString)
    requires Agree(b) && GoodName(x) && GoodName(y) && x != y
    requires b.files == [TfsFile(x, 0, 0, 0), TfsFile(y, 0, 0, 0)] && b.fs.files == map[x := [], y := []]
    ensures Remove(b, y) == Some((Boxes(b.fs.(files := map[x := []]), [TfsFile(x, 0, 0, 0)], false), 0))
  {
    var path: CString := BoxPath(y).value;
    assert path[1..] == y;
    assert FirstNamed(b.files[1..], y) == 0 && FirstNamed(b.files, y) == 1;
    assert b.fs.files - {y} == map[x := []];
    assert RemoveAt(b.files, 1) == [TfsFile(x, 0, 0, 0)];
  }

  /** A creation of a third box loses its node, and returns success. */
  lemma ThirdIsLost(b: Boxes, x: CString, z: CString)
    requires Agree(b) && GoodName(x) && GoodName(z) && x != z
    requires b.files == [TfsFile(x, 0, 0, 0)] && b.fs.files == map[x := []] && !b.tailIsLast
    requires b.fs.handles == map[] && b.fs.openCount >= 1
    requires b.fs.inodeCount >= 3 && b.fs.blockSize >= 2 * ENTRY_SIZE
    ensures NodeLost(b, z)
    ensures Create(b, z) == (b.(fs := b.fs.(files := map[x := [], z := []])), 0)
    ensures Remove(Create(b, z).0, z) == Some((Boxes(b.fs, [], true), 0))
  {
    assert LowestFree(b.fs.handles, 0, b.fs.openCount) == 0;
    assert b.fs.files.Keys == {x} && |b.fs.files| == 1 && !Listed(b.files, z);
    var path: CString := BoxPath(z).value;
    assert path[1..] == z;
    assert b.fs.files[z := []] == map[x := [], z := []];
    CreateIs(b, z);
    assert NodeLost(b, z) && b.files[1..] == [];
    RemovalTakesTheHead(b, z);
  }

  lemma CreatesFirst(b: Boxes, x: CString)
    requires Empty(b) && GoodName(x)
    ensures Create(b, x) == (Boxes(b.fs.(files := map[x := []]), [TfsFile(x, 0, 0, 0)], true), 0)
    ensures Agree(Create(b, x).0)
  {
    EmptyAgrees(b);
    CreatesOne(b, x);
    assert b.fs.files[x := []] == map[x := []];
    assert [] + [TfsFile(x, 0, 0, 0)] == [TfsFile(x, 0, 0, 0)];
  }

  lemma CreatesTwo(b: Boxes, x: CString, y: CString)
    requires Empty(b) && GoodName(x) && GoodName(y) && x != y
    ensures var (b1, r1) := Create(b, x); var (b2, r2) := Create(b1, y);
      && r1 == r2 == 0 && Agree(b2)
      && b2 == Boxes(b.fs.(files := map[x := [], y := []]), [TfsFile(x, 0, 0, 0), TfsFile(y, 0, 0, 0)], true)
  {
    CreatesFirst(b, x);
    var b1 := Create(b, x).0;
    assert b1.fs.files.Keys == {x} && |b1.fs.files| == 1;
    assert FirstNamed(b1.files, y) == 1;
    CreatesOne(b1, y);
    assert b1.fs.files[y := []] == map[x := [], y := []];
  }

  /**
   * Four requests that all succeed: two boxes are created, the second is removed, and a third is created. Its node
   * goes behind the removed one. Removing it succeeds too, and takes the first box out of the list.
   */
  lemma BoxLost(b: Boxes, x: CString, y: CString, z: CString)
    requires Empty(b) && GoodName(x) && GoodName(y) && GoodName(z) && x != y && x != z
    ensures var (b1, r1) := Create(b, x); var (b2, r2) := Create(b1, y); var m := Remove(b2, y);
      && r1 == r2 == 0 && m.Some? && m.value.1 == 0
      && (var (b4, r4) := Create(m.value.0, z);
          && r4 == 0 && z in b4.fs.files && !Listed(b4.files, z)
          && Remove(b4, z) == Some((Boxes(b.fs.(files := map[x := []]), [], true), 0)))
  {
    CreatesTwo(b, x, y);
    var b2 := Create(Create(b, x).0, y).0;
    LastOfTwoRemoved(b2, x, y);
    RemoveKeepsAgreement(b2, y);
    ThirdIsLost(Remove(b2, y).value.0, x, z);
  }

  /** n subscribers open the same box. */
  function Subscribed(a: AbsFs, box: CString, n: nat): AbsFs {
    if n == 0 then a else AbsOpen(Subscribed(a, box, n - 1), BoxPath(box), READ).state
  }

  /** Exactly the first n handles are open. */
  ghost predicate FirstTaken(handles: map<int, Handle>, n: nat) {
    forall h :: h in handles <==> 0 <= h < n
  }

  lemma {:induction false} SubscribersTakeHandles(a: AbsFs, box: CString, n: nat)
    requires box in a.files && box != [] && a.handles == map[] && n <= a.openCount
    ensures var s := Subscribed(a, box, n);
      s == a.(handles := s.handles) && FirstTaken(s.handles, n)
  {
    if n > 0 {
      SubscribersTakeHandles(a, box, n - 1);
      var s := Subscribed(a, box, n - 1);
      var path: CString := BoxPath(box).value;
      assert path[1..] == box;
      assert s.files[box := s.files[box]] == s.files;
      FirstAbove(s.handles, n - 1, 0, a.openCount);
    }
  }

  lemma {:induction false} FirstAbove(handles: map<int, Handle>, k: nat, i: nat, n: nat)
    requires FirstTaken(handles, k) && i <= k < n
    ensures LowestFree(handles, i, n) == k
    decreases k - i
  {
    if i < k { FirstAbove(handles, k, i + 1, n); }
  }

  /**
   * With any number of handles: a box is created, subscribers open it until no handle is left, the creation of
   * a second box fails, and the removal of the second takes the first out of the list.
   */
  lemma OtherBoxRemoved(b: Boxes, x: CString, y: CString)
    requires Empty(b) && GoodName(x) && GoodName(y) && x != y
    ensures var (b1, r1) := Create(b, x);
      var (b2, r2) := Create(b1.(fs := Subscribed(b1.fs, x, b.fs.openCount)), y); var m := Remove(b2, y);
      && r1 == 0 && b1.files == [TfsFile(x, 0, 0, 0)] && r2 == -1
      && m.Some? && m.value.1 == 0 && m.value.0.files == [] && x in m.value.0.fs.files
  {
    CreatesFirst(b, x);
    var b1 := Create(b, x).0;
    assert b1.fs.files.Keys == {x} && |b1.fs.files| == 1;
    SubscribersTakeHandles(b1.fs, x, b.fs.openCount);
    var full := b1.(fs := Subscribed(b1.fs, x, b.fs.openCount));
    NoneFree(full.fs.handles, 0, full.fs.openCount);
    assert FirstNamed(full.files, y) == 1;
    assert CreatedNotOpened(full, y);
    RemovalTakesTheHead(full, y);
  }
}
