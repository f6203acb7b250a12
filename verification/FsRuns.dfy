/** Whole runs of TécnicoFS: from initialisation, through any guarded sequence of operations. */
module FsRuns {
  import opened Options
  import opened CStrings
  import opened Maps
  import opened Directory
  import opened FsModel
  import opened FsAbstract
  import opened FsRefinement
  import opened FsTheorems

  // ---------- initialisation ----------

  /** After state_init: every slot of every table is free, and the memory behind them is arbitrary. */
  ghost predicate Booted(s: Fs) {
    && 0 < s.blockSize < SIZE_MODULUS
    && |s.inodes| == |s.inodeAlloc| <= INT_LIMIT
    && |s.blocks| == |s.blockAlloc| <= INT_LIMIT
    && |s.openFiles| == |s.openAlloc| <= INT_LIMIT
    && (forall b {:trigger s.blocks[b]} :: 0 <= b < |s.blocks| ==> |s.blocks[b]| == s.blockSize)
    && (forall i :: 0 <= i < |s.inodeAlloc| ==> s.inodeAlloc[i] == Free)
    && (forall i :: 0 <= i < |s.blockAlloc| ==> s.blockAlloc[i] == Free)
    && (forall i :: 0 <= i < |s.openAlloc| ==> s.openAlloc[i] == Free)
  }

  /** A directory block in which the first k entries have been marked empty. */
  function Emptied(block: seq<Byte>, k: nat): (r: seq<Byte>)
    requires k <= |block| / ENTRY_SIZE
    ensures |r| == |block|
  {
    if k == 0 then block else WithInumber(Emptied(block, k - 1), k - 1, NO_INUMBER)
  }

  /** tfs_init after state_init: inode_create(T_DIRECTORY) for the root. */
  function InitFs(s: Fs): Reply
    requires |s.inodes| == |s.inodeAlloc| && |s.blocks| == |s.blockAlloc|
  {
    var i := FirstFree(s.inodeAlloc);
    if i == -1 then Reply(s, -1, [])
    else
      var b := FirstFree(s.blockAlloc);
      if b == -1 then Reply(s.(inodes := s.inodes[i := Inode(TDirectory, 0, -1)]), -1, [])
      else
        Reply(s.(inodeAlloc := s.inodeAlloc[i := Taken],
                 blockAlloc := s.blockAlloc[b := Taken],
                 inodes := s.inodes[i := Inode(TDirectory, s.blockSize, b)],
                 blocks := s.blocks[b := Emptied(s.blocks[b], |s.blocks[b]| / ENTRY_SIZE)]),
              if i == ROOT then 0 else -1, [])
  }

  lemma {:induction false} EmptiedEntries(block: seq<Byte>, k: nat)
    requires k <= |block| / ENTRY_SIZE
    ensures forall i {:trigger Entries(Emptied(block, k))[i]} :: 0 <= i < k ==> !Live(Entries(Emptied(block, k))[i])
  {
    if k > 0 {
      EmptiedEntries(block, k - 1);
      InumberWritten(Emptied(block, k - 1), k - 1, NO_INUMBER);
    }
  }

  /** Initialisation succeeds exactly when there is an inode and a block for the root, and yields no files. */
  lemma InitWorks(s: Fs)
    requires Booted(s)
    ensures var r := InitFs(s);
      && r.value == (if |s.inodes| > 0 && |s.blocks| > 0 then 0 else -1)
      && (r.value == 0 ==>
            && Inv(r.state)
            && Abs(r.state) == AbsFs(s.blockSize, |s.inodes|, |s.blocks|, |s.openFiles|, map[], map[]))
  {
    var r := InitFs(s);
    if r.value == 0 {
      var s' := r.state;
      EmptiedEntries(s.blocks[0], |s.blocks[0]| / ENTRY_SIZE);
      EmptyDirectory(Entries(s'.blocks[0]));
      assert TakenIn(s'.inodeAlloc) == {0} && TakenIn(s'.blockAlloc) == {0} && TakenIn(s'.openAlloc) == {};
      assert BlockMap(s') == map[0 := 0];
      assert 0 in BlockMap(s') && BlockMap(s')[0] == 0;
      InitLinked(s');
      InvFrom(s', map[]);
    }
  }

  lemma InitLinked(s: Fs)
    requires Shape(s) && RootInode(s)
    requires TakenIn(s.inodeAlloc) == {0} && TakenIn(s.blockAlloc) == {0} && TakenIn(s.openAlloc) == {}
    requires BlockMap(s) == map[0 := 0]
    ensures Linked(s, map[])
    ensures AbsWith(s, map[]) == AbsFs(s.blockSize, |s.inodes|, |s.blocks|, |s.openFiles|, map[], map[])
  {
    assert BlockMap(s)[0] == 0;
    assert BlockMap(s).Values == {0};
    var none: map<CString, int> := map[];
    assert none.Values == {};
  }

  // ---------- runs ----------

  /** Every operation of the run is guarded in the state in which it is made. */
  ghost predicate GuardedRun(a: AbsFs, ops: seq<Op>)
    requires AbsInv(a)
    decreases |ops|
  {
    ops == [] ||
    (Guarded(a, ops[0]) &&
     (AbsStepKeepsInv(a, ops[0]); GuardedRun(AbsStep(a, ops[0]).state, ops[1..])))
  }

  /** The caller's view of a run: the final files and handles, and every answer. */
  ghost function AbsRun(a: AbsFs, ops: seq<Op>): (AbsFs, seq<(int, seq<Byte>)>)
    requires AbsInv(a) && GuardedRun(a, ops)
    decreases |ops|
  {
    if ops == [] then (a, [])
    else
      AbsStepKeepsInv(a, ops[0]);
      var r := AbsStep(a, ops[0]);
      var rest := AbsRun(r.state, ops[1..]);
      (rest.0, [(r.value, r.bytes)] + rest.1)
  }

  /** The same run on the tables. */
  ghost function RunFs(s: Fs, ops: seq<Op>): (r: (Fs, seq<(int, seq<Byte>)>))
    requires Inv(s) && AbsInv(Abs(s)) && GuardedRun(Abs(s), ops)
    decreases |ops|
  {
    if ops == [] then (s, [])
    else
      StepRefines(s, ops[0]);
      AbsStepKeepsInv(Abs(s), ops[0]);
      var r := StepFs(s, ops[0]);
      var rest := RunFs(r.state, ops[1..]);
      (rest.0, [(r.value, r.bytes)] + rest.1)
  }

  /** Over every guarded run the tables give the same answers as the map of files, and stay consistent. */
  lemma {:induction false} RunRefines(s: Fs, ops: seq<Op>)
    requires Inv(s) && AbsInv(Abs(s)) && GuardedRun(Abs(s), ops)
    ensures Inv(RunFs(s, ops).0)
    ensures AbsRun(Abs(s), ops) == (Abs(RunFs(s, ops).0), RunFs(s, ops).1)
    decreases |ops|
  {
    if ops != [] {
      StepRefines(s, ops[0]);
      AbsStepKeepsInv(Abs(s), ops[0]);
      RunRefines(StepFs(s, ops[0]).state, ops[1..]);
    }
  }

  /** What the tables satisfy in every state of every guarded run from initialisation. */
  lemma EveryGuardedRunIsSafe(s: Fs, ops: seq<Op>)
    requires Booted(s) && InitFs(s).value == 0
    requires var a := AbsFs(s.blockSize, |s.inodes|, |s.blocks|, |s.openFiles|, map[], map[]);
      AbsInv(a) && GuardedRun(a, ops)
    ensures Inv(InitFs(s).state) && AbsInv(Abs(InitFs(s).state)) && GuardedRun(Abs(InitFs(s).state), ops)
    ensures var t := RunFs(InitFs(s).state, ops).0;
      && Inv(t)
      && Injective(BlockMap(t)) && BlockMap(t).Values == TakenIn(t.blockAlloc)
      && Injective(Inumbers(t)) && Inumbers(t).Values == TakenIn(t.inodeAlloc) - {ROOT}
      && (forall h :: h in TakenIn(t.openAlloc) ==>
            t.openFiles[h].offset <= t.inodes[t.openFiles[h].inumber].size <= t.blockSize)
  {
    InitWorks(s);
    RunRefines(InitFs(s).state, ops);
    var t := RunFs(InitFs(s).state, ops).0;
    forall h | h in TakenIn(t.openAlloc)
      ensures t.openFiles[h].offset <= t.inodes[t.openFiles[h].inumber].size <= t.blockSize
    {
      HandleFile(t, Inumbers(t), h);
    }
  }

  // ---------- what the guards keep out ----------

  /** A file is created, one byte is written through the handle, and the handle stays open. */
  const A_NAME: CString := [97]
  const A_PATH: Option<CString> := Some([47, 97])

  const CREATE: Op := Open(A_PATH, Mode(true, false, false))
  const WRITE_ONE: Op := Write(0, [1])

  /** Room for one file with one byte, and one handle. */
  predicate HasRoom(s: Fs) {
    |s.inodes| >= 2 && |s.blocks| >= 2 && |s.openFiles| >= 1 && s.blockSize >= ENTRY_SIZE
  }

  lemma TwoSteps(a: AbsFs, op1: Op, a1: AbsFs, op2: Op, a2: AbsFs)
    requires AbsInv(a) && Guarded(a, op1) && AbsStep(a, op1).state == a1
    requires AbsInv(a1) && Guarded(a1, op2) && AbsStep(a1, op2).state == a2
    ensures GuardedRun(a, [op1, op2]) && AbsRun(a, [op1, op2]).0 == a2
  {
    AbsStepKeepsInv(a1, op2);
    assert [op1, op2][1..] == [op2] && [op2][1..] == [];
    assert GuardedRun(a1, [op2]) && AbsRun(a1, [op2]).0 == a2;
  }

  lemma AfterCreate(a: AbsFs)
    requires AbsInv(a) && a.files == map[] && a.handles == map[]
    requires a.inodeCount >= 2 && a.openCount >= 1 && a.blockSize >= ENTRY_SIZE
    ensures AbsStep(a, CREATE).state == a.(files := map[A_NAME := []], handles := map[0 := Handle(A_NAME, 0)])
  {
    assert A_PATH.value[1..] == A_NAME;
    assert LowestFree(a.handles, 0, a.openCount) == 0;
  }

  lemma AfterWriteOne(a: AbsFs)
    requires AbsInv(a) && a.files == map[A_NAME := []] && a.handles == map[0 := Handle(A_NAME, 0)]
    requires a.blockCount >= 2 && a.blockSize >= ENTRY_SIZE
    ensures AbsStep(a, WRITE_ONE).state == a.(files := map[A_NAME := [1]], handles := map[0 := Handle(A_NAME, 1)])
  {
    assert HandleInside(a, 0);
    assert NonEmpty(a.files) == {};
    var data: seq<Byte> := [1];
    assert data[..1] == data && Overwritten([], 0, data) == data;
  }

  lemma AfterWriteAndStay(a: AbsFs)
    requires AbsInv(a) && a.files == map[] && a.handles == map[]
    requires a.inodeCount >= 2 && a.blockCount >= 2 && a.openCount >= 1 && a.blockSize >= ENTRY_SIZE
    ensures GuardedRun(a, [CREATE, WRITE_ONE])
    ensures AbsRun(a, [CREATE, WRITE_ONE]).0
      == a.(files := map[A_NAME := [1]], handles := map[0 := Handle(A_NAME, 1)])
  {
    var a1 := AbsStep(a, CREATE).state;
    AbsStepKeepsInv(a, CREATE);
    AfterCreate(a);
    AfterWriteOne(a1);
    TwoSteps(a, CREATE, a1, WRITE_ONE, AbsStep(a1, WRITE_ONE).state);
  }

  lemma OpenHandleForbids(a: AbsFs, mode: Mode)
    requires mode.trunc && a.files == map[A_NAME := [1]] && a.handles == map[0 := Handle(A_NAME, 1)]
    ensures !Guarded(a, Unlink(A_PATH)) && !Guarded(a, Open(A_PATH, mode))
  {
    assert A_PATH.value[1..] == A_NAME;
    assert 0 in a.handles && a.handles[0] == Handle(A_NAME, 1);
  }

  /** One handle is open on "/a", past the beginning: unlinking or truncating it breaks the tables. */
  lemma OpenHandleIsStranded(s: Fs, mode: Mode)
    requires Inv(s) && mode.trunc
    requires Abs(s).files == map[A_NAME := [1]] && Abs(s).handles == map[0 := Handle(A_NAME, 1)]
    ensures !Inv(StepFs(s, Unlink(A_PATH)).state)
    ensures !Inv(StepFs(s, Open(A_PATH, mode)).state)
  {
    OpenHandleForbids(Abs(s), mode);
    InvariantIffGuarded(s, Unlink(A_PATH));
    InvariantIffGuarded(s, Open(A_PATH, mode));
  }

  /**
   * The guards can fail: after a guarded run from initialisation, with one handle open on "/a",
   * unlinking "/a", or opening it once more for truncation, breaks the tables.
   */
  lemma GuardsCanFail(s: Fs, mode: Mode)
    requires Booted(s) && HasRoom(s) && mode.trunc
    ensures InitFs(s).value == 0 && Inv(InitFs(s).state) && AbsInv(Abs(InitFs(s).state))
    ensures GuardedRun(Abs(InitFs(s).state), [CREATE, WRITE_ONE])
    ensures var t := RunFs(InitFs(s).state, [CREATE, WRITE_ONE]).0;
      Inv(t) && !Inv(StepFs(t, Unlink(A_PATH)).state) && !Inv(StepFs(t, Open(A_PATH, mode)).state)
  {
    InitWorks(s);
    var t := InitFs(s).state;
    AbsIsInside(t, Inumbers(t));
    AfterWriteAndStay(Abs(t));
    RunRefines(t, [CREATE, WRITE_ONE]);
    OpenHandleIsStranded(RunFs(t, [CREATE, WRITE_ONE]).0, mode);
  }

  // ---------- reading a file that grows ----------

  /** From every state of the run to the next, the file of this name is only extended. */
  ghost predicate OnlyGrows(a: AbsFs, ops: seq<Op>, name: CString)
    requires AbsInv(a) && GuardedRun(a, ops)
    decreases |ops|
  {
    name in a.files &&
    (ops == [] ||
     (AbsStepKeepsInv(a, ops[0]);
      var a' := AbsStep(a, ops[0]).state;
      name in a'.files && a.files[name] <= a'.files[name] && OnlyGrows(a', ops[1..], name)))
  }

  /** The handle is used for nothing but reading. */
  predicate OnlyRead(ops: seq<Op>, h: int) {
    forall i :: 0 <= i < |ops| ==> ops[i] != Close(h) && (ops[i].Write? ==> ops[i].handle != h)
  }

  /** Everything that reads on handle h return, one after the other. */
  ghost function BytesRead(a: AbsFs, ops: seq<Op>, h: int): seq<Byte>
    requires AbsInv(a) && GuardedRun(a, ops)
    decreases |ops|
  {
    if ops == [] then []
    else
      AbsStepKeepsInv(a, ops[0]);
      var r := AbsStep(a, ops[0]);
      (if ops[0].Read? && ops[0].handle == h then r.bytes else []) + BytesRead(r.state, ops[1..], h)
  }

  lemma StepOfReader(a: AbsFs, op: Op, h: int)
    requires AbsInv(a) && Guarded(a, op) && h in a.handles
    requires op != Close(h) && (op.Write? ==> op.handle != h)
    ensures var a', Handle(n, offset) := AbsStep(a, op).state, a.handles[h];
      && h in a'.handles && a'.handles[h].name == n
      && n in a.files && offset <= |a.files[n]|
      && (if op.Read? && op.handle == h
          then
            && offset <= a'.handles[h].offset <= |a.files[n]|
            && AbsStep(a, op).bytes == a.files[n][offset..a'.handles[h].offset]
          else a'.handles[h].offset == offset)
  {
    assert HandleInside(a, h);
    if op.Open? { LowestFreeFacts(a.handles, 0, a.openCount); }
  }

  /**
   * While others only append, the reads on a handle return, put together, exactly the bytes between
   * the offset at which it started and the offset that it has reached: from 0, the beginning of the file.
   */
  lemma {:induction false} ReadsArePrefix(a: AbsFs, ops: seq<Op>, h: int)
    requires AbsInv(a) && GuardedRun(a, ops)
    requires h in a.handles && OnlyRead(ops, h) && OnlyGrows(a, ops, a.handles[h].name)
    ensures var a', n, from := AbsRun(a, ops).0, a.handles[h].name, a.handles[h].offset;
      && h in a'.handles && a'.handles[h].name == n && n in a'.files
      && from <= a'.handles[h].offset <= |a'.files[n]| && a.files[n] <= a'.files[n]
      && BytesRead(a, ops, h) == a'.files[n][from..a'.handles[h].offset]
    decreases |ops|
  {
    assert HandleInside(a, h);
    if ops != [] {
      AbsStepKeepsInv(a, ops[0]);
      StepOfReader(a, ops[0], h);
      var a1 := AbsStep(a, ops[0]).state;
      ReadsArePrefix(a1, ops[1..], h);
      var n, to, from, mid := a.handles[h].name, AbsRun(a, ops).0, a.handles[h].offset, a1.handles[h].offset;
      assert to == AbsRun(a1, ops[1..]).0;
      assert a.files[n][from..mid] == to.files[n][from..mid];
    }
  }
}
