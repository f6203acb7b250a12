/** The main results about TécnicoFS: what every guarded run keeps and shows, and where the guards are needed. */
module FsTheorems {
  import opened Options
  import opened CStrings
  import opened Directory
  import opened FsModel
  import opened FsAbstract
  import opened FsAnswers
  import opened FsRefinement

  // ---------- one operation ----------

  ghost function StepFs(s: Fs, op: Op): Reply
    requires Inv(s)
  {
    match op
    case Open(path, mode) => OpenFs(s, path, mode)
    case Close(h) => CloseFs(s, h)
    case Write(h, buffer) => WriteFs(s, h, buffer)
    case Read(h, len) => ReadFs(s, h, len)
    case Unlink(path) => UnlinkFs(s, path)
  }

  /** The directory block may change as long as it still maps names as the tables say. */
  lemma InvFrom(s: Fs, d: map<CString, int>)
    requires Linked(s, d) && WellFormed(Dir(s)) && Inumbers(s) == d
    ensures Inv(s) && Abs(s) == AbsWith(s, d)
  {
  }

  lemma InvSame(s: Fs, s': Fs)
    requires Inv(s) && Linked(s', Inumbers(s)) && SameDirectory(s, s')
    ensures Inv(s') && Abs(s') == AbsWith(s', Inumbers(s))
  {
    InvFrom(s', Inumbers(s));
  }

  /** The guards, in terms of inodes. */
  lemma GuardsOnInodes(s: Fs, d: map<CString, int>, n: CString)
    requires Linked(s, d) && n in d
    ensures AllAtStart(s, d[n]) <==>
      forall h :: h in HandlesOf(s, d) && HandlesOf(s, d)[h].name == n ==> HandlesOf(s, d)[h].offset == 0
    ensures NoHandleOn(s, d[n]) <==> forall h :: h in HandlesOf(s, d) ==> HandlesOf(s, d)[h].name != n
  {
    forall h | h in TakenIn(s.openAlloc)
      ensures HandlesOf(s, d)[h].name == n <==> s.openFiles[h].inumber == d[n]
      ensures HandlesOf(s, d)[h].offset == s.openFiles[h].offset
    {
      HandleFile(s, d, h);
      NameOfIs(d, n);
    }
  }

  /** What is free in the tables, and what the abstraction says about it. */
  lemma Resources(s: Fs)
    requires Inv(s)
    ensures FirstFree(s.inodeAlloc) == -1 <==> NoInodeLeft(Abs(s))
    ensures EmptyIndex(Dir(s)) == |Dir(s)| <==> DirectoryFull(Abs(s))
    ensures FirstFree(s.openAlloc) == -1 <==> |Abs(s).handles| == |s.openAlloc|
    ensures FirstFree(s.blockAlloc) == -1 <==> NoBlockLeft(Abs(s))
  {
    InodeCount(s, Inumbers(s));
    BlockCount(s, Inumbers(s));
    HandleCount(s, Inumbers(s));
    DirectoryCount(s);
  }

  lemma DirectoryCount(s: Fs)
    requires Inv(s)
    ensures EmptyIndex(Dir(s)) == |Dir(s)| <==> DirectoryFull(Abs(s))
  {
    FullWhenAllNamed(Dir(s));
    FileCount(s, Inumbers(s));
  }

  lemma FileCount(s: Fs, d: map<CString, int>)
    ensures |FilesOf(s, d)| == |d|
  {
    assert FilesOf(s, d).Keys == d.Keys;
  }

  lemma HandleCount(s: Fs, d: map<CString, int>)
    requires Linked(s, d)
    ensures FirstFree(s.openAlloc) == -1 <==> |HandlesOf(s, d)| == |s.openAlloc|
  {
    AllTaken(s.openAlloc);
    assert HandlesOf(s, d).Keys == TakenIn(s.openAlloc);
  }

  lemma NewEntry(s: Fs, n: CString, i: nat)
    requires Inv(s) && n !in Inumbers(s) && 1 <= |n| < MAX_FILE_NAME && EmptyIndex(Dir(s)) < |Dir(s)| && i < INT_LIMIT
    ensures var es := Entries(WithEntry(DirBlock(s), EmptyIndex(Dir(s)), n, i));
      WellFormed(es) && DirMap(es) == Inumbers(s)[n := i]
  {
    EntryWritten(DirBlock(s), n, i);
    AddIsInsert(Dir(s), n, i);
  }

  lemma CreateFileIs(s: Fs, n: CString)
    requires Inv(s) && 1 <= |n| < MAX_FILE_NAME
    requires FirstFree(s.inodeAlloc) != -1 && EmptyIndex(Dir(s)) < |Dir(s)|
    ensures var i := FirstFree(s.inodeAlloc); var block := WithEntry(DirBlock(s), EmptyIndex(Dir(s)), n, i);
      CreateFile(s, n) == AddOpenFile(WithFile(s, i).(blocks := s.blocks[s.inodes[ROOT].block := block]), i, 0)
  {
  }

  /** A free inode and a free slot: the new file appears, empty, whether or not a handle is left for it. */
  lemma CreateSucceeds(s: Fs, n: CString)
    requires Inv(s) && n !in Inumbers(s) && 1 <= |n| < MAX_FILE_NAME
    requires FirstFree(s.inodeAlloc) != -1 && EmptyIndex(Dir(s)) < |Dir(s)|
    ensures var r, a := CreateFile(s, n), Abs(s);
      && Inv(r.state)
      && AddHandle(a.(files := a.files[n := []]), n, 0) == AbsReply(Abs(r.state), r.value, r.bytes)
  {
    var i, k := FirstFree(s.inodeAlloc), EmptyIndex(Dir(s));
    NewEntry(s, n, i);
    CreateAndOpenRefines(s, Inumbers(s), n, WithEntry(DirBlock(s), k, n, i));
    CreateFileIs(s, n);
    InvFrom(CreateFile(s, n).state, Inumbers(s)[n := i]);
  }

  lemma CreateStep(s: Fs, n: CString)
    requires Inv(s) && n !in Inumbers(s) && 1 <= |n|
    ensures var r, a := CreateFile(s, n), Abs(s);
      && Inv(r.state)
      && (if NoInodeLeft(a) || |n| >= MAX_FILE_NAME || DirectoryFull(a)
          then r.value == -1 && r.bytes == [] && Abs(r.state) == a
          else AddHandle(a.(files := a.files[n := []]), n, 0) == AbsReply(Abs(r.state), r.value, r.bytes))
  {
    var i := FirstFree(s.inodeAlloc);
    Resources(s);
    if i == -1 {
    } else if |n| >= MAX_FILE_NAME || EmptyIndex(Dir(s)) == |Dir(s)| {
      RollbackRefines(s, Inumbers(s));
      InvSame(s, InodeDelete(WithFile(s, i), i));
    } else {
      CreateSucceeds(s, n);
    }
  }

  lemma OpenStep(s: Fs, path: Option<CString>, mode: Mode)
    requires Inv(s) && Guarded(Abs(s), Open(path, mode))
    ensures var r := OpenFs(s, path, mode);
      Inv(r.state) && AbsOpen(Abs(s), path, mode) == AbsReply(Abs(r.state), r.value, r.bytes)
  {
    if ValidPath(path) {
      var d, n: CString := Inumbers(s), path.value[1..];
      FoundIsTaken(s, n);
      if n in d {
        GuardsOnInodes(s, d, n);
        OpenExistingRefines(s, d, n, mode);
        InvSame(s, OpenExisting(s, d[n], mode).state);
      } else if mode.creat {
        CreateStep(s, n);
      }
    }
  }

  /** clear_dir_entry, after inode_delete, stops at the entry that find_in_dir found and removes that name. */
  lemma ClearStep(s: Fs, n: CString)
    requires Inv(s) && n in Inumbers(s)
    ensures var k := NamedIndex(Dir(s), n);
      && k == FindIndex(Dir(s), n) < |Dir(s)| && ScanStaysInside(Dir(s), n)
      && WellFormed(Entries(WithoutEntry(DirBlock(s), k)))
      && DirMap(Entries(WithoutEntry(DirBlock(s), k))) == Inumbers(s) - {n}
  {
    ClearFindsTheEntry(Dir(s), n);
    EntryErased(DirBlock(s), NamedIndex(Dir(s), n));
    ClearIsRemove(Dir(s), n);
  }

  lemma UnlinkStep(s: Fs, path: Option<CString>)
    requires Inv(s) && Guarded(Abs(s), Unlink(path))
    ensures var r := UnlinkFs(s, path);
      Inv(r.state) && AbsUnlink(Abs(s), path) == AbsReply(Abs(r.state), r.value, r.bytes)
  {
    if ValidPath(path) {
      var d, n: CString := Inumbers(s), path.value[1..];
      FoundIsTaken(s, n);
      if n in d {
        GuardsOnInodes(s, d, n);
        ClearStep(s, n);
        DeleteRefines(s, d, n, WithoutEntry(DirBlock(s), NamedIndex(Dir(s), n)));
        InvFrom(UnlinkFs(s, path).state, d - {n});
      }
    }
  }

  /**
   * Every guarded operation keeps the invariant of the tables and is, result included,
   * the same operation on the map of files and the table of handles.
   */
  lemma StepRefines(s: Fs, op: Op)
    requires Inv(s) && Guarded(Abs(s), op)
    ensures Inv(StepFs(s, op).state)
    ensures AbsInv(Abs(s))
    ensures var r := StepFs(s, op);
      AbsStep(Abs(s), op) == AbsReply(Abs(r.state), r.value, r.bytes)
  {
    AbsIsInside(s, Inumbers(s));
    match op
    case Open(path, mode) => OpenStep(s, path, mode);
    case Unlink(path) => UnlinkStep(s, path);
    case Close(h) =>
      CloseRefines(s, Inumbers(s), h);
      InvSame(s, CloseFs(s, h).state);
    case Write(h, buffer) =>
      WriteRefines(s, Inumbers(s), h, buffer);
      InvSame(s, WriteFs(s, h, buffer).state);
    case Read(h, len) =>
      ReadRefines(s, Inumbers(s), h, len);
      InvSame(s, ReadFs(s, h, len).state);
  }

  /**
   * A creating open of a new, valid path fails exactly when no inode is free, the name exceeds 39 bytes,
   * the directory is full or the handle table is full. In the first three cases nothing changes; in the
   * last the empty file stays.
   */
  lemma CreateFailsExactlyWhen(s: Fs, path: Option<CString>, mode: Mode)
    requires Inv(s) && ValidPath(path) && path.value[1..] !in Abs(s).files && mode.creat
    ensures var r, a, n := OpenFs(s, path, mode), Abs(s), path.value[1..];
      var refused := NoInodeLeft(a) || |n| > 39 || DirectoryFull(a);
      && Inv(r.state)
      && (r.value == -1 <==> refused || |a.handles| == a.openCount)
      && (refused ==> Abs(r.state) == a)
      && (!refused && r.value == -1 ==> Abs(r.state) == a.(files := a.files[n := []]))
      && (r.value != -1 ==>
            && Abs(r.state).files == a.files[n := []] && r.value !in a.handles
            && Abs(r.state).handles == a.handles[r.value := Handle(n, 0)])
  {
    var n: CString := path.value[1..];
    FoundIsTaken(s, n);
    assert n !in Inumbers(s);
    CreateStep(s, n);
    Resources(s);
    HandleFound(s, Inumbers(s), Abs(s).(files := Abs(s).files[n := []]), n);
  }

  lemma HandleFound(s: Fs, d: map<CString, int>, a: AbsFs, n: CString)
    requires Linked(s, d) && a.handles == HandlesOf(s, d) && a.openCount == |s.openFiles|
    ensures var r := AddHandle(a, n, 0);
      && (r.value == -1 <==> |a.handles| == a.openCount)
      && (r.value == -1 ==> r.state == a)
      && (r.value != -1 ==> r.value !in a.handles && r.state == a.(handles := a.handles[r.value := Handle(n, 0)]))
  {
    var h := FirstFree(s.openAlloc);
    HandleCount(s, d);
    LowestFreeIs(a.handles, s.openAlloc, 0);
    assert h != -1 ==> h !in TakenIn(s.openAlloc);
  }

  /** A lookup answers -1 exactly when there is no file of that name, and else the number of its inode. */
  lemma LookupAnswers(s: Fs, path: Option<CString>, name: CString)
    requires Inv(s) && PathNames(path, name)
    ensures var r := FileExistsFs(s, path);
      && (r == -1 <==> name !in Abs(s).files)
      && (r != -1 ==> IsTaken(s, r) && r != ROOT && FileBytes(s, r) == Abs(s).files[name])
  {
    PathNamesIs(path, name);
    FoundIsTaken(s, name);
  }

  lemma LookupOfBadPath(s: Fs, path: Option<CString>)
    requires Inv(s) && BadPath(path)
    ensures FileExistsFs(s, path) == -1
  {
    BadPathIs(path);
  }

  // ---------- the guards are exactly what is needed ----------

  lemma OpenOfExisting(s: Fs, path: Option<CString>, mode: Mode)
    requires Inv(s) && ValidPath(path) && path.value[1..] in Inumbers(s)
    ensures var i := Inumbers(s)[path.value[1..]];
      && i in TakenIn(s.inodeAlloc)
      && (s.inodes[i].size > 0 ==> 0 <= s.inodes[i].block < |s.blockAlloc|)
      && OpenFs(s, path, mode) == OpenExisting(s, i, mode)
  {
    FoundIsTaken(s, path.value[1..]);
  }

  lemma UnlinkOfExisting(s: Fs, path: Option<CString>)
    requires Inv(s) && ValidPath(path) && path.value[1..] in Inumbers(s)
    ensures var i := Inumbers(s)[path.value[1..]];
      && i in TakenIn(s.inodeAlloc)
      && (s.inodes[i].size > 0 ==> 0 <= s.inodes[i].block < |s.blockAlloc|)
      && UnlinkFs(s, path).state.inodeAlloc == InodeDelete(s, i).inodeAlloc
      && UnlinkFs(s, path).state.inodes == s.inodes
      && UnlinkFs(s, path).state.openFiles == s.openFiles
      && UnlinkFs(s, path).state.openAlloc == s.openAlloc
  {
    FoundIsTaken(s, path.value[1..]);
    UnlinkOfValid(s, path);
  }

  /** The handle that an unguarded operation would strand. */
  lemma UnguardedHandle(a: AbsFs, op: Op) returns (n: CString, h: int)
    requires !Guarded(a, op)
    ensures h in a.handles && a.handles[h].name == n && n in a.files
    ensures match op
      case Open(path, mode) => ValidPath(path) && path.value[1..] == n && mode.trunc && a.handles[h].offset != 0
      case Unlink(path) => ValidPath(path) && path.value[1..] == n
      case _ => false
  {
    n := op.path.value[1..];
    if op.Open? {
      h :| h in a.handles && a.handles[h].name == n && a.handles[h].offset != 0;
    } else {
      h :| h in a.handles && a.handles[h].name == n;
    }
  }

  /** An open handle on a valid inode number. */
  predicate IsOpen(s: Fs, h: int) {
    IsHandle(s, h) && h < |s.openFiles| && 0 <= s.openFiles[h].inumber < |s.inodes| <= |s.inodeAlloc|
  }

  predicate OnFreeInode(s: Fs, h: int) {
    IsOpen(s, h) && s.inodeAlloc[s.openFiles[h].inumber] == Free
  }

  predicate PastTheEnd(s: Fs, h: int) {
    IsOpen(s, h) && s.openFiles[h].offset > s.inodes[s.openFiles[h].inumber].size
  }

  /** A handle whose inode is free, or that is past the end of its file. */
  predicate Stranded(s: Fs, h: int) {
    OnFreeInode(s, h) || PastTheEnd(s, h)
  }

  lemma UnguardedOpenBreaks(s: Fs, path: Option<CString>, mode: Mode)
    requires Inv(s) && !Guarded(Abs(s), Open(path, mode))
    ensures exists h :: PastTheEnd(OpenFs(s, path, mode).state, h)
    ensures !Inv(OpenFs(s, path, mode).state)
  {
    var n, h := UnguardedHandle(Abs(s), Open(path, mode));
    OpenOfExisting(s, path, mode);
    TruncationStrands(s, Inumbers(s), n, mode, h);
    assert PastTheEnd(OpenFs(s, path, mode).state, h);
    StrandedIsNotInside(OpenFs(s, path, mode).state, h);
  }

  lemma UnguardedUnlinkBreaks(s: Fs, path: Option<CString>)
    requires Inv(s) && !Guarded(Abs(s), Unlink(path))
    ensures exists h :: OnFreeInode(UnlinkFs(s, path).state, h)
    ensures !Inv(UnlinkFs(s, path).state)
  {
    var n, h := UnguardedHandle(Abs(s), Unlink(path));
    UnlinkOfExisting(s, path);
    DeleteStrands(s, Inumbers(s), n, h);
    assert OnFreeInode(UnlinkFs(s, path).state, h);
    StrandedIsNotInside(UnlinkFs(s, path).state, h);
  }

  /** An operation keeps the tables consistent if and only if it is guarded. */
  lemma InvariantIffGuarded(s: Fs, op: Op)
    requires Inv(s)
    ensures Inv(StepFs(s, op).state) <==> Guarded(Abs(s), op)
  {
    if Guarded(Abs(s), op) {
      StepRefines(s, op);
    } else if op.Open? {
      UnguardedOpenBreaks(s, op.path, op.mode);
    } else {
      UnguardedUnlinkBreaks(s, op.path);
    }
  }

  lemma StrandedIsNotInside(s: Fs, h: int)
    requires Stranded(s, h)
    ensures !Inv(s)
  {
    assert h in TakenIn(s.openAlloc);
  }
}
