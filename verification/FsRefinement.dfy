/** Every guarded operation on the tables is the same operation on the map of files and the table of handles. */
module FsRefinement {
  import opened CStrings
  import opened Maps
  import opened FsModel
  import opened FsAbstract

  // ---------- the abstraction, for a directory that maps names to inumbers as d does ----------

  /** The bytes of inode i. */
  function FileBytes(s: Fs, i: int): seq<Byte> {
    if 0 <= i < |s.inodes| && s.inodes[i].size > 0 && 0 <= s.inodes[i].block < |s.blocks|
       && s.inodes[i].size <= |s.blocks[s.inodes[i].block]|
    then s.blocks[s.inodes[i].block][..s.inodes[i].size]
    else []
  }

  ghost function FilesOf(s: Fs, d: map<CString, int>): map<CString, seq<Byte>> {
    map n | n in d :: FileBytes(s, d[n])
  }

  /** The name of inode i in the directory. */
  ghost function NameOf(d: map<CString, int>, i: int): CString {
    if i in d.Values then KeyOf(d, i) else []
  }

  ghost function HandlesOf(s: Fs, d: map<CString, int>): map<int, Handle>
    requires |s.openFiles| == |s.openAlloc|
  {
    map h | h in TakenIn(s.openAlloc) :: Handle(NameOf(d, s.openFiles[h].inumber), s.openFiles[h].offset)
  }

  ghost function AbsWith(s: Fs, d: map<CString, int>): AbsFs
    requires |s.openFiles| == |s.openAlloc|
  {
    AbsFs(s.blockSize, |s.inodes|, |s.blocks|, |s.openFiles|, FilesOf(s, d), HandlesOf(s, d))
  }

  ghost function Abs(s: Fs): AbsFs
    requires Inv(s)
  {
    AbsWith(s, Inumbers(s))
  }

  // ---------- basic facts ----------

  lemma NameOfIs(d: map<CString, int>, n: CString)
    requires Injective(d) && n in d
    ensures NameOf(d, d[n]) == n
  {
    assert d[n] in d.Values;
  }

  lemma InodeOfName(s: Fs, d: map<CString, int>, n: CString)
    requires Linked(s, d) && n in d
    ensures d[n] in TakenIn(s.inodeAlloc) && d[n] != ROOT
    ensures |FileBytes(s, d[n])| == s.inodes[d[n]].size <= s.blockSize
    ensures s.inodes[d[n]].size > 0 ==>
      d[n] in BlockMap(s) && FileBytes(s, d[n]) == s.blocks[s.inodes[d[n]].block][..s.inodes[d[n]].size]
  {
    assert d[n] in d.Values;
    if s.inodes[d[n]].size > 0 { BlockOfInode(s, d[n]); }
  }

  /** A handle's file, seen from both sides. */
  lemma HandleFile(s: Fs, d: map<CString, int>, h: int)
    requires Linked(s, d) && IsHandle(s, h)
    ensures var f := s.openFiles[h]; var n := NameOf(d, f.inumber);
      && n in d && d[n] == f.inumber
      && f.offset <= s.inodes[f.inumber].size
      && h in HandlesOf(s, d) && HandlesOf(s, d)[h] == Handle(n, f.offset)
  {
    assert h in TakenIn(s.openAlloc);
  }

  lemma AbsIsInside(s: Fs, d: map<CString, int>)
    requires Linked(s, d)
    ensures AbsInv(AbsWith(s, d))
  {
    forall n | n in d ensures |FilesOf(s, d)[n]| <= s.blockSize { InodeOfName(s, d, n); }
    forall h ensures HandleInside(AbsWith(s, d), h) {
      if h in HandlesOf(s, d) {
        HandleFile(s, d, h);
        InodeOfName(s, d, NameOf(d, s.openFiles[h].inumber));
      }
    }
  }

  /** The root directory owns its block; no other inode does. */
  lemma RootOwnsItsBlock(s: Fs, d: map<CString, int>)
    requires Linked(s, d)
    ensures ROOT in BlockMap(s) && BlockMap(s)[ROOT] == s.inodes[ROOT].block
    ensures s.blockAlloc[s.inodes[ROOT].block] == Taken
    ensures forall i :: i in BlockMap(s) && i != ROOT ==> s.inodes[i].block != s.inodes[ROOT].block
  {
    BlockOfInode(s, ROOT);
    forall i | i in BlockMap(s) && i != ROOT ensures s.inodes[i].block != s.inodes[ROOT].block {
      assert BlockMap(s)[i] == s.inodes[i].block;
    }
  }

  /** The directory is as it was. */
  ghost predicate SameDirectory(s: Fs, s': Fs)
    requires Shape(s) && RootInode(s) && Shape(s') && RootInode(s')
  {
    DirBlock(s') == DirBlock(s)
  }

  // ---------- resources: what is free is what the abstraction says is free ----------

  lemma InodeCount(s: Fs, d: map<CString, int>)
    requires Linked(s, d)
    ensures FirstFree(s.inodeAlloc) == -1 <==> NoInodeLeft(AbsWith(s, d))
  {
    FilesPlusRoot(s, d, TakenIn(s.inodeAlloc));
    AllTaken(s.inodeAlloc);
  }

  lemma FilesPlusRoot(s: Fs, d: map<CString, int>, taken: set<int>)
    requires Injective(d) && ROOT in taken && d.Values == taken - {ROOT}
    ensures |taken| == |FilesOf(s, d)| + 1
  {
    InjectiveSize(d);
    assert FilesOf(s, d).Keys == d.Keys;
    assert taken == d.Values + {ROOT};
  }

  lemma AllTaken(a: seq<Alloc>)
    ensures FirstFree(a) == -1 <==> |TakenIn(a)| == |a|
  {
    BelowSize(TakenIn(a), |a|);
    if FirstFree(a) >= 0 { assert FirstFree(a) !in TakenIn(a); }
  }

  /** The inode of every non-empty file. */
  ghost function NonEmptyInodes(s: Fs, d: map<CString, int>): map<CString, int> {
    map n | n in NonEmpty(FilesOf(s, d)) :: d[n]
  }

  /** The inodes that own blocks are the root and those of the non-empty files, one for each. */
  lemma OwnersAreNonEmpty(s: Fs, d: map<CString, int>)
    requires Linked(s, d)
    ensures NonEmptyInodes(s, d).Keys == NonEmpty(FilesOf(s, d)) && Injective(NonEmptyInodes(s, d))
    ensures BlockMap(s).Keys == NonEmptyInodes(s, d).Values + {ROOT}
    ensures |BlockMap(s)| == |NonEmpty(FilesOf(s, d))| + 1
  {
    var owners, m := BlockMap(s).Keys, NonEmptyInodes(s, d);
    RootOwnsItsBlock(s, d);
    NonEmptyInodesOwn(s, d);
    InjectiveSize(m);
    assert |owners - {ROOT}| == |owners| - 1;
    assert m.Keys == NonEmpty(FilesOf(s, d));
  }

  lemma NonEmptyInodesOwn(s: Fs, d: map<CString, int>)
    requires Linked(s, d)
    ensures Injective(NonEmptyInodes(s, d))
    ensures NonEmptyInodes(s, d).Values == BlockMap(s).Keys - {ROOT}
  {
    var owners, m := BlockMap(s), NonEmptyInodes(s, d);
    forall i | i in owners.Keys - {ROOT} ensures i in m.Values {
      assert i in d.Values;
      var n := KeyOf(d, i);
      InodeOfName(s, d, n);
      assert n in m && m[n] == i;
    }
    forall i | i in m.Values ensures i in owners.Keys - {ROOT} {
      InodeOfName(s, d, KeyOf(m, i));
    }
  }

  lemma BlockCount(s: Fs, d: map<CString, int>)
    requires Linked(s, d)
    ensures FirstFree(s.blockAlloc) == -1 <==> NoBlockLeft(AbsWith(s, d))
  {
    InjectiveSize(BlockMap(s));
    AllTaken(s.blockAlloc);
    OwnersAreNonEmpty(s, d);
  }

  lemma {:induction false} LowestFreeIs(handles: map<int, Handle>, openAlloc: seq<Alloc>, i: nat)
    requires handles.Keys == TakenIn(openAlloc) && i <= |openAlloc|
    requires forall j :: 0 <= j < i ==> openAlloc[j] == Taken
    ensures LowestFree(handles, i, |openAlloc|) == FirstFree(openAlloc)
    decreases |openAlloc| - i
  {
    if i < |openAlloc| && i in handles { LowestFreeIs(handles, openAlloc, i + 1); }
  }

  // ---------- handles: close, open of what exists ----------

  lemma CloseRefines(s: Fs, d: map<CString, int>, h: int)
    requires Linked(s, d)
    ensures var r := CloseFs(s, h);
      && Linked(r.state, d)
      && AbsClose(AbsWith(s, d), h) == AbsReply(AbsWith(r.state, d), r.value, r.bytes)
  {
    var s' := CloseFs(s, h).state;
    assert BlockMap(s') == BlockMap(s);
    if IsHandle(s, h) {
      assert TakenIn(s'.openAlloc) == TakenIn(s.openAlloc) - {h};
      assert HandlesOf(s', d) == HandlesOf(s, d) - {h};
      assert FilesOf(s', d) == FilesOf(s, d);
    } else {
      assert h !in TakenIn(s.openAlloc);
    }
  }

  lemma AddOpenFileRefines(s: Fs, d: map<CString, int>, n: CString, offset: nat)
    requires Linked(s, d) && n in d && d[n] in TakenIn(s.inodeAlloc) && offset <= s.inodes[d[n]].size
    ensures var r := AddOpenFile(s, d[n], offset);
      && Linked(r.state, d)
      && AddHandle(AbsWith(s, d), n, offset) == AbsReply(AbsWith(r.state, d), r.value, r.bytes)
  {
    var s', h := AddOpenFile(s, d[n], offset).state, FirstFree(s.openAlloc);
    LowestFreeIs(HandlesOf(s, d), s.openAlloc, 0);
    if h != -1 {
      InodeOfName(s, d, n);
      assert BlockMap(s') == BlockMap(s);
      HandleAdded(s, d, n, offset, h, s');
    }
  }

  lemma HandleAdded(s: Fs, d: map<CString, int>, n: CString, offset: nat, h: nat, s': Fs)
    requires |s.openFiles| == |s.openAlloc| && h < |s.openFiles| && Injective(d) && n in d
    requires s' == s.(openAlloc := s.openAlloc[h := Taken], openFiles := s.openFiles[h := OpenFile(d[n], offset)])
    ensures TakenIn(s'.openAlloc) == TakenIn(s.openAlloc) + {h}
    ensures HandlesOf(s', d) == HandlesOf(s, d)[h := Handle(n, offset)]
    ensures FilesOf(s', d) == FilesOf(s, d)
  {
    NameOfIs(d, n);
  }

  /** tfs_open of a file that exists: truncate if asked to, then look for a free handle. */
  lemma OpenExistingRefines(s: Fs, d: map<CString, int>, n: CString, mode: Mode)
    requires Linked(s, d) && n in d && d[n] in TakenIn(s.inodeAlloc)
    requires mode.trunc ==> AllAtStart(s, d[n])
    requires s.inodes[d[n]].size > 0 ==> 0 <= s.inodes[d[n]].block < |s.blockAlloc|
    ensures n in FilesOf(s, d)
    ensures var r, a := OpenExisting(s, d[n], mode), AbsWith(s, d);
      && Linked(r.state, d) && SameDirectory(s, r.state)
      && (var bytes := if mode.trunc then [] else a.files[n];
          AddHandle(a.(files := a.files[n := bytes]), n, if mode.append then |bytes| else 0)
          == AbsReply(AbsWith(r.state, d), r.value, r.bytes))
  {
    InodeOfName(s, d, n);
    var s1 := s;
    if mode.trunc {
      TruncateRefines(s, d, n);
      s1 := Truncated(s, d[n]);
    } else {
      assert FilesOf(s, d)[n := FilesOf(s, d)[n]] == FilesOf(s, d);
    }
    AddOpenFileRefines(s1, d, n, if mode.append then s1.inodes[d[n]].size else 0);
  }

  /** A truncation leaves every handle that is past the beginning outside the file. */
  lemma TruncationStrands(s: Fs, d: map<CString, int>, n: CString, mode: Mode, h: int)
    requires Linked(s, d) && n in d && d[n] in TakenIn(s.inodeAlloc) && mode.trunc
    requires s.inodes[d[n]].size > 0 ==> 0 <= s.inodes[d[n]].block < |s.blockAlloc|
    requires h in HandlesOf(s, d) && HandlesOf(s, d)[h].name == n && HandlesOf(s, d)[h].offset > 0
    ensures var s' := OpenExisting(s, d[n], mode).state;
      && IsHandle(s', h) && |s'.inodes| == |s.inodes|
      && s'.openFiles[h] == OpenFile(d[n], HandlesOf(s, d)[h].offset) && s'.inodes[d[n]].size == 0
  {
    HandleFile(s, d, h);
    NameOfIs(d, n);
  }

  // ---------- create ----------

  lemma NameOfInsert(d: map<CString, int>, n: CString, i: int, j: int)
    requires Injective(d) && n !in d && i !in d.Values && j in d.Values
    ensures NameOf(d[n := i], j) == NameOf(d, j)
  {
    InjectiveInsert(d, n, i);
    assert d[n := i][NameOf(d, j)] == j;
    NameOfIs(d[n := i], NameOf(d, j));
  }

  lemma InsertKeepsHandles(s: Fs, d: map<CString, int>, n: CString, i: int)
    requires Linked(s, d) && n !in d && i !in d.Values
    ensures HandlesOf(s, d[n := i]) == HandlesOf(s, d)
  {
    forall h | h in TakenIn(s.openAlloc)
      ensures NameOf(d[n := i], s.openFiles[h].inumber) == NameOf(d, s.openFiles[h].inumber)
    {
      HandleFile(s, d, h);
      NameOfInsert(d, n, i, s.openFiles[h].inumber);
    }
  }

  lemma CreatedTables(s: Fs, d: map<CString, int>, s': Fs)
    requires Linked(s, d) && FirstFree(s.inodeAlloc) != -1
    requires s' == WithFile(s, FirstFree(s.inodeAlloc)).(blocks := s'.blocks) && Shape(s')
    ensures TakenIn(s'.inodeAlloc) == TakenIn(s.inodeAlloc) + {FirstFree(s.inodeAlloc)}
    ensures InodesMatchBlocks(s') && HandlesInside(s')
  {
    assert FirstFree(s.inodeAlloc) !in TakenIn(s.inodeAlloc);
    assert BlockMap(s') == BlockMap(s);
  }

  lemma CreatedFiles(s: Fs, d: map<CString, int>, n: CString, s': Fs)
    requires Linked(s, d) && n !in d && FirstFree(s.inodeAlloc) != -1
    requires Shape(s') && s' == WithFile(s, FirstFree(s.inodeAlloc)).(blocks := s'.blocks)
    requires s'.blocks == s.blocks[s.inodes[ROOT].block := s'.blocks[s.inodes[ROOT].block]]
    ensures FilesOf(s', d[n := FirstFree(s.inodeAlloc)]) == FilesOf(s, d)[n := []]
  {
    forall m | m in d ensures FileBytes(s', d[m]) == FileBytes(s, d[m]) {
      InodeOfName(s, d, m);
      OtherKeepsBytes(s, d, s', m);
    }
  }

  /** A new inode, and a new directory block with an entry for it. */
  lemma CreateRefines(s: Fs, d: map<CString, int>, n: CString, block: seq<Byte>)
    requires Linked(s, d) && n !in d && FirstFree(s.inodeAlloc) != -1 && |block| == s.blockSize
    ensures var i := FirstFree(s.inodeAlloc);
      var s' := WithFile(s, i).(blocks := s.blocks[s.inodes[ROOT].block := block]);
      && Linked(s', d[n := i]) && s'.inodes[ROOT] == s.inodes[ROOT]
      && AbsWith(s', d[n := i]) == AbsWith(s, d).(files := FilesOf(s, d)[n := []])
  {
    var i := FirstFree(s.inodeAlloc);
    var s', d' := WithFile(s, i).(blocks := s.blocks[s.inodes[ROOT].block := block]), d[n := i];
    assert i !in TakenIn(s.inodeAlloc) && i != ROOT;
    InjectiveInsert(d, n, i);
    CreatedTables(s, d, s');
    CreatedFiles(s, d, n, s');
    InsertKeepsHandles(s, d, n, i);
  }

  /** No file's bytes are in the directory's block. */
  lemma OtherKeepsBytes(s: Fs, d: map<CString, int>, s': Fs, n: CString)
    requires Linked(s, d) && n in d && 0 <= d[n] < |s.inodes| == |s'.inodes| && s'.inodes[d[n]] == s.inodes[d[n]]
    requires |s'.blocks| == |s.blocks|
    requires forall b :: 0 <= b < |s.blocks| && b != s.inodes[ROOT].block ==> s'.blocks[b] == s.blocks[b]
    ensures FileBytes(s', d[n]) == FileBytes(s, d[n])
  {
    RootOwnsItsBlock(s, d);
    InodeOfName(s, d, n);
  }

  lemma OthersKeepBytes(s: Fs, d: map<CString, int>, s': Fs, block: seq<Byte>)
    requires Linked(s, d) && |block| == s.blockSize
    requires s'.blocks == s.blocks[s.inodes[ROOT].block := block] && |s'.inodes| == |s.inodes|
    ensures forall n :: n in d && 0 <= d[n] < |s.inodes| && s'.inodes[d[n]] == s.inodes[d[n]] ==>
      FileBytes(s', d[n]) == FileBytes(s, d[n])
  {
    forall n | n in d && 0 <= d[n] < |s.inodes| && s'.inodes[d[n]] == s.inodes[d[n]]
      ensures FileBytes(s', d[n]) == FileBytes(s, d[n]) {
      OtherKeepsBytes(s, d, s', n);
    }
  }

  /** Creation followed by the search for a free handle. */
  lemma CreateAndOpenRefines(s: Fs, d: map<CString, int>, n: CString, block: seq<Byte>)
    requires Linked(s, d) && n !in d && FirstFree(s.inodeAlloc) != -1 && |block| == s.blockSize
    ensures var i := FirstFree(s.inodeAlloc);
      var s2 := WithFile(s, i).(blocks := s.blocks[s.inodes[ROOT].block := block]);
      var r, a := AddOpenFile(s2, i, 0), AbsWith(s, d);
      && Linked(r.state, d[n := i]) && DirBlock(r.state) == block
      && AddHandle(a.(files := a.files[n := []]), n, 0) == AbsReply(AbsWith(r.state, d[n := i]), r.value, r.bytes)
  {
    var i := FirstFree(s.inodeAlloc);
    CreateRefines(s, d, n, block);
    var s2 := WithFile(s, i).(blocks := s.blocks[s.inodes[ROOT].block := block]);
    InodeOfName(s2, d[n := i], n);
    AddOpenFileRefines(s2, d[n := i], n, 0);
  }

  /** When the entry cannot be added the new inode is given back, and nothing shows. */
  lemma RollbackRefines(s: Fs, d: map<CString, int>)
    requires Linked(s, d) && FirstFree(s.inodeAlloc) != -1
    ensures var i := FirstFree(s.inodeAlloc); var s' := InodeDelete(WithFile(s, i), i);
      Linked(s', d) && SameDirectory(s, s') && AbsWith(s', d) == AbsWith(s, d)
  {
    var i := FirstFree(s.inodeAlloc);
    var s' := InodeDelete(WithFile(s, i), i);
    assert i !in TakenIn(s.inodeAlloc) && i != ROOT;
    assert s'.inodeAlloc == s.inodeAlloc;
    assert BlockMap(s') == BlockMap(s);
    forall n | n in d ensures FileBytes(s', d[n]) == FileBytes(s, d[n]) { InodeOfName(s, d, n); }
    assert FilesOf(s', d) == FilesOf(s, d);
    assert HandlesOf(s', d) == HandlesOf(s, d);
  }

  // ---------- unlink ----------

  ghost predicate NoHandleOn(s: Fs, i: int)
    requires |s.openFiles| == |s.openAlloc|
  {
    forall h {:trigger s.openFiles[h]} :: h in TakenIn(s.openAlloc) ==> s.openFiles[h].inumber != i
  }

  lemma NameOfRemove(d: map<CString, int>, n: CString, j: int)
    requires Injective(d) && n in d && j in d.Values && j != d[n]
    ensures NameOf(d - {n}, j) == NameOf(d, j)
  {
    InjectiveRemove(d, n);
    var m := NameOf(d, j);
    assert m in d - {n} && (d - {n})[m] == j;
    NameOfIs(d - {n}, m);
  }

  lemma RemoveKeepsHandles(s: Fs, d: map<CString, int>, n: CString)
    requires Linked(s, d) && n in d && NoHandleOn(s, d[n])
    ensures HandlesOf(s, d - {n}) == HandlesOf(s, d)
  {
    forall h | h in TakenIn(s.openAlloc)
      ensures NameOf(d - {n}, s.openFiles[h].inumber) == NameOf(d, s.openFiles[h].inumber)
    {
      HandleFile(s, d, h);
      NameOfRemove(d, n, s.openFiles[h].inumber);
    }
  }

  /** inode_delete: the inode and its block are free again. */
  lemma DeleteRefines(s: Fs, d: map<CString, int>, n: CString, block: seq<Byte>)
    requires Linked(s, d) && n in d && d[n] in TakenIn(s.inodeAlloc) && NoHandleOn(s, d[n]) && |block| == s.blockSize
    requires s.inodes[d[n]].size > 0 ==> 0 <= s.inodes[d[n]].block < |s.blockAlloc|
    ensures var s' := InodeDelete(s, d[n]).(blocks := s.blocks[s.inodes[ROOT].block := block]);
      && Linked(s', d - {n}) && s'.inodes[ROOT] == s.inodes[ROOT]
      && AbsWith(s', d - {n}) == AbsWith(s, d).(files := FilesOf(s, d) - {n})
  {
    var i, d' := d[n], d - {n};
    var s' := InodeDelete(s, i).(blocks := s.blocks[s.inodes[ROOT].block := block]);
    InodeOfName(s, d, n);
    InjectiveRemove(d, n);
    assert TakenIn(s'.inodeAlloc) == TakenIn(s.inodeAlloc) - {i};
    DeletedOwners(s, d, i, s');
    OthersKeepBytes(s, d, s', block);
    assert FilesOf(s', d') == FilesOf(s, d) - {n};
    RemoveKeepsHandles(s, d, n);
  }

  lemma DeletedOwners(s: Fs, d: map<CString, int>, i: int, s': Fs)
    requires Linked(s, d) && i in TakenIn(s.inodeAlloc)
    requires s.inodes[i].size > 0 ==> 0 <= s.inodes[i].block < |s.blockAlloc|
    requires s' == InodeDelete(s, i).(blocks := s'.blocks) && Shape(s')
    ensures InodesMatchBlocks(s')
  {
    if s.inodes[i].size > 0 {
      InjectiveRemove(BlockMap(s), i);
      assert BlockMap(s') == BlockMap(s) - {i};
      assert TakenIn(s'.blockAlloc) == TakenIn(s.blockAlloc) - {s.inodes[i].block};
    } else {
      assert BlockMap(s') == BlockMap(s);
    }
  }

  /** Deleting leaves every handle on the file with an inode that is free. */
  lemma DeleteStrands(s: Fs, d: map<CString, int>, n: CString, h: int)
    requires Linked(s, d) && n in d && d[n] in TakenIn(s.inodeAlloc)
    requires s.inodes[d[n]].size > 0 ==> 0 <= s.inodes[d[n]].block < |s.blockAlloc|
    requires h in HandlesOf(s, d) && HandlesOf(s, d)[h].name == n
    ensures IsHandle(s, h) && s.openFiles[h].inumber == d[n] && InodeDelete(s, d[n]).inodeAlloc[d[n]] == Free
  {
    HandleFile(s, d, h);
  }

  // ---------- read ----------

  /** The size never wraps below the offset, so a read returns what is left of the file, up to len bytes. */
  lemma ReadRefines(s: Fs, d: map<CString, int>, h: int, len: nat)
    requires Linked(s, d)
    ensures HandleInside(AbsWith(s, d), h)
    ensures var r := ReadWith(s, d, h, len);
      && Linked(r.state, d) && SameDirectory(s, r.state)
      && AbsRead(AbsWith(s, d), h, len) == AbsReply(AbsWith(r.state, d), r.value, r.bytes)
  {
    if IsHandle(s, h) {
      HandleReadRefines(s, d, h, len);
    } else {
      assert h !in TakenIn(s.openAlloc);
    }
  }

  lemma HandleReadRefines(s: Fs, d: map<CString, int>, h: int, len: nat)
    requires Linked(s, d) && IsHandle(s, h)
    ensures HandleInside(AbsWith(s, d), h)
    ensures var r := ReadWith(s, d, h, len);
      && Linked(r.state, d) && SameDirectory(s, r.state)
      && AbsRead(AbsWith(s, d), h, len) == AbsReply(AbsWith(r.state, d), r.value, r.bytes)
  {
    var f, n := s.openFiles[h], NameOf(d, s.openFiles[h].inumber);
    HandleFile(s, d, h);
    InodeOfName(s, d, n);
    ReadIs(s, d, h, len);
    ReadReplyRefines(s, d, h, len, CanRead(s, h, len));
  }

  /** What ReadIs says of an open handle: its offset is inside the file, and the file inside its block. */
  ghost predicate MayRead(s: Fs, d: map<CString, int>, h: int) {
    && Linked(s, d) && IsHandle(s, h) && 0 <= s.openFiles[h].inumber < |s.inodes|
    && var f := s.openFiles[h]; var inode := s.inodes[f.inumber];
       && f.offset <= inode.size <= s.blockSize
       && (inode.size > 0 ==> 0 <= inode.block < |s.blocks| && |s.blocks[inode.block]| == s.blockSize)
  }

  /** How many bytes a read of len through this handle returns. */
  ghost function CanRead(s: Fs, h: int, len: nat): nat
    requires 0 <= h < |s.openFiles| && 0 <= s.openFiles[h].inumber < |s.inodes|
    requires s.openFiles[h].offset <= s.inodes[s.openFiles[h].inumber].size
  {
    Smaller(s.inodes[s.openFiles[h].inumber].size - s.openFiles[h].offset, len)
  }

  lemma ReadReplyRefines(s: Fs, d: map<CString, int>, h: int, len: nat, got: nat)
    requires MayRead(s, d, h) && got == CanRead(s, h, len)
    ensures HandleInside(AbsWith(s, d), h)
    ensures var r := ReadReply(s, h, len);
      && Linked(r.state, d) && SameDirectory(s, r.state)
      && AbsRead(AbsWith(s, d), h, len) == AbsReply(AbsWith(r.state, d), r.value, r.bytes)
  {
    if got == 0 {
      ReadNothingRefines(s, d, h, len);
    } else {
      ReadSomeRefines(s, d, h, len);
    }
  }

  lemma ReadNothingRefines(s: Fs, d: map<CString, int>, h: int, len: nat)
    requires MayRead(s, d, h) && CanRead(s, h, len) == 0
    ensures HandleInside(AbsWith(s, d), h)
    ensures var r := ReadReply(s, h, len);
      && Linked(r.state, d) && SameDirectory(s, r.state)
      && AbsRead(AbsWith(s, d), h, len) == AbsReply(AbsWith(r.state, d), r.value, r.bytes)
  {
    var f, n := s.openFiles[h], NameOf(d, s.openFiles[h].inumber);
    ReadBytes(s, d, h, 0);
    assert HandlesOf(s, d)[h := Handle(n, f.offset)] == HandlesOf(s, d);
    ReadFrom(AbsWith(s, d), h, len, AbsWith(s, d).files[n], []);
  }

  lemma ReadSomeRefines(s: Fs, d: map<CString, int>, h: int, len: nat)
    requires MayRead(s, d, h) && CanRead(s, h, len) > 0
    ensures HandleInside(AbsWith(s, d), h)
    ensures var r := ReadReply(s, h, len);
      && Linked(r.state, d) && SameDirectory(s, r.state)
      && AbsRead(AbsWith(s, d), h, len) == AbsReply(AbsWith(r.state, d), r.value, r.bytes)
  {
    var f := s.openFiles[h];
    var got := Smaller(s.inodes[f.inumber].size - f.offset, len);
    var bytes := s.blocks[s.inodes[f.inumber].block][f.offset..f.offset + got];
    var s' := s.(openFiles := s.openFiles[h := OpenFile(f.inumber, f.offset + got)]);
    assert ReadReply(s, h, len) == Reply(s', |bytes|, bytes);
    ReadAt(s, d, h, got, s');
    BytesRead(s, d, h, len, bytes, s');
  }

  lemma BytesRead(s: Fs, d: map<CString, int>, h: int, len: nat, bytes: seq<Byte>, s': Fs)
    requires Linked(s, d) && IsHandle(s, h) && bytes != []
    requires var f := s.openFiles[h]; var inode := s.inodes[f.inumber];
      && 0 <= inode.block < |s.blocks| && f.offset + |bytes| <= inode.size <= |s.blocks[inode.block]|
      && |bytes| == Smaller(inode.size - f.offset, len)
      && bytes == s.blocks[inode.block][f.offset..f.offset + |bytes|]
      && s' == s.(openFiles := s.openFiles[h := OpenFile(f.inumber, f.offset + |bytes|)])
    ensures HandleInside(AbsWith(s, d), h)
    ensures AbsRead(AbsWith(s, d), h, len) == AbsReply(AbsWith(s', d), |bytes|, bytes)
  {
    ReadGives(s, d, h, len, bytes);
    OffsetMoved(s, d, h, |bytes|, s');
  }

  lemma ReadGives(s: Fs, d: map<CString, int>, h: int, len: nat, bytes: seq<Byte>)
    requires Linked(s, d) && IsHandle(s, h) && bytes != []
    requires var f := s.openFiles[h]; var inode := s.inodes[f.inumber];
      && 0 <= inode.block < |s.blocks| && f.offset + |bytes| <= inode.size <= |s.blocks[inode.block]|
      && |bytes| == Smaller(inode.size - f.offset, len)
      && bytes == s.blocks[inode.block][f.offset..f.offset + |bytes|]
    ensures HandleInside(AbsWith(s, d), h)
    ensures var a, f := AbsWith(s, d), s.openFiles[h];
      AbsRead(a, h, len) == AbsReply(
        a.(handles := a.handles[h := Handle(NameOf(d, f.inumber), f.offset + |bytes|)]), |bytes|, bytes)
  {
    var a, f := AbsWith(s, d), s.openFiles[h];
    ReadBytes(s, d, h, |bytes|);
    ReadFrom(a, h, len, a.files[a.handles[h].name], bytes);
  }

  lemma ReadFrom(a: AbsFs, h: int, len: nat, file: seq<Byte>, bytes: seq<Byte>)
    requires HandleInside(a, h) && h in a.handles && a.files[a.handles[h].name] == file
    requires |bytes| == Smaller(|file| - a.handles[h].offset, len)
    requires bytes == file[a.handles[h].offset..a.handles[h].offset + |bytes|]
    ensures var Handle(n, offset) := a.handles[h];
      AbsRead(a, h, len) == AbsReply(a.(handles := a.handles[h := Handle(n, offset + |bytes|)]), |bytes|, bytes)
  {
  }

  lemma ReadBytes(s: Fs, d: map<CString, int>, h: int, n: int)
    requires Linked(s, d) && IsHandle(s, h)
    requires 0 <= n <= s.inodes[s.openFiles[h].inumber].size - s.openFiles[h].offset
    ensures var a, f := AbsWith(s, d), s.openFiles[h]; var name := NameOf(d, f.inumber);
      && HandleInside(a, h) && h in a.handles && a.handles[h] == Handle(name, f.offset)
      && |a.files[name]| == s.inodes[f.inumber].size
      && a.files[name][f.offset..f.offset + n]
         == if n == 0 then [] else s.blocks[s.inodes[f.inumber].block][f.offset..f.offset + n]
  {
    HandleFile(s, d, h);
    var f := s.openFiles[h];
    InodeOfName(s, d, NameOf(d, f.inumber));
    if n > 0 {
      SliceOfPrefix(s.blocks[s.inodes[f.inumber].block], s.inodes[f.inumber].size, f.offset, f.offset + n);
    }
  }

  lemma SliceOfPrefix(bytes: seq<Byte>, size: nat, from: nat, to: nat)
    requires from <= to <= size <= |bytes|
    ensures bytes[..size][from..to] == bytes[from..to]
  {
    forall k | 0 <= k < to - from ensures bytes[..size][from..to][k] == bytes[from..to][k] {
      assert bytes[..size][from + k] == bytes[from + k];
    }
  }

  lemma ReadAt(s: Fs, d: map<CString, int>, h: int, n: int, s': Fs)
    requires Linked(s, d) && IsHandle(s, h) && 0 <= n
    requires s.openFiles[h].offset + n <= s.inodes[s.openFiles[h].inumber].size
    requires s' == s.(openFiles := s.openFiles[h := OpenFile(s.openFiles[h].inumber, s.openFiles[h].offset + n)])
    ensures Linked(s', d) && SameDirectory(s, s')
    ensures var a, f := AbsWith(s, d), s.openFiles[h];
      AbsWith(s', d) == a.(handles := a.handles[h := Handle(NameOf(d, f.inumber), f.offset + n)])
  {
    HandleFile(s, d, h);
    assert BlockMap(s') == BlockMap(s);
    OffsetMoved(s, d, h, n, s');
  }

  lemma OffsetMoved(s: Fs, d: map<CString, int>, h: int, n: int, s': Fs)
    requires |s.openFiles| == |s.openAlloc| && IsHandle(s, h) && 0 <= n
    requires s' == s.(openFiles := s.openFiles[h := OpenFile(s.openFiles[h].inumber, s.openFiles[h].offset + n)])
    ensures var a, f := AbsWith(s, d), s.openFiles[h];
      AbsWith(s', d) == a.(handles := a.handles[h := Handle(NameOf(d, f.inumber), f.offset + n)])
  {
    assert FilesOf(s', d) == FilesOf(s, d);
  }

  // ---------- truncation ----------

  /** No handle on the file is past its beginning. */
  ghost predicate AllAtStart(s: Fs, i: int)
    requires |s.openFiles| == |s.openAlloc|
  {
    forall h {:trigger s.openFiles[h]} :: h in TakenIn(s.openAlloc) && s.openFiles[h].inumber == i ==>
      s.openFiles[h].offset == 0
  }

  lemma TruncateRefines(s: Fs, d: map<CString, int>, n: CString)
    requires Linked(s, d) && n in d && d[n] in TakenIn(s.inodeAlloc)
    requires AllAtStart(s, d[n])
    requires s.inodes[d[n]].size > 0 ==> 0 <= s.inodes[d[n]].block < |s.blockAlloc|
    ensures var s' := Truncated(s, d[n]);
      && Linked(s', d)
      && s'.inodes[ROOT] == s.inodes[ROOT]
      && AbsWith(s', d) == AbsWith(s, d).(files := FilesOf(s, d)[n := []])
  {
    var i, s' := d[n], Truncated(s, d[n]);
    InodeOfName(s, d, n);
    if s.inodes[i].size > 0 {
      var b := s.inodes[i].block;
      InjectiveRemove(BlockMap(s), i);
      assert BlockMap(s') == BlockMap(s) - {i};
      assert TakenIn(s'.blockAlloc) == TakenIn(s.blockAlloc) - {b};
    }
    assert FilesOf(s', d) == FilesOf(s, d)[n := []];
    assert HandlesOf(s', d) == HandlesOf(s, d);
  }

  // ---------- write ----------

  /** Data goes to the block that the file owns, or to a fresh one when the file is empty. */
  ghost predicate OwnOrFresh(s: Fs, i: int, b: int)
    requires Shape(s) && i in TakenIn(s.inodeAlloc) && 0 <= b < |s.blocks|
  {
    if s.inodes[i].size > 0 then s.inodes[i].block == b else s.blockAlloc[b] == Free
  }

  /** The block map after a write: the file owns the block, and nobody else's block changes. */
  lemma WrittenOwners(s: Fs, d: map<CString, int>, h: int, b: int, data: seq<Byte>, s': Fs)
    requires Linked(s, d) && IsHandle(s, h) && data != []
    requires var f := s.openFiles[h];
      0 <= b < |s.blocks| && f.inumber in TakenIn(s.inodeAlloc) && OwnOrFresh(s, f.inumber, b)
      && f.offset + |data| <= s.blockSize
    requires s' == Written(s.(blockAlloc := s.blockAlloc[b := Taken]), h, b, data)
    ensures Shape(s') && InodesMatchBlocks(s')
    ensures forall i :: i in BlockMap(s) && i != s.openFiles[h].inumber ==>
      s.inodes[i].block != b
  {
    var i := s.openFiles[h].inumber;
    assert BlockMap(s') == BlockMap(s)[i := b];
    assert TakenIn(s'.blockAlloc) == TakenIn(s.blockAlloc) + {b};
    if s.inodes[i].size > 0 {
      assert BlockMap(s')== BlockMap(s);
      BlockOfInode(s, i);
    } else {
      InjectiveInsert(BlockMap(s), i, b);
    }
    forall j | j in BlockMap(s) && j != i ensures s.inodes[j].block != b {
      assert BlockMap(s)[j] in BlockMap(s).Values && BlockMap(s')[j] == s.inodes[j].block;
    }
  }

  /** What is asked of a write of data to block b through handle h. */
  ghost predicate MayWrite(s: Fs, d: map<CString, int>, h: int, b: int, data: seq<Byte>) {
    && Linked(s, d) && IsHandle(s, h) && data != []
    && 0 <= b < |s.blocks| && s.openFiles[h].inumber in TakenIn(s.inodeAlloc)
    && OwnOrFresh(s, s.openFiles[h].inumber, b)
    && s.openFiles[h].offset + |data| <= s.blockSize
  }

  function Wrote(s: Fs, h: int, b: int, data: seq<Byte>): Fs
    requires 0 <= h < |s.openFiles| && 0 <= s.openFiles[h].inumber < |s.inodes|
    requires 0 <= b < |s.blocks| == |s.blockAlloc| && s.openFiles[h].offset + |data| <= |s.blocks[b]|
  {
    Written(s.(blockAlloc := s.blockAlloc[b := Taken]), h, b, data)
  }

  /** A write changes the contents of exactly one name. */
  lemma WrittenFiles(s: Fs, d: map<CString, int>, h: int, b: int, data: seq<Byte>)
    requires MayWrite(s, d, h, b, data)
    ensures var n := NameOf(d, s.openFiles[h].inumber);
      && n in d && s.openFiles[h].offset <= |FilesOf(s, d)[n]|
      && FilesOf(Wrote(s, h, b, data), d)
         == FilesOf(s, d)[n := Overwritten(FilesOf(s, d)[n], s.openFiles[h].offset, data)]
  {
    var s', i, offset := Wrote(s, h, b, data), s.openFiles[h].inumber, s.openFiles[h].offset;
    var n := NameOf(d, i);
    HandleFile(s, d, h);
    InodeOfName(s, d, n);
    WrittenOwners(s, d, h, b, data, s');
    forall m | m in d && m != n ensures FileBytes(s', d[m]) == FileBytes(s, d[m]) {
      InodeOfName(s, d, m);
      assert d[m] != i;
    }
    OverwrittenIsPatch(s.blocks[b], s.inodes[i].size, offset, data);
  }

  lemma WrittenHandles(s: Fs, d: map<CString, int>, h: int, b: int, data: seq<Byte>)
    requires MayWrite(s, d, h, b, data)
    ensures var s' := Wrote(s, h, b, data);
      && h in HandlesOf(s, d)
      && HandlesInside(s')
      && HandlesOf(s', d)
         == HandlesOf(s, d)[h := Handle(NameOf(d, s.openFiles[h].inumber), s.openFiles[h].offset + |data|)]
  {
    assert h in TakenIn(s.openAlloc);
  }

  lemma WrittenRefines(s: Fs, d: map<CString, int>, h: int, b: int, data: seq<Byte>)
    requires MayWrite(s, d, h, b, data)
    ensures var s' := Wrote(s, h, b, data);
      && Linked(s', d) && SameDirectory(s, s')
      && h in HandlesOf(s, d)
      && (var a := AbsWith(s, d); var Handle(n, offset) := a.handles[h];
          && n in a.files && offset <= |a.files[n]|
          && AbsWith(s', d) == a.(files := a.files[n := Overwritten(a.files[n], offset, data)],
                                  handles := a.handles[h := Handle(n, offset + |data|)]))
  {
    HandleFile(s, d, h);
    WrittenFiles(s, d, h, b, data);
    WrittenHandles(s, d, h, b, data);
    WrittenOwners(s, d, h, b, data, Wrote(s, h, b, data));
    RootOwnsItsBlock(s, d);
  }

  lemma OverwrittenIsPatch(block: seq<Byte>, size: nat, offset: nat, data: seq<Byte>)
    requires offset <= size <= |block| && offset + |data| <= |block|
    ensures Patch(block, offset, data)[..Larger(size, offset + |data|)] == Overwritten(block[..size], offset, data)
  {
  }

  lemma WriteRefines(s: Fs, d: map<CString, int>, h: int, buffer: seq<Byte>)
    requires Linked(s, d)
    ensures HandleInside(AbsWith(s, d), h)
    ensures var r := WriteWith(s, d, h, buffer);
      && Linked(r.state, d) && SameDirectory(s, r.state)
      && AbsWrite(AbsWith(s, d), h, buffer) == AbsReply(AbsWith(r.state, d), r.value, r.bytes)
  {
    if IsHandle(s, h) {
      HandleWriteRefines(s, d, h, buffer);
    } else {
      assert h !in TakenIn(s.openAlloc);
    }
  }

  lemma HandleWriteRefines(s: Fs, d: map<CString, int>, h: int, buffer: seq<Byte>)
    requires Linked(s, d) && IsHandle(s, h)
    ensures HandleInside(AbsWith(s, d), h)
    ensures var r := WriteWith(s, d, h, buffer);
      && Linked(r.state, d) && SameDirectory(s, r.state)
      && AbsWrite(AbsWith(s, d), h, buffer) == AbsReply(AbsWith(r.state, d), r.value, r.bytes)
  {
    var a, i, offset := AbsWith(s, d), s.openFiles[h].inumber, s.openFiles[h].offset;
    var n := NameOf(d, i);
    HandleFile(s, d, h);
    InodeOfName(s, d, n);
    assert a.handles[h] == Handle(n, offset) && |a.files[n]| == s.inodes[i].size;
    var data := buffer[..Smaller(|buffer|, s.blockSize - offset)];
    BlockCount(s, d);
    if s.inodes[i].size > 0 { BlockOfInode(s, i); }
    if data == [] {
      assert AbsWrite(a, h, buffer) == AbsReply(a, 0, []);
      assert WriteWith(s, d, h, buffer) == Reply(s, 0, []);
    } else if TargetBlock(s, h) == -1 {
      assert AbsWrite(a, h, buffer) == AbsReply(a, -1, []);
      assert WriteWith(s, d, h, buffer) == Reply(s, -1, []);
    } else {
      WriteGoesTo(s, d, h, buffer, data);
    }
  }

  /** The block that a write of this handle goes to. */
  function TargetBlock(s: Fs, h: int): int
    requires 0 <= h < |s.openFiles| && 0 <= s.openFiles[h].inumber < |s.inodes|
  {
    var i := s.openFiles[h].inumber;
    if s.inodes[i].size > 0 then s.inodes[i].block else FirstFree(s.blockAlloc)
  }

  lemma WriteIsWrote(s: Fs, d: map<CString, int>, h: int, buffer: seq<Byte>, data: seq<Byte>)
    requires Linked(s, d) && IsHandle(s, h)
    requires s.openFiles[h].inumber in TakenIn(s.inodeAlloc) && s.openFiles[h].offset <= s.blockSize
    requires data != [] && data == buffer[..Smaller(|buffer|, s.blockSize - s.openFiles[h].offset)]
    requires TargetBlock(s, h) != -1
    ensures MayWrite(s, d, h, TargetBlock(s, h), data)
    ensures WriteWith(s, d, h, buffer) == Reply(Wrote(s, h, TargetBlock(s, h), data), |data|, [])
  {
    var i, b := s.openFiles[h].inumber, TargetBlock(s, h);
    if s.inodes[i].size > 0 {
      BlockOfInode(s, i);
      assert s.blockAlloc[b := Taken] == s.blockAlloc;
    }
  }

  /** A write that finds a block. */
  lemma WriteGoesTo(s: Fs, d: map<CString, int>, h: int, buffer: seq<Byte>, data: seq<Byte>)
    requires Linked(s, d) && IsHandle(s, h)
    requires s.openFiles[h].inumber in TakenIn(s.inodeAlloc) && s.openFiles[h].offset <= s.blockSize
    requires data != [] && data == buffer[..Smaller(|buffer|, s.blockSize - s.openFiles[h].offset)]
    requires TargetBlock(s, h) != -1
    ensures HandleInside(AbsWith(s, d), h)
    ensures var r := WriteWith(s, d, h, buffer);
      && Linked(r.state, d) && SameDirectory(s, r.state)
      && AbsWrite(AbsWith(s, d), h, buffer) == AbsReply(AbsWith(r.state, d), r.value, r.bytes)
  {
    WriteIsWrote(s, d, h, buffer, data);
    WrittenRefines(s, d, h, TargetBlock(s, h), data);
    WriteGives(s, d, h, buffer, data);
  }

  lemma WriteGives(s: Fs, d: map<CString, int>, h: int, buffer: seq<Byte>, data: seq<Byte>)
    requires Linked(s, d) && IsHandle(s, h) && 0 <= s.openFiles[h].inumber < |s.inodes|
    requires s.openFiles[h].offset <= s.blockSize && TargetBlock(s, h) != -1
    requires data != [] && data == buffer[..Smaller(|buffer|, s.blockSize - s.openFiles[h].offset)]
    ensures var a := AbsWith(s, d);
      && HandleInside(a, h) && h in a.handles
      && var Handle(n, offset) := a.handles[h];
         AbsWrite(a, h, buffer) == AbsReply(
           a.(files := a.files[n := Overwritten(a.files[n], offset, data)],
              handles := a.handles[h := Handle(n, offset + |data|)]), |data|, [])
  {
    FindsBlock(s, d, h);
    AbsWriteIs(AbsWith(s, d), h, buffer, data);
  }

  lemma FindsBlock(s: Fs, d: map<CString, int>, h: int)
    requires Linked(s, d) && IsHandle(s, h)
    ensures 0 <= s.openFiles[h].inumber < |s.inodes|
    ensures var a, f := AbsWith(s, d), s.openFiles[h];
      && HandleInside(a, h) && h in a.handles && a.handles[h] == Handle(NameOf(d, f.inumber), f.offset)
      && (a.files[a.handles[h].name] == [] && NoBlockLeft(a) <==> TargetBlock(s, h) == -1)
  {
    HandleFile(s, d, h);
    InodeOfName(s, d, NameOf(d, s.openFiles[h].inumber));
    BlockCount(s, d);
  }

  lemma AbsWriteIs(a: AbsFs, h: int, buffer: seq<Byte>, data: seq<Byte>)
    requires HandleInside(a, h) && h in a.handles
    requires data != [] && data == buffer[..Smaller(|buffer|, a.blockSize - a.handles[h].offset)]
    requires !(a.files[a.handles[h].name] == [] && NoBlockLeft(a))
    ensures var Handle(n, offset) := a.handles[h];
      AbsWrite(a, h, buffer) == AbsReply(
        a.(files := a.files[n := Overwritten(a.files[n], offset, data)],
           handles := a.handles[h := Handle(n, offset + |data|)]), |data|, [])
  {
  }
}
