/** TécnicoFS as a value: the tables of fs/state.c and what each operation of fs/operations.c does to them. */
module FsModel {
  import opened Options
  import opened CStrings
  import opened Maps
  import opened Directory

  datatype InodeType = TFile | TDirectory

  datatype Inode = Inode(nodeType: InodeType, size: nat, block: int)

  datatype Alloc = Free | Taken

  datatype OpenFile = OpenFile(inumber: int, offset: nat)

  datatype Fs = Fs(
    blockSize: nat,
    inodes: seq<Inode>, inodeAlloc: seq<Alloc>,
    blocks: seq<seq<Byte>>, blockAlloc: seq<Alloc>,
    openFiles: seq<OpenFile>, openAlloc: seq<Alloc>)

  /** tfs_file_mode_t, one flag per bit. */
  datatype Mode = Mode(creat: bool, trunc: bool, append: bool)

  /** The state after an operation, the value it returns, and the bytes it stores in the caller's buffer. */
  datatype Reply = Reply(state: Fs, value: int, bytes: seq<Byte>)

  const ROOT: nat := 0
  const SIZE_MODULUS: nat := 0x1_0000_0000_0000_0000

  /** A difference of two size_t values wraps around. */
  function SizeMinus(a: nat, b: nat): nat
    requires a < SIZE_MODULUS && b < SIZE_MODULUS
  {
    if a >= b then a - b else a - b + SIZE_MODULUS
  }

  function Smaller(a: nat, b: nat): nat { if a < b then a else b }

  function Larger(a: nat, b: nat): nat { if a > b then a else b }

  // ---------- the invariant ----------

  ghost predicate Shape(s: Fs) {
    && 0 < s.blockSize < SIZE_MODULUS
    && 0 < |s.inodes| == |s.inodeAlloc| <= INT_LIMIT
    && |s.blocks| == |s.blockAlloc| <= INT_LIMIT
    && |s.openFiles| == |s.openAlloc| <= INT_LIMIT
    && (forall b {:trigger s.blocks[b]} :: 0 <= b < |s.blocks| ==> |s.blocks[b]| == s.blockSize)
  }

  ghost predicate RootInode(s: Fs)
    requires Shape(s)
  {
    && s.inodeAlloc[ROOT] == Taken
    && s.inodes[ROOT].nodeType == TDirectory
    && s.inodes[ROOT].size == s.blockSize
    && 0 <= s.inodes[ROOT].block < |s.blocks|
  }

  /** The entries in the root directory's block. */
  ghost function Dir(s: Fs): seq<DirEntry>
    requires Shape(s) && RootInode(s)
  {
    Entries(s.blocks[s.inodes[ROOT].block])
  }

  ghost function Inumbers(s: Fs): map<CString, int>
    requires Shape(s) && RootInode(s)
  {
    DirMap(Dir(s))
  }

  ghost function TakenIn(a: seq<Alloc>): set<int> {
    set i | 0 <= i < |a| && a[i] == Taken
  }

  /** The taken inodes that own a block, and the block that each owns. */
  ghost function BlockMap(s: Fs): map<int, int>
    requires Shape(s)
  {
    map i | i in TakenIn(s.inodeAlloc) && s.inodes[i].size > 0 :: s.inodes[i].block
  }

  /** Inodes that hold bytes are one to one with the taken blocks: no block is leaked, shared or freed in use. */
  ghost predicate InodesMatchBlocks(s: Fs)
    requires Shape(s)
  {
    && Injective(BlockMap(s))
    && BlockMap(s).Values == TakenIn(s.blockAlloc)
    && (forall i {:trigger s.inodes[i]} :: i in TakenIn(s.inodeAlloc) ==> s.inodes[i].size <= s.blockSize)
  }

  /** Every open handle is on a file that exists, at an offset inside it. */
  ghost predicate HandlesInside(s: Fs)
    requires Shape(s)
  {
    forall h {:trigger s.openFiles[h]} :: h in TakenIn(s.openAlloc) ==>
      && s.openFiles[h].inumber in TakenIn(s.inodeAlloc) - {ROOT}
      && s.openFiles[h].offset <= s.inodes[s.openFiles[h].inumber].size
  }

  /** The tables agree with each other and with a directory that maps names to inumbers as d does. */
  ghost predicate Linked(s: Fs, d: map<CString, int>) {
    && Shape(s) && RootInode(s)
    && Injective(d) && d.Values == TakenIn(s.inodeAlloc) - {ROOT}
    && InodesMatchBlocks(s) && HandlesInside(s)
  }

  ghost predicate Inv(s: Fs) {
    Shape(s) && RootInode(s) && WellFormed(Dir(s)) && Linked(s, Inumbers(s))
  }

  // ---------- the functions of fs/state.c ----------

  /** The first free slot of an allocation table from i on, or -1. */
  function FirstFreeFrom(a: seq<Alloc>, i: nat): (r: int)
    requires i <= |a|
    ensures r == -1 || (i <= r < |a| && a[r] == Free)
    ensures forall j :: i <= j < (if r == -1 then |a| else r) ==> a[j] == Taken
    decreases |a| - i
  {
    if i == |a| then -1 else if a[i] == Free then i else assert a[i] == Taken; FirstFreeFrom(a, i + 1)
  }

  function FirstFree(a: seq<Alloc>): (r: int)
    ensures -1 <= r < |a|
    ensures r >= 0 ==> a[r] == Free && forall j :: 0 <= j < r ==> a[j] == Taken
    ensures r == -1 ==> forall j :: 0 <= j < |a| ==> a[j] == Taken
  {
    FirstFreeFrom(a, 0)
  }

  /** inode_delete of a taken inode. */
  function InodeDelete(s: Fs, i: int): Fs
    requires 0 <= i < |s.inodes| == |s.inodeAlloc|
    requires s.inodes[i].size > 0 ==> 0 <= s.inodes[i].block < |s.blockAlloc|
  {
    s.(blockAlloc := if s.inodes[i].size > 0 then s.blockAlloc[s.inodes[i].block := Free] else s.blockAlloc,
       inodeAlloc := s.inodeAlloc[i := Free])
  }

  /** add_to_open_file_table. */
  function AddOpenFile(s: Fs, inumber: int, offset: nat): Reply
    requires |s.openFiles| == |s.openAlloc|
  {
    var h := FirstFree(s.openAlloc);
    if h == -1 then Reply(s, -1, [])
    else Reply(s.(openAlloc := s.openAlloc[h := Taken],
                  openFiles := s.openFiles[h := OpenFile(inumber, offset)]), h, [])
  }

  /** get_open_file_entry returns an entry. */
  predicate IsHandle(s: Fs, h: int) {
    0 <= h < |s.openAlloc| && s.openAlloc[h] == Taken
  }

  // ---------- the operations of fs/operations.c ----------

  /** valid_pathname; None is the null pointer. */
  predicate ValidPath(path: Option<CString>) {
    path.Some? && |path.value| > 1 && path.value[0] == '/' as int
  }

  ghost function FileExistsFs(s: Fs, path: Option<CString>): int
    requires Inv(s)
  {
    if ValidPath(path) then FindInDir(Dir(s), path.value[1..]) else -1
  }

  ghost function OpenFs(s: Fs, path: Option<CString>, mode: Mode): Reply
    requires Inv(s)
  {
    if !ValidPath(path) then Reply(s, -1, [])
    else
      var name := path.value[1..];
      var inumber := FindInDir(Dir(s), name);
      if inumber >= 0 then
        FoundIsTaken(s, name);
        OpenExisting(s, inumber, mode)
      else if mode.creat then CreateFile(s, name)
      else Reply(s, -1, [])
  }

  /** Truncation frees the block but leaves its number in the inode. */
  function Truncated(s: Fs, i: int): Fs
    requires 0 <= i < |s.inodes|
    requires s.inodes[i].size > 0 ==> 0 <= s.inodes[i].block < |s.blockAlloc|
  {
    if s.inodes[i].size > 0 then
      s.(blockAlloc := s.blockAlloc[s.inodes[i].block := Free], inodes := s.inodes[i := s.inodes[i].(size := 0)])
    else s
  }

  function OpenExisting(s: Fs, i: int, mode: Mode): Reply
    requires 0 <= i < |s.inodes| && |s.openFiles| == |s.openAlloc|
    requires s.inodes[i].size > 0 ==> 0 <= s.inodes[i].block < |s.blockAlloc|
  {
    var s1 := if mode.trunc then Truncated(s, i) else s;
    AddOpenFile(s1, i, if mode.append then s1.inodes[i].size else 0)
  }

  /** inode_create(T_FILE), once a free inode has been found. */
  function WithFile(s: Fs, i: nat): Fs
    requires i < |s.inodes| == |s.inodeAlloc|
  {
    s.(inodeAlloc := s.inodeAlloc[i := Taken], inodes := s.inodes[i := Inode(TFile, 0, -1)])
  }

  ghost function SetDirBlock(s: Fs, block: seq<Byte>): Fs
    requires Shape(s) && RootInode(s)
  {
    s.(blocks := s.blocks[s.inodes[ROOT].block := block])
  }

  ghost function DirBlock(s: Fs): seq<Byte>
    requires Shape(s) && RootInode(s)
  {
    s.blocks[s.inodes[ROOT].block]
  }

  ghost function CreateFile(s: Fs, name: CString): Reply
    requires Inv(s)
  {
    var i := FirstFree(s.inodeAlloc);
    if i == -1 then Reply(s, -1, [])
    else
      var s1 := WithFile(s, i);
      var k := EmptyIndex(Dir(s));
      if |name| == 0 || |name| > MAX_FILE_NAME - 1 || k == |Dir(s)| then Reply(InodeDelete(s1, i), -1, [])
      else AddOpenFile(SetDirBlock(s1, WithEntry(DirBlock(s1), k, name, i)), i, 0)
  }

  function CloseFs(s: Fs, h: int): Reply {
    if !IsHandle(s, h) then Reply(s, -1, [])
    else Reply(s.(openAlloc := s.openAlloc[h := Free]), 0, [])
  }

  ghost function WriteFs(s: Fs, h: int, buffer: seq<Byte>): Reply
    requires Inv(s)
  {
    WriteWith(s, Inumbers(s), h, buffer)
  }

  /** The directory d only vouches for the tables; writing does not look at it. */
  ghost function WriteWith(s: Fs, d: map<CString, int>, h: int, buffer: seq<Byte>): Reply
    requires Linked(s, d)
  {
    if !IsHandle(s, h) then Reply(s, -1, [])
    else
      var i, offset := s.openFiles[h].inumber, s.openFiles[h].offset;
      var n := if |buffer| + offset > s.blockSize then s.blockSize - offset else |buffer|;
      if n == 0 then Reply(s, 0, [])
      else if s.inodes[i].size == 0 then
        var b := FirstFree(s.blockAlloc);
        if b == -1 then Reply(s, -1, [])
        else Reply(Written(s.(blockAlloc := s.blockAlloc[b := Taken]), h, b, buffer[..n]), n, [])
      else
        BlockOfInode(s, i);
        Reply(Written(s, h, s.inodes[i].block, buffer[..n]), n, [])
  }

  /** The bytes go to block b at the handle's offset; offset, size and block number follow. */
  function Written(s: Fs, h: int, b: int, data: seq<Byte>): Fs
    requires 0 <= h < |s.openFiles| && 0 <= s.openFiles[h].inumber < |s.inodes|
    requires 0 <= b < |s.blocks| && s.openFiles[h].offset + |data| <= |s.blocks[b]|
  {
    var i, offset := s.openFiles[h].inumber, s.openFiles[h].offset;
    s.(blocks := s.blocks[b := Patch(s.blocks[b], offset, data)],
       openFiles := s.openFiles[h := OpenFile(i, offset + |data|)],
       inodes := s.inodes[i := s.inodes[i].(block := b, size := Larger(s.inodes[i].size, offset + |data|))])
  }

  ghost function ReadFs(s: Fs, h: int, len: nat): Reply
    requires Inv(s)
  {
    ReadWith(s, Inumbers(s), h, len)
  }

  ghost function ReadWith(s: Fs, d: map<CString, int>, h: int, len: nat): Reply
    requires Linked(s, d)
  {
    if !IsHandle(s, h) then Reply(s, -1, [])
    else
      var i, offset := s.openFiles[h].inumber, s.openFiles[h].offset;
      var n := Smaller(SizeMinus(s.inodes[i].size, offset), len);
      if n == 0 then Reply(s, 0, [])
      else
        BlockOfInode(s, i);
        Reply(s.(openFiles := s.openFiles[h := OpenFile(i, offset + n)]), n,
              s.blocks[s.inodes[i].block][offset..offset + n])
  }

  ghost function UnlinkFs(s: Fs, path: Option<CString>): Reply
    requires Inv(s)
  {
    if !ValidPath(path) then Reply(s, -1, [])
    else
      var name := path.value[1..];
      var inumber := FindInDir(Dir(s), name);
      if inumber == -1 then Reply(s, -1, [])
      else
        FoundIsTaken(s, name);
        var k := NamedIndex(Dir(s), name);
        var s1 := InodeDelete(s, inumber);
        if k < |Dir(s)| then Reply(s1.(blocks := SetDirBlock(s, WithoutEntry(DirBlock(s), k)).blocks), 0, [])
        else Reply(s1, -1, [])
  }

  // ---------- what the operations rely on ----------

  lemma BlockOfInode(s: Fs, i: int)
    requires Shape(s) && InodesMatchBlocks(s) && i in TakenIn(s.inodeAlloc) && s.inodes[i].size > 0
    ensures i in BlockMap(s)
    ensures 0 <= s.inodes[i].block < |s.blocks| && s.blockAlloc[s.inodes[i].block] == Taken
    ensures |s.blocks[s.inodes[i].block]| == s.blockSize
  {
    assert BlockMap(s)[i] in BlockMap(s).Values;
  }

  /** What find_in_dir returns: -1, or the number of a taken inode other than the root. */
  lemma FoundIsTaken(s: Fs, name: CString)
    requires Inv(s)
    ensures var i := FindInDir(Dir(s), name);
      if name in Inumbers(s) then
        && i == Inumbers(s)[name] && i in TakenIn(s.inodeAlloc) && i != ROOT
        && (s.inodes[i].size > 0 ==> 0 <= s.inodes[i].block < |s.blockAlloc|)
      else i == -1
  {
    FindIsLookup(Dir(s), name);
    if name in Inumbers(s) {
      assert Inumbers(s)[name] in Inumbers(s).Values;
      if s.inodes[Inumbers(s)[name]].size > 0 { BlockOfInode(s, Inumbers(s)[name]); }
    }
  }

  /** What a read of an open handle returns and changes, without the wrap-around that cannot happen. */
  ghost function ReadReply(s: Fs, h: int, len: nat): Reply
    requires IsHandle(s, h) && h < |s.openFiles| && 0 <= s.openFiles[h].inumber < |s.inodes|
    requires var f := s.openFiles[h]; var inode := s.inodes[f.inumber];
      && f.offset <= inode.size <= s.blockSize
      && (inode.size > 0 ==> 0 <= inode.block < |s.blocks| && |s.blocks[inode.block]| == s.blockSize)
  {
    var f := s.openFiles[h];
    var n := Smaller(s.inodes[f.inumber].size - f.offset, len);
    if n == 0 then Reply(s, 0, [])
    else Reply(s.(openFiles := s.openFiles[h := OpenFile(f.inumber, f.offset + n)]), n,
               s.blocks[s.inodes[f.inumber].block][f.offset..f.offset + n])
  }

  lemma ReadIs(s: Fs, d: map<CString, int>, h: int, len: nat)
    requires Linked(s, d) && IsHandle(s, h)
    ensures h < |s.openFiles| && 0 <= s.openFiles[h].inumber < |s.inodes|
    ensures var f := s.openFiles[h]; var inode := s.inodes[f.inumber];
      && f.offset <= inode.size <= s.blockSize
      && (inode.size > 0 ==> 0 <= inode.block < |s.blocks| && |s.blocks[inode.block]| == s.blockSize)
    ensures ReadWith(s, d, h, len) == ReadReply(s, h, len)
  {
    assert h in TakenIn(s.openAlloc);
    assert s.openFiles[h].inumber in TakenIn(s.inodeAlloc);
    if s.inodes[s.openFiles[h].inumber].size > 0 { BlockOfInode(s, s.openFiles[h].inumber); }
  }

  /** The obligations of a write: a valid inode, room in the block, and a valid block when the file is not empty. */
  predicate MayWriteTo(s: Fs, h: int, data: seq<Byte>) {
    && 0 <= h < |s.openFiles| && 0 <= s.openFiles[h].inumber < |s.inodes| && |s.blocks| == |s.blockAlloc|
    && s.openFiles[h].offset + |data| <= s.blockSize
    && (forall b {:trigger s.blocks[b]} :: 0 <= b < |s.blocks| ==> |s.blocks[b]| == s.blockSize)
    && (var inode := s.inodes[s.openFiles[h].inumber]; inode.size > 0 ==> 0 <= inode.block < |s.blocks|)
  }

  /** What a write of these bytes answers and leaves. */
  function WriteReply(s: Fs, h: int, data: seq<Byte>): Reply
    requires MayWriteTo(s, h, data)
  {
    var inode, b := s.inodes[s.openFiles[h].inumber], FirstFree(s.blockAlloc);
    if data == [] then Reply(s, 0, [])
    else if inode.size > 0 then Reply(Written(s, h, inode.block, data), |data|, [])
    else if b == -1 then Reply(s, -1, [])
    else Reply(Written(s.(blockAlloc := s.blockAlloc[b := Taken]), h, b, data), |data|, [])
  }

  lemma WriteIs(s: Fs, d: map<CString, int>, h: int, buffer: seq<Byte>)
    requires Linked(s, d) && IsHandle(s, h)
    ensures h < |s.openFiles| && s.openFiles[h].offset <= s.blockSize
    ensures var offset := s.openFiles[h].offset;
      var n := if |buffer| + offset > s.blockSize then s.blockSize - offset else |buffer|;
      MayWriteTo(s, h, buffer[..n]) && WriteWith(s, d, h, buffer) == WriteReply(s, h, buffer[..n])
  {
    assert h in TakenIn(s.openAlloc);
    assert s.openFiles[h].inumber in TakenIn(s.inodeAlloc);
    if s.inodes[s.openFiles[h].inumber].size > 0 { BlockOfInode(s, s.openFiles[h].inumber); }
  }

  /** Unlinking a valid path, by whether the name is there. */
  lemma UnlinkOfValid(s: Fs, path: Option<CString>)
    requires Inv(s) && ValidPath(path)
    ensures var name := path.value[1..];
      var i, k := FileExistsFs(s, path), NamedIndex(Dir(s), name);
      if i == -1 then UnlinkFs(s, path) == Reply(s, -1, [])
      else
        && name in Inumbers(s) && IsTaken(s, i) && k < |Dir(s)|
        && (s.inodes[i].size > 0 ==> 0 <= s.inodes[i].block < |s.blockAlloc|)
        && UnlinkFs(s, path)
           == Reply(InodeDelete(s, i).(blocks := SetDirBlock(s, WithoutEntry(DirBlock(s), k)).blocks), 0, [])
  {
    FoundIsTaken(s, path.value[1..]);
    if FileExistsFs(s, path) != -1 { ClearFindsTheEntry(Dir(s), path.value[1..]); }
  }

  predicate IsTaken(s: Fs, i: int) {
    0 <= i < |s.inodes| == |s.inodeAlloc| && s.inodeAlloc[i] == Taken
  }
}
