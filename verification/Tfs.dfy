/** TécnicoFS over its tables in memory: fs/state.c and fs/operations.c, changed in place. */
module Tfs {
  import opened Options
  import opened CStrings
  import opened Directory
  import opened FsModel
  import opened FsRuns

  // ---------- blocks inside the flat data array ----------

  lemma BlockRange(b: nat, n: nat, size: nat)
    requires b < n
    ensures 0 <= b * size <= b * size + size <= n * size
  {
    assert (n - b - 1) * size >= 0;
    assert n * size == b * size + size + (n - b - 1) * size;
  }

  lemma BlocksDisjoint(b: nat, c: nat, size: nat)
    requires b < c
    ensures b * size + size <= c * size
  {
    BlockRange(b, c, size);
  }

  function BlockAt(data: seq<Byte>, size: nat, b: nat): seq<Byte> {
    if b * size + size <= |data| then data[b * size..b * size + size] else []
  }

  lemma BlocksFit(data: seq<Byte>, size: nat, n: nat)
    requires |data| == n * size
    ensures forall b: nat {:trigger BlockAt(data, size, b)} :: b < n ==>
      b * size + size <= |data| && |BlockAt(data, size, b)| == size
  {
    forall b: nat | b < n ensures b * size + size <= |data| { BlockRange(b, n, size); }
  }

  function BlocksOf(data: seq<Byte>, size: nat, n: nat): (r: seq<seq<Byte>>)
    requires |data| == n * size
    ensures |r| == n
    ensures forall b: nat {:trigger r[b]} :: b < n ==> r[b] == BlockAt(data, size, b) && |r[b]| == size
  {
    BlocksFit(data, size, n);
    seq(n, b requires 0 <= b => BlockAt(data, size, b))
  }

  lemma SetTwice<T>(s: seq<T>, i: nat, x: T, y: T)
    requires i < |s|
    ensures s[i := x][i := y] == s[i := y]
  {
  }

  /** Bytes stored inside one block change that block and no other. */
  lemma StoredInBlock(data: seq<Byte>, size: nat, n: nat, b: nat, offset: nat, source: seq<Byte>)
    requires |data| == n * size && b < n && offset + |source| <= size
    ensures b * size + size <= n * size
    ensures BlocksOf(Patch(data, b * size + offset, source), size, n)
      == BlocksOf(data, size, n)[b := Patch(BlocksOf(data, size, n)[b], offset, source)]
  {
    BlockRange(b, n, size);
    var r := Patch(data, b * size + offset, source);
    forall c: nat | c < n
      ensures BlocksOf(r, size, n)[c] ==
        if c == b then Patch(BlocksOf(data, size, n)[b], offset, source) else BlocksOf(data, size, n)[c]
    {
      BlockRange(c, n, size);
      if c < b { BlocksDisjoint(c, b, size); }
      if b < c { BlocksDisjoint(b, c, size); }
    }
  }

  lemma LoadedFromBlock(data: seq<Byte>, size: nat, n: nat, b: nat, offset: nat, k: nat)
    requires |data| == n * size && b < n && offset + k <= size
    ensures b * size + size <= |data|
    ensures var p := b * size;
      data[p + offset..p + offset + k] == BlocksOf(data, size, n)[b][offset..offset + k]
  {
    BlockRange(b, n, size);
    assert BlocksOf(data, size, n)[b] == BlockAt(data, size, b);
    SliceOfSlice(data, b * size, size, offset, k);
  }

  lemma SliceOfSlice(data: seq<Byte>, p: nat, size: nat, offset: nat, k: nat)
    requires p + size <= |data| && offset + k <= size
    ensures data[p..p + size][offset..offset + k] == data[p + offset..p + offset + k]
  {
    var l, r := data[p..p + size][offset..offset + k], data[p + offset..p + offset + k];
    forall j | 0 <= j < k ensures l[j] == r[j] {
      assert l[j] == data[p..p + size][offset + j] == data[p + offset + j];
    }
  }

  /** Setting the block number before the copy gives the same state. */
  lemma BlockNumberFirst(s: Fs, h: int, b: int, data: seq<Byte>)
    requires 0 <= h < |s.openFiles| && 0 <= s.openFiles[h].inumber < |s.inodes|
    requires 0 <= b < |s.blocks| && s.openFiles[h].offset + |data| <= |s.blocks[b]|
    ensures var i := s.openFiles[h].inumber;
      Written(s.(inodes := s.inodes[i := s.inodes[i].(block := b)]), h, b, data) == Written(s, h, b, data)
  {
  }

  lemma NextIsInside(es: seq<DirEntry>, sub: CString, i: nat)
    requires ScanStaysInside(es, sub) && i < |es| && forall j :: 0 <= j < i ==> !Named(es[j], sub)
    ensures Terminated(es[i].name)
    ensures Strcmp(StringAt(es[i].name), sub) == 0 <==> Named(es[i], sub)
    ensures Named(es[i], sub) ==> NamedIndex(es, sub) == i
  {
    assert i <= NamedIndex(es, sub);
    StrcmpZeroIsEquality(StringAt(es[i].name), sub);
  }

  class Tfs {
    const blockSize: nat
    const inodeTable: array<Inode>
    const freeInodes: array<Alloc>
    const fsData: array<Byte>
    const freeBlocks: array<Alloc>
    const openFileTable: array<OpenFile>
    const freeOpenFiles: array<Alloc>

    ghost predicate Valid()
      reads this
    {
      && 0 < blockSize < SIZE_MODULUS
      && inodeTable.Length == freeInodes.Length <= INT_LIMIT
      && fsData.Length == freeBlocks.Length * blockSize
      && freeBlocks.Length <= INT_LIMIT
      && openFileTable.Length == freeOpenFiles.Length <= INT_LIMIT
      && freeInodes != freeBlocks && freeInodes != freeOpenFiles && freeBlocks != freeOpenFiles
    }

    ghost function View(): Fs
      requires Valid()
      reads this, inodeTable, freeInodes, fsData, freeBlocks, openFileTable, freeOpenFiles
    {
      Fs(blockSize, inodeTable[..], freeInodes[..], BlocksOf(fsData[..], blockSize, freeBlocks.Length),
         freeBlocks[..], openFileTable[..], freeOpenFiles[..])
    }

    // ---------- fs/state.c ----------

    /** state_init: the tables are allocated and marked free; their other contents are arbitrary. */
    constructor (inodeCount: nat, blockCount: nat, openCount: nat, blockSize: nat)
      requires 0 < blockSize < 0x1_0000_0000_0000_0000
      requires inodeCount <= 0x8000_0000 && blockCount <= 0x8000_0000 && openCount <= 0x8000_0000
      ensures Valid() && Booted(View())
      ensures this.blockSize == blockSize && inodeTable.Length == inodeCount && freeBlocks.Length == blockCount
      ensures openFileTable.Length == openCount
      ensures fresh(inodeTable) && fresh(freeInodes) && fresh(fsData) && fresh(freeBlocks)
      ensures fresh(openFileTable) && fresh(freeOpenFiles)
    {
      this.blockSize := blockSize;
      inodeTable := new Inode[inodeCount];
      freeInodes := new Alloc[inodeCount];
      fsData := new Byte[blockCount * blockSize];
      freeBlocks := new Alloc[blockCount];
      openFileTable := new OpenFile[openCount];
      freeOpenFiles := new Alloc[openCount];
      new;
      MarkFree(freeInodes);
      MarkFree(freeBlocks);
      MarkFree(freeOpenFiles);
    }

    static method MarkFree(table: array<Alloc>)
      modifies table
      ensures forall i :: 0 <= i < table.Length ==> table[i] == Free
    {
      for i := 0 to table.Length
        invariant forall j :: 0 <= j < i ==> table[j] == Free
      {
        table[i] := Free;
      }
    }

    /** The scan that inode_alloc, data_block_alloc and add_to_open_file_table share: take the first free slot. */
    static method TakeFirst(table: array<Alloc>) returns (r: int)
      modifies table
      ensures r == FirstFree(old(table[..]))
      ensures table[..] == if r == -1 then old(table[..]) else old(table[..])[r := Taken]
    {
      for i := 0 to table.Length
        invariant table[..] == old(table[..])
        invariant forall j :: 0 <= j < i ==> table[j] == Taken
      {
        if table[i] == Free {
          assert FirstFree(table[..]) == i;
          table[i] := Taken;
          return i;
        }
      }
      r := -1;
      assert FirstFree(table[..]) == -1;
    }

    method InodeAlloc() returns (r: int)
      requires Valid()
      modifies freeInodes
      ensures r == FirstFree(old(View()).inodeAlloc)
      ensures View() == if r == -1 then old(View()) else old(View()).(inodeAlloc := old(View()).inodeAlloc[r := Taken])
    {
      r := TakeFirst(freeInodes);
    }

    method DataBlockAlloc() returns (r: int)
      requires Valid()
      modifies freeBlocks
      ensures r == FirstFree(old(View()).blockAlloc)
      ensures View() == if r == -1 then old(View()) else old(View()).(blockAlloc := old(View()).blockAlloc[r := Taken])
    {
      r := TakeFirst(freeBlocks);
    }

    method DataBlockFree(b: int)
      requires Valid() && 0 <= b < freeBlocks.Length
      modifies freeBlocks
      ensures View() == old(View()).(blockAlloc := old(View()).blockAlloc[b := Free])
    {
      freeBlocks[b] := Free;
    }

    method InodeDelete(i: int)
      requires Valid() && 0 <= i < freeInodes.Length && freeInodes[i] == Taken
      requires inodeTable[i].size > 0 ==> 0 <= inodeTable[i].block < freeBlocks.Length
      modifies freeInodes, freeBlocks
      ensures View() == FsModel.InodeDelete(old(View()), i)
    {
      if inodeTable[i].size > 0 {
        DataBlockFree(inodeTable[i].block);
      }
      freeInodes[i] := Free;
    }

    /** memcpy into the block that data_block_get returns. */
    method Store(b: nat, offset: nat, source: seq<Byte>)
      requires Valid() && b < freeBlocks.Length && offset + |source| <= blockSize
      modifies fsData
      ensures View() == old(View()).(blocks := old(View()).blocks[b := Patch(old(View()).blocks[b], offset, source)])
    {
      BlockRange(b, freeBlocks.Length, blockSize);
      var p := b * blockSize + offset;
      ghost var data := fsData[..];
      for k := 0 to |source|
        invariant forall j :: 0 <= j < fsData.Length ==>
          fsData[j] == if p <= j < p + k then source[j - p] else data[j]
      {
        fsData[p + k] := source[k];
      }
      assert fsData[..] == Patch(data, p, source);
      StoredInBlock(data, blockSize, freeBlocks.Length, b, offset, source);
    }

    /** memcpy out of the block that data_block_get returns. */
    method Load(b: nat, offset: nat, n: nat) returns (bytes: seq<Byte>)
      requires Valid() && b < freeBlocks.Length && offset + n <= blockSize
      ensures bytes == View().blocks[b][offset..offset + n]
    {
      BlockRange(b, freeBlocks.Length, blockSize);
      var p := b * blockSize;
      bytes := fsData[p + offset..p + offset + n];
      LoadedFromBlock(fsData[..], blockSize, freeBlocks.Length, b, offset, n);
    }

    method LoadEntry(b: nat, i: nat) returns (e: DirEntry)
      requires Valid() && b < freeBlocks.Length && i < blockSize / ENTRY_SIZE
      ensures i < |Entries(View().blocks[b])| && e == Entries(View().blocks[b])[i]
    {
      var name := Load(b, ENTRY_SIZE * i, MAX_FILE_NAME);
      var number := Load(b, ENTRY_SIZE * i + MAX_FILE_NAME, 4);
      e := DirEntry(name, DecodeInt(number));
      assert e == EntryAt(View().blocks[b], i);
    }

    /** Both fields of entry i of the directory block b. */
    method StoreEntry(b: nat, i: nat, inumber: int, name: seq<Byte>)
      requires Valid() && b < freeBlocks.Length && i < blockSize / ENTRY_SIZE
      requires IsInt32(inumber) && |name| == MAX_FILE_NAME
      modifies fsData
      ensures var s := old(View());
        View() == s.(blocks := s.blocks[b := WithName(WithInumber(s.blocks[b], i, inumber), i, name)])
    {
      ghost var s := View();
      Store(b, ENTRY_SIZE * i + MAX_FILE_NAME, EncodeInt(inumber));
      ghost var first := WithInumber(s.blocks[b], i, inumber);
      Store(b, ENTRY_SIZE * i, name);
      SetTwice(s.blocks, b, first, WithName(first, i, name));
    }

    /**
     * inode_create: a directory's block is filled with empty entries, whatever it held before.
     * Without a block for it, the inode is given back.
     */
    method InodeCreateDirectory() returns (r: int)
      requires Valid()
      modifies inodeTable, freeInodes, fsData, freeBlocks
      ensures View() == InitFs(old(View())).state
      ensures r == if FirstFree(old(View()).blockAlloc) == -1 then -1 else FirstFree(old(View()).inodeAlloc)
    {
      ghost var s := View();
      r := InodeAlloc();
      if r == -1 { return; }
      inodeTable[r] := inodeTable[r].(nodeType := TDirectory);
      var b := DataBlockAlloc();
      if b == -1 {
        inodeTable[r] := inodeTable[r].(size := 0, block := -1);
        InodeDelete(r);
        r := -1;
        assert View().inodeAlloc == s.inodeAlloc;
        return;
      }
      inodeTable[r] := inodeTable[r].(size := blockSize, block := b);
      EmptyEntries(b);
    }

    /** The loop of inode_create over a directory's block: only d_inumber is written, the names stay as they are. */
    method EmptyEntries(b: nat)
      requires Valid() && b < freeBlocks.Length
      modifies fsData
      ensures var s := old(View());
        View() == s.(blocks := s.blocks[b := Emptied(s.blocks[b], blockSize / ENTRY_SIZE)])
    {
      ghost var s := View();
      assert s.blocks[b := s.blocks[b]] == s.blocks;
      for k := 0 to blockSize / ENTRY_SIZE
        invariant View() == s.(blocks := s.blocks[b := Emptied(s.blocks[b], k)])
      {
        Store(b, ENTRY_SIZE * k + MAX_FILE_NAME, EncodeInt(NO_INUMBER));
        SetTwice(s.blocks, b, Emptied(s.blocks[b], k), Emptied(s.blocks[b], k + 1));
      }
    }

    method InodeCreateFile() returns (r: int)
      requires Valid()
      modifies inodeTable, freeInodes
      ensures r == FirstFree(old(View()).inodeAlloc)
      ensures View() == if r == -1 then old(View()) else WithFile(old(View()), r)
    {
      r := InodeAlloc();
      if r == -1 { return; }
      inodeTable[r] := inodeTable[r].(nodeType := TFile);
      inodeTable[r] := inodeTable[r].(size := 0, block := -1);
    }

    method FindInDir(dir: int, sub: CString) returns (r: int)
      requires Valid() && 0 <= dir < inodeTable.Length
      requires inodeTable[dir].nodeType == TDirectory ==> 0 <= inodeTable[dir].block < freeBlocks.Length
      ensures r == if inodeTable[dir].nodeType != TDirectory then -1
                   else Directory.FindInDir(Entries(View().blocks[inodeTable[dir].block]), sub)
    {
      if inodeTable[dir].nodeType != TDirectory { return -1; }
      var b := inodeTable[dir].block;
      ghost var es := Entries(View().blocks[b]);
      for i := 0 to blockSize / ENTRY_SIZE
        invariant forall j :: 0 <= j < i ==> !Matches(es[j], sub)
      {
        var e := LoadEntry(b, i);
        if e.inumber != NO_INUMBER && StrncmpEqual(e.name, sub, MAX_FILE_NAME) {
          assert FindIndex(es, sub) == i;
          return e.inumber;
        }
      }
      assert FindIndex(es, sub) == |es|;
      r := -1;
    }

    method AddDirEntry(dir: int, sub: CString, inumber: int) returns (r: int)
      requires Valid() && 0 <= dir < inodeTable.Length && IsInt32(inumber)
      requires inodeTable[dir].nodeType == TDirectory ==> 0 <= inodeTable[dir].block < freeBlocks.Length
      modifies fsData
      ensures var s := old(View()); var inode := s.inodes[dir];
        if |sub| == 0 || |sub| > MAX_FILE_NAME - 1 || inode.nodeType != TDirectory then r == -1 && View() == s
        else
          var block := s.blocks[inode.block]; var k := EmptyIndex(Entries(block));
          if k == |Entries(block)| then r == -1 && View() == s
          else r == 0 && View() == s.(blocks := s.blocks[inode.block := WithEntry(block, k, sub, inumber)])
    {
      if |sub| == 0 || |sub| > MAX_FILE_NAME - 1 { return -1; }
      if inodeTable[dir].nodeType != TDirectory { return -1; }
      var b := inodeTable[dir].block;
      ghost var es := Entries(View().blocks[b]);
      for i := 0 to blockSize / ENTRY_SIZE
        invariant View() == old(View())
        invariant forall j :: 0 <= j < i ==> Live(es[j])
      {
        var e := LoadEntry(b, i);
        if e.inumber == NO_INUMBER {
          assert EmptyIndex(es) == i;
          StoreEntry(b, i, inumber, Padded(sub));
          return 0;
        }
      }
      assert EmptyIndex(es) == |es|;
      r := -1;
    }

    /** Every name that the scan compares must be terminated: the obligation at the assert below. */
    method ClearDirEntry(dir: int, sub: CString) returns (r: int)
      requires Valid() && 0 <= dir < inodeTable.Length
      requires inodeTable[dir].nodeType == TDirectory ==> 0 <= inodeTable[dir].block < freeBlocks.Length
      requires inodeTable[dir].nodeType == TDirectory ==>
        ScanStaysInside(Entries(View().blocks[inodeTable[dir].block]), sub)
      modifies fsData
      ensures var s := old(View()); var inode := s.inodes[dir];
        if inode.nodeType != TDirectory then r == -1 && View() == s
        else
          var block := s.blocks[inode.block]; var k := NamedIndex(Entries(block), sub);
          if k == |Entries(block)| then r == -1 && View() == s
          else r == 0 && View() == s.(blocks := s.blocks[inode.block := WithoutEntry(block, k)])
    {
      if inodeTable[dir].nodeType != TDirectory { return -1; }
      var b := inodeTable[dir].block;
      ghost var es := Entries(View().blocks[b]);
      for i := 0 to blockSize / ENTRY_SIZE
        invariant View() == old(View())
        invariant forall j :: 0 <= j < i ==> !Named(es[j], sub)
      {
        var e := LoadEntry(b, i);
        NextIsInside(es, sub, i);
        assert Terminated(e.name);
        if Strcmp(StringAt(e.name), sub) == 0 {
          StoreEntry(b, i, NO_INUMBER, Zeros(MAX_FILE_NAME));
          return 0;
        }
      }
      r := -1;
    }

    method AddToOpenFileTable(inumber: int, offset: nat) returns (r: int)
      requires Valid()
      modifies openFileTable, freeOpenFiles
      ensures var reply := AddOpenFile(old(View()), inumber, offset); View() == reply.state && r == reply.value
    {
      r := TakeFirst(freeOpenFiles);
      if r == -1 { return; }
      openFileTable[r] := OpenFile(inumber, offset);
    }

    method RemoveFromOpenFileTable(h: int)
      requires Valid() && IsHandle(View(), h)
      modifies freeOpenFiles
      ensures View() == old(View()).(openAlloc := old(View()).openAlloc[h := Free])
    {
      freeOpenFiles[h] := Free;
    }

    /** get_open_file_entry, as whether it returns an entry. */
    method GetOpenFileEntry(h: int) returns (found: bool)
      requires Valid()
      ensures found == IsHandle(View(), h)
    {
      found := 0 <= h < freeOpenFiles.Length && freeOpenFiles[h] == Taken;
    }

    // ---------- fs/operations.c ----------

    /** tfs_init, after state_init. */
    method Init() returns (r: int)
      requires Valid()
      modifies inodeTable, freeInodes, fsData, freeBlocks
      ensures var reply := InitFs(old(View())); View() == reply.state && r == reply.value
    {
      var root := InodeCreateDirectory();
      if root != ROOT { return -1; }
      r := 0;
    }

    method Lookup(path: Option<CString>) returns (r: int)
      requires Valid() && Inv(View())
      ensures r == FileExistsFs(View(), path)
    {
      if !ValidPath(path) { return -1; }
      r := FindInDir(ROOT, path.value[1..]);
    }

    method FileExists(path: Option<CString>) returns (r: int)
      requires Valid() && Inv(View())
      ensures r == FileExistsFs(View(), path)
    {
      r := Lookup(path);
    }

    /** The branch of tfs_open for a file that exists. */
    method OpenFound(i: int, mode: Mode) returns (r: int)
      requires Valid() && 0 <= i < inodeTable.Length
      requires inodeTable[i].size > 0 ==> 0 <= inodeTable[i].block < freeBlocks.Length
      modifies inodeTable, freeBlocks, openFileTable, freeOpenFiles
      ensures var reply := OpenExisting(old(View()), i, mode); View() == reply.state && r == reply.value
    {
      if mode.trunc {
        if inodeTable[i].size > 0 {
          DataBlockFree(inodeTable[i].block);
          inodeTable[i] := inodeTable[i].(size := 0);
        }
      }
      var offset: nat := 0;
      if mode.append {
        offset := inodeTable[i].size;
      }
      r := AddToOpenFileTable(i, offset);
    }

    /** The branch of tfs_open that creates the file, and gives the inode back when the entry cannot be added. */
    method OpenNew(name: CString) returns (r: int)
      requires Valid() && Inv(View())
      modifies inodeTable, freeInodes, fsData, freeBlocks, openFileTable, freeOpenFiles
      ensures var reply := CreateFile(old(View()), name); View() == reply.state && r == reply.value
    {
      var inumber := InodeCreateFile();
      if inumber == -1 { return -1; }
      var added := AddDirEntry(ROOT, name, inumber);
      if added == -1 {
        InodeDelete(inumber);
        return -1;
      }
      r := AddToOpenFileTable(inumber, 0);
    }

    method Open(path: Option<CString>, mode: Mode) returns (r: int)
      requires Valid() && Inv(View())
      modifies inodeTable, freeInodes, fsData, freeBlocks, openFileTable, freeOpenFiles
      ensures var reply := OpenFs(old(View()), path, mode); View() == reply.state && r == reply.value
    {
      if !ValidPath(path) { return -1; }
      var inumber := Lookup(path);
      FoundIsTaken(View(), path.value[1..]);
      if inumber >= 0 {
        r := OpenFound(inumber, mode);
      } else if mode.creat {
        r := OpenNew(path.value[1..]);
      } else {
        r := -1;
      }
    }

    method Close(h: int) returns (r: int)
      requires Valid()
      modifies freeOpenFiles
      ensures var reply := CloseFs(old(View()), h); View() == reply.state && r == reply.value
    {
      var found := GetOpenFileEntry(h);
      if !found { return -1; }
      RemoveFromOpenFileTable(h);
      r := 0;
    }

    /** The copying part of tfs_write: the bytes, the handle's offset and the file's size. */
    method WriteThrough(h: int, data: seq<Byte>)
      requires Valid() && 0 <= h < openFileTable.Length && 0 <= openFileTable[h].inumber < inodeTable.Length
      requires 0 <= inodeTable[openFileTable[h].inumber].block < freeBlocks.Length
      requires openFileTable[h].offset + |data| <= blockSize
      modifies inodeTable, fsData, openFileTable
      ensures View() == Written(old(View()), h, old(inodeTable[openFileTable[h].inumber].block), data)
    {
      var i, offset := openFileTable[h].inumber, openFileTable[h].offset;
      Store(inodeTable[i].block, offset, data);
      openFileTable[h] := openFileTable[h].(offset := offset + |data|);
      if openFileTable[h].offset > inodeTable[i].size {
        inodeTable[i] := inodeTable[i].(size := openFileTable[h].offset);
      }
    }

    /** The write to a file that is still empty: it needs a block. */
    method WriteFirst(h: int, data: seq<Byte>) returns (b: int)
      requires Valid() && 0 <= h < openFileTable.Length && 0 <= openFileTable[h].inumber < inodeTable.Length
      requires openFileTable[h].offset + |data| <= blockSize
      modifies inodeTable, fsData, freeBlocks, openFileTable
      ensures var s := old(View());
        && b == FirstFree(s.blockAlloc)
        && View() == if b == -1 then s else Written(s.(blockAlloc := s.blockAlloc[b := Taken]), h, b, data)
    {
      ghost var s := View();
      b := DataBlockAlloc();
      if b == -1 { return; }
      var i := openFileTable[h].inumber;
      inodeTable[i] := inodeTable[i].(block := b);
      WriteThrough(h, data);
      BlockNumberFirst(s.(blockAlloc := s.blockAlloc[b := Taken]), h, b, data);
    }

    /** tfs_write once the handle has been found open and the number of bytes is known. */
    method WriteSome(h: int, data: seq<Byte>) returns (r: int)
      requires Valid() && MayWriteTo(View(), h, data)
      modifies inodeTable, fsData, freeBlocks, openFileTable
      ensures var reply := WriteReply(old(View()), h, data); View() == reply.state && r == reply.value
    {
      if |data| > 0 {
        if inodeTable[openFileTable[h].inumber].size == 0 {
          var b := WriteFirst(h, data);
          if b == -1 { return -1; }
        } else {
          WriteThrough(h, data);
        }
      }
      r := |data|;
    }

    method Write(h: int, buffer: seq<Byte>) returns (r: int)
      requires Valid() && Inv(View())
      modifies inodeTable, fsData, freeBlocks, openFileTable
      ensures var reply := WriteFs(old(View()), h, buffer); View() == reply.state && r == reply.value
    {
      var found := GetOpenFileEntry(h);
      if !found { return -1; }
      WriteIs(View(), Inumbers(View()), h, buffer);
      var n := |buffer|;
      if n + openFileTable[h].offset > blockSize {
        n := blockSize - openFileTable[h].offset;
      }
      r := WriteSome(h, buffer[..n]);
    }

    /** At most len bytes go to the beginning of the caller's buffer; the rest of it is not touched. */
    method Read(h: int, buffer: array<Byte>, len: nat) returns (r: int)
      requires Valid() && Inv(View()) && len <= buffer.Length && buffer != fsData
      modifies openFileTable, buffer
      ensures var reply := ReadFs(old(View()), h, len);
        && View() == reply.state && r == reply.value && |reply.bytes| <= buffer.Length
        && buffer[..] == reply.bytes + old(buffer[..])[|reply.bytes|..]
    {
      var found := GetOpenFileEntry(h);
      if !found {
        assert buffer[..] == [] + buffer[..][0..];
        return -1;
      }
      ReadIs(View(), Inumbers(View()), h, len);
      r := ReadThrough(h, buffer, len);
    }

    /** tfs_read once the handle has been found open. */
    method ReadThrough(h: int, buffer: array<Byte>, len: nat) returns (r: int)
      requires Valid() && IsHandle(View(), h) && len <= buffer.Length && buffer != fsData
      requires 0 <= openFileTable[h].inumber < inodeTable.Length
      requires var f := openFileTable[h]; var inode := inodeTable[f.inumber];
        && f.offset <= inode.size <= blockSize
        && (inode.size > 0 ==> 0 <= inode.block < freeBlocks.Length)
      modifies openFileTable, buffer
      ensures var reply := ReadReply(old(View()), h, len);
        && View() == reply.state && r == reply.value && |reply.bytes| <= buffer.Length
        && buffer[..] == reply.bytes + old(buffer[..])[|reply.bytes|..]
    {
      var i, offset := openFileTable[h].inumber, openFileTable[h].offset;
      var n := SizeMinus(inodeTable[i].size, offset);
      if n > len {
        n := len;
      }
      assert buffer[..] == [] + buffer[..][0..];
      if n > 0 {
        var bytes := Load(inodeTable[i].block, offset, n);
        openFileTable[h] := openFileTable[h].(offset := offset + n);
        CopyInto(buffer, bytes);
      }
      r := n;
    }

    static method CopyInto(buffer: array<Byte>, bytes: seq<Byte>)
      requires |bytes| <= buffer.Length
      modifies buffer
      ensures buffer[..] == bytes + old(buffer[..])[|bytes|..]
    {
      for k := 0 to |bytes|
        invariant forall j :: 0 <= j < buffer.Length ==> buffer[j] == if j < k then bytes[j] else old(buffer[j])
      {
        buffer[k] := bytes[k];
      }
    }

    method Unlink(path: Option<CString>) returns (r: int)
      requires Valid() && Inv(View())
      modifies freeInodes, fsData, freeBlocks
      ensures var reply := UnlinkFs(old(View()), path); View() == reply.state && r == reply.value
    {
      if !ValidPath(path) { return -1; }
      ghost var s := View();
      UnlinkOfValid(s, path);
      var inumber := Lookup(path);
      if inumber == -1 { return -1; }
      assert IsTaken(s, inumber);
      r := UnlinkFound(inumber, path.value[1..]);
    }

    /** tfs_unlink once the name has been found. */
    method UnlinkFound(i: int, name: CString) returns (r: int)
      requires Valid() && Inv(View()) && name in Inumbers(View())
      requires 0 <= i < inodeTable.Length && freeInodes[i] == Taken
      requires inodeTable[i].size > 0 ==> 0 <= inodeTable[i].block < freeBlocks.Length
      modifies freeInodes, fsData, freeBlocks
      ensures var s, k := old(View()), NamedIndex(Dir(old(View())), name);
        && r == 0 && k < |Dir(s)|
        && View() == FsModel.InodeDelete(s, i).(blocks := SetDirBlock(s, WithoutEntry(DirBlock(s), k)).blocks)
    {
      ClearFindsTheEntry(Dir(View()), name);
      InodeDelete(i);
      var cleared := ClearDirEntry(ROOT, name);
      if cleared == -1 { return -1; }
      r := 0;
    }
  }
}
