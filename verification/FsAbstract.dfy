/**
 * What a caller of TécnicoFS sees: a map from names to bytes and a table of handles.
 * The only trace of the tables underneath is how many files, non-empty files and handles fit.
 */
module FsAbstract {
  import opened Options
  import opened CStrings
  import opened Directory
  import opened FsModel

  datatype Handle = Handle(name: CString, offset: nat)

  datatype AbsFs = AbsFs(
    blockSize: nat, inodeCount: nat, blockCount: nat, openCount: nat,
    files: map<CString, seq<Byte>>, handles: map<int, Handle>)

  datatype AbsReply = AbsReply(state: AbsFs, value: int, bytes: seq<Byte>)

  function NonEmpty(files: map<CString, seq<Byte>>): set<CString> {
    set n | n in files && files[n] != []
  }

  /** The root directory takes one inode and one block; every file an inode, every non-empty file a block. */
  predicate NoInodeLeft(a: AbsFs) { |a.files| + 1 == a.inodeCount }

  predicate NoBlockLeft(a: AbsFs) { |NonEmpty(a.files)| + 1 == a.blockCount }

  predicate DirectoryFull(a: AbsFs) { |a.files| == a.blockSize / ENTRY_SIZE }

  /** The lowest number from i on that is not a handle, or -1. */
  function LowestFree(handles: map<int, Handle>, i: nat, n: nat): int
    decreases n - i
  {
    if i >= n then -1 else if i !in handles then i else LowestFree(handles, i + 1, n)
  }

  lemma {:induction false} LowestFreeFacts(handles: map<int, Handle>, i: nat, n: nat)
    ensures var h := LowestFree(handles, i, n); h == -1 || (h !in handles && i <= h < n)
    decreases n - i
  {
    if i < n && i in handles { LowestFreeFacts(handles, i + 1, n); }
  }

  /** Of n handles, h is the only one that is free. */
  predicate OneFree(handles: map<int, Handle>, h: int, n: nat) {
    0 <= h < n && h !in handles && forall j :: 0 <= j < n && j != h ==> j in handles
  }

  lemma {:induction false} OneFreeIsFound(handles: map<int, Handle>, h: int, i: nat, n: nat)
    requires OneFree(handles, h, n) && i <= n
    ensures LowestFree(handles, i, n) == if i <= h then h else -1
    decreases n - i
  {
    if i < n && i != h { OneFreeIsFound(handles, h, i + 1, n); }
  }

  lemma {:induction false} NoneFree(handles: map<int, Handle>, i: nat, n: nat)
    requires forall j :: 0 <= j < n ==> j in handles
    ensures LowestFree(handles, i, n) == -1
    decreases n - i
  {
    if i < n { NoneFree(handles, i + 1, n); }
  }

  function AddHandle(a: AbsFs, name: CString, offset: nat): AbsReply {
    var h := LowestFree(a.handles, 0, a.openCount);
    if h == -1 then AbsReply(a, -1, [])
    else AbsReply(a.(handles := a.handles[h := Handle(name, offset)]), h, [])
  }

  /** Opening truncates before it looks for a free handle, and creates before it does. */
  function AbsOpen(a: AbsFs, path: Option<CString>, mode: Mode): AbsReply {
    if !ValidPath(path) then AbsReply(a, -1, [])
    else
      var name := path.value[1..];
      if name in a.files then
        var bytes := if mode.trunc then [] else a.files[name];
        AddHandle(a.(files := a.files[name := bytes]), name, if mode.append then |bytes| else 0)
      else if !mode.creat || NoInodeLeft(a) || |name| >= MAX_FILE_NAME || DirectoryFull(a) then AbsReply(a, -1, [])
      else AddHandle(a.(files := a.files[name := []]), name, 0)
  }

  function AbsClose(a: AbsFs, h: int): AbsReply {
    if h !in a.handles then AbsReply(a, -1, []) else AbsReply(a.(handles := a.handles - {h}), 0, [])
  }

  /** The bytes of a file after data has been written at an offset inside it. */
  function Overwritten(old_: seq<Byte>, offset: nat, data: seq<Byte>): seq<Byte>
    requires offset <= |old_|
  {
    old_[..offset] + data + (if offset + |data| <= |old_| then old_[offset + |data|..] else [])
  }

  predicate HandleInside(a: AbsFs, h: int) {
    h in a.handles ==>
      && a.handles[h].name in a.files
      && a.handles[h].offset <= |a.files[a.handles[h].name]| <= a.blockSize
  }

  function AbsWrite(a: AbsFs, h: int, buffer: seq<Byte>): AbsReply
    requires HandleInside(a, h)
  {
    if h !in a.handles then AbsReply(a, -1, [])
    else
      var Handle(name, offset) := a.handles[h];
      var data := buffer[..Smaller(|buffer|, a.blockSize - offset)];
      if data == [] then AbsReply(a, 0, [])
      else if a.files[name] == [] && NoBlockLeft(a) then AbsReply(a, -1, [])
      else AbsReply(a.(files := a.files[name := Overwritten(a.files[name], offset, data)],
                       handles := a.handles[h := Handle(name, offset + |data|)]), |data|, [])
  }

  function AbsRead(a: AbsFs, h: int, len: nat): AbsReply
    requires HandleInside(a, h)
  {
    if h !in a.handles then AbsReply(a, -1, [])
    else
      var Handle(name, offset) := a.handles[h];
      var n := Smaller(|a.files[name]| - offset, len);
      AbsReply(a.(handles := a.handles[h := Handle(name, offset + n)]), n, a.files[name][offset..offset + n])
  }

  function AbsUnlink(a: AbsFs, path: Option<CString>): AbsReply {
    if !ValidPath(path) || path.value[1..] !in a.files then AbsReply(a, -1, [])
    else AbsReply(a.(files := a.files - {path.value[1..]}), 0, [])
  }

  // ---------- operations and runs ----------

  datatype Op =
    | Open(path: Option<CString>, mode: Mode)
    | Close(handle: int)
    | Write(handle: int, buffer: seq<Byte>)
    | Read(handle: int, len: nat)
    | Unlink(path: Option<CString>)

  /** No file is longer than a block, and every handle is on a file, at an offset inside it. */
  ghost predicate AbsInv(a: AbsFs) {
    && (forall n :: n in a.files ==> |a.files[n]| <= a.blockSize)
    && (forall h {:trigger HandleInside(a, h)} :: HandleInside(a, h))
  }

  ghost function AbsStep(a: AbsFs, op: Op): AbsReply
    requires AbsInv(a)
  {
    match op
    case Open(path, mode) => AbsOpen(a, path, mode)
    case Close(h) => AbsClose(a, h)
    case Write(h, buffer) => AbsWrite(a, h, buffer)
    case Read(h, len) => AbsRead(a, h, len)
    case Unlink(path) => AbsUnlink(a, path)
  }

  /** Nobody holds a handle on the file that is unlinked, or one past the beginning of the file that is truncated. */
  ghost predicate Guarded(a: AbsFs, op: Op) {
    match op
    case Open(path, mode) =>
      ValidPath(path) && path.value[1..] in a.files && mode.trunc ==>
        forall h :: h in a.handles && a.handles[h].name == path.value[1..] ==> a.handles[h].offset == 0
    case Unlink(path) =>
      ValidPath(path) && path.value[1..] in a.files ==>
        forall h :: h in a.handles ==> a.handles[h].name != path.value[1..]
    case _ => true
  }

  lemma AddHandleKeepsInv(a: AbsFs, name: CString, offset: nat)
    requires AbsInv(a) && name in a.files && offset <= |a.files[name]|
    ensures AbsInv(AddHandle(a, name, offset).state)
  {
    var a' := AddHandle(a, name, offset).state;
    forall h ensures HandleInside(a', h) { assert HandleInside(a, h); }
  }

  lemma AbsStepKeepsInv(a: AbsFs, op: Op)
    requires AbsInv(a) && Guarded(a, op)
    ensures AbsInv(AbsStep(a, op).state)
  {
    match op
    case Open(path, mode) =>
      if ValidPath(path) {
        var name := path.value[1..];
        var bytes := if name in a.files && !mode.trunc then a.files[name] else [];
        var a1 := a.(files := a.files[name := bytes]);
        forall h ensures HandleInside(a1, h) { assert HandleInside(a, h); }
        assert AbsInv(a1);
        AddHandleKeepsInv(a1, name, if mode.append then |bytes| else 0);
        AddHandleKeepsInv(a1, name, 0);
      }
    case Write(k, buffer) =>
      assert HandleInside(a, k);
      forall h ensures HandleInside(AbsStep(a, op).state, h) { assert HandleInside(a, h); }
    case Read(k, len) =>
      assert HandleInside(a, k);
      forall h ensures HandleInside(AbsStep(a, op).state, h) { assert HandleInside(a, h); }
    case _ =>
      forall h ensures HandleInside(AbsStep(a, op).state, h) { assert HandleInside(a, h); }
  }
}
