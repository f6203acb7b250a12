/** Every answer of TécnicoFS, in the caller's terms: when a call fails, what it returns, and what it leaves. */
module FsAnswers {
  import opened Options
  import opened CStrings
  import opened FsModel
  import opened FsAbstract

  // ---------- paths ----------

  /** "/" followed by a name that is not empty. */
  ghost predicate PathNames(path: Option<CString>, name: CString) {
    name != [] && path == Some([47] + name)
  }

  /** The null pointer, and every other string. */
  ghost predicate BadPath(path: Option<CString>) {
    forall name: CString :: !PathNames(path, name)
  }

  lemma PathNamesIs(path: Option<CString>, name: CString)
    requires PathNames(path, name)
    ensures ValidPath(path) && path.value[1..] == name
  {
  }

  lemma BadPathIs(path: Option<CString>)
    ensures BadPath(path) <==> !ValidPath(path)
  {
    if ValidPath(path) {
      assert path.value == [47] + path.value[1..];
      assert PathNames(path, path.value[1..]);
    }
    if name: CString :| PathNames(path, name) { PathNamesIs(path, name); }
  }

  lemma BadPathAnswers(a: AbsFs, path: Option<CString>, mode: Mode)
    requires BadPath(path)
    ensures AbsOpen(a, path, mode) == AbsReply(a, -1, [])
    ensures AbsUnlink(a, path) == AbsReply(a, -1, [])
  {
    BadPathIs(path);
  }

  // ---------- open ----------

  predicate HandleLeft(a: AbsFs) {
    exists h :: 0 <= h < a.openCount && h !in a.handles
  }

  /** h is the lowest number that is not a handle yet. */
  predicate LowestUnused(a: AbsFs, h: int) {
    0 <= h < a.openCount && h !in a.handles && forall j :: 0 <= j < h ==> j in a.handles
  }

  lemma {:induction false} LowestFreeIsLowest(handles: map<int, Handle>, i: nat, n: nat)
    ensures var h := LowestFree(handles, i, n);
      if h == -1 then forall j :: i <= j < n ==> j in handles
      else i <= h < n && h !in handles && forall j :: i <= j < h ==> j in handles
    decreases n - i
  {
    if i < n && i in handles { LowestFreeIsLowest(handles, i + 1, n); }
  }

  /** A new file of this name can be made: an inode, a name of at most 39 characters, one of the 44-byte entries. */
  predicate RoomFor(a: AbsFs, name: CString) {
    |a.files| + 1 != a.inodeCount && |name| <= 39 && |a.files| != a.blockSize / 44
  }

  /**
   * An open succeeds if and only if the file exists, or may be created and there is room for it, and a handle is
   * left. The answer is the lowest unused handle, now on that file, at its end when appending and else at its
   * beginning. The file is emptied when truncating and created when asked to, also when then no handle is left.
   */
  lemma OpenAnswers(a: AbsFs, path: Option<CString>, name: CString, mode: Mode)
    requires PathNames(path, name)
    ensures var r := AbsOpen(a, path, mode); var made := name !in a.files && mode.creat && RoomFor(a, name);
      && r.bytes == []
      && (r.value != -1 <==> (name in a.files || made) && HandleLeft(a))
      && (r.value == -1 ==> r.state.handles == a.handles)
      && (r.value != -1 ==>
            && LowestUnused(a, r.value) && name in r.state.files
            && r.state.handles ==
                 a.handles[r.value := Handle(name, if mode.append then |r.state.files[name]| else 0)])
      && r.state.files == (if made || (name in a.files && mode.trunc) then a.files[name := []] else a.files)
      && r.state == a.(files := r.state.files, handles := r.state.handles)
  {
    PathNamesIs(path, name);
    LowestFreeIsLowest(a.handles, 0, a.openCount);
    if name in a.files { assert a.files[name := a.files[name]] == a.files; }
  }

  /** A root directory in a block of 1024 bytes has 23 entries. */
  lemma RoomInBlockOf1024(a: AbsFs, name: CString)
    requires a.blockSize == 1024
    ensures RoomFor(a, name) <==> |a.files| + 1 != a.inodeCount && |name| <= 39 && |a.files| != 23
    ensures DirectoryFull(a) <==> |a.files| == 23
  {
  }

  // ---------- close and unlink ----------

  lemma CloseAnswers(a: AbsFs, h: int)
    ensures var r := AbsClose(a, h);
      && r.value == (if h in a.handles then 0 else -1) && r.bytes == []
      && r.state == a.(handles := r.state.handles)
      && (forall k :: k in r.state.handles <==> k in a.handles && k != h)
      && (forall k :: k in r.state.handles ==> r.state.handles[k] == a.handles[k])
  {
  }

  lemma UnlinkAnswers(a: AbsFs, path: Option<CString>, name: CString)
    requires PathNames(path, name)
    ensures var r := AbsUnlink(a, path);
      && r.value == (if name in a.files then 0 else -1) && r.bytes == []
      && r.state == a.(files := r.state.files)
      && (forall n :: n in r.state.files <==> n in a.files && n != name)
      && (forall n :: n in r.state.files ==> r.state.files[n] == a.files[n])
  {
    PathNamesIs(path, name);
  }

  // ---------- write and read ----------

  /** How many of len bytes fit between offset and limit. */
  function Fitting(len: nat, offset: nat, limit: nat): (n: nat)
    requires offset <= limit
    ensures n <= len && offset + n <= limit && (n == len || offset + n == limit)
  {
    Smaller(len, limit - offset)
  }

  /**
   * A write answers how many bytes it stored: all of them, or as many as the block has room for behind the offset,
   * which may be none. It answers -1 for a number that is not a handle, and when there are bytes to store,
   * the file is empty and no block is left; nothing changes then.
   */
  lemma WriteAnswers(a: AbsFs, h: int, buffer: seq<Byte>)
    requires HandleInside(a, h)
    ensures var r := AbsWrite(a, h, buffer);
      && r.bytes == []
      && (h !in a.handles ==> r.value == -1)
      && (h in a.handles ==>
            var Handle(name, offset) := a.handles[h];
            var n := Fitting(|buffer|, offset, a.blockSize);
            r.value == if n > 0 && a.files[name] == [] && NoBlockLeft(a) then -1 else n)
      && (r.value == -1 ==> r.state == a)
      && (r.value != -1 ==> h in r.state.handles && r.value == r.state.handles[h].offset - a.handles[h].offset)
  {
    if h in a.handles { WrittenState(a, h, buffer); }
  }

  /** What an answer other than -1 leaves: the bytes in this file, behind them the handle, and all else as it was. */
  lemma WrittenState(a: AbsFs, h: int, buffer: seq<Byte>)
    requires HandleInside(a, h) && h in a.handles
    ensures var r, Handle(name, offset) := AbsWrite(a, h, buffer), a.handles[h];
      r.value != -1 ==>
        && 0 <= r.value <= |buffer| && name in r.state.files
        && r.state == a.(files := a.files[name := r.state.files[name]],
                         handles := a.handles[h := Handle(name, offset + r.value)])
        && (var old_, new_ := a.files[name], r.state.files[name];
            && |new_| == Larger(|old_|, offset + r.value)
            && forall k :: 0 <= k < |new_| ==>
                 new_[k] == if offset <= k < offset + r.value then buffer[k - offset] else old_[k])
  {
    var Handle(name, offset) := a.handles[h];
    assert a.files[name := a.files[name]] == a.files && a.handles[h := a.handles[h]] == a.handles;
  }

  /** A read returns as many bytes as asked for, or as there are behind the offset, and moves the offset by them. */
  lemma ReadAnswers(a: AbsFs, h: int, len: nat)
    requires HandleInside(a, h)
    ensures var r := AbsRead(a, h, len);
      && (h !in a.handles ==> r.value == -1 && r.bytes == [] && r.state == a)
      && (h in a.handles ==>
            var Handle(name, offset) := a.handles[h];
            && r.value == |r.bytes| == Fitting(len, offset, |a.files[name]|)
            && (forall k :: 0 <= k < |r.bytes| ==> r.bytes[k] == a.files[name][offset + k])
            && r.state == a.(handles := a.handles[h := Handle(name, offset + r.value)]))
  {
  }
}
