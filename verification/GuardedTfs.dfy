/**
 * TécnicoFS as its callers use it: while the guards are respected, each call on the tables in memory
 * is the call on the map of files and the table of handles.
 */
module GuardedTfs {
  import opened Options
  import opened CStrings
  import opened FsModel
  import opened FsAbstract
  import opened FsRefinement
  import opened FsTheorems
  import T = Tfs

  lemma AbsOfStep(s: Fs, op: Op)
    requires Inv(s) && Guarded(Abs(s), op)
    ensures Inv(StepFs(s, op).state) && AbsInv(Abs(s)) && AbsInv(Abs(StepFs(s, op).state))
    ensures AbsStep(Abs(s), op) == AbsReply(Abs(StepFs(s, op).state), StepFs(s, op).value, StepFs(s, op).bytes)
  {
    StepRefines(s, op);
    AbsIsInside(StepFs(s, op).state, Inumbers(StepFs(s, op).state));
  }

  ghost predicate Ready(fs: T.Tfs)
    reads fs, fs.inodeTable, fs.freeInodes, fs.fsData, fs.freeBlocks, fs.openFileTable, fs.freeOpenFiles
  {
    fs.Valid() && Inv(fs.View()) && AbsInv(Abs(fs.View()))
  }

  ghost function Contents(fs: T.Tfs): AbsFs
    requires Ready(fs)
    reads fs, fs.inodeTable, fs.freeInodes, fs.fsData, fs.freeBlocks, fs.openFileTable, fs.freeOpenFiles
  {
    Abs(fs.View())
  }

  method TfsOpen(fs: T.Tfs, path: Option<CString>, mode: Mode) returns (r: int)
    requires Ready(fs) && Guarded(Contents(fs), Op.Open(path, mode))
    modifies fs.inodeTable, fs.freeInodes, fs.fsData, fs.freeBlocks, fs.openFileTable, fs.freeOpenFiles
    ensures Ready(fs)
    ensures var reply := AbsOpen(old(Contents(fs)), path, mode); Contents(fs) == reply.state && r == reply.value
  {
    AbsOfStep(fs.View(), Op.Open(path, mode));
    r := fs.Open(path, mode);
  }

  method TfsClose(fs: T.Tfs, h: int) returns (r: int)
    requires Ready(fs)
    modifies fs.freeOpenFiles
    ensures Ready(fs)
    ensures var reply := AbsClose(old(Contents(fs)), h); Contents(fs) == reply.state && r == reply.value
  {
    AbsOfStep(fs.View(), Op.Close(h));
    r := fs.Close(h);
  }

  method TfsWrite(fs: T.Tfs, h: int, buffer: seq<Byte>) returns (r: int)
    requires Ready(fs)
    modifies fs.inodeTable, fs.fsData, fs.freeBlocks, fs.openFileTable
    ensures HandleInside(old(Contents(fs)), h)
    ensures Ready(fs)
    ensures var reply := AbsWrite(old(Contents(fs)), h, buffer); Contents(fs) == reply.state && r == reply.value
  {
    assert HandleInside(Contents(fs), h);
    AbsOfStep(fs.View(), Op.Write(h, buffer));
    r := fs.Write(h, buffer);
  }

  method TfsRead(fs: T.Tfs, h: int, buffer: array<Byte>, len: nat) returns (r: int)
    requires Ready(fs) && len <= buffer.Length && buffer != fs.fsData
    modifies fs.openFileTable, buffer
    ensures HandleInside(old(Contents(fs)), h)
    ensures Ready(fs)
    ensures var reply := AbsRead(old(Contents(fs)), h, len);
      && reply.state == Contents(fs) && reply.value == r && |reply.bytes| <= buffer.Length
      && buffer[..] == reply.bytes + old(buffer[..])[|reply.bytes|..]
  {
    assert HandleInside(Contents(fs), h);
    AbsOfStep(fs.View(), Op.Read(h, len));
    r := fs.Read(h, buffer, len);
  }

  method TfsUnlink(fs: T.Tfs, path: Option<CString>) returns (r: int)
    requires Ready(fs) && Guarded(Contents(fs), Op.Unlink(path))
    modifies fs.freeInodes, fs.fsData, fs.freeBlocks
    ensures Ready(fs)
    ensures var reply := AbsUnlink(old(Contents(fs)), path); Contents(fs) == reply.state && r == reply.value
  {
    AbsOfStep(fs.View(), Op.Unlink(path));
    r := fs.Unlink(path);
  }
}
