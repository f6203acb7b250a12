/**
 * The broker's box format (mbroker/mbroker.c): a publisher appends each message with its terminator
 * to a one-block file; a subscriber reads the file into a zeroed buffer and walks it string by string.
 */
module BoxFormat {
  import opened Options
  import opened CStrings
  import opened FsModel
  import opened FsAbstract
  import opened FsAnswers

  const MESSAGE_SIZE: nat := 1024

  /** Each message followed by its terminator. */
  function Concat(messages: seq<CString>): seq<Byte> {
    if messages == [] then [] else messages[0] + [NUL] + Concat(messages[1..])
  }

  function Cut(bytes: seq<Byte>, n: nat): seq<Byte> {
    bytes[..Smaller(|bytes|, n)]
  }

  /** A zeroed buffer of n bytes after the first of the given bytes have been read into it. */
  function Filled(bytes: seq<Byte>, n: nat): (r: seq<Byte>)
    ensures |r| == n
  {
    Cut(bytes, n) + Zeros(n - |Cut(bytes, n)|)
  }

  // ---------- the subscriber's walk over the buffer ----------

  /** The strings that the strlen walk sends; None when it leaves the buffer. */
  function Walk(buffer: seq<Byte>): (r: Option<seq<CString>>)
    ensures r.Some? ==> forall i :: 0 <= i < |r.value| ==> r.value[i] != []
    decreases |buffer|
  {
    if !Terminated(buffer) then None
    else
      var m := StringAt(buffer);
      if m == [] then Some([])
      else
        var rest := Walk(buffer[|m| + 1..]);
        if rest.None? then None else Some([m] + rest.value)
  }

  /** The walk meets an empty string before it leaves the buffer. */
  predicate HasEmptyString(buffer: seq<Byte>) {
    (|buffer| > 0 && buffer[0] == NUL)
    || exists i :: 0 <= i < |buffer| - 1 && buffer[i] == NUL && buffer[i + 1] == NUL
  }

  /** The walk stays inside a buffer exactly when the buffer starts with a NUL or holds two in a row. */
  lemma {:induction false} WalkStaysInside(buffer: seq<Byte>)
    ensures Walk(buffer).Some? <==> HasEmptyString(buffer)
    decreases |buffer|
  {
    if Terminated(buffer) && buffer[0] != NUL {
      var m := StringAt(buffer);
      var rest := buffer[|m| + 1..];
      WalkStaysInside(rest);
      if HasEmptyString(rest) {
        if rest[0] == NUL {
          assert buffer[|m|] == NUL && buffer[|m| + 1] == NUL;
        } else {
          var i :| 0 <= i < |rest| - 1 && rest[i] == NUL && rest[i + 1] == NUL;
          assert buffer[|m| + 1 + i] == NUL && buffer[|m| + 1 + i + 1] == NUL;
        }
      }
      if i :| 0 <= i < |buffer| - 1 && buffer[i] == NUL && buffer[i + 1] == NUL {
        forall j | 0 <= j < |m| ensures buffer[j] != NUL { assert m[j] == buffer[j]; }
        if i > |m| {
          assert rest[i - |m| - 1] == NUL && rest[i - |m| - 1 + 1] == NUL;
        } else {
          assert rest[0] == NUL;
        }
      }
    }
  }

  /** A message that fits is the first string of the buffer, and the walk continues behind it. */
  lemma FirstMessage(m: CString, messages: seq<CString>, n: nat)
    requires |m| + 1 <= n
    ensures var buffer := Filled(m + [NUL] + Concat(messages), n);
      && Terminated(buffer) && StringAt(buffer) == m
      && buffer[|m| + 1..] == Filled(Concat(messages), n - |m| - 1)
  {
    var bytes := m + [NUL] + Concat(messages);
    var buffer := Filled(bytes, n);
    assert buffer[..|m|] == m && buffer[|m|] == NUL;
    StringAtIs(buffer, m);
  }

  lemma WalkStep(m: CString, rest: seq<CString>, n: nat, sent: seq<CString>)
    requires m != [] && |m| + 1 <= n && Walk(Filled(Concat(rest), n - |m| - 1)) == Some(sent)
    ensures Walk(Filled(m + [NUL] + Concat(rest), n)) == Some([m] + sent)
  {
    FirstMessage(m, rest, n);
  }

  /** Replay emits exactly what was published when no message is empty and there is room for a final NUL. */
  lemma {:induction false} WalkFindsMessages(messages: seq<CString>, n: nat)
    requires forall i :: 0 <= i < |messages| ==> messages[i] != []
    requires |Concat(messages)| < n
    ensures Walk(Filled(Concat(messages), n)) == Some(messages)
  {
    if messages == [] {
      StringAtIs(Filled([], n), []);
    } else {
      WalkFindsMessages(messages[1..], n - |messages[0]| - 1);
      WalkStep(messages[0], messages[1..], n, messages[1..]);
      assert messages == [messages[0]] + messages[1..];
    }
  }

  /** What the walk emits, with terminators, plus one more NUL, fits in the buffer. */
  lemma {:induction false} WalkConsumes(buffer: seq<Byte>)
    requires Walk(buffer).Some?
    ensures |Concat(Walk(buffer).value)| < |buffer|
    decreases |buffer|
  {
    var m := StringAt(buffer);
    if m != [] {
      WalkConsumes(buffer[|m| + 1..]);
      assert Walk(buffer).value[1..] == Walk(buffer[|m| + 1..]).value;
    }
  }

  /**
   * Replay undoes publishing if and only if no message is empty and their total length,
   * terminators included, is less than the size of the subscriber's buffer.
   */
  lemma ReplayUndoesPublishing(messages: seq<CString>, n: nat)
    ensures Walk(Filled(Concat(messages), n)) == Some(messages)
       <==> (forall i :: 0 <= i < |messages| ==> messages[i] != []) && |Concat(messages)| < n
  {
    if Walk(Filled(Concat(messages), n)) == Some(messages) {
      WalkConsumes(Filled(Concat(messages), n));
    } else if (forall i :: 0 <= i < |messages| ==> messages[i] != []) && |Concat(messages)| < n {
      WalkFindsMessages(messages, n);
    }
  }

  /** An empty message ends the replay: what was published after it is not sent. */
  lemma {:induction false} ReplayStopsAtEmpty(messages: seq<CString>, k: nat, n: nat)
    requires k < |messages| && messages[k] == [] && forall i :: 0 <= i < k ==> messages[i] != []
    requires |Concat(messages[..k])| < n
    ensures Walk(Filled(Concat(messages), n)) == Some(messages[..k])
  {
    if k == 0 {
      EmptyMessageFirst(messages, n);
    } else {
      assert messages[..k][1..] == messages[1..][..k - 1];
      ReplayStopsAtEmpty(messages[1..], k - 1, n - |messages[0]| - 1);
      WalkStep(messages[0], messages[1..], n, messages[1..][..k - 1]);
      assert [messages[0]] + messages[1..][..k - 1] == messages[..k];
    }
  }

  lemma EmptyMessageFirst(messages: seq<CString>, n: nat)
    requires messages != [] && messages[0] == [] && 0 < n
    ensures Walk(Filled(Concat(messages), n)) == Some([])
  {
    StringAtIs(Filled(Concat(messages), n), []);
  }

  /** All messages fit with one more NUL, or an empty one is reached before the buffer ends. */
  predicate ReplayEnds(messages: seq<CString>, n: nat) {
    |Concat(messages)| < n
    || exists k :: 0 <= k < |messages| && messages[k] == [] && |Concat(messages[..k])| < n
  }

  lemma ReplayEndsLater(messages: seq<CString>, n: nat)
    requires messages != [] && messages[0] != [] && |messages[0]| + 1 <= n
    ensures ReplayEnds(messages, n) <==> ReplayEnds(messages[1..], n - |messages[0]| - 1)
  {
    var rest, n' := messages[1..], n - |messages[0]| - 1;
    if k :| 0 <= k < |messages| && messages[k] == [] && |Concat(messages[..k])| < n {
      assert messages[..k][1..] == rest[..k - 1] && rest[k - 1] == [];
    }
    if k :| 0 <= k < |rest| && rest[k] == [] && |Concat(rest[..k])| < n' {
      assert messages[..k + 1][1..] == rest[..k] && messages[k + 1] == [];
    }
  }

  /** A first message that does not fit leaves no terminator in the buffer. */
  lemma FirstMessageTooLong(messages: seq<CString>, n: nat)
    requires messages != [] && |messages[0]| + 1 > n
    ensures Walk(Filled(Concat(messages), n)) == None
    ensures !ReplayEnds(messages, n)
  {
    var m, buffer := messages[0], Filled(Concat(messages), n);
    assert Concat(messages) == m + ([NUL] + Concat(messages[1..]));
    assert buffer == m[..n];
    forall k | 0 < k < |messages| ensures |Concat(messages[..k])| >= n { assert messages[..k][0] == m; }
    assert m == [] ==> n == 0;
  }

  lemma EndsAtOnce(messages: seq<CString>, n: nat)
    requires messages != [] && messages[0] == [] && 0 < n
    ensures Walk(Filled(Concat(messages), n)).Some? && ReplayEnds(messages, n)
  {
    EmptyMessageFirst(messages, n);
    assert messages[..0] == [];
  }

  /** The replay of what was published stays inside the buffer under exactly that condition. */
  lemma {:induction false} ReplayStaysInsideIff(messages: seq<CString>, n: nat)
    ensures Walk(Filled(Concat(messages), n)).Some? <==> ReplayEnds(messages, n)
  {
    if messages == [] {
      if n > 0 { StringAtIs(Filled([], n), []); }
    } else if |messages[0]| + 1 > n {
      FirstMessageTooLong(messages, n);
    } else if messages[0] == [] {
      EndsAtOnce(messages, n);
    } else {
      FirstMessage(messages[0], messages[1..], n);
      ReplayStaysInsideIff(messages[1..], n - |messages[0]| - 1);
      ReplayEndsLater(messages, n);
    }
  }

  /** For example, one message that fills the buffer up to its last byte, terminator included. */
  lemma FullBufferIsLeft(m: CString)
    requires |m| == 1023
    ensures Walk(Filled(Concat([m]), MESSAGE_SIZE)) == None
  {
    assert Concat([m]) == m + [NUL];
    assert [m][..0] == [];
    ReplayStaysInsideIff([m], MESSAGE_SIZE);
  }

  /** Cutting the file at the end of its block hides nothing from a subscriber whose buffer is no larger. */
  lemma BlockHoldsTheBuffer(bytes: seq<Byte>, blockSize: nat, n: nat)
    requires n <= blockSize
    ensures Filled(Cut(bytes, blockSize), n) == Filled(bytes, n)
  {
    assert Cut(Cut(bytes, blockSize), n) == Cut(bytes, n);
  }

  // ---------- the publisher's loop on the file system, when no other session acts meanwhile ----------

  /** formatBoxName. */
  function BoxPath(box: CString): Option<CString> {
    Some(['/' as int] + box)
  }

  lemma BoxPathNames(box: CString)
    ensures box != [] ==> PathNames(BoxPath(box), box)
    ensures box == [] ==> BadPath(BoxPath(box))
  {
    if box == [] { BadPathIs(BoxPath(box)); }
  }

  /** Neither a publisher nor a subscriber creates the box that it opens. */
  lemma MissingBoxIsNotOpened(a: AbsFs, box: CString)
    requires box !in a.files
    ensures AbsOpen(a, BoxPath(box), APPEND) == AbsReply(a, -1, [])
    ensures AbsOpen(a, BoxPath(box), READ) == AbsReply(a, -1, [])
  {
    BoxPathNames(box);
    if box == [] {
      BadPathAnswers(a, BoxPath(box), APPEND);
      BadPathAnswers(a, BoxPath(box), READ);
    } else {
      OpenAnswers(a, BoxPath(box), box, APPEND);
      OpenAnswers(a, BoxPath(box), box, READ);
    }
  }

  /** The file system, the box_size counter and the number of messages stored when the loop ends. */
  datatype Published = Published(fs: AbsFs, boxSize: nat, count: nat)

  const APPEND: Mode := Mode(false, false, true)
  const READ: Mode := Mode(false, false, false)

  /** box_size is a uint64_t. */
  function AddSize(boxSize: nat, n: nat): nat {
    (boxSize + n) % SIZE_MODULUS
  }

  lemma AddSizeTwice(boxSize: nat, x: nat, y: nat)
    ensures AddSize(AddSize(boxSize, x), y) == AddSize(boxSize, x + y)
  {
  }

  lemma AddSizeExact(boxSize: nat, n: nat)
    requires boxSize + n < 0x1_0000_0000_0000_0000
    ensures AddSize(boxSize, n) == boxSize + n
  {
  }

  /** The file system after bytes have been appended to a box, as far as they fit. */
  function Stored(a: AbsFs, box: CString, bytes: seq<Byte>): AbsFs
    requires box in a.files
  {
    a.(files := a.files[box := Cut(a.files[box] + bytes, a.blockSize)])
  }

  lemma StoredTwice(a: AbsFs, box: CString, x: seq<Byte>, y: seq<Byte>)
    requires box in a.files
    ensures Stored(Stored(a, box, x), box, y) == Stored(a, box, x + y)
  {
    CutTwice(a.files[box], x, y, a.blockSize);
    var c := Cut(a.files[box] + (x + y), a.blockSize);
    assert a.files[box := Cut(a.files[box] + x, a.blockSize)][box := c] == a.files[box := c];
  }

  lemma OpenedInside(a: AbsFs, box: CString)
    requires AbsInv(a)
    ensures AbsInv(AbsOpen(a, BoxPath(box), APPEND).state)
  {
    AbsStepKeepsInv(a, Open(BoxPath(box), APPEND));
  }

  /**
   * The loop over the packets of one publisher, undisturbed: open, write, close; it breaks at the first failure.
   * PublisherSession has the loop among the calls of other workers.
   */
  ghost function PublishAlone(a: AbsFs, box: CString, messages: seq<CString>, boxSize: nat): Published
    requires AbsInv(a)
    decreases |messages|
  {
    if messages == [] then Published(a, boxSize, 0)
    else
      OpenedInside(a, box);
      var openReply := AbsOpen(a, BoxPath(box), APPEND);
      if openReply.value == -1 then Published(openReply.state, boxSize, 0)
      else
        assert HandleInside(openReply.state, openReply.value);
        var writeReply := AbsWrite(openReply.state, openReply.value, messages[0] + [NUL]);
        AbsStepKeepsInv(openReply.state, Write(openReply.value, messages[0] + [NUL]));
        if writeReply.value == -1 then Published(writeReply.state, boxSize, 0)
        else
          var closeReply := AbsClose(writeReply.state, openReply.value);
          AbsStepKeepsInv(writeReply.state, Close(openReply.value));
          var size' := AddSize(boxSize, |messages[0]| + 1);
          if closeReply.value == -1 then Published(closeReply.state, size', 0)
          else
            var rest := PublishAlone(closeReply.state, box, messages[1..], size');
            Published(rest.fs, rest.boxSize, rest.count + 1)
  }

  /** A handle and, for a file that is still empty, a block are left. */
  predicate CanPublish(a: AbsFs, box: CString) {
    && box in a.files
    && LowestFree(a.handles, 0, a.openCount) != -1
    && !(a.files[box] == [] && NoBlockLeft(a))
  }

  /** One message appended through a handle opened for it. */
  lemma AppendOne(a: AbsFs, box: CString, data: seq<Byte>)
    requires AbsInv(a) && CanPublish(a, box) && box != [] && a.blockSize > 0 && data != []
    ensures var openReply := AbsOpen(a, BoxPath(box), APPEND);
      && openReply.value != -1 && AbsInv(openReply.state) && HandleInside(openReply.state, openReply.value)
      && (var writeReply := AbsWrite(openReply.state, openReply.value, data);
          && writeReply.value != -1
          && AbsClose(writeReply.state, openReply.value)
             == AbsReply(Stored(a, box, data), 0, []))
  {
    LowestFreeFacts(a.handles, 0, a.openCount);
    OpenedInside(a, box);
    var path: CString := BoxPath(box).value;
    assert path[1..] == box;
    var h, c := LowestFree(a.handles, 0, a.openCount), a.files[box];
    var openReply := AbsOpen(a, BoxPath(box), APPEND);
    assert a.files[box := c] == a.files;
    assert openReply.state == a.(handles := a.handles[h := Handle(box, |c|)]);
    assert HandleInside(openReply.state, h);
    var stored := data[..Smaller(|data|, a.blockSize - |c|)];
    AppendedIsCut(c, data, a.blockSize);
    if stored == [] {
      assert c + stored == c;
      assert a.handles[h := Handle(box, |c|)] - {h} == a.handles;
    } else {
      assert a.handles[h := Handle(box, |c|)][h := Handle(box, |c| + |stored|)] - {h} == a.handles;
    }
  }

  lemma AppendedIsCut(c: seq<Byte>, data: seq<Byte>, size: nat)
    requires |c| <= size
    ensures var stored := data[..Smaller(|data|, size - |c|)];
      Cut(c + data, size) == c + stored == Overwritten(c, |c|, stored)
  {
  }

  lemma CutTwice(c: seq<Byte>, x: seq<Byte>, y: seq<Byte>, size: nat)
    ensures Cut(Cut(c + x, size) + y, size) == Cut(c + (x + y), size)
  {
    assert c + (x + y) == c + x + y;
  }

  /** Storing a message keeps the conditions for the next one. */
  lemma StillCanPublish(a: AbsFs, box: CString, data: seq<Byte>)
    requires AbsInv(a) && CanPublish(a, box) && a.blockSize > 0 && data != []
    ensures var a' := Stored(a, box, data);
      AbsInv(a') && CanPublish(a', box)
  {
    var a' := Stored(a, box, data);
    forall h ensures HandleInside(a', h) { assert HandleInside(a, h); }
  }

  /** The first iteration, when it succeeds. */
  lemma AlonePublishesFirst(a: AbsFs, box: CString, messages: seq<CString>, boxSize: nat)
    requires AbsInv(a) && CanPublish(a, box) && box != [] && a.blockSize > 0 && messages != []
    ensures var data := messages[0] + [NUL];
      var a1 := Stored(a, box, data);
      && AbsInv(a1) && CanPublish(a1, box)
      && (var rest := PublishAlone(a1, box, messages[1..], AddSize(boxSize, |data|));
          PublishAlone(a, box, messages, boxSize) == Published(rest.fs, rest.boxSize, rest.count + 1))
  {
    AppendOne(a, box, messages[0] + [NUL]);
    StillCanPublish(a, box, messages[0] + [NUL]);
  }

  /**
   * Alone, a loop whose first write can succeed stores every message: the file is the first
   * block of its old contents followed by the messages with their terminators, box_size counts all of
   * them, also those that no longer fit, and every handle that was opened has been closed again.
   */
  lemma {:induction false} AloneStoresAll(a: AbsFs, box: CString, messages: seq<CString>, boxSize: nat)
    requires AbsInv(a) && CanPublish(a, box) && box != [] && a.blockSize > 0 && boxSize < SIZE_MODULUS
    ensures PublishAlone(a, box, messages, boxSize) == Published(
      Stored(a, box, Concat(messages)), AddSize(boxSize, |Concat(messages)|), |messages|)
    decreases |messages|
  {
    if messages == [] {
      NothingToAppend(a, box);
    } else {
      var data := messages[0] + [NUL];
      AlonePublishesFirst(a, box, messages, boxSize);
      AloneStoresAll(Stored(a, box, data), box, messages[1..], AddSize(boxSize, |data|));
      TwoPieces(a, box, data, Concat(messages[1..]), Concat(messages), boxSize);
    }
  }

  lemma TwoPieces(a: AbsFs, box: CString, data: seq<Byte>, rest: seq<Byte>, all: seq<Byte>, boxSize: nat)
    requires box in a.files && all == data + rest
    ensures Stored(Stored(a, box, data), box, rest) == Stored(a, box, all)
    ensures AddSize(AddSize(boxSize, |data|), |rest|) == AddSize(boxSize, |all|)
  {
    StoredTwice(a, box, data, rest);
    AddSizeTwice(boxSize, |data|, |rest|);
  }

  lemma NothingToAppend(a: AbsFs, box: CString)
    requires AbsInv(a) && box in a.files
    ensures Stored(a, box, Concat([])) == a
  {
    var c := a.files[box];
    assert c + [] == c && Cut(c, a.blockSize) == c;
    assert a.files[box := c] == a.files;
  }

  /**
   * Otherwise nothing is stored: no handle is left, or the file is empty and no block is left for it.
   * In the second case the handle that was opened for the first message stays open.
   */
  lemma AloneStoresNothing(a: AbsFs, box: CString, messages: seq<CString>, boxSize: nat)
    requires AbsInv(a) && box in a.files && !CanPublish(a, box) && box != [] && a.blockSize > 0
    ensures var p := PublishAlone(a, box, messages, boxSize);
      var h := LowestFree(a.handles, 0, a.openCount);
      && p.count == 0 && p.boxSize == boxSize
      && p.fs == if messages == [] || h == -1 then a else a.(handles := a.handles[h := Handle(box, 0)])
  {
    if messages != [] {
      var path: CString := BoxPath(box).value;
      assert path[1..] == box;
      assert a.files[box := a.files[box]] == a.files;
      OpenedInside(a, box);
    }
  }

  /** Alone, all messages are stored if and only if there are none, or the first can be. */
  lemma AloneStoresAllIff(a: AbsFs, box: CString, messages: seq<CString>, boxSize: nat)
    requires AbsInv(a) && box in a.files && box != [] && a.blockSize > 0 && boxSize < SIZE_MODULUS
    ensures PublishAlone(a, box, messages, boxSize).count == |messages| <==> messages == [] || CanPublish(a, box)
  {
    if CanPublish(a, box) {
      AloneStoresAll(a, box, messages, boxSize);
    } else {
      AloneStoresNothing(a, box, messages, boxSize);
    }
  }

  /** i_size is box_size cut at the block size, before and after, as long as the counter does not wrap. */
  lemma AloneSizesAgree(a: AbsFs, box: CString, messages: seq<CString>, boxSize: nat)
    requires AbsInv(a) && box in a.files && box != [] && a.blockSize > 0
    requires |a.files[box]| == Smaller(boxSize, a.blockSize)
    requires boxSize + |Concat(messages)| < 0x1_0000_0000_0000_0000
    ensures var p := PublishAlone(a, box, messages, boxSize);
      box in p.fs.files && |p.fs.files[box]| == Smaller(p.boxSize, a.blockSize)
  {
    if CanPublish(a, box) {
      AloneStoresAll(a, box, messages, boxSize);
      AddSizeExact(boxSize, |Concat(messages)|);
    } else {
      AloneStoresNothing(a, box, messages, boxSize);
    }
  }

  /**
   * From an empty box to a subscriber: what the subscriber's walk sends is what was published
   * if and only if no message is empty and they fill less than the 1024 bytes of block and buffer.
   */
  lemma AlonePublishThenReplay(a: AbsFs, box: CString, messages: seq<CString>)
    requires AbsInv(a) && CanPublish(a, box) && box != [] && a.blockSize == 1024 && a.files[box] == []
    ensures var p := PublishAlone(a, box, messages, 0);
      && box in p.fs.files
      && (Walk(Filled(p.fs.files[box], MESSAGE_SIZE)) == Some(messages)
          <==> (forall i :: 0 <= i < |messages| ==> messages[i] != []) && |Concat(messages)| < 1024)
  {
    AloneStoresAll(a, box, messages, 0);
    assert [] + Concat(messages) == Concat(messages);
    BlockHoldsTheBuffer(Concat(messages), 1024, MESSAGE_SIZE);
    ReplayUndoesPublishing(messages, MESSAGE_SIZE);
  }
}
