/**
 * The listing of boxes: the broker's packet stream (mbroker/mbroker.c) and the manager
 * that receives it (manager/manager.c).
 */
module Listing {
  import opened CStrings
  import opened LinkedList
  import opened StableSort

  /** mailbox_data_t. */
  datatype Packet = Packet(last: nat, boxName: CString, boxSize: nat, nPublishers: nat, nSubscribers: nat)

  function PacketOf(file: TfsFile, last: nat): Packet {
    Packet(last, file.boxName, file.boxSize, file.nPublishers, file.nSubscribers)
  }

  function FileOf(p: Packet): TfsFile {
    TfsFile(p.boxName, p.nPublishers, p.nSubscribers, p.boxSize)
  }

  /** The packets for a non-empty list: `last` is 1 on the final one and 0 on all others. */
  function Packets(files: seq<TfsFile>): (r: seq<Packet>)
    ensures |r| == |files|
    ensures forall i :: 0 <= i < |files| ==> r[i] == PacketOf(files[i], if i == |files| - 1 then 1 else 0)
  {
    seq(|files|, i requires 0 <= i < |files| => PacketOf(files[i], if i == |files| - 1 then 1 else 0))
  }

  /**
   * An empty list is announced by one last packet with an empty name, whose counters are not set;
   * by none when its size still counts boxes that are not in it.
   */
  ghost predicate IsListing(packets: seq<Packet>, files: seq<TfsFile>, size: int) {
    if size == 0 then files == [] && |packets| == 1 && packets[0].last == 1 && packets[0].boxName == []
    else packets == Packets(files)
  }

  /** What the manager keeps from packet i on: all up to the first one marked last, or up to an empty name. */
  function ReceivedFrom(packets: seq<Packet>, i: nat): seq<TfsFile>
    requires i <= |packets|
    decreases |packets| - i
  {
    if i == |packets| || packets[i].boxName == [] then []
    else [FileOf(packets[i])] + (if packets[i].last == 1 then [] else ReceivedFrom(packets, i + 1))
  }

  function Received(packets: seq<Packet>): seq<TfsFile> {
    ReceivedFrom(packets, 0)
  }

  lemma {:induction false} ReceivedPackets(files: seq<TfsFile>, i: nat)
    requires i <= |files|
    ensures ReceivedFrom(Packets(files), i) == files[i..] <==> forall j :: i <= j < |files| ==> files[j].boxName != []
    decreases |files| - i
  {
    if i < |files| && files[i].boxName != [] {
      ReceivedPackets(files, i + 1);
      assert files[i..] == [files[i]] + files[i + 1..];
      assert (ReceivedFrom(Packets(files), i))[1..] == ReceivedFrom(Packets(files), i + 1);
    }
  }

  /** The stream round-trips if and only if no box has an empty name. */
  lemma ListingRoundTrips(packets: seq<Packet>, files: seq<TfsFile>, size: int)
    requires IsListing(packets, files, size)
    ensures Received(packets) == files <==> forall i :: 0 <= i < |files| ==> files[i].boxName != []
  {
    if files != [] {
      ReceivedPackets(files, 0);
      assert files[0..] == files;
    }
  }

  /** What the manager prints has the boxes of the registry, in order of name, equal names in registry order. */
  lemma PrintedIsSortedRegistry(packets: seq<Packet>, files: seq<TfsFile>, size: int, name: CString)
    requires IsListing(packets, files, size)
    requires forall i :: 0 <= i < |files| ==> files[i].boxName != []
    ensures var printed := SortedFiles(Received(packets));
      && InNameOrder(printed)
      && multiset(FileItems(printed)) == multiset(FileItems(files))
      && WithKey(FileItems(printed), name) == WithKey(FileItems(files), name)
  {
    ListingRoundTrips(packets, files, size);
    SortedItemsAreFileItems(files);
    SortFacts(FileItems(files), name);
    SortedIsInNameOrder(SortedFiles(Received(packets)));
  }

  /**
   * A stream for a list that counts what it holds is never empty, only its final packet is marked last,
   * and every other packet names a box; the final one does too, unless there is none.
   */
  lemma StreamEndsOnce(packets: seq<Packet>, files: seq<TfsFile>)
    requires IsListing(packets, files, |files|)
    ensures |packets| == if files == [] then 1 else |files|
    ensures forall i :: 0 <= i < |packets| ==> packets[i].last == if i == |packets| - 1 then 1 else 0
    ensures files == [] ==> packets[0].boxName == []
    ensures forall i :: 0 <= i < |files| ==> Describes(packets[i], files[i])
  {
  }

  /** Each counter is in the field of its name. */
  predicate Describes(p: Packet, file: TfsFile) {
    && p.boxName == file.boxName && p.boxSize == file.boxSize
    && p.nPublishers == file.nPublishers && p.nSubscribers == file.nSubscribers
  }

  /**
   * The manager keeps the packets up to the first one marked last, or before the first empty name,
   * or all there are: the first n, whatever comes after them.
   */
  lemma ReceivedIs(packets: seq<Packet>, n: nat)
    requires n <= |packets|
    requires forall i :: 0 <= i < n ==> packets[i].boxName != []
    requires forall i :: 0 <= i < n - 1 ==> packets[i].last != 1
    requires n == |packets| || packets[n].boxName == [] || (n > 0 && packets[n - 1].last == 1)
    ensures |Received(packets)| == n
    ensures forall i :: 0 <= i < n ==> Describes(packets[i], Received(packets)[i])
  {
    ReceivedFromIs(packets, 0, n);
  }

  lemma {:induction false} ReceivedFromIs(packets: seq<Packet>, i: nat, n: nat)
    requires i <= n <= |packets|
    requires forall j :: 0 <= j < n ==> packets[j].boxName != []
    requires forall j :: 0 <= j < n - 1 ==> packets[j].last != 1
    requires n == |packets| || packets[n].boxName == [] || (n > 0 && packets[n - 1].last == 1)
    requires i < n || n == 0 || packets[n - 1].last != 1
    ensures |ReceivedFrom(packets, i)| == n - i
    ensures forall j :: i <= j < n ==> Describes(packets[j], ReceivedFrom(packets, i)[j - i])
    decreases n - i
  {
    if i < n && packets[i].last != 1 {
      ReceivedFromIs(packets, i + 1, n);
    }
  }

  // ---------- the two ends of the pipe ----------

  /** The LIST_MAILBOXES session: one packet for each node, or one that says there is none, by the list's size. */
  method SendListing(list: List) returns (packets: seq<Packet>)
    requires list.Chained()
    ensures IsListing(packets, list.files, list.size)
    ensures |packets| >= |list.files| && forall i :: 0 <= i < |list.files| ==> Describes(packets[i], list.files[i])
  {
    packets := [];
    if list.size == 0 {
      var boxSize: nat, nPublishers: nat, nSubscribers: nat := *, *, *;
      packets := [Packet(1, [], boxSize, nPublishers, nSubscribers)];
    } else {
      var node := list.head;
      ghost var i := 0;
      while node != null
        invariant 0 <= i <= |list.nodes| && node == list.NodeAt(i)
        invariant packets == Packets(list.files)[..i]
        decreases |list.nodes| - i
      {
        assert node.file == list.files[i];
        packets := packets + [PacketOf(node.file, if node.next == null then 1 else 0)];
        node := node.next;
        i := i + 1;
      }
    }
  }

  /** What is still to come, unless the loop has been left. */
  function Rest(packets: seq<Packet>, i: nat, more: bool): seq<TfsFile>
    requires i <= |packets|
  {
    if more then ReceivedFrom(packets, i) else []
  }

  lemma ReceiveOne(packets: seq<Packet>, i: nat, before: seq<TfsFile>)
    requires i < |packets| && packets[i].boxName != []
    ensures before + Rest(packets, i, true)
      == before + [FileOf(packets[i])] + Rest(packets, i + 1, packets[i].last != 1)
  {
    var rest := Rest(packets, i + 1, packets[i].last != 1);
    assert before + ([FileOf(packets[i])] + rest) == before + [FileOf(packets[i])] + rest;
  }

  lemma ReceiveNone(packets: seq<Packet>, i: nat)
    requires i < |packets| && packets[i].boxName == []
    ensures Rest(packets, i, true) == Rest(packets, i, false) == []
  {
  }

  /** The receiving loop: packets are added to a list until the last one, or an empty name. */
  method Receive(packets: seq<Packet>) returns (list: List)
    ensures fresh(list) && list.Valid() && fresh(list.repr) && list.files == Received(packets)
  {
    list := new List();
    var i, more := 0, true;
    while more && i < |packets|
      invariant 0 <= i <= |packets|
      invariant list.Valid() && fresh(list) && fresh(list.repr)
      invariant Received(packets) == list.files + Rest(packets, i, more)
      decreases |packets| - i, more
    {
      var data := packets[i];
      if data.boxName == [] {
        ReceiveNone(packets, i);
        more := false;
      } else {
        ReceiveOne(packets, i, list.files);
        ghost var node := list.Add(FileOf(data));
        i := i + 1;
        more := data.last != 1;
      }
    }
  }

  /** listBoxes: the boxes received are sorted and printed. */
  method ListBoxes(packets: seq<Packet>) returns (printed: seq<TfsFile>)
    ensures printed == SortedFiles(Received(packets)) && InNameOrder(printed)
  {
    var list := Receive(packets);
    ghost var passes, iterations;
    passes, iterations := list.SortList();
    printed := list.Print();
    SortedFilesInOrder(Received(packets));
  }
}
