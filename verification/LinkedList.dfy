/** The singly linked list of boxes that the broker and the manager keep (utils/list.c). */
module LinkedList {
  import opened CStrings
  import opened StableSort
  import opened BubblePass

  datatype TfsFile = TfsFile(boxName: CString, nPublishers: nat, nSubscribers: nat, boxSize: nat)

  class ListNode {
    var file: TfsFile
    var next: ListNode?

    constructor (file: TfsFile)
      ensures this.file == file && next == null
    {
      this.file := file;
      next := null;
    }
  }

  // ---------- the list as a value ----------

  /** The index of the first box with the given name; |files| when there is none. */
  function FirstNamed(files: seq<TfsFile>, name: CString): (k: nat)
    ensures k <= |files|
    ensures k < |files| ==> files[k].boxName == name
    ensures forall i :: 0 <= i < k ==> files[i].boxName != name
  {
    if files == [] || files[0].boxName == name then 0 else 1 + FirstNamed(files[1..], name)
  }

  function RemoveAt<T>(s: seq<T>, k: nat): seq<T>
    requires k < |s|
  {
    s[..k] + s[k + 1..]
  }

  /** The list with the first box of the given name taken out; unchanged when there is none. */
  function WithoutFirst(files: seq<TfsFile>, name: CString): seq<TfsFile> {
    if files == [] then []
    else if files[0].boxName == name then files[1..]
    else [files[0]] + WithoutFirst(files[1..], name)
  }

  lemma {:induction false} WithoutFirstIs(files: seq<TfsFile>, name: CString)
    ensures var k := FirstNamed(files, name);
      WithoutFirst(files, name) == if k < |files| then RemoveAt(files, k) else files
  {
    if files != [] && files[0].boxName != name {
      WithoutFirstIs(files[1..], name);
      RemoveBehind(files[0], files[1..], FirstNamed(files[1..], name));
      assert files == [files[0]] + files[1..];
    }
  }

  lemma RemoveBehind<T>(x: T, s: seq<T>, k: nat)
    ensures k < |s| ==> RemoveAt([x] + s, k + 1) == [x] + RemoveAt(s, k)
  {
    if k < |s| {
      assert ([x] + s)[..k + 1] == [x] + s[..k] && ([x] + s)[k + 2..] == s[k + 1..];
    }
  }

  /** What the broker's removal of a box does to the list: without the name, the head goes instead. */
  function BrokerRemoval(files: seq<TfsFile>, name: CString): seq<TfsFile>
    requires files != []
  {
    var k := FirstNamed(files, name);
    RemoveAt(files, if k < |files| then k else 0)
  }

  /** Whether the tail pointer is right after a removal. */
  predicate TailAfterRemoval(files: seq<TfsFile>, tailIsLast: bool, name: CString) {
    |files| == 1 || (tailIsLast && FirstNamed(files, name) != |files| - 1)
  }

  /** The broker removes exactly the first box of that name if and only if there is one. */
  lemma BrokerRemovalIsExact(files: seq<TfsFile>, name: CString)
    requires files != []
    ensures BrokerRemoval(files, name) == WithoutFirst(files, name)
       <==> exists i :: 0 <= i < |files| && files[i].boxName == name
  {
    WithoutFirstIs(files, name);
    var k := FirstNamed(files, name);
    if k < |files| { assert files[k].boxName == name; }
  }

  function FileItems(files: seq<TfsFile>): (r: seq<Keyed<TfsFile>>)
    ensures |r| == |files| && forall i :: 0 <= i < |files| ==> r[i] == Keyed(files[i].boxName, files[i])
  {
    seq(|files|, i requires 0 <= i < |files| => Keyed(files[i].boxName, files[i]))
  }

  function ItemFiles(items: seq<Keyed<TfsFile>>): (r: seq<TfsFile>)
    ensures |r| == |items| && forall i :: 0 <= i < |items| ==> r[i] == items[i].val
  {
    seq(|items|, i requires 0 <= i < |items| => items[i].val)
  }

  /** The boxes in stable, non-decreasing strcmp order of their names. */
  function SortedFiles(files: seq<TfsFile>): seq<TfsFile> {
    ItemFiles(Sort(FileItems(files)))
  }

  /** Sorting keeps each file with its own name as key. */
  lemma SortedItemsAreFileItems(files: seq<TfsFile>)
    ensures FileItems(SortedFiles(files)) == Sort(FileItems(files))
  {
    var items := FileItems(files);
    SortFacts(items, []);
    forall i | 0 <= i < |Sort(items)| ensures Sort(items)[i].key == Sort(items)[i].val.boxName {
      assert Sort(items)[i] in multiset(Sort(items));
      assert Sort(items)[i] in items;
    }
  }

  /** In dictionary order of their names. */
  ghost predicate InNameOrder(files: seq<TfsFile>) {
    forall i, j :: 0 <= i < j < |files| ==> !Precedes(files[j].boxName, files[i].boxName)
  }

  lemma SortedIsInNameOrder(files: seq<TfsFile>)
    requires Sorted(FileItems(files))
    ensures InNameOrder(files)
  {
    var items := FileItems(files);
    SortedIsDictionaryOrder(items);
    forall i, j | 0 <= i < j < |files| ensures !Precedes(files[j].boxName, files[i].boxName) {
      assert !Precedes(items[j].key, items[i].key);
    }
  }

  lemma SortedFilesInOrder(files: seq<TfsFile>)
    ensures InNameOrder(SortedFiles(files))
  {
    SortedItemsAreFileItems(files);
    SortFacts(FileItems(files), []);
    SortedIsInNameOrder(SortedFiles(files));
  }

  // ---------- the list on the heap ----------

  type Item = Keyed<(ListNode, TfsFile)>

  /** Each node, with what it holds, under the name that list_sort compares. */
  ghost function Items(nodes: seq<ListNode>, files: seq<TfsFile>): (r: seq<Item>)
    requires |files| == |nodes|
    ensures |r| == |nodes| && forall i :: 0 <= i < |nodes| ==> r[i] == Keyed(files[i].boxName, (nodes[i], files[i]))
  {
    seq(|nodes|, i requires 0 <= i < |nodes| => Keyed(files[i].boxName, (nodes[i], files[i])))
  }

  lemma ItemsSwapped(nodes: seq<ListNode>, files: seq<TfsFile>, i: nat)
    requires |files| == |nodes| && i + 1 < |nodes|
    ensures Items(Swapped(nodes, i), Swapped(files, i)) == Swapped(Items(nodes, files), i)
  {
  }

  /** What a pass counts: an iteration for each place that the cursor has moved, and for each swap. */
  predicate Counted(ended: bool, iterations: nat, i: nat, swaps: nat) {
    iterations == i + swaps && (ended <==> swaps == 0)
  }

  class List {
    var head: ListNode?
    var tail: ListNode?
    var size: int
    ghost var nodes: seq<ListNode>
    ghost var files: seq<TfsFile>
    ghost var repr: set<ListNode>

    ghost function NodeAt(i: nat): ListNode?
      reads this`nodes
    {
      if i < |nodes| then nodes[i] else null
    }

    /** The nodes reachable from the head, in order: distinct, ending in null, holding files; size is no smaller. */
    ghost predicate Chained()
      reads this, repr
    {
      && (forall i :: 0 <= i < |nodes| ==> nodes[i] in repr)
      && |files| == |nodes|
      && (forall i {:trigger files[i]} :: 0 <= i < |nodes| ==> nodes[i].file == files[i])
      && (forall i, j :: 0 <= i < j < |nodes| ==> nodes[i] != nodes[j])
      && head == NodeAt(0)
      && (forall i {:trigger nodes[i].next} :: 0 <= i < |nodes| ==> nodes[i].next == NodeAt(i + 1))
      && size >= |nodes|
    }

    ghost predicate TailIsLast()
      reads this
    {
      nodes != [] ==> tail == nodes[|nodes| - 1]
    }

    /** The tail is the last node, or one that has been in the list and is not any more. */
    ghost predicate TailWasLast()
      reads this
    {
      && (nodes != [] ==> tail != null && tail in repr)
      && (forall i :: 0 <= i < |nodes| - 1 ==> nodes[i] != tail)
    }

    /** What every list satisfies that has only been added to and removed from. */
    ghost predicate Kept()
      reads this, repr
    {
      Chained() && TailWasLast()
    }

    ghost predicate Valid()
      reads this, repr
    {
      Kept() && TailIsLast() && size == |nodes|
    }

    constructor ()
      ensures Valid() && nodes == [] && files == [] && repr == {}
    {
      head, tail, size := null, null, 0;
      nodes, files, repr := [], [], {};
    }

    /** The node goes behind the tail; when that is not in the list any more, the list counts it but does not get it. */
    method Add(file: TfsFile) returns (ghost added: ListNode)
      requires Kept()
      modifies this, repr`next
      ensures Kept() && fresh(added) && repr == old(repr) + {added} && size == old(size) + 1
      ensures TailIsLast() == old(TailIsLast())
      ensures old(TailIsLast()) ==>
        && nodes == old(nodes) + [added]
        && files == old(files) + [file]
      ensures !old(TailIsLast()) ==> nodes == old(nodes) && files == old(files)
      ensures old(Valid()) ==> Valid()
    {
      var node := new ListNode(file);
      ghost var stale := !TailIsLast();
      if head == null {
        head, tail := node, node;
      } else {
        tail.next := node;
        tail := node;
      }
      size := size + 1;
      repr, added := repr + {node}, node;
      if !stale {
        nodes, files := nodes + [node], files + [file];
      }
    }

    /** Unlinks the node at the ghost index k; the source leaves `tail` alone. */
    method Remove(prev: ListNode?, node: ListNode?, ghost k: nat)
      requires Kept()
      requires node != null ==> k < |nodes| && node == nodes[k] && prev == if k == 0 then null else nodes[k - 1]
      modifies this, repr`next
      ensures node == null ==> unchanged(this) && unchanged(repr)
      ensures node != null ==> nodes == RemoveAt(old(nodes), k) && files == RemoveAt(old(files), k)
      ensures node != null ==> size == old(size) - 1
      ensures Kept() && tail == old(tail) && repr == old(repr)
    {
      if node == null { return; }
      if prev == null {
        head := node.next;
      } else {
        prev.next := node.next;
      }
      size := size - 1;
      nodes, files := RemoveAt(nodes, k), RemoveAt(files, k);
    }

    /** The predecessor of the first node with this name; null for the head and for an absent name. */
    method SearchPrevNode(name: CString) returns (prev: ListNode?)
      requires Chained() && nodes != []
      ensures var k := FirstNamed(files, name);
        prev == if k == 0 || k == |nodes| then null else nodes[k - 1]
    {
      var node := head;
      if Strcmp(node.file.boxName, name) == 0 {
        StrcmpZeroIsEquality(node.file.boxName, name);
        return null;
      }
      StrcmpZeroIsEquality(node.file.boxName, name);
      ghost var i := 0;
      while node.next != null
        invariant 0 <= i < |nodes| && node == nodes[i]
        invariant forall j :: 0 <= j <= i ==> files[j].boxName != name
        decreases |nodes| - i
      {
        StrcmpZeroIsEquality(node.next.file.boxName, name);
        if Strcmp(node.next.file.boxName, name) == 0 {
          assert files[i + 1].boxName == name;
          return node;
        }
        node := node.next;
        i := i + 1;
      }
      prev := null;
    }

    method SearchNode(name: CString) returns (found: ListNode?)
      requires Chained()
      ensures found == NodeAt(FirstNamed(files, name))
    {
      var node := head;
      ghost var i := 0;
      while node != null
        invariant 0 <= i <= |nodes| && node == NodeAt(i)
        invariant forall j :: 0 <= j < i ==> files[j].boxName != name
        decreases |nodes| - i
      {
        StrcmpZeroIsEquality(node.file.boxName, name);
        if Strcmp(node.file.boxName, name) == 0 {
          assert files[i].boxName == name;
          return node;
        }
        node := node.next;
        i := i + 1;
      }
      found := null;
    }

    /**
     * The broker's removal of a box from its registry. The tail pointer is right afterwards if and only if the
     * list is empty, or the pointer was right and the removed node was not the last.
     */
    method RemoveBox(name: CString)
      requires Kept() && nodes != []
      modifies this, repr`next
      ensures Kept() && repr == old(repr)
      ensures files == BrokerRemoval(old(files), name)
      ensures size == old(size) - 1
      ensures TailIsLast() == TailAfterRemoval(old(files), old(TailIsLast()), name)
      ensures old(Valid()) ==> (Valid() <==> TailIsLast())
    {
      ghost var k := FirstNamed(files, name);
      var prev := SearchPrevNode(name);
      if prev != null {
        Remove(prev, prev.next, k);
      } else {
        Remove(null, head, 0);
      }
    }

    /** list_print, as the boxes in the order in which their lines are written. */
    method Print() returns (printed: seq<TfsFile>)
      requires Chained()
      ensures printed == files
    {
      printed := [];
      var node := head;
      ghost var i := 0;
      while node != null
        invariant 0 <= i <= |nodes| && node == NodeAt(i)
        invariant printed == files[..i]
        decreases |nodes| - i
      {
        assert node.file == files[i];
        printed := printed + [node.file];
        node := node.next;
        i := i + 1;
      }
    }

    /** The pointer swap inside list_sort, for the nodes at i and i + 1. */
    method SwapNodes(prev: ListNode?, node: ListNode, next: ListNode, ghost i: nat)
      requires Valid() && i + 1 < |nodes| && node == nodes[i] && next == nodes[i + 1]
      requires prev == if i == 0 then null else nodes[i - 1]
      modifies `head, `tail, `nodes, `files, repr`next
      ensures Valid() && nodes == Swapped(old(nodes), i) && files == Swapped(old(files), i)
    {
      node.next := next.next;
      next.next := node;
      if prev == null {
        head := next;
      } else {
        prev.next := next;
      }
      if next == tail {
        tail := node;
      }
      nodes, files := Swapped(nodes, i), Swapped(files, i);
    }

    /** Inside a pass: the cursor is at index i; prev is its predecessor, or its larger successor after a swap. */
    ghost predicate AtCursor(prev: ListNode?, node: ListNode?, items0: seq<Item>, i: nat, swaps: nat, steppedBack: bool)
      reads this, repr
    {
      && Valid() && node == NodeAt(i)
      && prev == (if steppedBack then NodeAt(i + 1) else if i == 0 then null else NodeAt(i - 1))
      && Passing(items0, Items(nodes, files), i, swaps, steppedBack)
    }

    /** The body of the inner loop of list_sort. */
    method Visit(prev: ListNode?, node: ListNode, ghost items0: seq<Item>, ghost i: nat, ghost swaps: nat,
                 ghost steppedBack: bool)
        returns (next: ListNode?, swapped: bool)
      requires AtCursor(prev, node, items0, i, swaps, steppedBack)
      modifies `head, `tail, `nodes, `files, repr`next
      ensures swapped ==> AtCursor(node, next, items0, i, swaps + 1, true) && swaps < SwapsFrom(items0, 0)
      ensures !swapped ==> i < |items0| && AtCursor(node, next, items0, i + 1, swaps, false)
    {
      next := node.next;
      swapped := next != null && Strcmp(node.file.boxName, next.file.boxName) > 0;
      ghost var items := Items(nodes, files);
      if swapped {
        SwapInPass(items0, items, i, swaps, steppedBack);
        ItemsSwapped(nodes, files, i);
        SwapNodes(prev, node, next, i);
      } else {
        StepInPass(items0, items, i, swaps, steppedBack);
      }
    }

    lemma PassStarts()
      requires Valid()
      ensures AtCursor(null, head, Items(nodes, files), 0, 0, false)
    {
    }

    lemma PassEnds(prev: ListNode?, items0: seq<Item>, i: nat, swaps: nat, steppedBack: bool)
      requires AtCursor(prev, null, items0, i, swaps, steppedBack)
      ensures Valid() && i == |nodes| == |items0|
      ensures Items(nodes, files) == PassFrom(items0, 0) && swaps == SwapsFrom(items0, 0)
    {
    }

    /** One iteration of the outer loop of list_sort. */
    method Pass() returns (ended: bool, ghost iterations: nat)
      requires Valid()
      modifies `head, `tail, `nodes, `files, repr`next
      ensures Valid() && |nodes| == |old(nodes)|
      ensures Items(nodes, files) == PassFrom(Items(old(nodes), old(files)), 0)
      ensures ended <==> SwapsFrom(Items(old(nodes), old(files)), 0) == 0
      ensures iterations == |nodes| + SwapsFrom(Items(old(nodes), old(files)), 0)
    {
      ended := true;
      iterations := 0;
      var prev: ListNode? := null;
      var node := head;
      ghost var items0 := Items(nodes, files);
      ghost var bound, length := SwapsFrom(items0, 0), |items0|;
      ghost var i: nat, swaps: nat, steppedBack := 0, 0, false;
      PassStarts();
      while node != null
        invariant AtCursor(prev, node, items0, i, swaps, steppedBack)
        invariant Counted(ended, iterations, i, swaps)
        decreases bound - swaps, length - i
      {
        var next, swapped := Visit(prev, node, items0, i, swaps, steppedBack);
        iterations := iterations + 1;
        if swapped {
          ended, swaps, steppedBack := false, swaps + 1, true;
        } else {
          i, steppedBack := i + 1, false;
        }
        prev, node := node, next;
      }
      PassEnds(prev, items0, i, swaps, steppedBack);
    }

    /**
     * Sorting by relinking: the nodes end up exactly as the stable reference sort orders them.
     * The ghost results count passes and iterations of the inner loop.
     */
    method SortList() returns (ghost passes: nat, ghost iterations: nat)
      requires Valid()
      modifies `head, `tail, `nodes, `files, repr`next
      ensures Valid() && |nodes| == |old(nodes)|
      ensures Items(nodes, files) == Sort(Items(old(nodes), old(files)))
      ensures files == SortedFiles(old(files))
      ensures 1 <= passes && (nodes != [] ==> passes <= |nodes|)
      ensures iterations == passes * |nodes| + Inversions(Items(old(nodes), old(files)))
    {
      ghost var nodes0, files0, items0 := nodes, files, Items(nodes, files);
      var ended := false;
      ghost var swaps: nat := 0;
      passes, iterations := 0, 0;
      ghost var items := items0;
      while !ended
        invariant Valid() && |nodes| == |nodes0| && items == Items(nodes, files)
        invariant Sorting(items0, items, ended, passes, swaps, iterations)
        decreases !ended, Inversions(items)
      {
        SortingStep(items0, items, passes, swaps, iterations);
        swaps := swaps + SwapsFrom(items, 0);
        items := PassFrom(items, 0);
        ghost var n;
        ended, n := Pass();
        iterations, passes := iterations + n, passes + 1;
      }
      SortingEnds(items0, items, passes, swaps, iterations);
      FilesFollowItems(nodes0, files0, nodes, files);
    }
  }

  /** Removing the last of two boxes leaves a tail pointer to a node that is no longer in the list. */
  method StaleTail(first: TfsFile, second: TfsFile) returns (list: List)
    requires first.boxName != second.boxName
    ensures list.Chained() && list.files == [first] && !list.TailIsLast()
  {
    list := new List();
    ghost var node1 := list.Add(first);
    ghost var node2 := list.Add(second);
    assert FirstNamed(list.files, second.boxName) == 1;
    list.RemoveBox(second.boxName);
  }

  lemma FilesFollowItems(nodes0: seq<ListNode>, files0: seq<TfsFile>, nodes: seq<ListNode>, files: seq<TfsFile>)
    requires |nodes0| == |files0| && |nodes| == |files|
    requires Items(nodes, files) == Sort(Items(nodes0, files0))
    ensures files == SortedFiles(files0)
  {
    var file := (p: (ListNode, TfsFile)) => p.1;
    SortRetag(Items(nodes0, files0), file);
    assert Retag(Items(nodes0, files0), file) == FileItems(files0);
    assert Retag(Items(nodes, files), file) == FileItems(files);
    assert ItemFiles(FileItems(files)) == files;
  }
}
