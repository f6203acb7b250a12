/**
 * A directory block as a table of entries (fs/state.c), and the finite map from names to inumbers
 * that it stands for.
 */
module Directory {
  import opened CStrings
  import opened Maps

  const MAX_FILE_NAME: nat := 40
  const ENTRY_SIZE: nat := 44
  const NO_INUMBER: int := -1

  /** dir_entry_t: the 40 bytes of d_name as they are in memory, and d_inumber. */
  datatype DirEntry = DirEntry(name: seq<Byte>, inumber: int)

  // ---------- entries inside a block ----------

  function EntryAt(block: seq<Byte>, i: nat): (e: DirEntry)
    requires ENTRY_SIZE * i + ENTRY_SIZE <= |block|
    ensures |e.name| == MAX_FILE_NAME
  {
    var p := ENTRY_SIZE * i;
    DirEntry(block[p..p + MAX_FILE_NAME], DecodeInt(block[p + MAX_FILE_NAME..p + ENTRY_SIZE]))
  }

  function Entries(block: seq<Byte>): (es: seq<DirEntry>)
    ensures |es| == |block| / ENTRY_SIZE
    ensures forall i :: 0 <= i < |es| ==> es[i] == EntryAt(block, i)
  {
    seq(|block| / ENTRY_SIZE, i requires 0 <= i < |block| / ENTRY_SIZE => EntryAt(block, i))
  }

  function WithInumber(block: seq<Byte>, i: nat, inumber: int): seq<Byte>
    requires i < |block| / ENTRY_SIZE && IsInt32(inumber)
  {
    Patch(block, ENTRY_SIZE * i + MAX_FILE_NAME, EncodeInt(inumber))
  }

  function WithName(block: seq<Byte>, i: nat, name: seq<Byte>): seq<Byte>
    requires i < |block| / ENTRY_SIZE && |name| == MAX_FILE_NAME
  {
    Patch(block, ENTRY_SIZE * i, name)
  }

  lemma InumberWritten(block: seq<Byte>, i: nat, inumber: int)
    requires i < |block| / ENTRY_SIZE && IsInt32(inumber)
    ensures Entries(WithInumber(block, i, inumber))
      == Entries(block)[i := Entries(block)[i].(inumber := inumber)]
  {
    var r := WithInumber(block, i, inumber);
    forall j | 0 <= j < |Entries(block)|
      ensures EntryAt(r, j) == if j == i then EntryAt(block, i).(inumber := inumber) else EntryAt(block, j)
    {
      var p := ENTRY_SIZE * j;
      assert r[p..p + MAX_FILE_NAME] == block[p..p + MAX_FILE_NAME];
      if j == i {
        assert r[p + MAX_FILE_NAME..p + ENTRY_SIZE] == EncodeInt(inumber);
        DecodeEncode(inumber);
      } else {
        assert r[p + MAX_FILE_NAME..p + ENTRY_SIZE] == block[p + MAX_FILE_NAME..p + ENTRY_SIZE];
      }
    }
  }

  lemma NameWritten(block: seq<Byte>, i: nat, name: seq<Byte>)
    requires i < |block| / ENTRY_SIZE && |name| == MAX_FILE_NAME
    ensures Entries(WithName(block, i, name)) == Entries(block)[i := Entries(block)[i].(name := name)]
  {
    var r := WithName(block, i, name);
    forall j | 0 <= j < |Entries(block)|
      ensures EntryAt(r, j) == if j == i then EntryAt(block, i).(name := name) else EntryAt(block, j)
    {
      var p := ENTRY_SIZE * j;
      assert r[p + MAX_FILE_NAME..p + ENTRY_SIZE] == block[p + MAX_FILE_NAME..p + ENTRY_SIZE];
      if j == i {
        assert r[p..p + MAX_FILE_NAME] == name;
      } else {
        assert r[p..p + MAX_FILE_NAME] == block[p..p + MAX_FILE_NAME];
      }
    }
  }

  /** The block after add_dir_entry has filled slot i, and after clear_dir_entry has emptied it. */
  function WithEntry(block: seq<Byte>, i: nat, sub: CString, inumber: int): seq<Byte>
    requires i < |block| / ENTRY_SIZE && |sub| < MAX_FILE_NAME && IsInt32(inumber)
  {
    WithName(WithInumber(block, i, inumber), i, Padded(sub))
  }

  function WithoutEntry(block: seq<Byte>, i: nat): seq<Byte>
    requires i < |block| / ENTRY_SIZE
  {
    WithName(WithInumber(block, i, NO_INUMBER), i, Zeros(MAX_FILE_NAME))
  }

  lemma EntryWritten(block: seq<Byte>, sub: CString, inumber: int)
    requires EmptyIndex(Entries(block)) < |Entries(block)| && |sub| < MAX_FILE_NAME && IsInt32(inumber)
    ensures Entries(WithEntry(block, EmptyIndex(Entries(block)), sub, inumber)) == Added(Entries(block), sub, inumber)
  {
    var k := EmptyIndex(Entries(block));
    InumberWritten(block, k, inumber);
    NameWritten(WithInumber(block, k, inumber), k, Padded(sub));
  }

  lemma EntryErased(block: seq<Byte>, k: nat)
    requires k < |Entries(block)|
    ensures Entries(WithoutEntry(block, k)) == Cleared(Entries(block), k)
  {
    InumberWritten(block, k, NO_INUMBER);
    NameWritten(WithInumber(block, k, NO_INUMBER), k, Zeros(MAX_FILE_NAME));
  }

  // ---------- the scans of find_in_dir, add_dir_entry and clear_dir_entry ----------

  predicate Live(e: DirEntry) { e.inumber != NO_INUMBER }

  /** find_in_dir's test: a live entry whose name agrees in its first 40 bytes. */
  predicate Matches(e: DirEntry, sub: CString) {
    Live(e) && |e.name| == MAX_FILE_NAME && StrncmpEqual(e.name, sub, MAX_FILE_NAME)
  }

  function FindIndex(es: seq<DirEntry>, sub: CString): (k: nat)
    ensures k <= |es|
    ensures k < |es| ==> Matches(es[k], sub)
    ensures forall j :: 0 <= j < k ==> !Matches(es[j], sub)
  {
    if es == [] || Matches(es[0], sub) then 0 else 1 + FindIndex(es[1..], sub)
  }

  function FindInDir(es: seq<DirEntry>, sub: CString): int {
    var k := FindIndex(es, sub);
    if k < |es| then es[k].inumber else NO_INUMBER
  }

  function EmptyIndex(es: seq<DirEntry>): (k: nat)
    ensures k <= |es|
    ensures k < |es| ==> !Live(es[k])
    ensures forall j :: 0 <= j < k ==> Live(es[j])
  {
    if es == [] || !Live(es[0]) then 0 else 1 + EmptyIndex(es[1..])
  }

  /** clear_dir_entry's test, strcmp on the stored name; it does not look at d_inumber. */
  predicate Named(e: DirEntry, sub: CString) {
    Terminated(e.name) && StringAt(e.name) == sub
  }

  function NamedIndex(es: seq<DirEntry>, sub: CString): (k: nat)
    ensures k <= |es|
    ensures k < |es| ==> Named(es[k], sub)
    ensures forall j :: 0 <= j < k ==> !Named(es[j], sub)
  {
    if es == [] || Named(es[0], sub) then 0 else 1 + NamedIndex(es[1..], sub)
  }

  /** No strcmp of that scan runs past the end of a name that was never written. */
  predicate ScanStaysInside(es: seq<DirEntry>, sub: CString) {
    forall j :: 0 <= j < |es| && j <= NamedIndex(es, sub) ==> Terminated(es[j].name)
  }

  /** strncpy of 39 bytes followed by a terminator in the last. */
  function Padded(sub: CString): (name: seq<Byte>)
    requires |sub| < MAX_FILE_NAME
    ensures |name| == MAX_FILE_NAME
  {
    sub + Zeros(MAX_FILE_NAME - |sub|)
  }

  function Added(es: seq<DirEntry>, sub: CString, inumber: int): seq<DirEntry>
    requires EmptyIndex(es) < |es| && |sub| < MAX_FILE_NAME
  {
    es[EmptyIndex(es) := DirEntry(Padded(sub), inumber)]
  }

  function Cleared(es: seq<DirEntry>, k: nat): seq<DirEntry>
    requires k < |es|
  {
    es[k := DirEntry(Zeros(MAX_FILE_NAME), NO_INUMBER)]
  }

  // ---------- the directory as a finite map ----------

  /** A slot that has been used: a proper name while live, the empty string after clearing. */
  predicate Tidy(e: DirEntry) {
    Terminated(e.name) && (Live(e) <==> StringAt(e.name) != [])
  }

  /**
   * Slots that were never used, whose bytes may be anything, all come after the live ones;
   * live names are proper and distinct.
   */
  ghost predicate WellFormed(es: seq<DirEntry>) {
    && (forall i {:trigger es[i].name} :: 0 <= i < |es| ==> |es[i].name| == MAX_FILE_NAME)
    && (forall i, j {:trigger es[i], es[j]} :: 0 <= i <= j < |es| && Live(es[j]) ==> Tidy(es[i]))
    && (forall i, j {:trigger es[i], es[j]} :: 0 <= i < j < |es| && Live(es[i]) && Live(es[j]) ==>
          StringAt(es[i].name) != StringAt(es[j].name))
  }

  predicate IsEntry(e: DirEntry, n: CString) {
    Live(e) && Named(e, n)
  }

  ghost function Names(es: seq<DirEntry>): set<CString> {
    set i | 0 <= i < |es| && Live(es[i]) && Terminated(es[i].name) :: StringAt(es[i].name)
  }

  ghost function IndexOf(es: seq<DirEntry>, n: CString): (i: nat)
    requires n in Names(es)
    ensures i < |es| && IsEntry(es[i], n)
  {
    var i :| 0 <= i < |es| && IsEntry(es[i], n);
    i
  }

  ghost function DirMap(es: seq<DirEntry>): map<CString, int> {
    map n | n in Names(es) :: es[IndexOf(es, n)].inumber
  }

  lemma EntryInMap(es: seq<DirEntry>, i: nat, n: CString)
    requires WellFormed(es) && i < |es| && IsEntry(es[i], n)
    ensures n in DirMap(es) && DirMap(es)[n] == es[i].inumber && IndexOf(es, n) == i
  {
    assert n in Names(es);
  }

  lemma MatchesIsEntry(es: seq<DirEntry>, i: nat, n: CString)
    requires WellFormed(es) && i < |es|
    ensures Matches(es[i], n) <==> IsEntry(es[i], n)
  {
    if Live(es[i]) {
      assert Tidy(es[i]);
      StrncmpEqualIsEquality(es[i].name, n);
    }
  }

  /** The 40-byte lookup is the map's lookup, for query names of any length. */
  lemma FindIsLookup(es: seq<DirEntry>, sub: CString)
    requires WellFormed(es)
    ensures sub in DirMap(es) ==> FindIndex(es, sub) == IndexOf(es, sub) && FindInDir(es, sub) == DirMap(es)[sub]
    ensures sub !in DirMap(es) ==> FindIndex(es, sub) == |es| && FindInDir(es, sub) == NO_INUMBER
  {
    var k := FindIndex(es, sub);
    if k < |es| {
      MatchesIsEntry(es, k, sub);
      EntryInMap(es, k, sub);
    } else if sub in DirMap(es) {
      MatchesIsEntry(es, IndexOf(es, sub), sub);
    }
  }

  /** Names in the map have between 1 and 39 characters. */
  lemma NamesAreShort(es: seq<DirEntry>, n: CString)
    requires WellFormed(es) && n in DirMap(es)
    ensures 1 <= |n| < MAX_FILE_NAME
  {
    var i := IndexOf(es, n);
    assert Tidy(es[i]) && |es[i].name| == MAX_FILE_NAME;
  }

  lemma PaddedIsNamed(sub: CString)
    requires |sub| < MAX_FILE_NAME
    ensures Terminated(Padded(sub)) && StringAt(Padded(sub)) == sub
  {
    StringAtIs(Padded(sub), sub);
  }

  lemma NameIsNew(es: seq<DirEntry>, i: nat, sub: CString)
    requires WellFormed(es) && sub !in DirMap(es) && i < |es| && Live(es[i])
    ensures Tidy(es[i]) && StringAt(es[i].name) != sub
  {
    assert Tidy(es[i]);
    if StringAt(es[i].name) == sub { EntryInMap(es, i, sub); }
  }

  lemma AddKeepsWellFormed(es: seq<DirEntry>, sub: CString, inumber: int)
    requires WellFormed(es) && sub !in DirMap(es) && 1 <= |sub| < MAX_FILE_NAME && inumber != NO_INUMBER
    requires EmptyIndex(es) < |es|
    ensures WellFormed(Added(es, sub, inumber))
  {
    var k, r := EmptyIndex(es), Added(es, sub, inumber);
    PaddedIsNamed(sub);
    assert Tidy(r[k]);
    forall i, j | 0 <= i < j < |r| && Live(r[i]) && Live(r[j])
      ensures StringAt(r[i].name) != StringAt(r[j].name)
    {
      if i == k { NameIsNew(es, j, sub); }
      if j == k { NameIsNew(es, i, sub); }
    }
    forall i, j | 0 <= i <= j < |r| && Live(r[j]) ensures Tidy(r[i]) {
      if i != k { assert Live(es[i]) || j != k; assert Live(es[i]) || Live(es[j]); }
    }
  }

  /** Adding an entry is map insertion. */
  lemma AddIsInsert(es: seq<DirEntry>, sub: CString, inumber: int)
    requires WellFormed(es) && sub !in DirMap(es) && 1 <= |sub| < MAX_FILE_NAME && inumber != NO_INUMBER
    requires EmptyIndex(es) < |es|
    ensures WellFormed(Added(es, sub, inumber))
    ensures DirMap(Added(es, sub, inumber)) == DirMap(es)[sub := inumber]
  {
    var k, r, m := EmptyIndex(es), Added(es, sub, inumber), DirMap(es)[sub := inumber];
    AddKeepsWellFormed(es, sub, inumber);
    PaddedIsNamed(sub);
    forall n | n in m ensures exists i :: 0 <= i < |r| && IsEntry(r[i], n) && r[i].inumber == m[n] {
      var i := if n == sub then k else IndexOf(es, n);
      assert IsEntry(r[i], n) && r[i].inumber == m[n];
    }
    forall i | 0 <= i < |r| && Live(r[i]) && Terminated(r[i].name) ensures StringAt(r[i].name) in m {
      if i != k { EntryInMap(es, i, StringAt(es[i].name)); }
    }
    SameMap(r, m);
  }

  /** A map is the directory's when it has exactly its entries. */
  lemma SameMap(es: seq<DirEntry>, m: map<CString, int>)
    requires WellFormed(es)
    requires forall n :: n in m ==> exists i :: 0 <= i < |es| && IsEntry(es[i], n) && es[i].inumber == m[n]
    requires forall i :: 0 <= i < |es| && Live(es[i]) && Terminated(es[i].name) ==> StringAt(es[i].name) in m
    ensures DirMap(es) == m
  {
    forall n | n in m ensures n in DirMap(es) && DirMap(es)[n] == m[n] {
      var i :| 0 <= i < |es| && IsEntry(es[i], n) && es[i].inumber == m[n];
      EntryInMap(es, i, n);
    }
    forall n | n in DirMap(es) ensures n in m {
      assert IsEntry(es[IndexOf(es, n)], n);
    }
  }

  /** clear_dir_entry stays inside written names and stops at the entry that find_in_dir found. */
  lemma ClearFindsTheEntry(es: seq<DirEntry>, sub: CString)
    requires WellFormed(es) && sub in DirMap(es)
    ensures NamedIndex(es, sub) == FindIndex(es, sub) < |es|
    ensures ScanStaysInside(es, sub)
  {
    FindIsLookup(es, sub);
    NamesAreShort(es, sub);
    var i, k := IndexOf(es, sub), NamedIndex(es, sub);
    assert Named(es[i], sub);
    assert k <= i;
    assert Tidy(es[k]);
    EntryInMap(es, k, sub);
    forall j | 0 <= j <= k ensures Terminated(es[j].name) { assert Tidy(es[j]); }
  }

  lemma ClearKeepsWellFormed(es: seq<DirEntry>, k: nat)
    requires WellFormed(es) && k < |es|
    ensures WellFormed(Cleared(es, k)) && !Live(Cleared(es, k)[k])
  {
    StringAtIs(Zeros(MAX_FILE_NAME), []);
  }

  /** Clearing an entry is map removal. */
  lemma ClearIsRemove(es: seq<DirEntry>, sub: CString)
    requires WellFormed(es) && sub in DirMap(es)
    ensures FindIndex(es, sub) < |es|
    ensures WellFormed(Cleared(es, FindIndex(es, sub)))
    ensures DirMap(Cleared(es, FindIndex(es, sub))) == DirMap(es) - {sub}
  {
    FindIsLookup(es, sub);
    var k := FindIndex(es, sub);
    var r, m := Cleared(es, k), DirMap(es) - {sub};
    ClearKeepsWellFormed(es, k);
    forall n | n in m ensures exists i :: 0 <= i < |r| && IsEntry(r[i], n) && r[i].inumber == m[n] {
      var i := IndexOf(es, n);
      assert IsEntry(r[i], n);
    }
    forall i | 0 <= i < |r| && Live(r[i]) && Terminated(r[i].name) ensures StringAt(r[i].name) in m {
      EntryInMap(es, i, StringAt(es[i].name));
      assert Live(es[k]);
    }
    SameMap(r, m);
  }

  ghost function IndexMap(es: seq<DirEntry>): map<CString, int> {
    map n | n in Names(es) :: IndexOf(es, n) as int
  }

  ghost function LiveIndices(es: seq<DirEntry>): set<int> {
    set i | 0 <= i < |es| && Live(es[i])
  }

  lemma IndexMapFacts(es: seq<DirEntry>)
    requires WellFormed(es)
    ensures Injective(IndexMap(es)) && IndexMap(es).Values == LiveIndices(es)
  {
    var m := IndexMap(es);
    forall i | i in LiveIndices(es) ensures i in m.Values {
      assert Tidy(es[i]);
      EntryInMap(es, i, StringAt(es[i].name));
      assert m[StringAt(es[i].name)] == i;
    }
  }

  /** The directory is full exactly when it holds as many names as it has slots. */
  lemma FullWhenAllNamed(es: seq<DirEntry>)
    requires WellFormed(es)
    ensures |DirMap(es)| <= |es|
    ensures EmptyIndex(es) == |es| <==> |DirMap(es)| == |es|
  {
    IndexMapFacts(es);
    InjectiveSize(IndexMap(es));
    assert IndexMap(es).Keys == DirMap(es).Keys;
    BelowSize(LiveIndices(es), |es|);
    if EmptyIndex(es) < |es| { assert EmptyIndex(es) !in LiveIndices(es); }
  }

  /** A directory whose slots are all empty, whatever their names contain. */
  lemma EmptyDirectory(es: seq<DirEntry>)
    requires forall i {:trigger es[i]} :: 0 <= i < |es| ==> |es[i].name| == MAX_FILE_NAME && !Live(es[i])
    ensures WellFormed(es) && DirMap(es) == map[]
  {
  }
}
