/** `GhostTablesManager#fetch_altered_tables`: two id-sorted lists are merged with two pointers,
    and the leftovers are split by name into regenerated, added and dropped tables. */
module AlteredTables {
  import opened TableFacades

  function Select<T(!new)>(s: seq<T>, p: T -> bool): (r: seq<T>)
    ensures forall x :: x in r <==> x in s && p(x)
  {
    if s == [] then [] else (if p(s[0]) then [s[0]] else []) + Select(s[1..], p)
  }

  lemma {:induction false} SelectSplits<T(!new)>(s: seq<T>, p: T -> bool, q: T -> bool)
    requires forall x :: x in s ==> (p(x) <==> !q(x))
    ensures |s| == |Select(s, p)| + |Select(s, q)|
  {
    if s != [] {
      SelectSplits(s[1..], p, q);
    }
  }

  predicate HasName(s: seq<TableFacade>, name: string) {
    exists t :: t in s && t.name == name
  }

  ghost predicate SortedById(s: seq<TableFacade>) {
    forall i, j :: 0 <= i < j < |s| ==> s[i].id <= s[j].id
  }

  ghost predicate StrictlySortedById(s: seq<TableFacade>) {
    forall i, j :: 0 <= i < j < |s| ==> s[i].id < s[j].id
  }

  ghost function Entries<T>(s: seq<T>): set<T> {
    set t | t in s
  }

  /** What one walk over both lists collects. */
  datatype Merged = Merged(newIds: seq<TableFacade>, missing: seq<TableFacade>, renamed: seq<TableFacade>)

  /** The four lists a pass works through. */
  datatype Altered = Altered(regenerated: seq<TableFacade>, renamed: seq<TableFacade>,
                             added: seq<TableFacade>, dropped: seq<TableFacade>)

  function Merge(c: seq<TableFacade>, u: seq<TableFacade>): Merged
    decreases |c| + |u|
  {
    if c == [] || u == [] then Merged(c, u, [])
    else if c[0].id < u[0].id then
      var m := Merge(c[1..], u);
      m.(newIds := [c[0]] + m.newIds)
    else if c[0].id == u[0].id then
      var m := Merge(c[1..], u[1..]);
      m.(renamed := (if c[0].name != u[0].name then [c[0]] else []) + m.renamed)
    else
      var m := Merge(c, u[1..]);
      m.(missing := [u[0]] + m.missing)
  }

  function Classify(m: Merged): Altered {
    var regenerated := Select(m.newIds, (t: TableFacade) => HasName(m.missing, t.name));
    Altered(regenerated,
            m.renamed,
            Select(m.newIds, t => t !in regenerated),
            Select(m.missing, (t: TableFacade) => !HasName(regenerated, t.name)))
  }

  /** `user_tables_synced_with_db?`: every one of the four lists is empty. */
  predicate Synced(a: Altered) {
    a.regenerated == [] && a.renamed == [] && a.added == [] && a.dropped == []
  }

  /** The four lists hold exactly the stale entries of a catalogue and a set of rows. */
  ghost predicate Lists(a: Altered, C: set<TableFacade>, R: set<TableFacade>) {
    && (forall t :: t in a.regenerated <==> IsRegenerated(C, R, t))
    && (forall t :: t in a.renamed <==> IsRenamed(C, R, t))
    && (forall t :: t in a.added <==> IsAdded(C, R, t))
    && (forall t :: t in a.dropped <==> IsDropped(C, R, t))
  }

  ghost predicate StrictLists(a: Altered) {
    StrictlySortedById(a.regenerated) && StrictlySortedById(a.renamed) &&
    StrictlySortedById(a.added) && StrictlySortedById(a.dropped)
  }

  // ----- the loop

  function Plus(m: Merged, n: Merged): Merged {
    Merged(m.newIds + n.newIds, m.missing + n.missing, m.renamed + n.renamed)
  }

  lemma PlusTwice(m: Merged, n: Merged, o: Merged)
    ensures Plus(m, Plus(n, o)) == Plus(Plus(m, n), o)
  {
  }

  /** What one turn of the walk adds. */
  function Turn(t: TableFacade, r: TableFacade): Merged {
    if t.id < r.id then Merged([t], [], [])
    else if t.id == r.id then Merged([], [], if t.name != r.name then [t] else [])
    else Merged([], [r], [])
  }

  lemma MergeTurn(c: seq<TableFacade>, u: seq<TableFacade>, i: nat, j: nat)
    requires i < |c| && j < |u|
    ensures Merge(c[i..], u[j..]) == Plus(Turn(c[i], u[j]),
      Merge(c[(if c[i].id <= u[j].id then i + 1 else i)..], u[(if u[j].id <= c[i].id then j + 1 else j)..]))
  {
    assert c[i..][1..] == c[i+1..] && u[j..][1..] == u[j+1..];
    assert c[i..][0] == c[i] && u[j..][0] == u[j];
  }

  /** The walk itself, as the source writes it: two indices and three accumulators. */
  method MergeSorted(c: seq<TableFacade>, u: seq<TableFacade>) returns (m: Merged)
    ensures m == Merge(c, u)
  {
    var i, j := 0, 0;
    var newIds, missing, renamed := [], [], [];
    assert c[0..] == c && u[0..] == u;
    while i < |c| && j < |u|
      invariant 0 <= i <= |c| && 0 <= j <= |u|
      invariant Merge(c, u) == Plus(Merged(newIds, missing, renamed), Merge(c[i..], u[j..]))
      decreases |c| - i + |u| - j
    {
      MergeTurn(c, u, i, j);
      ghost var before := Merged(newIds, missing, renamed);
      ghost var turn := Turn(c[i], u[j]);
      if c[i].id < u[j].id {
        newIds := newIds + [c[i]];
        i := i + 1;
      } else if c[i].id == u[j].id {
        if c[i].name != u[j].name {
          renamed := renamed + [c[i]];
        }
        i := i + 1;
        j := j + 1;
      } else {
        missing := missing + [u[j]];
        j := j + 1;
      }
      assert Merged(newIds, missing, renamed) == Plus(before, turn);
      PlusTwice(before, turn, Merge(c[i..], u[j..]));
    }
    m := Merged(newIds + c[i..], missing + u[j..], renamed);
  }

  /** `x` among elements that are already sorted. */
  function Insert(s: seq<TableFacade>, x: TableFacade): seq<TableFacade> {
    if s == [] || x.id <= s[0].id then [x] + s else [s[0]] + Insert(s[1..], x)
  }

  function InsertionSort(s: seq<TableFacade>): seq<TableFacade> {
    if s == [] then [] else Insert(InsertionSort(s[1..]), s[0])
  }

  lemma {:induction false} InsertAdds(s: seq<TableFacade>, x: TableFacade)
    ensures multiset(Insert(s, x)) == multiset(s) + multiset{x}
  {
    if s != [] {
      assert s == [s[0]] + s[1..];
      if x.id > s[0].id {
        InsertAdds(s[1..], x);
      }
    }
  }

  lemma SameMembers(r: seq<TableFacade>, s: seq<TableFacade>)
    requires multiset(r) == multiset(s)
    ensures forall t :: t in r <==> t in s
  {
    assert forall t :: t in r <==> t in multiset(r);
    assert forall t :: t in s <==> t in multiset(s);
  }

  lemma ConsSorted(x: TableFacade, s: seq<TableFacade>)
    requires SortedById(s) && forall t :: t in s ==> x.id <= t.id
    ensures SortedById([x] + s)
  {
    assert forall i :: 0 <= i < |s| ==> s[i] in s;
  }

  lemma ConsDistinct(x: TableFacade, s: seq<TableFacade>)
    requires DistinctIds(s) && forall t :: t in s ==> x.id != t.id
    ensures DistinctIds([x] + s)
  {
    assert forall i :: 0 <= i < |s| ==> s[i] in s;
  }

  lemma {:induction false} InsertKeepsSorted(s: seq<TableFacade>, x: TableFacade)
    requires SortedById(s)
    ensures SortedById(Insert(s, x))
  {
    if s == [] || x.id <= s[0].id {
      ConsSorted(x, s);
    } else {
      InsertKeepsSorted(s[1..], x);
      InsertAdds(s[1..], x);
      SameMembers(Insert(s[1..], x), s[1..] + [x]);
      ConsSorted(s[0], Insert(s[1..], x));
    }
  }

  lemma {:induction false} InsertKeepsDistinct(s: seq<TableFacade>, x: TableFacade)
    requires DistinctIds(s) && forall t :: t in s ==> t.id != x.id
    ensures DistinctIds(Insert(s, x))
  {
    if s == [] || x.id <= s[0].id {
      ConsDistinct(x, s);
    } else {
      InsertKeepsDistinct(s[1..], x);
      InsertAdds(s[1..], x);
      SameMembers(Insert(s[1..], x), s[1..] + [x]);
      ConsDistinct(s[0], Insert(s[1..], x));
    }
  }

  lemma {:induction false} InsertionSorts(s: seq<TableFacade>)
    ensures SortedById(InsertionSort(s)) && multiset(InsertionSort(s)) == multiset(s)
  {
    if s != [] {
      InsertionSorts(s[1..]);
      InsertKeepsSorted(InsertionSort(s[1..]), s[0]);
      InsertAdds(InsertionSort(s[1..]), s[0]);
      assert s == [s[0]] + s[1..];
    }
  }

  lemma {:induction false} InsertionSortKeepsDistinct(s: seq<TableFacade>)
    requires DistinctIds(s)
    ensures DistinctIds(InsertionSort(s))
  {
    if s != [] {
      InsertionSortKeepsDistinct(s[1..]);
      InsertionSorts(s[1..]);
      SameMembers(InsertionSort(s[1..]), s[1..]);
      assert forall t :: t in s[1..] ==> t.id != s[0].id;
      InsertKeepsDistinct(InsertionSort(s[1..]), s[0]);
    }
  }

  /** Sorting by id.  Callers rely only on the contract, so what follows holds whatever order the
      sort gives to equal ids. */
  method SortById(s: seq<TableFacade>) returns (r: seq<TableFacade>)
    ensures SortedById(r) && multiset(r) == multiset(s)
    ensures Entries(r) == Entries(s) && (DistinctIds(s) ==> DistinctIds(r))
  {
    InsertionSorts(s);
    if DistinctIds(s) {
      InsertionSortKeepsDistinct(s);
    }
    r := InsertionSort(s);
    SameMembers(r, s);
  }

  method FetchAlteredTables(catalogue: seq<TableFacade>, rows: seq<TableFacade>) returns (a: Altered)
    ensures Synced(a) ==> multiset(catalogue) == multiset(rows)
    ensures DistinctIds(catalogue) && DistinctIds(rows) ==>
              Lists(a, Entries(catalogue), Entries(rows)) && StrictLists(a)
    ensures DistinctIds(catalogue) && DistinctIds(rows) && Unique(Entries(catalogue)) && Unique(Entries(rows)) ==>
              (Synced(a) <==> Entries(catalogue) == Entries(rows))
  {
    var c := SortById(catalogue);
    var u := SortById(rows);
    var m := MergeSorted(c, u);
    a := Classify(m);
    SyncedIffEqual(c, u);
    if DistinctIds(catalogue) && DistinctIds(rows) {
      ClassifyLists(c, u);
      if Unique(Entries(catalogue)) && Unique(Entries(rows)) {
        SyncedIffSameEntries(a, Entries(catalogue), Entries(rows));
      }
    }
  }

  ghost predicate DistinctIds(s: seq<TableFacade>) {
    forall i, j :: 0 <= i < j < |s| ==> s[i].id != s[j].id
  }

  // ----- what the walk means

  ghost predicate HasId(s: seq<TableFacade>, id: int) {
    exists t :: t in s && t.id == id
  }

  lemma HasIdTail(s: seq<TableFacade>)
    requires s != []
    ensures forall t :: t in s <==> t == s[0] || t in s[1..]
    ensures forall id :: HasId(s, id) <==> s[0].id == id || HasId(s[1..], id)
  {
    assert s == [s[0]] + s[1..];
    assert s[0] in s;
    assert forall t :: t in s[1..] ==> t in s;
  }

  lemma BelowHead(s: seq<TableFacade>, id: int)
    requires StrictlySortedById(s) && (s != [] ==> id < s[0].id)
    ensures !HasId(s, id)
  {
  }

  /** On strictly id-sorted lists the walk collects exactly the catalogue entries whose id no row
      has, and the rows whose id the catalogue has not. */
  lemma {:induction false} MergeCollects(c: seq<TableFacade>, u: seq<TableFacade>)
    requires StrictlySortedById(c) && StrictlySortedById(u)
    ensures forall t :: t in Merge(c, u).newIds <==> t in c && !HasId(u, t.id)
    ensures forall t :: t in Merge(c, u).missing <==> t in u && !HasId(c, t.id)
    decreases |c| + |u|
  {
    if c != [] && u != [] {
      HasIdTail(c);
      HasIdTail(u);
      if c[0].id < u[0].id {
        BelowHead(u, c[0].id);
        MergeCollects(c[1..], u);
        assert forall t :: t in u ==> t.id != c[0].id;
      } else if c[0].id == u[0].id {
        BelowHead(u[1..], c[0].id);
        BelowHead(c[1..], u[0].id);
        MergeCollects(c[1..], u[1..]);
        assert forall t :: t in c[1..] ==> t.id != u[0].id;
        assert forall t :: t in u[1..] ==> t.id != c[0].id;
      } else {
        BelowHead(c, u[0].id);
        MergeCollects(c, u[1..]);
        assert forall t :: t in c ==> t.id != u[0].id;
      }
    }
  }

  ghost predicate OtherName(u: seq<TableFacade>, t: TableFacade) {
    exists r :: r in u && r.id == t.id && r.name != t.name
  }

  lemma OtherNameTail(s: seq<TableFacade>)
    requires s != []
    ensures forall t :: OtherName(s, t) <==> (s[0].id == t.id && s[0].name != t.name) || OtherName(s[1..], t)
  {
    assert s == [s[0]] + s[1..];
    assert s[0] in s;
    assert forall t :: t in s[1..] ==> t in s;
  }

  lemma {:induction false} MergeRenamesOne(c: seq<TableFacade>, u: seq<TableFacade>, t: TableFacade)
    requires StrictlySortedById(c) && StrictlySortedById(u)
    ensures t in Merge(c, u).renamed <==> t in c && OtherName(u, t)
    decreases |c| + |u|
  {
    if c != [] && u != [] {
      HasIdTail(c);
      OtherNameTail(u);
      if c[0].id < u[0].id {
        BelowHead(u, c[0].id);
        MergeRenamesOne(c[1..], u, t);
      } else if c[0].id == u[0].id {
        BelowHead(u[1..], c[0].id);
        BelowHead(c[1..], u[0].id);
        MergeRenamesOne(c[1..], u[1..], t);
      } else {
        BelowHead(c, u[0].id);
        MergeRenamesOne(c, u[1..], t);
      }
    }
  }

  /** Matching ids with different names are exactly the renamed entries. */
  lemma {:induction false} MergeRenames(c: seq<TableFacade>, u: seq<TableFacade>)
    requires StrictlySortedById(c) && StrictlySortedById(u)
    ensures forall t :: t in Merge(c, u).renamed <==> t in c && OtherName(u, t)
  {
    forall t ensures t in Merge(c, u).renamed <==> t in c && OtherName(u, t) {
      MergeRenamesOne(c, u, t);
    }
  }

  lemma ConsStaysSorted(x: TableFacade, s: seq<TableFacade>)
    requires StrictlySortedById(s) && forall t :: t in s ==> x.id < t.id
    ensures StrictlySortedById([x] + s)
  {
    assert forall i :: 0 <= i < |s| ==> s[i] in s;
  }

  lemma {:induction false} MergeStaysSorted(c: seq<TableFacade>, u: seq<TableFacade>)
    requires StrictlySortedById(c) && StrictlySortedById(u)
    ensures StrictlySortedById(Merge(c, u).newIds) && StrictlySortedById(Merge(c, u).missing)
    ensures StrictlySortedById(Merge(c, u).renamed)
    decreases |c| + |u|
  {
    if c != [] && u != [] {
      assert forall t :: t in c[1..] ==> c[0].id < t.id;
      assert forall t :: t in u[1..] ==> u[0].id < t.id;
      if c[0].id < u[0].id {
        MergeStaysSorted(c[1..], u);
        MergeCollects(c[1..], u);
        ConsStaysSorted(c[0], Merge(c[1..], u).newIds);
      } else if c[0].id == u[0].id {
        MergeStaysSorted(c[1..], u[1..]);
        MergeRenames(c[1..], u[1..]);
        ConsStaysSorted(c[0], Merge(c[1..], u[1..]).renamed);
      } else {
        MergeStaysSorted(c, u[1..]);
        MergeCollects(c, u[1..]);
        ConsStaysSorted(u[0], Merge(c, u[1..]).missing);
      }
    }
  }

  lemma LeftoversAreStale(c: seq<TableFacade>, u: seq<TableFacade>)
    requires StrictlySortedById(c) && StrictlySortedById(u)
    ensures forall t :: t in Merge(c, u).newIds <==> Absent(Entries(c), Entries(u), t)
    ensures forall r :: r in Merge(c, u).missing <==> Missing(Entries(c), Entries(u), r)
    ensures forall t :: t in Merge(c, u).renamed <==> IsRenamed(Entries(c), Entries(u), t)
  {
    MergeCollects(c, u);
    MergeRenames(c, u);
    assert forall t :: t in Entries(c) <==> t in c;
    assert forall t :: t in Entries(u) <==> t in u;
  }

  /** The merge refines the set definition of the four classes. */
  lemma ClassifyLists(c: seq<TableFacade>, u: seq<TableFacade>)
    requires StrictlySortedById(c) && StrictlySortedById(u)
    ensures Lists(Classify(Merge(c, u)), Entries(c), Entries(u))
    ensures StrictLists(Classify(Merge(c, u)))
  {
    LeftoversAreStale(c, u);
    ClassifyMembers(Merge(c, u), Entries(c), Entries(u));
    MergeStaysSorted(c, u);
    ClassifySorted(Merge(c, u));
  }

  lemma ClassifyMembers(m: Merged, C: set<TableFacade>, R: set<TableFacade>)
    requires forall t :: t in m.newIds <==> Absent(C, R, t)
    requires forall r :: r in m.missing <==> Missing(C, R, r)
    requires forall t :: t in m.renamed <==> IsRenamed(C, R, t)
    ensures Lists(Classify(m), C, R)
  {
    var a := Classify(m);
    assert forall t :: t in a.regenerated <==> t in m.newIds && HasName(m.missing, t.name);
    assert forall t :: t in a.regenerated <==> IsRegenerated(C, R, t);
    assert forall t :: t in a.dropped <==> t in m.missing && !HasName(a.regenerated, t.name);
  }

  lemma ClassifySorted(m: Merged)
    requires StrictlySortedById(m.newIds) && StrictlySortedById(m.missing) && StrictlySortedById(m.renamed)
    ensures StrictLists(Classify(m))
  {
    var a := Classify(m);
    SelectSorted(m.newIds, (t: TableFacade) => HasName(m.missing, t.name));
    SelectSorted(m.newIds, t => t !in a.regenerated);
    SelectSorted(m.missing, (t: TableFacade) => !HasName(a.regenerated, t.name));
  }

  lemma {:induction false} SelectSorted(s: seq<TableFacade>, p: TableFacade -> bool)
    requires StrictlySortedById(s)
    ensures StrictlySortedById(Select(s, p))
  {
    if s != [] {
      SelectSorted(s[1..], p);
      var rest := Select(s[1..], p);
      assert forall i :: 0 <= i < |rest| ==> rest[i] in s[1..];
    }
  }

  lemma EmptyIff<T>(s: seq<T>)
    ensures s == [] <==> forall i :: 0 <= i < |s| ==> s[i] !in s
  {
    if s != [] {
      assert s[0] in s;
    }
  }

  /** The check reports synced exactly when the walk had nothing left over. */
  lemma SyncedIffNothingLeft(m: Merged)
    ensures Synced(Classify(m)) <==> m == Merged([], [], [])
  {
    var a := Classify(m);
    if Synced(a) {
      EmptyIff(m.newIds);
      assert forall t :: t in m.newIds ==> t in a.regenerated || t in a.added;
      assert m.newIds == [];
      EmptyIff(m.missing);
      assert forall t :: t in m.missing ==> t in a.dropped;
    }
  }

  /** For any two lists, repeated ids and names included, the check reports synced exactly when
      the lists are the same. */
  lemma {:induction false} SyncedIffEqual(c: seq<TableFacade>, u: seq<TableFacade>)
    ensures Synced(Classify(Merge(c, u))) <==> c == u
  {
    SyncedIffNothingLeft(Merge(c, u));
    MergeEqual(c, u);
  }

  lemma {:induction false} MergeEqual(c: seq<TableFacade>, u: seq<TableFacade>)
    ensures Merge(c, u) == Merged([], [], []) <==> c == u
    decreases |c| + |u|
  {
    if c != [] && u != [] {
      if c[0].id == u[0].id {
        MergeEqual(c[1..], u[1..]);
        assert c == [c[0]] + c[1..] && u == [u[0]] + u[1..];
      }
    }
  }

  // ----- counting

  lemma {:induction false} MergeCounts(c: seq<TableFacade>, u: seq<TableFacade>)
    ensures |c| - |Merge(c, u).newIds| == |u| - |Merge(c, u).missing| >= 0
    decreases |c| + |u|
  {
    if c != [] && u != [] {
      if c[0].id < u[0].id {
        MergeCounts(c[1..], u);
      } else if c[0].id == u[0].id {
        MergeCounts(c[1..], u[1..]);
      } else {
        MergeCounts(c, u[1..]);
      }
    }
  }

  /** Rows whose name a regenerated table takes over. */
  function TakenOver(m: Merged): seq<TableFacade> {
    Select(m.missing, (t: TableFacade) => HasName(Classify(m).regenerated, t.name))
  }

  lemma LeftoversBalance(c: seq<TableFacade>, u: seq<TableFacade>)
    ensures var a := Classify(Merge(c, u));
      |c| - |a.added| == |u| - |a.dropped| <==> |a.regenerated| == |TakenOver(Merge(c, u))|
  {
    var m := Merge(c, u);
    var a := Classify(m);
    MergeCounts(c, u);
    SelectSplits(m.newIds, (t: TableFacade) => HasName(m.missing, t.name), t => t !in a.regenerated);
    SelectSplits(m.missing, (t: TableFacade) => !HasName(a.regenerated, t.name), (t: TableFacade) => HasName(a.regenerated, t.name));
  }

  /** The catalogue entries with an unknown id and the name of a row whose id is gone. */
  ghost function NewIdsUnderOldNames(C: set<TableFacade>, R: set<TableFacade>): set<TableFacade> {
    set t | t in C && IsRegenerated(C, R, t)
  }

  /** The rows whose id is gone and whose name such an entry has. */
  ghost function OldNamesUnderNewIds(C: set<TableFacade>, R: set<TableFacade>): set<TableFacade> {
    set r | r in R && GetsRegenerated(C, R, r)
  }

  lemma {:induction false} SortedCount(s: seq<TableFacade>)
    requires StrictlySortedById(s)
    ensures |Entries(s)| == |s|
  {
    if s == [] {
      assert Entries(s) == {};
    } else {
      HasIdTail(s);
      SortedCount(s[1..]);
      assert Entries(s) == {s[0]} + Entries(s[1..]);
      assert s[0] !in s[1..];
    }
  }

  /** On id-sorted lists |catalogue| - |added| equals |rows| - |dropped| exactly when as many
      entries bring a new id under the name of a row whose id is gone as there are such rows. */
  lemma CountsBalance(c: seq<TableFacade>, u: seq<TableFacade>)
    requires StrictlySortedById(c) && StrictlySortedById(u)
    ensures var a := Classify(Merge(c, u));
      |c| - |a.added| == |u| - |a.dropped|
      <==> |NewIdsUnderOldNames(Entries(c), Entries(u))| == |OldNamesUnderNewIds(Entries(c), Entries(u))|
  {
    var m := Merge(c, u);
    LeftoversBalance(c, u);
    ClassifyLists(c, u);
    MergeStaysSorted(c, u);
    LeftoversAreStale(c, u);
    SelectSorted(m.missing, (t: TableFacade) => HasName(Classify(m).regenerated, t.name));
    SortedCount(Classify(m).regenerated);
    SortedCount(TakenOver(m));
    assert Entries(Classify(m).regenerated) == NewIdsUnderOldNames(Entries(c), Entries(u));
    assert Entries(TakenOver(m)) == OldNamesUnderNewIds(Entries(c), Entries(u));
  }

  ghost predicate DistinctNames(s: seq<TableFacade>) {
    forall i, j :: 0 <= i < j < |s| ==> s[i].name != s[j].name
  }

  ghost function Names(s: seq<TableFacade>): set<string> {
    set t | t in s :: t.name
  }

  lemma {:induction false} DistinctNamesCount(s: seq<TableFacade>)
    requires DistinctNames(s)
    ensures |Names(s)| == |s|
  {
    if s == [] {
      assert Names(s) == {};
    } else {
      HasIdTail(s);
      DistinctNamesCount(s[1..]);
      assert Names(s) == {s[0].name} + Names(s[1..]);
      assert forall t :: t in s[1..] ==> t.name != s[0].name;
      assert s[0].name !in Names(s[1..]);
    }
  }

  lemma {:induction false} SelectDistinct(s: seq<TableFacade>, p: TableFacade -> bool)
    requires DistinctNames(s)
    ensures DistinctNames(Select(s, p))
  {
    if s != [] {
      SelectDistinct(s[1..], p);
      var rest := Select(s[1..], p);
      assert forall t :: t in s[1..] ==> t.name != s[0].name;
      assert forall i :: 0 <= i < |rest| ==> rest[i] in s[1..];
    }
  }

  lemma {:induction false} MergeKeepsDistinctNames(c: seq<TableFacade>, u: seq<TableFacade>)
    requires DistinctNames(c) && DistinctNames(u)
    ensures DistinctNames(Merge(c, u).newIds) && DistinctNames(Merge(c, u).missing)
    ensures forall t :: t in Merge(c, u).newIds ==> t in c
    ensures forall t :: t in Merge(c, u).missing ==> t in u
    decreases |c| + |u|
  {
    if c != [] && u != [] {
      assert forall t :: t in c[1..] ==> t.name != c[0].name;
      assert forall t :: t in u[1..] ==> t.name != u[0].name;
      if c[0].id < u[0].id {
        MergeKeepsDistinctNames(c[1..], u);
      } else if c[0].id == u[0].id {
        MergeKeepsDistinctNames(c[1..], u[1..]);
      } else {
        MergeKeepsDistinctNames(c, u[1..]);
      }
    }
  }

  /** A schema holds no two tables of one name, nor do a user's rows, so the counts balance on every
      input there is. */
  lemma UniqueNamesBalance(c: seq<TableFacade>, u: seq<TableFacade>)
    requires DistinctNames(c) && DistinctNames(u)
    ensures var a := Classify(Merge(c, u)); |c| - |a.added| == |u| - |a.dropped|
  {
    var m := Merge(c, u);
    var a := Classify(m);
    var taken := TakenOver(m);
    LeftoversBalance(c, u);
    MergeKeepsDistinctNames(c, u);
    SelectDistinct(m.newIds, (t: TableFacade) => HasName(m.missing, t.name));
    SelectDistinct(m.missing, (t: TableFacade) => HasName(a.regenerated, t.name));
    DistinctNamesCount(a.regenerated);
    DistinctNamesCount(taken);
    forall n ensures n in Names(a.regenerated) <==> n in Names(taken) {
      if n in Names(a.regenerated) {
        var t :| t in a.regenerated && t.name == n;
        var r :| r in m.missing && r.name == n;
        assert r in taken;
      }
    }
    assert Names(a.regenerated) == Names(taken);
  }

  /** It is the names that do it: if a schema could hold two tables called "a", both would be
      regenerated from one row. */
  lemma RepeatedNameUnbalances()
    ensures exists c, u ::
      && StrictlySortedById(c) && StrictlySortedById(u)
      && var a := Classify(Merge(c, u)); |c| - |a.added| != |u| - |a.dropped|
  {
    var t, t', r := TableFacade(1, "a"), TableFacade(2, "a"), TableFacade(3, "a");
    var c, u := [t, t'], [r];
    assert c[1..] == [t'] && c[1..][1..] == [];
    assert Merge(c[1..][1..], u) == Merged([], u, []);
    assert Merge(c[1..], u) == Merged([t'], u, []);
    assert Merge(c, u) == Merged(c, u, []);
    var m := Merge(c, u);
    var a := Classify(m);
    assert HasName(m.missing, "a") by { assert r in m.missing; }
    assert t in a.regenerated && t' in a.regenerated;
    EmptyIff(a.added);
    assert forall x :: x in m.newIds ==> x in a.regenerated;
    assert HasName(a.regenerated, "a");
    EmptyIff(a.dropped);
    assert forall x :: x in m.missing ==> x !in a.dropped;
    assert StrictlySortedById(c) && StrictlySortedById(u);
  }

  ghost predicate ExactlyOne(a: bool, b: bool, c: bool, d: bool) {
    if a then !b && !c && !d else if b then !c && !d else c != d
  }

  /** The row `r` keeps its id and takes the catalogue's name. */
  ghost predicate GetsRenamed(C: set<TableFacade>, R: set<TableFacade>, r: TableFacade) {
    r in R && exists c :: c in C && c.id == r.id && c.name != r.name
  }

  /** The row `r` keeps its name and takes a new id. */
  ghost predicate GetsRegenerated(C: set<TableFacade>, R: set<TableFacade>, r: TableFacade) {
    Missing(C, R, r) && exists c :: IsRegenerated(C, R, c) && c.name == r.name
  }

  /** Every catalogue entry is untouched, renamed, regenerated or added, and every row is
      untouched, renamed, regenerated or dropped: exactly one of the four each. */
  lemma EachEntryInOneClass(C: set<TableFacade>, R: set<TableFacade>, t: TableFacade)
    requires Unique(C) && Unique(R)
    ensures t in C ==> ExactlyOne(t in R, IsRenamed(C, R, t), IsRegenerated(C, R, t), IsAdded(C, R, t))
    ensures t in R ==> ExactlyOne(t in C, GetsRenamed(C, R, t), GetsRegenerated(C, R, t), IsDropped(C, R, t))
  {
    if t in C && !Absent(C, R, t) {
      var r :| r in R && r.id == t.id;
      assert r.name == t.name ==> r == t;
    }
    if t in R && !Missing(C, R, t) {
      var c :| c in C && c.id == t.id;
      assert c.name == t.name ==> c == t;
    }
  }

  /** With unique ids and names, nothing is stale exactly when both sides hold the same pairs. */
  lemma NothingStaleIffEqual(C: set<TableFacade>, R: set<TableFacade>)
    requires Unique(C) && Unique(R)
    ensures (forall t :: !IsRenamed(C, R, t) && !IsRegenerated(C, R, t) && !IsAdded(C, R, t) && !IsDropped(C, R, t)) <==> C == R
  {
    if C == R {
      assert forall t :: t in C ==> t in R;
      assert forall t :: !Absent(C, R, t) && !Missing(C, R, t);
    } else {
      var t :| (t in C && t !in R) || (t in R && t !in C);
      EachEntryInOneClass(C, R, t);
      if t in R && GetsRenamed(C, R, t) {
        var c :| c in C && c.id == t.id && c.name != t.name;
        assert IsRenamed(C, R, c);
      }
    }
  }

  /** So the check on the four lists reports synced exactly when both sides hold the same pairs. */
  lemma SyncedIffSameEntries(a: Altered, C: set<TableFacade>, R: set<TableFacade>)
    requires Lists(a, C, R) && Unique(C) && Unique(R)
    ensures Synced(a) <==> C == R
  {
    NothingStaleIffEqual(C, R);
    EmptyIff(a.regenerated);
    EmptyIff(a.renamed);
    EmptyIff(a.added);
    EmptyIff(a.dropped);
  }
}
