/** Client scenarios over the SkipList class: each method drives a fresh
    list the way the repository's unit tests do and states, for every level
    the random draw could produce, what those tests observe. */
module Scenarios {
  import opened Seqs
  import opened Ordered
  import opened Layout
  import opened SkipLists

  /** The fixture most scenarios start from: 5, 3 and 7 inserted in that
      order, each at the level drawn for it. */
  method ThreeValues(l5: nat, l3: nat, l7: nat) returns (list: SkipList)
    requires l5 <= MAX_LEVEL && l3 <= MAX_LEVEL && l7 <= MAX_LEVEL
    ensures fresh(list) && list.Valid() && list.Contents == [3, 5, 7]
  {
    list := new SkipList();
    list.Insert(5, l5);
    list.Insert(3, l3);
    list.Insert(7, l7);
    FiveThreeSeven();
  }

  /** The contents after inserting 5, 3 and 7 into an empty list. */
  lemma FiveThreeSeven()
    ensures Insert(Insert(Insert([], 5), 3), 7) == [3, 5, 7]
  {
    assert Insert([], 5) == [5];
    assert Rank([5], 3) == 0;
    assert Insert([5], 3) == [3, 5];
    assert Rank([3, 5], 7) == 2;
  }

  /** A new list is empty and has size 0. */
  method FreshIsEmpty() returns (empty: bool, size: nat)
    ensures empty && size == 0
  {
    var list := new SkipList();
    empty := list.Empty();
    size := list.Size();
  }

  /** Inserting 5, 3 and 7 stores three values, and a traversal from
      begin() to end() meets them in ascending order. */
  method InsertThenTraverse(l5: nat, l3: nat, l7: nat) returns (values: seq<int>, size: nat, empty: bool)
    requires l5 <= MAX_LEVEL && l3 <= MAX_LEVEL && l7 <= MAX_LEVEL
    ensures values == [3, 5, 7] && size == 3 && !empty
  {
    var list := ThreeValues(l5, l3, l7);
    values := list.Values();
    size := list.Size();
    empty := list.Empty();
  }

  /** find() of a stored value yields an iterator that dereferences to it;
      find() of an absent value yields end(). */
  method FindPresentAndAbsent(l5: nat, l3: nat, l7: nat) returns (at5: Result<int>, missingIsEnd: bool)
    requires l5 <= MAX_LEVEL && l3 <= MAX_LEVEL && l7 <= MAX_LEVEL
    ensures at5 == Ok(5) && missingIsEnd
  {
    var list := ThreeValues(l5, l3, l7);
    assert list.Contents[1] == 5;
    var it := list.Find(5);
    at5 := list.Deref(it);
    var none := list.Find(99);
    missingIsEnd := none == list.End();
  }

  /** Erasing a stored value shrinks the list by one, reports the value as
      found, and find() no longer reaches it. */
  method EraseThenFind(l5: nat, l3: nat, l7: nat) returns (before: nat, found: bool, after: nat, goneIsEnd: bool)
    requires l5 <= MAX_LEVEL && l3 <= MAX_LEVEL && l7 <= MAX_LEVEL
    ensures before == 3 && found && after == 2 && goneIsEnd
  {
    var list := ThreeValues(l5, l3, l7);
    before := list.Size();
    found := list.Erase(5);
    assert Rank([3, 5, 7], 5) == 1;
    assert list.Contents == [3, 7];
    after := list.Size();
    var it := list.Find(5);
    goneIsEnd := it == list.End();
  }

  /** Duplicates are not added: three insertions of 5 leave one value, and
      find(5) reaches it. */
  method InsertDuplicates(l1: nat, l2: nat, l3: nat) returns (size: nat, at5: Result<int>)
    requires l1 <= MAX_LEVEL && l2 <= MAX_LEVEL && l3 <= MAX_LEVEL
    ensures size == 1 && at5 == Ok(5)
  {
    var list := new SkipList();
    list.Insert(5, l1);
    list.Insert(5, l2);
    list.Insert(5, l3);
    assert list.Contents == [5];
    size := list.Size();
    var it := list.Find(5);
    at5 := list.Deref(it);
  }

  /** The copy holds the same values; erasing from the copy leaves the
      original as it was. */
  method CopyIsIndependent(l5: nat, l3: nat, l7: nat, levels: seq<nat>)
    returns (copySize: nat, erased: bool, originalSize: nat, copyAfter: nat)
    requires l5 <= MAX_LEVEL && l3 <= MAX_LEVEL && l7 <= MAX_LEVEL
    requires |levels| == 3 && forall k :: 0 <= k < 3 ==> levels[k] <= MAX_LEVEL
    ensures copySize == 3 && erased && originalSize == 3 && copyAfter == 2
  {
    var list := ThreeValues(l5, l3, l7);
    var copy := new SkipList.CopyOf(list, levels);
    copySize := copy.Size();
    erased := copy.Erase(5);
    originalSize := list.Size();
    copyAfter := copy.Size();
  }

  /** Copy assignment, as copy-then-swap makes it observable: the target's
      own values are replaced by a copy of the source's. */
  method AssignReplaces(l5: nat, l3: nat, l7: nat, l10: nat, l20: nat, levels: seq<nat>)
    returns (targetValues: seq<int>, sourceSize: nat)
    requires l5 <= MAX_LEVEL && l3 <= MAX_LEVEL && l7 <= MAX_LEVEL && l10 <= MAX_LEVEL && l20 <= MAX_LEVEL
    requires |levels| == 3 && forall k :: 0 <= k < 3 ==> levels[k] <= MAX_LEVEL
    ensures targetValues == [3, 5, 7] && sourceSize == 3
  {
    var list := ThreeValues(l5, l3, l7);
    var target := new SkipList();
    target.Insert(10, l10);
    target.Insert(20, l20);
    target := new SkipList.CopyOf(list, levels);
    targetValues := target.Values();
    sourceSize := list.Size();
  }

  /** clear() leaves an empty list whose begin() is end(). */
  method ClearEmpties(l5: nat, l3: nat, l7: nat) returns (before: nat, after: nat, empty: bool, beginIsEnd: bool)
    requires l5 <= MAX_LEVEL && l3 <= MAX_LEVEL && l7 <= MAX_LEVEL
    ensures before == 3 && after == 0 && empty && beginIsEnd
  {
    var list := ThreeValues(l5, l3, l7);
    before := list.Size();
    list.Clear();
    after := list.Size();
    empty := list.Empty();
    beginIsEnd := list.Begin() == list.End();
  }

  /** On an empty list begin() is end() and dereferencing it fails; with a
      single value, begin() dereferences to it and one increment reaches
      end(). */
  method IteratorEnds(level: nat) returns (emptyBeginIsEnd: bool, endDeref: Result<int>, first: Result<int>, nextIsEnd: bool)
    requires level <= MAX_LEVEL
    ensures emptyBeginIsEnd && endDeref.Failure? && first == Ok(42) && nextIsEnd
  {
    var empty := new SkipList();
    emptyBeginIsEnd := empty.End() == empty.Begin();
    endDeref := empty.Deref(empty.End());
    var list := new SkipList();
    list.Insert(42, level);
    assert list.Contents == [42];
    var it := list.Begin();
    first := list.Deref(it);
    it := list.Next(it);
    nextIsEnd := it == list.End();
  }

  /** Inserting 0, 1, ..., n - 1 in turn stores n values, and find() of each
      of them dereferences to it. */
  method InsertRange(n: nat, levels: seq<nat>) returns (size: nat, hits: seq<Result<int>>)
    requires |levels| == n && forall k :: 0 <= k < n ==> levels[k] <= MAX_LEVEL
    ensures size == n
    ensures |hits| == n && forall i :: 0 <= i < n ==> hits[i] == Ok(i)
  {
    var list := new SkipList();
    for i := 0 to n
      invariant list.Valid() && fresh(list)
      invariant |list.Contents| == i && forall k :: 0 <= k < i ==> list.Contents[k] == k
    {
      InsertLargest(list.Contents, i);
      list.Insert(i, levels[i]);
    }
    size := list.Size();
    hits := [];
    for i := 0 to n
      invariant list.Valid() && |list.Contents| == n && forall k :: 0 <= k < n ==> list.Contents[k] == k
      invariant |hits| == i && forall k :: 0 <= k < i ==> hits[k] == Ok(k)
    {
      assert list.Contents[i] == i;
      var it := list.Find(i);
      var x := list.Deref(it);
      hits := hits + [x];
    }
  }
}
