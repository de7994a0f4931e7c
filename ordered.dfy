/** The abstract value of a skip list: a strictly ascending sequence of
    unique integers, with the set operations insert and erase act out. */
module Ordered {
  import opened Seqs

  /** Strictly increasing: the order the level-0 chain is kept in. */
  predicate Ascending(s: seq<int>) {
    forall j, k :: 0 <= j < k < |s| ==> s[j] < s[k]
  }

  /** Number of elements below v: where a top-down search for v stops. */
  function Rank(s: seq<int>, v: int): (m: nat)
    requires Ascending(s)
    ensures m <= |s|
    ensures forall j :: 0 <= j < m ==> s[j] < v
    ensures forall j :: m <= j < |s| ==> v <= s[j]
    ensures m == |s| || v <= s[m]
  {
    if s == [] || v <= s[0] then 0 else 1 + Rank(s[1..], v)
  }

  /** The element just after the elements below v is the only candidate
      equal to v. */
  lemma {:induction false} MemberAtRank(s: seq<int>, v: int)
    requires Ascending(s)
    ensures v in s <==> Rank(s, v) < |s| && s[Rank(s, v)] == v
  {
    var m := Rank(s, v);
    if v in s {
      var j :| 0 <= j < |s| && s[j] == v;
      assert m <= j;
      assert v <= s[m] <= s[j];
    }
  }

  /** The contents after inserting v: v joins, in order, unless present. */
  function Insert(s: seq<int>, v: int): (r: seq<int>)
    requires Ascending(s)
    ensures Ascending(r)
    ensures forall x :: x in r <==> x in s || x == v
    ensures |r| == if v in s then |s| else |s| + 1
  {
    if v in s then s
    else
      InsertAtRank(s, v);
      InsertAt(s, Rank(s, v), v)
  }

  lemma InsertAtRank(s: seq<int>, v: int)
    requires Ascending(s) && v !in s
    ensures Ascending(InsertAt(s, Rank(s, v), v))
    ensures forall x :: x in InsertAt(s, Rank(s, v), v) <==> x in s || x == v
  {
    InsertAtRankAscending(s, v);
    var m := Rank(s, v);
    var r := InsertAt(s, m, v);
    forall x ensures x in r <==> x in s || x == v {
      if x in s {
        var j :| 0 <= j < |s| && s[j] == x;
        if j < m { assert r[j] == x; } else { assert r[j + 1] == x; }
      }
      if x in r {
        var j :| 0 <= j < |r| && r[j] == x;
        if j < m { assert s[j] == x; } else if j > m { assert s[j - 1] == x; }
      }
    }
  }

  lemma InsertAtRankAscending(s: seq<int>, v: int)
    requires Ascending(s) && v !in s
    ensures Ascending(InsertAt(s, Rank(s, v), v))
  {
    var m := Rank(s, v);
    var r := InsertAt(s, m, v);
    forall j, k | 0 <= j < k < |r| ensures r[j] < r[k] {
      if j == m {
        assert r[k] == s[k - 1] && v <= s[k - 1];
      } else if k == m {
        assert r[j] == s[j];
      } else {
        var j', k' := if j < m then j else j - 1, if k < m then k else k - 1;
        assert r[j] == s[j'] && r[k] == s[k'] && j' < k';
      }
    }
  }

  /** The contents after erasing v: v leaves, if present. */
  function Remove(s: seq<int>, v: int): (r: seq<int>)
    requires Ascending(s)
    ensures Ascending(r)
    ensures forall x :: x in r <==> x in s && x != v
    ensures |r| == if v in s then |s| - 1 else |s|
  {
    if v !in s then s
    else
      RemoveAtRank(s, v);
      RemoveAt(s, Rank(s, v))
  }

  lemma RemoveAtRank(s: seq<int>, v: int)
    requires Ascending(s) && v in s
    ensures Rank(s, v) < |s|
    ensures Ascending(RemoveAt(s, Rank(s, v)))
    ensures forall x :: x in RemoveAt(s, Rank(s, v)) <==> x in s && x != v
  {
    MemberAtRank(s, v);
    RemoveAtAscending(s, Rank(s, v));
    RemoveAtMembers(s, Rank(s, v));
  }

  lemma RemoveAtAscending(s: seq<int>, m: nat)
    requires Ascending(s) && m < |s|
    ensures Ascending(RemoveAt(s, m))
  {
    var r := RemoveAt(s, m);
    forall j, k | 0 <= j < k < |r| ensures r[j] < r[k] {
      var j', k' := if j < m then j else j + 1, if k < m then k else k + 1;
      assert r[j] == s[j'] && r[k] == s[k'] && j' < k';
    }
  }

  lemma RemoveAtMembers(s: seq<int>, m: nat)
    requires Ascending(s) && m < |s|
    ensures forall x :: x in RemoveAt(s, m) <==> x in s && x != s[m]
  {
    var r := RemoveAt(s, m);
    forall x ensures x in r <==> x in s && x != s[m] {
      if x in s && x != s[m] {
        var j :| 0 <= j < |s| && s[j] == x;
        if j < m { assert r[j] == x; } else { assert j != m; assert r[j - 1] == x; }
      }
      if x in r {
        var j :| 0 <= j < |r| && r[j] == x;
        if j < m { assert s[j] == x && s[j] < s[m]; } else { assert s[j + 1] == x && s[m] < s[j + 1]; }
      }
    }
  }

  /** Re-inserting the elements of an ascending sequence in order appends
      each one: what the copy constructor relies on. */
  lemma InsertLargest(s: seq<int>, v: int)
    requires Ascending(s)
    requires forall j :: 0 <= j < |s| ==> s[j] < v
    ensures Insert(s, v) == s + [v]
  {
    assert v !in s;
    assert Rank(s, v) == |s|;
    assert InsertAt(s, |s|, v) == s + [v];
  }
}
