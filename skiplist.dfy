/** The SkipList container: an ordered set of unique integers kept as a
    multi-level linked list behind a head sentinel.

    The nodes live in an arena `nodes`; index HEAD is the sentinel, and a
    forward link is an arena index (or null). Erased nodes stay in the arena
    but no link of the chain refers to them any more. The ghost fields
    `Handles` (the live nodes in level-0 order) and `Contents` (their values)
    give the abstract value. */
module SkipLists {
  import opened Seqs
  import opened Ordered
  import opened Layout
  import opened Splice

  /** The value of an operation that may throw. */
  datatype Result<T> = Ok(value: T) | Failure(message: string)

  /** A forward iterator: the node it stands on, or null for end(). */
  datatype Iterator = Iterator(current: Link)

  /** The arena, read through `handles`, holds `contents` in ascending
      order, and its links have the skip-list shape for `level`. */
  ghost predicate Represents(ns: seq<Node>, handles: seq<nat>, contents: seq<int>, level: nat) {
    Shaped(ns, handles, level) &&
    |contents| == |handles| &&
    (forall k :: 0 <= k < |handles| ==> ns[handles[k]].value == contents[k]) &&
    Ascending(contents)
  }

  /** Every level's chain is strictly ascending: a link leaving a live node
      leads to a node that holds a larger value. */
  lemma ChainAscending(ns: seq<Node>, handles: seq<nat>, contents: seq<int>, level: nat, b: nat, l: nat)
    requires Represents(ns, handles, contents, level)
    requires 0 < b <= |handles| && l < |ns[handles[b - 1]].forward|
    requires ns[handles[b - 1]].forward[l] != Nil
    ensures ns[handles[b - 1]].forward[l].node < |ns|
    ensures ns[handles[b - 1]].value < ns[ns[handles[b - 1]].forward[l].node].value
  {
    assert Before(handles, b) == handles[b - 1];
    LinkTarget(ns, handles, level, b, l);
  }

  /** What the descent reads at level i from position b: the level-i link
      leaving the node before b, which leads below v exactly when it lands
      before position Rank(contents, v). */
  ghost predicate Reads(ns: seq<Node>, handles: seq<nat>, contents: seq<int>, v: int, b: nat, i: nat)
    requires InArena(ns, handles) && Ascending(contents) && b <= |handles|
  {
    i < |ns[Before(handles, b)].forward| &&
    ns[Before(handles, b)].forward[i] == LinkTo(handles, Succ(Heights(ns, handles), b, i)) &&
    var r := Succ(Heights(ns, handles), b, i);
    r < Rank(contents, v) <==> r < |handles| && ns[handles[r]].value < v
  }

  /** One step of the descent at level i from position b: the link it
      reads, and whether following it stays below v. */
  lemma DescendStep(ns: seq<Node>, handles: seq<nat>, contents: seq<int>, level: nat, v: int, b: nat, i: nat)
    requires Represents(ns, handles, contents, level)
    requires b <= Rank(contents, v) && i <= level
    requires b == 0 || |ns[handles[b - 1]].forward| > i
    ensures Reads(ns, handles, contents, v, b, i)
  {
    assert LinkedAt(ns, handles, b, i);
  }

  /** Every position the descent may stand at on level i reads as the
      shape prescribes. */
  lemma AllReads(ns: seq<Node>, handles: seq<nat>, contents: seq<int>, level: nat, v: int, i: nat)
    requires Represents(ns, handles, contents, level) && i <= level
    ensures forall c :: 0 <= c <= Rank(contents, v) && (c == 0 || |ns[handles[c - 1]].forward| > i) ==>
              Reads(ns, handles, contents, v, c, i)
  {
    forall c | 0 <= c <= Rank(contents, v) && (c == 0 || |ns[handles[c - 1]].forward| > i)
      ensures Reads(ns, handles, contents, v, c, i)
    {
      DescendStep(ns, handles, contents, level, v, c, i);
    }
  }

  /** Where the update node of a search that stopped before position m
      links at level l: to the node at m exactly on the levels it occupies. */
  lemma EraseStopsAt(ns: seq<Node>, handles: seq<nat>, level: nat, m: nat, update: seq<nat>, pos: seq<nat>, l: nat)
    requires Shaped(ns, handles, level) && m < |handles|
    requires UpdatePath(ns, handles, m, update, pos, level + 1)
    requires l <= level
    ensures update[l] < |ns| && l < |ns[update[l]].forward|
    ensures ns[update[l]].forward[l] == To(handles[m]) <==> l < |ns[handles[m]].forward|
  {
    var hs := Heights(ns, handles);
    var p := pos[l];
    assert l < |ns[Before(handles, p)].forward| && LinkedAt(ns, handles, p, l);
    var r := Succ(hs, p, l);
    assert ns[update[l]].forward[l] == LinkTo(handles, r);
    if l < hs[m] {
      SuccUnique(hs, p, l, m);
    } else if r < |handles| {
      assert r != m;
    }
  }

  /** Insert's splice turns a represented list without v into one with v at
      index m, and current_level into the larger of it and the new level. */
  lemma InsertKeeps(ns0: seq<Node>, ns1: seq<Node>, handles: seq<nat>, contents: seq<int>,
                    level0: nat, level1: nat, m: nat, update: seq<nat>, pos: seq<nat>, v: int, L: nat)
    requires Represents(ns0, handles, contents, level0) && v !in contents && m == Rank(contents, v)
    requires L <= MAX_LEVEL && level1 == (if L > level0 then L else level0)
    requires UpdatePath(ns0, handles, m, update, pos, L + 1)
    requires SplicedIn(ns0, ns1, update, L, L + 1) && ns1[|ns0|].value == v
    ensures Represents(ns1, InsertAt<nat>(handles, m, |ns0|), InsertAt(contents, m, v), level1)
  {
    var H: seq<nat> := InsertAt<nat>(handles, m, |ns0|);
    InsertLinked(ns0, ns1, handles, level0, m, update, pos, L);
    InsertedShape(ns0, ns1, handles, m, update, L);
    InsertedDistinct(handles, m, |ns0|);
    InsertedHeights(ns0, ns1, handles, m, update, L, level0, level1);
    InsertedValues(ns0, ns1, handles, contents, m, update, L, v);
    InsertAtRank(contents, v);
    assert Chained(ns1, H, level1);
    assert |ns1[HEAD].forward| == |ns0[HEAD].forward|;
    InsertedTop(ns0, ns1, handles, level0, level1, m, L);
  }

  lemma InsertedDistinct(handles: seq<nat>, m: nat, n: nat)
    requires Distinct(handles) && m <= |handles|
    requires forall j :: 0 <= j < |handles| ==> handles[j] < n
    ensures Distinct(InsertAt<nat>(handles, m, n))
  {
    var H: seq<nat> := InsertAt<nat>(handles, m, n);
    forall j, k | 0 <= j < k < |H| ensures H[j] != H[k] {
      if j == m {
        assert H[k] == handles[k - 1];
      } else if k == m {
        assert H[j] == handles[j];
      } else {
        var j', k' := if j < m then j else j - 1, if k < m then k else k - 1;
        assert H[j] == handles[j'] && H[k] == handles[k'] && j' < k';
      }
    }
  }

  lemma InsertedHeights(ns0: seq<Node>, ns1: seq<Node>, handles: seq<nat>, m: nat, update: seq<nat>,
                        L: nat, level0: nat, level1: nat)
    requires InArena(ns0, handles) && m <= |handles|
    requires forall j :: 0 <= j < |handles| ==> 1 <= |ns0[handles[j]].forward| <= level0 + 1
    requires SplicedIn(ns0, ns1, update, L, L + 1) && L <= level1 && level0 <= level1
    ensures forall j :: 0 <= j < |handles| + 1 ==> 1 <= |ns1[InsertAt<nat>(handles, m, |ns0|)[j]].forward| <= level1 + 1
  {
    var H: seq<nat> := InsertAt<nat>(handles, m, |ns0|);
    forall j | 0 <= j < |H| ensures 1 <= |ns1[H[j]].forward| <= level1 + 1 {
      if j != m {
        var j' := if j < m then j else j - 1;
        assert H[j] == handles[j'];
      }
    }
  }

  lemma InsertedValues(ns0: seq<Node>, ns1: seq<Node>, handles: seq<nat>, contents: seq<int>, m: nat,
                       update: seq<nat>, L: nat, v: int)
    requires InArena(ns0, handles) && |contents| == |handles| && m <= |handles|
    requires forall k :: 0 <= k < |handles| ==> ns0[handles[k]].value == contents[k]
    requires SplicedIn(ns0, ns1, update, L, L + 1) && ns1[|ns0|].value == v
    ensures forall k :: 0 <= k < |handles| + 1 ==>
              ns1[InsertAt<nat>(handles, m, |ns0|)[k]].value == InsertAt(contents, m, v)[k]
  {
    var H: seq<nat> := InsertAt<nat>(handles, m, |ns0|);
    var C: seq<int> := InsertAt(contents, m, v);
    forall k | 0 <= k < |H| ensures ns1[H[k]].value == C[k] {
      if k != m {
        var k' := if k < m then k else k - 1;
        assert H[k] == handles[k'] && C[k] == contents[k'];
      }
    }
  }

  /** After insert some live node reaches the new current_level, so the
      head's link there is not null. */
  lemma InsertedTop(ns0: seq<Node>, ns1: seq<Node>, handles: seq<nat>, level0: nat, level1: nat, m: nat, L: nat)
    requires m <= |handles| && InArena(ns0, handles) && InArena(ns1, InsertAt<nat>(handles, m, |ns0|))
    requires |ns0[HEAD].forward| == |ns1[HEAD].forward| == MAX_LEVEL + 1
    requires level0 <= MAX_LEVEL && (level0 == 0 || ns0[HEAD].forward[level0] != Nil)
    requires L <= MAX_LEVEL && level1 == (if L > level0 then L else level0)
    requires LinkedAt(ns0, handles, 0, level0) && LinkedAt(ns1, InsertAt<nat>(handles, m, |ns0|), 0, level1)
    requires Heights(ns1, InsertAt<nat>(handles, m, |ns0|)) == InsertAt<nat>(Heights(ns0, handles), m, L + 1)
    ensures level1 == 0 || ns1[HEAD].forward[level1] != Nil
  {
    if level1 > 0 {
      var H: seq<nat> := InsertAt<nat>(handles, m, |ns0|);
      var hs := Heights(ns0, handles);
      if L <= level0 {
        assert Before(handles, 0) == HEAD;
        assert ns0[HEAD].forward[level0] == LinkTo(handles, Succ(hs, 0, level0)) != Nil;
      }
      InsertedReachesTop(hs, m, L, level0, level1);
      var hs' := Heights(ns1, H);
      assert Before(H, 0) == HEAD;
      assert ns1[HEAD].forward[level1] == LinkTo(H, Succ(hs', 0, level1));
    }
  }

  /** The heights after insert still reach the new current_level. */
  lemma InsertedReachesTop(hs: seq<nat>, m: nat, L: nat, level0: nat, level1: nat)
    requires m <= |hs| && level1 == (if L > level0 then L else level0)
    requires L > level0 || Succ(hs, 0, level0) < |hs|
    ensures Succ(InsertAt<nat>(hs, m, L + 1), 0, level1) < |hs| + 1
  {
    var hs': seq<nat> := InsertAt<nat>(hs, m, L + 1);
    var t: nat;
    if L > level0 {
      t := m;
    } else {
      var r := Succ(hs, 0, level0);
      t := if r < m then r else r + 1;
      assert hs'[t] == hs[r];
    }
    assert hs'[t] > level1;
  }

  /** Erase's unsplice leaves the list without the node at index m, with
      the same current_level still bounding every height. */
  lemma EraseKeeps(ns0: seq<Node>, ns1: seq<Node>, handles: seq<nat>, contents: seq<int>,
                   level: nat, m: nat, update: seq<nat>, pos: seq<nat>)
    requires Represents(ns0, handles, contents, level) && m < |handles|
    requires UpdatePath(ns0, handles, m, update, pos, |ns0[handles[m]].forward|)
    requires SplicedOut(ns0, ns1, update, handles[m], |ns0[handles[m]].forward|)
    ensures Chained(ns1, RemoveAt(handles, m), level)
    ensures forall k :: 0 <= k < |handles| - 1 ==> ns1[RemoveAt(handles, m)[k]].value == RemoveAt(contents, m)[k]
  {
    var H := RemoveAt(handles, m);
    EraseLinked(ns0, ns1, handles, level, m, update, pos);
    assert Distinct(H);
    assert forall j :: 0 <= j < |H| ==> 1 <= |ns1[H[j]].forward| <= level + 1;
  }

  /** A handle removed from a sequence of distinct handles is gone. */
  lemma RemovedGone(handles: seq<nat>, m: nat)
    requires Distinct(handles) && m < |handles|
    ensures handles[m] !in RemoveAt(handles, m)
  {
    var H := RemoveAt(handles, m);
    forall j | 0 <= j < |H| ensures H[j] != handles[m] {
      assert H[j] == handles[if j < m then j else j + 1];
    }
  }

  lemma PrefixStep(s: seq<int>, k: nat)
    requires k < |s|
    ensures s[..k + 1] == s[..k] + [s[k]]
  {
  }

  /** A fresh head alone represents the empty list at level 0. */
  lemma EmptyRepresents()
    ensures Represents([FreshHead()], [], [], 0)
  {
    forall b: nat, i: nat ensures LinkedAt([FreshHead()], [], b, i) {
    }
  }

  /** The level of a new node. `draws(k)` says whether the k-th uniform
      draw of the generator fell below P = 0.25: the level grows while the
      draws succeed, up to MAX_LEVEL. */
  method RandomLevel(draws: nat -> bool) returns (level: nat)
    ensures level <= MAX_LEVEL
    ensures forall k :: 0 <= k < level ==> draws(k)
    ensures level == MAX_LEVEL || !draws(level)
  {
    level := 0;
    while draws(level) && level < MAX_LEVEL
      invariant level <= MAX_LEVEL
      invariant forall k :: 0 <= k < level ==> draws(k)
    {
      level := level + 1;
    }
  }

  /** The top-down descent shared by insert, erase and find: at every
      level from `level` down to 0, follow links while they lead to a value
      below v. update[l] is where level l was left; the search stops before
      position m, the number of values below v. */
  method Descend(ns: seq<Node>, ghost handles: seq<nat>, ghost contents: seq<int>, level: nat, v: int)
    returns (update: seq<nat>, ghost pos: seq<nat>, ghost m: nat)
    requires Represents(ns, handles, contents, level)
    ensures m == Rank(contents, v)
    ensures |update| == MAX_LEVEL + 1 && |pos| == MAX_LEVEL + 1
    ensures UpdatePath(ns, handles, m, update, pos, level + 1)
    ensures update[0] < |ns| && 0 < |ns[update[0]].forward|
    ensures ns[update[0]].forward[0] == LinkTo(handles, m)
  {
    ghost var hs := Heights(ns, handles);
    m := Rank(contents, v);
    update := seq(MAX_LEVEL + 1, _ => HEAD);
    pos := seq(MAX_LEVEL + 1, _ => 0);
    var x := HEAD;
    ghost var b: nat := 0;
    var i: int := level;
    while i >= 0
      invariant -1 <= i <= level && |update| == MAX_LEVEL + 1 && |pos| == MAX_LEVEL + 1
      invariant b <= m && x == Before(handles, b) && (b == 0 || hs[b - 1] > i)
      invariant UpdateLevels(ns, handles, m, update, pos, i + 1, level + 1)
      decreases i + 1
    {
      AllReads(ns, handles, contents, level, v, i);
      x, b := WalkLevel(ns, handles, contents, x, b, i, v);
      UpdateLevelsStep(ns, handles, m, update, pos, i, level + 1, x, b);
      update := update[i := x];
      pos := pos[i := b];
      i := i - 1;
    }
    DescendEnds(ns, handles, contents, level, v, update, pos);
  }

  /** At the end of the descent the update node of level 0 links to the
      first value not below v. */
  lemma DescendEnds(ns: seq<Node>, handles: seq<nat>, contents: seq<int>, level: nat, v: int,
                    update: seq<nat>, pos: seq<nat>)
    requires Represents(ns, handles, contents, level)
    requires UpdatePath(ns, handles, Rank(contents, v), update, pos, level + 1)
    ensures update[0] < |ns| && 0 < |ns[update[0]].forward|
    ensures ns[update[0]].forward[0] == LinkTo(handles, Rank(contents, v))
  {
    var hs := Heights(ns, handles);
    var m := Rank(contents, v);
    assert IsUpdate(hs, m, pos[0], 0);
    SuccUnique(hs, pos[0], 0, pos[0]);
    assert pos[0] == m;
    DescendStep(ns, handles, contents, level, v, m, 0);
    if m < |hs| {
      SuccUnique(hs, m, 0, m);
    }
  }

  /** The inner loop of the descent at level i: from x, the node before
      position b, follow level-i links while they lead to a value below v.
      It stops at the update node of level i. */
  method WalkLevel(ns: seq<Node>, ghost handles: seq<nat>, ghost contents: seq<int>,
                   x: nat, ghost b: nat, i: nat, v: int) returns (y: nat, ghost c: nat)
    requires InArena(ns, handles) && Ascending(contents) && |contents| == |handles|
    requires forall c :: 0 <= c <= Rank(contents, v) && (c == 0 || |ns[handles[c - 1]].forward| > i) ==>
               Reads(ns, handles, contents, v, c, i)
    requires b <= Rank(contents, v) && x == Before(handles, b)
    requires b == 0 || |ns[handles[b - 1]].forward| > i
    ensures b <= c <= Rank(contents, v) && y == Before(handles, c)
    ensures IsUpdate(Heights(ns, handles), Rank(contents, v), c, i)
    ensures y < |ns| && i < |ns[y].forward|
    ensures ns[y].forward[i] != Nil ==>
              ns[y].forward[i].node < |ns| && ns[ns[y].forward[i].node].value >= v
  {
    ghost var m := Rank(contents, v);
    y, c := x, b;
    while ns[y].forward[i] != Nil && ns[ns[y].forward[i].node].value < v
      invariant b <= c <= m && y == Before(handles, c)
      invariant c == 0 || |ns[handles[c - 1]].forward| > i
      invariant Reads(ns, handles, contents, v, c, i)
      decreases m - c
    {
      ghost var r := StepForward(ns, handles, contents, v, c, i);
      y := ns[y].forward[i].node;
      c := r + 1;
    }
    StepStops(ns, handles, contents, v, c, i);
  }

  /** Following a level-i link that leads below v moves the descent to the
      position after its target, which occupies level i. */
  lemma StepForward(ns: seq<Node>, handles: seq<nat>, contents: seq<int>, v: int, c: nat, i: nat)
    returns (r: nat)
    requires InArena(ns, handles) && Ascending(contents) && |contents| == |handles|
    requires c <= Rank(contents, v) && Reads(ns, handles, contents, v, c, i)
    requires ns[Before(handles, c)].forward[i] != Nil
    requires ns[ns[Before(handles, c)].forward[i].node].value < v
    ensures r == Succ(Heights(ns, handles), c, i) && c <= r < Rank(contents, v)
    ensures ns[Before(handles, c)].forward[i] == To(handles[r]) && Before(handles, r + 1) == handles[r]
    ensures |ns[handles[r]].forward| > i
  {
    r := Succ(Heights(ns, handles), c, i);
  }

  /** A level-i link that is null or leads to a value not below v ends the
      walk at the update node of level i. */
  lemma StepStops(ns: seq<Node>, handles: seq<nat>, contents: seq<int>, v: int, c: nat, i: nat)
    requires InArena(ns, handles) && Ascending(contents) && |contents| == |handles|
    requires c <= Rank(contents, v) && (c == 0 || |ns[handles[c - 1]].forward| > i)
    requires Reads(ns, handles, contents, v, c, i)
    requires ns[Before(handles, c)].forward[i] == Nil ||
             ns[ns[Before(handles, c)].forward[i].node].value >= v
    ensures IsUpdate(Heights(ns, handles), Rank(contents, v), c, i)
  {
    var hs := Heights(ns, handles);
    var r := Succ(hs, c, i);
    assert r >= Rank(contents, v);
  }

  /** Insert raising current_level to L: the head becomes the update node
      of every new level. */
  method RaiseUpdate(ns: seq<Node>, ghost handles: seq<nat>, ghost m: nat, update: seq<nat>, ghost pos: seq<nat>,
                     level: nat, L: nat) returns (update': seq<nat>, ghost pos': seq<nat>)
    requires Chained(ns, handles, level) && level < L <= MAX_LEVEL
    requires |update| == MAX_LEVEL + 1 && |pos| == MAX_LEVEL + 1 && m <= |handles|
    requires UpdatePath(ns, handles, m, update, pos, level + 1)
    ensures |update'| == MAX_LEVEL + 1 && |pos'| == MAX_LEVEL + 1
    ensures UpdatePath(ns, handles, m, update', pos', L + 1)
    ensures forall l :: level < l <= L ==> update'[l] == HEAD
  {
    ghost var hs := Heights(ns, handles);
    update', pos' := update, pos;
    var i := level + 1;
    while i <= L
      invariant level + 1 <= i <= L + 1 && |update'| == MAX_LEVEL + 1 && |pos'| == MAX_LEVEL + 1
      invariant UpdatePath(ns, handles, m, update', pos', i)
      invariant forall l :: level < l < i ==> update'[l] == HEAD
    {
      assert IsUpdate(hs, m, 0, i) && Before(handles, 0) == HEAD;
      update' := update'[i := HEAD];
      pos' := pos'[i := 0];
      i := i + 1;
    }
  }

  /** The splice loop of insert: a node holding v, of height L + 1, joins
      the arena; on every level l <= L it takes over update[l]'s link, and
      update[l] links to it. */
  method LinkIn(ns: seq<Node>, update: seq<nat>, v: int, L: nat) returns (ns': seq<Node>)
    requires |update| > L
    requires forall l :: 0 <= l <= L ==> update[l] < |ns| && l < |ns[update[l]].forward|
    ensures SplicedIn(ns, ns', update, L, L + 1) && ns'[|ns|].value == v
  {
    var n := |ns|;
    ns' := ns + [Node(v, seq(L + 1, _ => Nil))];
    for i := 0 to L + 1
      invariant |ns'| == n + 1 && ns'[n].value == v
      invariant SplicedIn(ns, ns', update, L, i)
    {
      ns' := SetLink(ns', n, i, ns'[update[i]].forward[i]);
      ns' := SetLink(ns', update[i], i, To(n));
    }
  }

  /** The unsplice loop of erase: from level 0 up, while update[i] links to
      node c, it takes over c's link; it stops at the first level where
      update[i] does not, which is c's height. */
  method Unlink(ns: seq<Node>, update: seq<nat>, c: nat, level: nat) returns (ns': seq<Node>)
    requires |update| > level && c < |ns| && |ns[c].forward| <= level + 1
    requires forall l :: 0 <= l <= level ==>
               update[l] < |ns| && l < |ns[update[l]].forward| &&
               (ns[update[l]].forward[l] == To(c) <==> l < |ns[c].forward|)
    ensures SplicedOut(ns, ns', update, c, |ns[c].forward|)
  {
    ns' := ns;
    var i := 0;
    while i <= level
      invariant i <= |ns[c].forward|
      invariant SplicedOut(ns, ns', update, c, i)
    {
      if ns'[update[i]].forward[i] != To(c) {
        break;
      }
      ns' := SetLink(ns', update[i], i, ns'[c].forward[i]);
      i := i + 1;
    }
  }

  /** insert on the arena: search for v; when it is absent, current_level
      rises to L if L is above it, and a node holding v, of height L + 1,
      is spliced in at its place in the level-0 order. */
  method InsertValue(ns: seq<Node>, ghost handles: seq<nat>, ghost contents: seq<int>, level: nat, v: int, L: nat)
    returns (inserted: bool, ns': seq<Node>, level': nat)
    requires Represents(ns, handles, contents, level) && L <= MAX_LEVEL
    ensures inserted <==> v !in contents
    ensures !inserted ==> ns' == ns && level' == level
    ensures inserted ==>
              level' == (if L > level then L else level) &&
              |ns'| == |ns| + 1 && |ns'[|ns|].forward| == L + 1 &&
              Represents(ns', InsertAt<nat>(handles, Rank(contents, v), |ns|),
                         InsertAt(contents, Rank(contents, v), v), level')
    ensures Kept(ns, ns')
  {
    var update: seq<nat>;
    ghost var pos: seq<nat>, m: nat;
    update, pos, m := Descend(ns, handles, contents, level, v);
    MemberAtRank(contents, v);
    var current := ns[update[0]].forward[0];
    if current != Nil && ns[current.node].value == v {
      return false, ns, level;
    }
    level' := level;
    if L > level {
      update, pos := RaiseUpdate(ns, handles, m, update, pos, level, L);
      level' := L;
    }
    PathLinks(ns, handles, m, update, pos, L + 1);
    ns' := LinkIn(ns, update, v, L);
    InsertKeeps(ns, ns', handles, contents, level, level', m, update, pos, v, L);
    inserted := true;
  }

  /** erase on the arena: search for v; when the node c after the update
      node of level 0 holds v, c is unlinked from every level it occupies
      and current_level drops past the levels left empty. */
  method EraseValue(ns: seq<Node>, ghost handles: seq<nat>, ghost contents: seq<int>, level: nat, v: int)
    returns (found: bool, ns': seq<Node>, level': nat)
    requires Represents(ns, handles, contents, level)
    ensures found <==> v in contents
    ensures !found ==> ns' == ns && level' == level
    ensures found ==>
              Rank(contents, v) < |handles| && level' <= level &&
              Represents(ns', RemoveAt(handles, Rank(contents, v)), RemoveAt(contents, Rank(contents, v)), level')
    ensures Kept(ns, ns') && |ns'| == |ns|
  {
    var update: seq<nat>;
    ghost var pos: seq<nat>, m: nat;
    update, pos, m := Descend(ns, handles, contents, level, v);
    MemberAtRank(contents, v);
    var current := ns[update[0]].forward[0];
    if current == Nil || ns[current.node].value != v {
      return false, ns, level;
    }
    var c := current.node;
    forall l | 0 <= l <= level
      ensures update[l] < |ns| && l < |ns[update[l]].forward|
      ensures ns[update[l]].forward[l] == To(c) <==> l < |ns[c].forward|
    {
      EraseStopsAt(ns, handles, level, m, update, pos, l);
    }
    ns' := Unlink(ns, update, c, level);
    EraseKeeps(ns, ns', handles, contents, level, m, update, pos);
    RemoveAtRank(contents, v);
    level' := Lower(ns', RemoveAt(handles, m), level);
    found := true;
  }

  /** The lowering loop of erase: current_level drops while the head's link
      at it is null, so no empty top level stays in use. */
  method Lower(ns: seq<Node>, ghost handles: seq<nat>, level: nat) returns (level': nat)
    requires Chained(ns, handles, level)
    ensures Shaped(ns, handles, level') && level' <= level
    ensures forall l :: level' < l <= level ==> ns[HEAD].forward[l] == Nil
  {
    level' := level;
    while level' > 0 && ns[HEAD].forward[level'] == Nil
      invariant Chained(ns, handles, level') && level' <= level
      invariant forall l :: level' < l <= level ==> ns[HEAD].forward[l] == Nil
    {
      HeadNilBoundsHeights(ns, handles, level');
      level' := level' - 1;
    }
  }

  class SkipList {
    /** The arena: nodes[HEAD] is the head sentinel. */
    var nodes: seq<Node>
    /** current_level: the highest level in use. */
    var currentLevel: nat
    /** size_: the number of stored values. */
    var count: nat
    /** The live nodes, in level-0 order. */
    ghost var Handles: seq<nat>
    /** The stored values, in level-0 order. */
    ghost var Contents: seq<int>

    ghost predicate Valid()
      reads this
    {
      Represents(nodes, Handles, Contents, currentLevel) && count == |Handles|
    }

    /** An empty list: a head with MAX_LEVEL + 1 null links, level 0. */
    constructor ()
      ensures Valid() && Contents == [] && currentLevel == 0
    {
      nodes := [FreshHead()];
      currentLevel := 0;
      count := 0;
      Handles := [];
      Contents := [];
      EmptyRepresents();
    }

    /** insert(value), with the level random_level() would draw as a
        parameter: nothing changes when value is present; otherwise a node of
        height newLevel + 1 joins at its place in every level it occupies. */
    method Insert(v: int, newLevel: nat)
      requires Valid() && newLevel <= MAX_LEVEL
      modifies this
      ensures Valid()
      ensures Contents == Ordered.Insert(old(Contents), v)
      ensures v in old(Contents) ==>
                nodes == old(nodes) && Handles == old(Handles) &&
                currentLevel == old(currentLevel) && count == old(count)
      ensures v !in old(Contents) ==>
                count == old(count) + 1 &&
                currentLevel == (if newLevel > old(currentLevel) then newLevel else old(currentLevel)) &&
                Handles == InsertAt<nat>(old(Handles), Rank(old(Contents), v), |old(nodes)|) &&
                |nodes| == |old(nodes)| + 1 && |nodes[|old(nodes)|].forward| == newLevel + 1
      ensures Kept(old(nodes), nodes)
    {
      var n := |nodes|;
      var inserted: bool;
      inserted, nodes, currentLevel := InsertValue(nodes, Handles, Contents, currentLevel, v, newLevel);
      if inserted {
        count := count + 1;
        Handles := InsertAt<nat>(Handles, Rank(Contents, v), n);
        Contents := InsertAt(Contents, Rank(Contents, v), v);
      }
    }

    /** insert(value) with its level draw: random_level() runs on the coin
        outcomes `draws`, and its result is always a level Insert accepts. */
    method InsertDrawn(v: int, draws: nat -> bool)
      requires Valid()
      modifies this
      ensures Valid()
      ensures Contents == Ordered.Insert(old(Contents), v)
      ensures Kept(old(nodes), nodes)
      ensures v !in old(Contents) ==>
                count == old(count) + 1 && currentLevel <= MAX_LEVEL &&
                |nodes| == |old(nodes)| + 1 && |nodes[|old(nodes)|].forward| <= MAX_LEVEL + 1
    {
      var level := RandomLevel(draws);
      Insert(v, level);
    }

    /** erase(value): unlinks the node holding value from every level it
        occupies, lowers current_level past empty top levels, and reports
        whether value was present. */
    method Erase(v: int) returns (found: bool)
      requires Valid()
      modifies this
      ensures Valid()
      ensures found <==> v in old(Contents)
      ensures Contents == Ordered.Remove(old(Contents), v)
      ensures !found ==>
                nodes == old(nodes) && Handles == old(Handles) &&
                currentLevel == old(currentLevel) && count == old(count)
      ensures found ==>
                count == old(count) - 1 && currentLevel <= old(currentLevel) &&
                Handles == RemoveAt(old(Handles), Rank(old(Contents), v)) &&
                old(Handles)[Rank(old(Contents), v)] !in Handles
      ensures Kept(old(nodes), nodes) && |nodes| == |old(nodes)|
    {
      found, nodes, currentLevel := EraseValue(nodes, Handles, Contents, currentLevel, v);
      if found {
        RemovedGone(Handles, Rank(Contents, v));
        count := count - 1;
        Handles := RemoveAt(Handles, Rank(Contents, v));
        Contents := RemoveAt(Contents, Rank(Contents, v));
      }
    }

    /** find(value): an iterator at the node holding value, or end(). */
    method Find(v: int) returns (it: Iterator)
      requires Valid()
      ensures it == if v in Contents then IterAt(Rank(Contents, v)) else End()
      ensures v in Contents ==> Deref(it) == Ok(v)
    {
      var update: seq<nat>;
      ghost var pos: seq<nat>, m: nat;
      update, pos, m := Descend(nodes, Handles, Contents, currentLevel, v);
      MemberAtRank(Contents, v);
      var current := nodes[update[0]].forward[0];
      if current != Nil && nodes[current.node].value == v {
        it := Iterator(current);
      } else {
        it := Iterator(Nil);
      }
    }

    /** The iterator at index k of the level-0 order; end() for k = size. */
    ghost function IterAt(k: nat): Iterator
      reads this
      requires k <= |Handles|
    {
      Iterator(LinkTo(Handles, k))
    }

    /** An iterator at a live node or at end(). */
    ghost predicate IsLive(it: Iterator)
      reads this
    {
      match it.current
      case Nil => true
      case To(x) => x in Handles
    }

    /** begin(): the first node of level 0. */
    function Begin(): (it: Iterator)
      reads this
      requires Valid()
      ensures it == IterAt(0)
    {
      BaseChain(nodes, Handles, currentLevel);
      Iterator(nodes[HEAD].forward[0])
    }

    /** end(): the null iterator, one past the last value. */
    function End(): (it: Iterator)
      reads this
      requires Valid()
      ensures it == IterAt(|Contents|)
    {
      Iterator(Nil)
    }

    /** operator*: the value under the iterator; end() throws. */
    function Deref(it: Iterator): (r: Result<int>)
      reads this
      requires Valid() && IsLive(it)
      ensures it == End() ==> r == Failure("Dereferencing null iterator")
      ensures forall k :: 0 <= k < |Contents| && it == IterAt(k) ==> r == Ok(Contents[k])
    {
      if it.current == Nil then Failure("Dereferencing null iterator")
      else Ok(nodes[it.current.node].value)
    }

    /** operator++: follows the level-0 link; end() stays end(). */
    function Next(it: Iterator): (r: Iterator)
      reads this
      requires Valid() && IsLive(it)
      ensures IsLive(r)
      ensures it == End() ==> r == End()
      ensures forall k :: 0 <= k < |Contents| && it == IterAt(k) ==> r == IterAt(k + 1)
    {
      BaseChain(nodes, Handles, currentLevel);
      if it.current == Nil then it
      else Iterator(nodes[it.current.node].forward[0])
    }

    /** size(). */
    function Size(): (n: nat)
      reads this
      requires Valid()
      ensures n == |Contents|
    {
      count
    }

    /** empty(). */
    function Empty(): (b: bool)
      reads this
      requires Valid()
      ensures b <==> Contents == []
    {
      count == 0
    }

    /** clear(): a fresh head, level 0, size 0. */
    method Clear()
      modifies this
      ensures Valid() && Contents == [] && count == 0 && currentLevel == 0
      ensures Begin() == End()
    {
      nodes := [FreshHead()];
      currentLevel := 0;
      count := 0;
      Handles := [];
      Contents := [];
      EmptyRepresents();
    }

    /** A range-for over the list: the values met from begin() to end(). */
    method Values() returns (s: seq<int>)
      requires Valid()
      ensures s == Contents
    {
      s := [];
      var it := Begin();
      ghost var k := 0;
      while it != End()
        invariant k <= |Contents| && it == IterAt(k) && s == Contents[..k]
        decreases |Contents| - k
      {
        assert k < |Contents|;
        var x := Deref(it);
        s := s + [x.value];
        it := Next(it);
        k := k + 1;
      }
    }

    /** The copy constructor: an empty list into which every value of
        `other` is inserted in traversal order; levels[k] stands for the
        level drawn for the k-th insertion. */
    constructor CopyOf(other: SkipList, levels: seq<nat>)
      requires other.Valid()
      requires |levels| == |other.Contents|
      requires forall k :: 0 <= k < |levels| ==> levels[k] <= MAX_LEVEL
      ensures Valid() && Contents == other.Contents
    {
      nodes := [FreshHead()];
      currentLevel := 0;
      count := 0;
      Handles := [];
      Contents := [];
      new;
      EmptyRepresents();
      var values := other.Values();
      assert Ascending(values);
      for k := 0 to |values|
        invariant Valid() && Contents == values[..k]
      {
        InsertLargest(Contents, values[k]);
        Insert(values[k], levels[k]);
        PrefixStep(values, k);
      }
      assert values[..|values|] == values;
    }
  }
}
