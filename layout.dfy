/** The node arena of a skip list and the shape its forward links keep.

    Node HEAD is the sentinel with MAX_LEVEL + 1 forward slots. The live
    nodes, in level-0 order, are listed by a sequence of arena indices
    `handles`; `Before(handles, b)` is the node standing before the b-th
    live node (the head for b == 0). A node whose forward sequence has
    length h occupies levels 0..h-1, so a node on level i + 1 is on level i
    as well. `Linked` says that every level-i link of every node on the
    chain goes to the first later live node that occupies level i. */
module Layout {
  import opened Seqs

  /** The highest level index; the head has MAX_LEVEL + 1 slots. */
  const MAX_LEVEL: nat := 32
  /** Arena index of the head sentinel. */
  const HEAD: nat := 0

  /** A forward reference: null, or the arena index of a node. */
  datatype Link = Nil | To(node: nat)

  /** A stored value and its successor per level (length = level + 1). */
  datatype Node = Node(value: int, forward: seq<Link>)

  /** The sentinel a fresh or cleared list starts from: every slot null. */
  function FreshHead(): (h: Node)
    ensures |h.forward| == MAX_LEVEL + 1
    ensures forall i :: 0 <= i <= MAX_LEVEL ==> h.forward[i] == Nil
  {
    Node(0, seq(MAX_LEVEL + 1, _ => Nil))
  }

  /** The node before the b-th live node. */
  function Before(handles: seq<nat>, b: nat): nat
    requires b <= |handles|
  {
    if b == 0 then HEAD else handles[b - 1]
  }

  /** A reference to the r-th live node, or null past the last one. */
  function LinkTo(handles: seq<nat>, r: nat): Link
    requires r <= |handles|
  {
    if r == |handles| then Nil else To(handles[r])
  }

  /** The first index r >= k whose height exceeds i, or |hs| when none:
      where a level-i link leaving position k lands. */
  function Succ(hs: seq<nat>, k: nat, i: nat): (r: nat)
    requires k <= |hs|
    ensures k <= r <= |hs|
    ensures r < |hs| ==> hs[r] > i
    ensures forall j :: k <= j < r ==> hs[j] <= i
    decreases |hs| - k
  {
    if k == |hs| || hs[k] > i then k else Succ(hs, k + 1, i)
  }

  lemma SuccUnique(hs: seq<nat>, k: nat, i: nat, r: nat)
    requires k <= r <= |hs|
    requires r < |hs| ==> hs[r] > i
    requires forall j :: k <= j < r ==> hs[j] <= i
    ensures Succ(hs, k, i) == r
  {
  }

  /** Skipping positions too low for level i does not change the landing. */
  lemma SuccSkip(hs: seq<nat>, k: nat, m: nat, i: nat)
    requires k <= m <= |hs|
    requires forall j :: k <= j < m ==> hs[j] <= i
    ensures Succ(hs, k, i) == Succ(hs, m, i)
  {
    SuccUnique(hs, k, i, Succ(hs, m, i));
  }

  /** Every live handle is a real node of the arena. */
  ghost predicate InArena(ns: seq<Node>, handles: seq<nat>) {
    0 < |ns| && forall j :: 0 <= j < |handles| ==> 1 <= handles[j] < |ns|
  }

  ghost function Heights(ns: seq<Node>, handles: seq<nat>): (hs: seq<nat>)
    requires InArena(ns, handles)
    ensures |hs| == |handles|
    ensures forall j :: 0 <= j < |hs| ==> hs[j] == |ns[handles[j]].forward|
  {
    if handles == [] then [] else Heights(ns, handles[..|handles| - 1]) + [|ns[handles[|handles| - 1]].forward|]
  }

  /** The level-i link leaving position b (the head for b == 0) goes to the
      first later live node that occupies level i. */
  ghost predicate LinkedAt(ns: seq<Node>, handles: seq<nat>, b: nat, i: nat)
    requires InArena(ns, handles)
  {
    b <= |handles| && i < |ns[Before(handles, b)].forward| ==>
      ns[Before(handles, b)].forward[i] == LinkTo(handles, Succ(Heights(ns, handles), b, i))
  }

  ghost predicate Linked(ns: seq<Node>, handles: seq<nat>)
    requires InArena(ns, handles)
  {
    forall b: nat, i: nat :: LinkedAt(ns, handles, b, i)
  }

  ghost predicate Distinct(handles: seq<nat>) {
    forall j, k :: 0 <= j < k < |handles| ==> handles[j] != handles[k]
  }

  /** The structural invariant without its last clause: the state erase
      passes through before it lowers current_level (`level`). */
  ghost predicate Chained(ns: seq<Node>, handles: seq<nat>, level: nat) {
    InArena(ns, handles) &&
    |ns[HEAD].forward| == MAX_LEVEL + 1 &&
    level <= MAX_LEVEL &&
    Distinct(handles) &&
    (forall j :: 0 <= j < |handles| ==> 1 <= |ns[handles[j]].forward| <= level + 1) &&
    Linked(ns, handles)
  }

  /** Every node already in the arena keeps its value and its height: insert
      and erase rewrite links only, so a node's level never changes after
      it is created. */
  ghost predicate Kept(ns: seq<Node>, ns': seq<Node>) {
    |ns| <= |ns'| &&
    forall a :: 0 <= a < |ns| ==> ns'[a].value == ns[a].value && |ns'[a].forward| == |ns[a].forward|
  }

  /** Nodes kept from one arena to the next have the same heights there. */
  lemma KeptHeights(ns: seq<Node>, ns': seq<Node>, handles: seq<nat>)
    requires InArena(ns, handles) && Kept(ns, ns')
    ensures InArena(ns', handles)
    ensures Heights(ns', handles) == Heights(ns, handles)
  {
    var hs, hs' := Heights(ns, handles), Heights(ns', handles);
    forall j | 0 <= j < |hs| ensures hs'[j] == hs[j] {
    }
  }

  /** After insert, with the new node n = |ns| at index m of the live
      nodes, the heights are the old ones with n's height inserted at m. */
  lemma KeptInsertHeights(ns: seq<Node>, ns': seq<Node>, handles: seq<nat>, m: nat, L: nat)
    requires InArena(ns, handles) && m <= |handles|
    requires Kept(ns, ns') && |ns'| == |ns| + 1 && |ns'[|ns|].forward| == L + 1
    ensures InArena(ns', InsertAt<nat>(handles, m, |ns|))
    ensures Heights(ns', InsertAt<nat>(handles, m, |ns|)) == InsertAt<nat>(Heights(ns, handles), m, L + 1)
  {
    var H': seq<nat> := InsertAt<nat>(handles, m, |ns|);
    KeptInsertArena(ns, ns', handles, m);
    var hs, hs' := Heights(ns, handles), Heights(ns', H');
    var t := InsertAt<nat>(hs, m, L + 1);
    forall j | 0 <= j < |t| ensures hs'[j] == t[j] {
      if j != m {
        var j' := if j < m then j else j - 1;
        assert H'[j] == handles[j'] && t[j] == hs[j'];
      }
    }
    assert hs' == t;
  }

  lemma KeptInsertArena(ns: seq<Node>, ns': seq<Node>, handles: seq<nat>, m: nat)
    requires InArena(ns, handles) && m <= |handles| && |ns'| == |ns| + 1
    ensures InArena(ns', InsertAt<nat>(handles, m, |ns|))
  {
    var H': seq<nat> := InsertAt<nat>(handles, m, |ns|);
    forall j | 0 <= j < |H'| ensures 1 <= H'[j] < |ns'| {
      if j != m { assert H'[j] == handles[if j < m then j else j - 1]; }
    }
  }

  /** After erase, with the node at index m of the live nodes gone, the
      remaining heights are the old ones without index m. */
  lemma KeptRemoveHeights(ns: seq<Node>, ns': seq<Node>, handles: seq<nat>, m: nat)
    requires InArena(ns, handles) && m < |handles| && Kept(ns, ns')
    ensures InArena(ns', RemoveAt(handles, m))
    ensures Heights(ns', RemoveAt(handles, m)) == RemoveAt(Heights(ns, handles), m)
  {
    var H' := RemoveAt(handles, m);
    forall j | 0 <= j < |H'| ensures 1 <= H'[j] < |ns'| {
      assert H'[j] == handles[if j < m then j else j + 1];
    }
    var hs, hs' := Heights(ns, handles), Heights(ns', H');
    var t := RemoveAt(hs, m);
    forall j | 0 <= j < |t| ensures hs'[j] == t[j] {
      var j' := if j < m then j else j + 1;
      assert H'[j] == handles[j'] && t[j] == hs[j'];
    }
    assert hs' == t;
  }

  /** The whole structural invariant: besides, no empty top level is in use. */
  ghost predicate Shaped(ns: seq<Node>, handles: seq<nat>, level: nat) {
    Chained(ns, handles, level) && (level == 0 || ns[HEAD].forward[level] != Nil)
  }

  /** The search left level i at position b: b is the last position up to
      m that occupies level i (or the head). */
  ghost predicate IsUpdate(hs: seq<nat>, m: nat, b: nat, i: nat) {
    b <= m <= |hs| && (b == 0 || hs[b - 1] > i) && forall j :: b <= j < m ==> hs[j] <= i
  }

  /** Levels lo..top-1 of the update path of a search that stopped before
      position m: update[l] is the node before position pos[l]. */
  ghost predicate UpdateLevels(ns: seq<Node>, handles: seq<nat>, m: nat, update: seq<nat>, pos: seq<nat>, lo: nat, top: nat)
    requires InArena(ns, handles)
  {
    |update| >= top && |pos| >= top &&
    forall l :: lo <= l < top ==>
      IsUpdate(Heights(ns, handles), m, pos[l], l) && update[l] == Before(handles, pos[l])
  }

  /** The update path of a search that stopped before position m, for
      levels 0..top-1. */
  ghost predicate UpdatePath(ns: seq<Node>, handles: seq<nat>, m: nat, update: seq<nat>, pos: seq<nat>, top: nat)
    requires InArena(ns, handles)
  {
    UpdateLevels(ns, handles, m, update, pos, 0, top)
  }

  /** Recording where level i was left extends the path one level down. */
  lemma UpdateLevelsStep(ns: seq<Node>, handles: seq<nat>, m: nat, update: seq<nat>, pos: seq<nat>,
                         i: nat, top: nat, x: nat, b: nat)
    requires InArena(ns, handles) && i < top
    requires UpdateLevels(ns, handles, m, update, pos, i + 1, top)
    requires IsUpdate(Heights(ns, handles), m, b, i) && x == Before(handles, b)
    ensures UpdateLevels(ns, handles, m, update[i := x], pos[i := b], i, top)
  {
  }

  /** Each node of an update path has a slot at its level. */
  lemma PathLinks(ns: seq<Node>, handles: seq<nat>, m: nat, update: seq<nat>, pos: seq<nat>, top: nat)
    requires InArena(ns, handles) && |ns[HEAD].forward| == MAX_LEVEL + 1 && top <= MAX_LEVEL + 1
    requires UpdatePath(ns, handles, m, update, pos, top)
    ensures forall l :: 0 <= l < top ==> update[l] < |ns| && l < |ns[update[l]].forward|
  {
    var hs := Heights(ns, handles);
    forall l | 0 <= l < top ensures update[l] < |ns| && l < |ns[update[l]].forward| {
      assert IsUpdate(hs, m, pos[l], l);
    }
  }

  /** The write `ns[a]->forward[l] = t`. */
  function SetLink(ns: seq<Node>, a: nat, l: nat, t: Link): (r: seq<Node>)
    requires a < |ns| && l < |ns[a].forward|
    ensures |r| == |ns|
    ensures forall x :: 0 <= x < |ns| ==> r[x].value == ns[x].value && |r[x].forward| == |ns[x].forward|
    ensures r[a].forward[l] == t
    ensures forall x, k :: 0 <= x < |ns| && 0 <= k < |ns[x].forward| && (x != a || k != l) ==>
      r[x].forward[k] == ns[x].forward[k]
  {
    ns[a := ns[a].(forward := ns[a].forward[l := t])]
  }

  lemma BeforeInjective(ns: seq<Node>, handles: seq<nat>, b1: nat, b2: nat)
    requires InArena(ns, handles) && Distinct(handles)
    requires b1 <= |handles| && b2 <= |handles|
    requires Before(handles, b1) == Before(handles, b2)
    ensures b1 == b2
  {
  }

  lemma BeforeDistinct(ns: seq<Node>, handles: seq<nat>, b1: nat, b2: nat)
    requires InArena(ns, handles) && Distinct(handles)
    requires b1 <= |handles| && b2 <= |handles| && b1 != b2
    ensures Before(handles, b1) != Before(handles, b2)
  {
  }

  /** The level-0 chain visits every live node, in the order of handles:
      the chain length is the number of live nodes. */
  lemma {:induction false} BaseChain(ns: seq<Node>, handles: seq<nat>, level: nat)
    requires Shaped(ns, handles, level)
    ensures ns[HEAD].forward[0] == LinkTo(handles, 0)
    ensures forall k :: 0 <= k < |handles| ==> ns[handles[k]].forward[0] == LinkTo(handles, k + 1)
  {
    var hs := Heights(ns, handles);
    assert Before(handles, 0) == HEAD && LinkedAt(ns, handles, 0, 0);
    SuccUnique(hs, 0, 0, 0);
    forall k | 0 <= k < |handles| ensures ns[handles[k]].forward[0] == LinkTo(handles, k + 1) {
      assert Before(handles, k + 1) == handles[k] && LinkedAt(ns, handles, k + 1, 0);
      SuccUnique(hs, k + 1, 0, k + 1);
    }
  }

  /** A null head slot at level l means no live node reaches level l. */
  lemma HeadNilBoundsHeights(ns: seq<Node>, handles: seq<nat>, l: nat)
    requires InArena(ns, handles) && Linked(ns, handles)
    requires l < |ns[HEAD].forward| && ns[HEAD].forward[l] == Nil
    ensures forall j :: 0 <= j < |handles| ==> |ns[handles[j]].forward| <= l
  {
    assert Before(handles, 0) == HEAD && LinkedAt(ns, handles, 0, l);
    assert Succ(Heights(ns, handles), 0, l) == |handles|;
  }

  /** The head's successors above current_level are null. */
  lemma {:induction false} AboveTopIsEmpty(ns: seq<Node>, handles: seq<nat>, level: nat)
    requires Shaped(ns, handles, level)
    ensures forall l :: level < l <= MAX_LEVEL ==> ns[HEAD].forward[l] == Nil
  {
    var hs := Heights(ns, handles);
    forall l | level < l <= MAX_LEVEL ensures ns[HEAD].forward[l] == Nil {
      assert Before(handles, 0) == HEAD && LinkedAt(ns, handles, 0, l);
      SuccUnique(hs, 0, l, |hs|);
    }
  }

  /** Every link of a node on the chain is null or goes to a later live
      node that occupies the same level. */
  lemma LinkTarget(ns: seq<Node>, handles: seq<nat>, level: nat, b: nat, l: nat)
    requires Shaped(ns, handles, level)
    requires b <= |handles| && l < |ns[Before(handles, b)].forward|
    ensures ns[Before(handles, b)].forward[l] == Nil ||
            exists r :: b <= r < |handles| && ns[Before(handles, b)].forward[l] == To(handles[r]) &&
                        l < |ns[handles[r]].forward|
  {
    var r := Succ(Heights(ns, handles), b, l);
    assert LinkedAt(ns, handles, b, l);
    if r < |handles| {
      assert ns[Before(handles, b)].forward[l] == To(handles[r]);
    }
  }

  /** The last position p <= r that is the head or a node taller than l. */
  function PrevAt(hs: seq<nat>, r: nat, l: nat): (p: nat)
    requires r <= |hs|
    ensures p <= r && (p == 0 || hs[p - 1] > l)
    ensures forall j :: p <= j < r ==> hs[j] <= l
  {
    if r == 0 || hs[r - 1] > l then r else PrevAt(hs, r - 1, l)
  }

  /** Every live node taller than l is on the level-l chain: the level-l
      link of an earlier node (or of the head) leads to it. */
  lemma OnLevel(ns: seq<Node>, handles: seq<nat>, level: nat, r: nat, l: nat)
    requires Chained(ns, handles, level)
    requires r < |handles| && l < |ns[handles[r]].forward|
    ensures exists b :: 0 <= b <= r && l < |ns[Before(handles, b)].forward| &&
                        ns[Before(handles, b)].forward[l] == To(handles[r])
  {
    var hs := Heights(ns, handles);
    var p := PrevAt(hs, r, l);
    assert l < |ns[Before(handles, p)].forward| && LinkedAt(ns, handles, p, l);
    SuccUnique(hs, p, l, r);
    assert ns[Before(handles, p)].forward[l] == To(handles[r]);
  }

  /** Level l + 1 is a sub-list of level l: whatever a level-(l + 1) link
      leads to, some level-l link leads to as well. */
  lemma LevelsNest(ns: seq<Node>, handles: seq<nat>, level: nat, b: nat, l: nat)
    requires Shaped(ns, handles, level)
    requires b <= |handles| && l + 1 < |ns[Before(handles, b)].forward|
    requires ns[Before(handles, b)].forward[l + 1] != Nil
    ensures exists b' :: 0 <= b' <= |handles| && l < |ns[Before(handles, b')].forward| &&
                         ns[Before(handles, b')].forward[l] == ns[Before(handles, b)].forward[l + 1]
  {
    LinkTarget(ns, handles, level, b, l + 1);
    var r :| b <= r < |handles| && ns[Before(handles, b)].forward[l + 1] == To(handles[r]) &&
             l + 1 < |ns[handles[r]].forward|;
    OnLevel(ns, handles, level, r, l);
  }

  /** A node that is not live is not referenced by any link of the chain. */
  lemma Unreferenced(ns: seq<Node>, handles: seq<nat>, level: nat, x: nat)
    requires Chained(ns, handles, level) && x !in handles
    ensures forall b, l :: 0 <= b <= |handles| && 0 <= l < |ns[Before(handles, b)].forward| ==>
              ns[Before(handles, b)].forward[l] != To(x)
  {
    forall b, l | 0 <= b <= |handles| && 0 <= l < |ns[Before(handles, b)].forward|
      ensures ns[Before(handles, b)].forward[l] != To(x)
    {
      assert LinkedAt(ns, handles, b, l);
    }
  }

  // ---------------------------------------------------------------------
  // Where links land after a node is spliced in at, or out of, index m.

  lemma SuccInsertedAfter(hs: seq<nat>, m: nat, h: nat, k: nat, i: nat)
    requires m <= k <= |hs|
    ensures Succ(InsertAt<nat>(hs, m, h), k + 1, i) == Succ(hs, k, i) + 1
  {
    SuccUnique(InsertAt<nat>(hs, m, h), k + 1, i, Succ(hs, k, i) + 1);
  }

  lemma SuccInsertedBefore(hs: seq<nat>, m: nat, h: nat, k: nat, i: nat)
    requires k <= m <= |hs|
    ensures Succ(InsertAt<nat>(hs, m, h), k, i) ==
      var r := Succ(hs, k, i); if r < m then r else if h > i then m else r + 1
  {
    var hs' := InsertAt<nat>(hs, m, h);
    var r := Succ(hs, k, i);
    if r < m {
      SuccUnique(hs', k, i, r);
    } else if h > i {
      SuccUnique(hs', k, i, m);
    } else {
      SuccUnique(hs', k, i, r + 1);
    }
  }

  lemma SuccRemovedAfter(hs: seq<nat>, m: nat, k: nat, i: nat)
    requires m <= k < |hs|
    ensures Succ(RemoveAt(hs, m), k, i) == Succ(hs, k + 1, i) - 1
  {
    SuccUnique(RemoveAt(hs, m), k, i, Succ(hs, k + 1, i) - 1);
  }

  lemma SuccRemovedBefore(hs: seq<nat>, m: nat, k: nat, i: nat)
    requires k <= m < |hs|
    ensures Succ(RemoveAt(hs, m), k, i) ==
      var r := Succ(hs, k, i); if r < m then r else if r == m then Succ(hs, m + 1, i) - 1 else r - 1
  {
    var hs' := RemoveAt(hs, m);
    var r := Succ(hs, k, i);
    if r < m {
      SuccUnique(hs', k, i, r);
    } else if r == m {
      var r' := Succ(hs, m + 1, i);
      forall j | k <= j < r' - 1 ensures hs'[j] <= i {
        if j >= m { assert hs'[j] == hs[j + 1]; }
      }
      SuccUnique(hs', k, i, r' - 1);
    } else {
      forall j | k <= j < r - 1 ensures hs'[j] <= i {
        if j >= m { assert hs'[j] == hs[j + 1]; }
      }
      SuccUnique(hs', k, i, r - 1);
    }
  }
}

