/** Splicing a node into, and out of, the levels of a shaped arena keeps
    every chain linked. */
module Splice {
  import opened Seqs
  import opened Layout

  /** ns' is ns with node n = |ns| of height L + 1 appended, and, for every
      level l < k, first `n.forward[l] = update[l].forward[l]` and then
      `update[l].forward[l] = n`. */
  ghost predicate SplicedIn(ns: seq<Node>, ns': seq<Node>, update: seq<nat>, L: nat, k: nat) {
    k <= L + 1 && |update| > L && |ns'| == |ns| + 1 && |ns'[|ns|].forward| == L + 1 &&
    (forall a :: 0 <= a < |ns| ==> ns'[a].value == ns[a].value && |ns'[a].forward| == |ns[a].forward|) &&
    (forall l :: 0 <= l < k ==>
       update[l] < |ns| && l < |ns[update[l]].forward| && ns'[|ns|].forward[l] == ns[update[l]].forward[l]) &&
    (forall a, l {:trigger ns'[a].forward[l]} :: 0 <= a < |ns| && 0 <= l < |ns[a].forward| ==>
       ns'[a].forward[l] == if l < k && a == update[l] then To(|ns|) else ns[a].forward[l])
  }

  /** ns' is ns where, for every level l < hc, `update[l].forward[l] =
      c.forward[l]`. */
  ghost predicate SplicedOut(ns: seq<Node>, ns': seq<Node>, update: seq<nat>, c: nat, hc: nat) {
    |update| >= hc && c < |ns| && hc <= |ns[c].forward| && |ns'| == |ns| &&
    (forall a :: 0 <= a < |ns| ==> ns'[a].value == ns[a].value && |ns'[a].forward| == |ns[a].forward|) &&
    (forall a, l {:trigger ns'[a].forward[l]} :: 0 <= a < |ns| && 0 <= l < |ns[a].forward| ==>
       ns'[a].forward[l] == if l < hc && a == update[l] then ns[c].forward[l] else ns[a].forward[l])
  }

  lemma SplicedInAt(ns: seq<Node>, ns': seq<Node>, update: seq<nat>, L: nat, k: nat, a: nat, l: nat)
    requires SplicedIn(ns, ns', update, L, k)
    requires a < |ns| && l < |ns[a].forward|
    ensures ns'[a].forward[l] == if l < k && a == update[l] then To(|ns|) else ns[a].forward[l]
  {
  }

  lemma SplicedOutAt(ns: seq<Node>, ns': seq<Node>, update: seq<nat>, c: nat, hc: nat, a: nat, l: nat)
    requires SplicedOut(ns, ns', update, c, hc)
    requires a < |ns| && l < |ns[a].forward|
    ensures ns'[a].forward[l] == if l < hc && a == update[l] then ns[c].forward[l] else ns[a].forward[l]
  {
  }

  // ---------------------------------------------------------------------
  // Where a link lands, before and after the splice, on heights alone.

  lemma TargetInsertBefore(handles: seq<nat>, hs: seq<nat>, m: nat, n: nat, L: nat, b: nat, i: nat, p: nat)
    requires |hs| == |handles| && b <= m <= |hs|
    requires b == 0 || hs[b - 1] > i
    requires i <= L ==> IsUpdate(hs, m, p, i)
    ensures LinkTo(InsertAt<nat>(handles, m, n), Succ(InsertAt<nat>(hs, m, L + 1), b, i)) ==
            if i <= L && b == p then To(n) else LinkTo(handles, Succ(hs, b, i))
  {
    var H: seq<nat> := InsertAt<nat>(handles, m, n);
    var r := Succ(hs, b, i);
    SuccInsertedBefore(hs, m, L + 1, b, i);
    if i <= L && b == p {
      assert r >= m;
      assert H[m] == n;
    } else {
      if i <= L {
        assert b < p && hs[p - 1] > i;
        assert r < m;
      }
      if r < m {
        assert H[r] == handles[r];
      } else if r < |hs| {
        InsertAtShifts<nat>(handles, m, n, r);
      }
    }
  }

  lemma TargetInsertNew(handles: seq<nat>, hs: seq<nat>, m: nat, n: nat, L: nat, i: nat, p: nat)
    requires |hs| == |handles| && m <= |hs| && i <= L
    requires IsUpdate(hs, m, p, i)
    ensures LinkTo(InsertAt<nat>(handles, m, n), Succ(InsertAt<nat>(hs, m, L + 1), m + 1, i)) ==
            LinkTo(handles, Succ(hs, p, i))
  {
    SuccSkip(hs, p, m, i);
    SuccInsertedAfter(hs, m, L + 1, m, i);
  }

  lemma TargetInsertAfter(handles: seq<nat>, hs: seq<nat>, m: nat, n: nat, L: nat, b: nat, i: nat)
    requires |hs| == |handles| && m + 1 < b <= |hs| + 1
    ensures LinkTo(InsertAt<nat>(handles, m, n), Succ(InsertAt<nat>(hs, m, L + 1), b, i)) ==
            LinkTo(handles, Succ(hs, b - 1, i))
  {
    SuccInsertedAfter(hs, m, L + 1, b - 1, i);
  }

  lemma TargetEraseBefore(handles: seq<nat>, hs: seq<nat>, m: nat, b: nat, i: nat, p: nat)
    requires |hs| == |handles| && b <= m < |hs|
    requires b == 0 || hs[b - 1] > i
    requires i < hs[m] ==> IsUpdate(hs, m, p, i)
    ensures LinkTo(RemoveAt(handles, m), Succ(RemoveAt(hs, m), b, i)) ==
            if i < hs[m] && b == p then LinkTo(handles, Succ(hs, m + 1, i)) else LinkTo(handles, Succ(hs, b, i))
  {
    var r := Succ(hs, b, i);
    SuccRemovedBefore(hs, m, b, i);
    if i < hs[m] && b == p {
      assert r == m;
    } else if i < hs[m] {
      assert b < p && hs[p - 1] > i;
      assert r < m;
    } else {
      assert r != m;
    }
  }

  lemma TargetEraseAfter(handles: seq<nat>, hs: seq<nat>, m: nat, b: nat, i: nat)
    requires |hs| == |handles| && m < b < |hs|
    ensures LinkTo(RemoveAt(handles, m), Succ(RemoveAt(hs, m), b, i)) ==
            LinkTo(handles, Succ(hs, b + 1, i))
  {
    SuccRemovedAfter(hs, m, b, i);
  }

  // ---------------------------------------------------------------------
  // The splices themselves.

  lemma InsertedShape(ns: seq<Node>, ns': seq<Node>, handles: seq<nat>, m: nat, update: seq<nat>, L: nat)
    requires InArena(ns, handles) && m <= |handles|
    requires SplicedIn(ns, ns', update, L, L + 1)
    ensures InArena(ns', InsertAt<nat>(handles, m, |ns|))
    ensures Heights(ns', InsertAt<nat>(handles, m, |ns|)) == InsertAt<nat>(Heights(ns, handles), m, L + 1)
  {
    KeptInsertHeights(ns, ns', handles, m, L);
  }

  /** Insert's splice leaves every chain linked, with the new node at
      index m of the level-0 order. */
  lemma InsertLinked(ns: seq<Node>, ns': seq<Node>, handles: seq<nat>, level: nat, m: nat,
                     update: seq<nat>, pos: seq<nat>, L: nat)
    requires Shaped(ns, handles, level) && m <= |handles|
    requires UpdatePath(ns, handles, m, update, pos, L + 1)
    requires SplicedIn(ns, ns', update, L, L + 1)
    ensures InArena(ns', InsertAt<nat>(handles, m, |ns|))
    ensures Linked(ns', InsertAt<nat>(handles, m, |ns|))
  {
    var n := |ns|;
    var H': seq<nat> := InsertAt<nat>(handles, m, n);
    var hs := Heights(ns, handles);
    InsertedShape(ns, ns', handles, m, update, L);
    var hs' := Heights(ns', H');
    forall b: nat, i: nat ensures LinkedAt(ns', H', b, i) {
      if b <= |H'| && i < |ns'[Before(H', b)].forward| {
        InsertedAt(ns, ns', handles, level, m, update, pos, L, b, i);
      }
    }
  }

  lemma InsertedAt(ns: seq<Node>, ns': seq<Node>, handles: seq<nat>, level: nat, m: nat,
                   update: seq<nat>, pos: seq<nat>, L: nat, b: nat, i: nat)
    requires Shaped(ns, handles, level) && m <= |handles|
    requires UpdatePath(ns, handles, m, update, pos, L + 1)
    requires SplicedIn(ns, ns', update, L, L + 1)
    requires b <= |handles| + 1 && i < |ns'[Before(InsertAt<nat>(handles, m, |ns|), b)].forward|
    ensures ns'[Before(InsertAt<nat>(handles, m, |ns|), b)].forward[i] ==
            LinkTo(InsertAt<nat>(handles, m, |ns|), Succ(InsertAt<nat>(Heights(ns, handles), m, L + 1), b, i))
  {
    if b <= m {
      InsertedBefore(ns, ns', handles, level, m, update, pos, L, b, i);
    } else if b == m + 1 {
      InsertedNode(ns, ns', handles, level, m, update, pos, L, b, i);
    } else {
      InsertedAfter(ns, ns', handles, level, m, update, pos, L, b, i);
    }
  }

  lemma InsertedBefore(ns: seq<Node>, ns': seq<Node>, handles: seq<nat>, level: nat, m: nat,
                       update: seq<nat>, pos: seq<nat>, L: nat, b: nat, i: nat)
    requires Shaped(ns, handles, level) && m <= |handles|
    requires UpdatePath(ns, handles, m, update, pos, L + 1)
    requires SplicedIn(ns, ns', update, L, L + 1)
    requires b <= m && i < |ns'[Before(InsertAt<nat>(handles, m, |ns|), b)].forward|
    ensures ns'[Before(InsertAt<nat>(handles, m, |ns|), b)].forward[i] ==
            LinkTo(InsertAt<nat>(handles, m, |ns|), Succ(InsertAt<nat>(Heights(ns, handles), m, L + 1), b, i))
  {
    var hs := Heights(ns, handles);
    var a := Before(handles, b);
    assert Before(InsertAt<nat>(handles, m, |ns|), b) == a && LinkedAt(ns, handles, b, i);
    assert ns[a].forward[i] == LinkTo(handles, Succ(hs, b, i));
    var p := if i <= L then pos[i] else 0;
    if i <= L && a == update[i] {
      BeforeInjective(ns, handles, b, p);
    }
    TargetInsertBefore(handles, hs, m, |ns|, L, b, i, p);
  }

  lemma InsertedNode(ns: seq<Node>, ns': seq<Node>, handles: seq<nat>, level: nat, m: nat,
                     update: seq<nat>, pos: seq<nat>, L: nat, b: nat, i: nat)
    requires Shaped(ns, handles, level) && m <= |handles|
    requires UpdatePath(ns, handles, m, update, pos, L + 1)
    requires SplicedIn(ns, ns', update, L, L + 1)
    requires b == m + 1 && i < |ns'[Before(InsertAt<nat>(handles, m, |ns|), b)].forward|
    ensures ns'[Before(InsertAt<nat>(handles, m, |ns|), b)].forward[i] ==
            LinkTo(InsertAt<nat>(handles, m, |ns|), Succ(InsertAt<nat>(Heights(ns, handles), m, L + 1), b, i))
  {
    assert Before(InsertAt<nat>(handles, m, |ns|), b) == |ns|;
    var hs := Heights(ns, handles);
    var p := pos[i];
    assert LinkedAt(ns, handles, p, i);
    assert ns[Before(handles, p)].forward[i] == LinkTo(handles, Succ(hs, p, i));
    TargetInsertNew(handles, hs, m, |ns|, L, i, p);
  }

  lemma InsertedAfter(ns: seq<Node>, ns': seq<Node>, handles: seq<nat>, level: nat, m: nat,
                      update: seq<nat>, pos: seq<nat>, L: nat, b: nat, i: nat)
    requires Shaped(ns, handles, level) && m <= |handles|
    requires UpdatePath(ns, handles, m, update, pos, L + 1)
    requires SplicedIn(ns, ns', update, L, L + 1)
    requires m + 1 < b <= |handles| + 1 && i < |ns'[Before(InsertAt<nat>(handles, m, |ns|), b)].forward|
    ensures ns'[Before(InsertAt<nat>(handles, m, |ns|), b)].forward[i] ==
            LinkTo(InsertAt<nat>(handles, m, |ns|), Succ(InsertAt<nat>(Heights(ns, handles), m, L + 1), b, i))
  {
    var hs := Heights(ns, handles);
    var a := Before(handles, b - 1);
    assert Before(InsertAt<nat>(handles, m, |ns|), b) == a && LinkedAt(ns, handles, b - 1, i);
    assert ns[a].forward[i] == LinkTo(handles, Succ(hs, b - 1, i));
    if i <= L {
      BeforeDistinct(ns, handles, b - 1, pos[i]);
    }
    SplicedInAt(ns, ns', update, L, L + 1, a, i);
    TargetInsertAfter(handles, hs, m, |ns|, L, b, i);
  }

  lemma RemovedShape(ns: seq<Node>, ns': seq<Node>, handles: seq<nat>, m: nat, update: seq<nat>, hc: nat)
    requires InArena(ns, handles) && m < |handles|
    requires SplicedOut(ns, ns', update, handles[m], hc)
    ensures InArena(ns', RemoveAt(handles, m))
    ensures Heights(ns', RemoveAt(handles, m)) == RemoveAt(Heights(ns, handles), m)
  {
    KeptRemoveHeights(ns, ns', handles, m);
  }

  /** Erase's unsplice leaves every chain linked, without the node that
      stood at index m of the level-0 order. */
  lemma EraseLinked(ns: seq<Node>, ns': seq<Node>, handles: seq<nat>, level: nat, m: nat,
                    update: seq<nat>, pos: seq<nat>)
    requires Shaped(ns, handles, level) && m < |handles|
    requires UpdatePath(ns, handles, m, update, pos, |ns[handles[m]].forward|)
    requires SplicedOut(ns, ns', update, handles[m], |ns[handles[m]].forward|)
    ensures InArena(ns', RemoveAt(handles, m))
    ensures Linked(ns', RemoveAt(handles, m))
  {
    var H' := RemoveAt(handles, m);
    var hs := Heights(ns, handles);
    var c := handles[m];
    var hc := |ns[c].forward|;
    RemovedShape(ns, ns', handles, m, update, hc);
    var hs' := Heights(ns', H');
    forall b: nat, i: nat ensures LinkedAt(ns', H', b, i) {
      if b > |H'| || i >= |ns'[Before(H', b)].forward| {
      } else if b <= m {
        ErasedBefore(ns, ns', handles, level, m, update, pos, b, i);
      } else {
        ErasedAfter(ns, ns', handles, level, m, update, pos, b, i);
      }
    }
  }

  lemma ErasedBefore(ns: seq<Node>, ns': seq<Node>, handles: seq<nat>, level: nat, m: nat,
                     update: seq<nat>, pos: seq<nat>, b: nat, i: nat)
    requires Shaped(ns, handles, level) && m < |handles|
    requires UpdatePath(ns, handles, m, update, pos, |ns[handles[m]].forward|)
    requires SplicedOut(ns, ns', update, handles[m], |ns[handles[m]].forward|)
    requires b <= m && i < |ns'[Before(RemoveAt(handles, m), b)].forward|
    ensures ns'[Before(RemoveAt(handles, m), b)].forward[i] ==
            LinkTo(RemoveAt(handles, m), Succ(RemoveAt(Heights(ns, handles), m), b, i))
  {
    var hs := Heights(ns, handles);
    var c := handles[m];
    var hc := |ns[c].forward|;
    var a := Before(handles, b);
    assert Before(RemoveAt(handles, m), b) == a && LinkedAt(ns, handles, b, i);
    assert ns[a].forward[i] == LinkTo(handles, Succ(hs, b, i));
    var p := if i < hc then pos[i] else 0;
    assert hs[m] == hc;
    assert a < |ns| && i < |ns[a].forward|;
    if i < hc && a == update[i] {
      BeforeInjective(ns, handles, b, p);
      assert Before(handles, m + 1) == c && LinkedAt(ns, handles, m + 1, i);
      assert ns[c].forward[i] == LinkTo(handles, Succ(hs, m + 1, i));
      assert ns'[a].forward[i] == ns[c].forward[i];
    } else {
      SplicedOutAt(ns, ns', update, c, hc, a, i);
    }
    TargetEraseBefore(handles, hs, m, b, i, p);
  }

  lemma ErasedAfter(ns: seq<Node>, ns': seq<Node>, handles: seq<nat>, level: nat, m: nat,
                    update: seq<nat>, pos: seq<nat>, b: nat, i: nat)
    requires Shaped(ns, handles, level) && m < |handles|
    requires UpdatePath(ns, handles, m, update, pos, |ns[handles[m]].forward|)
    requires SplicedOut(ns, ns', update, handles[m], |ns[handles[m]].forward|)
    requires m < b < |handles| && i < |ns'[Before(RemoveAt(handles, m), b)].forward|
    ensures ns'[Before(RemoveAt(handles, m), b)].forward[i] ==
            LinkTo(RemoveAt(handles, m), Succ(RemoveAt(Heights(ns, handles), m), b, i))
  {
    var c := handles[m];
    var hc := |ns[c].forward|;
    if i < hc {
      BeforeDistinct(ns, handles, b + 1, pos[i]);
    }
    assert LinkedAt(ns, handles, b + 1, i);
    ErasedAfterLink(ns, ns', handles, m, update, hc, b, i);
  }

  /** The link leaving a node after the erased one is untouched, and the
      target it names is still the right one in the shortened order. */
  lemma ErasedAfterLink(ns: seq<Node>, ns': seq<Node>, handles: seq<nat>, m: nat,
                        update: seq<nat>, hc: nat, b: nat, i: nat)
    requires InArena(ns, handles) && m < b < |handles|
    requires SplicedOut(ns, ns', update, handles[m], hc)
    requires i < |ns[handles[b]].forward| && (i < hc ==> update[i] != handles[b])
    requires LinkedAt(ns, handles, b + 1, i)
    ensures ns'[Before(RemoveAt(handles, m), b)].forward[i] ==
            LinkTo(RemoveAt(handles, m), Succ(RemoveAt(Heights(ns, handles), m), b, i))
  {
    var hs := Heights(ns, handles);
    var a := handles[b];
    assert Before(RemoveAt(handles, m), b) == a;
    assert ns[a].forward[i] == LinkTo(handles, Succ(hs, b + 1, i));
    SplicedOutAt(ns, ns', update, handles[m], hc, a, i);
    TargetEraseAfter(handles, hs, m, b, i);
  }
}
