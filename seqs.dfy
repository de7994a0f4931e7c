/** Positional insertion and removal on sequences, used both for the
    element order and for the order of node handles. */
module Seqs {

  /** s with x placed at index m; everything from m on moves up by one. */
  function InsertAt<T>(s: seq<T>, m: nat, x: T): (r: seq<T>)
    requires m <= |s|
    ensures |r| == |s| + 1
    ensures forall j :: 0 <= j < |r| ==> r[j] == if j < m then s[j] else if j == m then x else s[j - 1]
  {
    s[..m] + [x] + s[m..]
  }

  /** An element at or after m sits one place further up once x is inserted at m. */
  lemma InsertAtShifts<T>(s: seq<T>, m: nat, x: T, j: nat)
    requires m <= j < |s|
    ensures InsertAt(s, m, x)[j + 1] == s[j]
  {
  }

  /** s without its element at index m; everything after m moves down by one. */
  function RemoveAt<T>(s: seq<T>, m: nat): (r: seq<T>)
    requires m < |s|
    ensures |r| == |s| - 1
    ensures forall j :: 0 <= j < |r| ==> r[j] == if j < m then s[j] else s[j + 1]
  {
    s[..m] + s[m + 1..]
  }
}
