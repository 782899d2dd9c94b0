/**
 Lists threaded through the next fields of the slots of a static table.  A pointer
 to a slot is its number, or NULL; a pointer to a pointer is a Cell.
 */
module Links {
  import opened Sequences

  const NULL := -1

  /** The list head, or the next field of a slot. */
  datatype Cell = HeadCell | NextCell(slot: nat)

  predicate InRange(list: seq<nat>, n: nat) {
    forall i :: 0 <= i < |list| ==> list[i] < n
  }

  function InsertAt(list: seq<nat>, k: nat, t: nat): (r: seq<nat>)
    requires k <= |list|
    ensures |r| == |list| + 1
    ensures forall x :: x in r <==> x == t || x in list
  {
    if k == 0 then [t] + list else [list[0]] + InsertAt(list[1..], k - 1, t)
  }

  lemma InsertInRange(list: seq<nat>, k: nat, t: nat, n: nat)
    requires k <= |list| && InRange(list, n) && t < n
    ensures InRange(InsertAt(list, k, t), n)
  {
    var r := InsertAt(list, k, t);
    forall i | 0 <= i < |r| ensures r[i] < n {
      assert r[i] in r;
    }
  }

  /** The link that leads to position i of the list. */
  function LinkAt(list: seq<nat>, i: nat): int {
    if i < |list| then list[i] else NULL
  }

  function CellAt(list: seq<nat>, k: nat): Cell
    requires k <= |list|
  {
    if k == 0 then HeadCell else NextCell(list[k - 1])
  }

  /** Following nexts from head visits exactly the list, no timer twice, and stops. */
  ghost predicate Chain(head: int, nexts: seq<int>, list: seq<nat>)
    decreases list
  {
    if list == [] then head == NULL
    else
      && head == list[0] && list[0] < |nexts| && list[0] !in list[1..]
      && Chain(nexts[list[0]], nexts, list[1..])
  }

  /** Following nexts from head visits the path first, whatever comes after. */
  ghost predicate Walk(head: int, nexts: seq<int>, path: seq<nat>)
    decreases path
  {
    path == [] || (head == path[0] && path[0] < |nexts| && Walk(nexts[path[0]], nexts, path[1..]))
  }

  predicate ComesBack(path: seq<nat>, t: nat) {
    exists i, j :: 0 <= i < j < |path| && path[i] == path[j] == t
  }

  /** Some walk from the head comes back to t, so no walk reaches NULL. */
  ghost predicate Loops(head: int, nexts: seq<int>, t: nat) {
    exists path :: Walk(head, nexts, path) && ComesBack(path, t)
  }

  /** The head and the next fields after t was put into the k-th cell of the chain. */
  function SplicedHead(head: int, k: nat, t: nat): int {
    if k == 0 then t else head
  }

  function SplicedNexts(nexts: seq<int>, list: seq<nat>, k: nat, t: nat): seq<int>
    requires t < |nexts| && k <= |list| && InRange(list, |nexts|)
  {
    var nexts' := nexts[t := LinkAt(list, k)];
    if k == 0 then nexts' else nexts'[list[k - 1] := t]
  }

  ghost predicate AgreeOn(nexts: seq<int>, nexts': seq<int>, list: seq<nat>) {
    |nexts'| == |nexts| && forall t :: t in list && t < |nexts| ==> nexts'[t] == nexts[t]
  }

  lemma {:induction false} ChainFrame(head: int, nexts: seq<int>, nexts': seq<int>, list: seq<nat>)
    requires Chain(head, nexts, list) && AgreeOn(nexts, nexts', list)
    ensures Chain(head, nexts', list)
    decreases list
  {
    if list != [] {
      ChainFrame(nexts[list[0]], nexts, nexts', list[1..]);
    }
  }

  lemma {:induction false} WalkFrame(head: int, nexts: seq<int>, nexts': seq<int>, path: seq<nat>)
    requires Walk(head, nexts, path) && AgreeOn(nexts, nexts', path)
    ensures Walk(head, nexts', path)
    decreases path
  {
    if path != [] {
      WalkFrame(nexts[path[0]], nexts, nexts', path[1..]);
    }
  }

  /** The chain up to its position m is a walk that uses no next field of position m. */
  lemma {:induction false} ChainWalk(head: int, nexts: seq<int>, nexts': seq<int>, list: seq<nat>, m: nat)
    requires Chain(head, nexts, list) && m < |list| && AgreeOn(nexts, nexts', list[..m])
    ensures Walk(head, nexts', list[..m + 1])
    decreases list
  {
    if m > 0 {
      var rest := list[1..];
      assert list[..m][1..] == rest[..m - 1];
      assert list[..m + 1][1..] == rest[..m];
      ChainWalk(nexts[list[0]], nexts, nexts', rest, m - 1);
    }
  }

  lemma {:induction false} ChainInRange(head: int, nexts: seq<int>, list: seq<nat>)
    requires Chain(head, nexts, list)
    ensures InRange(list, |nexts|)
    decreases list
  {
    if list != [] {
      ChainInRange(nexts[list[0]], nexts, list[1..]);
    }
  }

  /** Splicing below the first timer is splicing into the rest of the chain. */
  lemma SpliceBelow(head: int, nexts: seq<int>, list: seq<nat>, k: nat, t: nat)
    requires Chain(head, nexts, list) && t < |nexts| && 0 < k <= |list| && t != list[0]
    requires InRange(list, |nexts|)
    ensures var nexts' := SplicedNexts(nexts, list, k, t);
            var below := SplicedNexts(nexts, list[1..], k - 1, t);
            && nexts'[list[0]] == SplicedHead(nexts[list[0]], k - 1, t)
            && nexts' == below[list[0] := nexts'[list[0]]]
  {
    assert LinkAt(list, k) == LinkAt(list[1..], k - 1);
    if k > 1 {
      assert list[k - 1] == list[1..][k - 2];
    }
  }

  lemma {:induction false} SpliceInserts(head: int, nexts: seq<int>, list: seq<nat>, k: nat, t: nat)
    requires Chain(head, nexts, list) && t < |nexts| && k <= |list| && t !in list
    requires InRange(list, |nexts|)
    ensures Chain(SplicedHead(head, k, t), SplicedNexts(nexts, list, k, t), InsertAt(list, k, t))
    decreases k
  {
    var nexts' := SplicedNexts(nexts, list, k, t);
    if k == 0 {
      ChainFrame(head, nexts, nexts', list);
    } else {
      var rest := list[1..];
      SpliceBelow(head, nexts, list, k, t);
      SpliceInserts(nexts[list[0]], nexts, rest, k - 1, t);
      ChainFrame(SplicedHead(nexts[list[0]], k - 1, t), SplicedNexts(nexts, rest, k - 1, t), nexts',
                 InsertAt(rest, k - 1, t));
    }
  }

  lemma SliceBelow(list: seq<nat>, i: nat, j: nat)
    requires 0 < i <= j <= |list|
    ensures list[i..j] == list[1..][i - 1..j - 1]
  {
    var a, b := list[i..j], list[1..][i - 1..j - 1];
    forall k | 0 <= k < |a| ensures a[k] == b[k] {
      assert a[k] == list[i + k];
    }
  }

  lemma PathBelow(list: seq<nat>, k: nat, t: nat, pos: nat)
    requires 0 < k <= pos < |list|
    ensures var path := list[..k] + [t] + list[k..pos + 1];
            path[0] == list[0] && path[1..] == list[1..][..k - 1] + [t] + list[1..][k - 1..pos]
    ensures list[1..][pos - 1] == list[pos]
  {
    var path := list[..k] + [t] + list[k..pos + 1];
    assert list[..k][1..] == list[1..][..k - 1];
    SliceBelow(list, k, pos + 1);
    assert path[1..] == list[..k][1..] + [t] + list[k..pos + 1];
  }

  lemma {:induction false} SpliceLoops(head: int, nexts: seq<int>, list: seq<nat>, k: nat, t: nat, pos: nat)
    requires Chain(head, nexts, list) && t < |nexts| && k <= pos < |list| && list[pos] == t
    requires InRange(list, |nexts|)
    ensures Walk(SplicedHead(head, k, t), SplicedNexts(nexts, list, k, t), list[..k] + [t] + list[k..pos + 1])
    decreases k
  {
    var path := list[..k] + [t] + list[k..pos + 1];
    var nexts' := SplicedNexts(nexts, list, k, t);
    if k == 0 {
      assert path[1..] == list[..pos + 1];
      NotEarlier(head, nexts, list, pos);
      ChainWalk(head, nexts, nexts', list, pos);
    } else {
      var rest := list[1..];
      PathBelow(list, k, t, pos);
      SpliceBelow(head, nexts, list, k, t);
      SpliceLoops(nexts[list[0]], nexts, rest, k - 1, t, pos - 1);
      WalkFrame(SplicedHead(nexts[list[0]], k - 1, t), SplicedNexts(nexts, rest, k - 1, t), nexts', path[1..]);
    }
  }

  lemma SpliceTies(head: int, nexts: seq<int>, list: seq<nat>, k: nat, t: nat)
    requires Chain(head, nexts, list) && t < |nexts| && k <= |list| && t in list[k..]
    requires InRange(list, |nexts|)
    ensures Loops(SplicedHead(head, k, t), SplicedNexts(nexts, list, k, t), t)
  {
    var pos :| k <= pos < |list| && list[pos] == t;
    SpliceLoops(head, nexts, list, k, t, pos);
    VisitsTwice(list, k, t, pos);
  }

  lemma VisitsTwice(list: seq<nat>, k: nat, t: nat, pos: nat)
    requires k <= pos < |list| && list[pos] == t
    ensures ComesBack(list[..k] + [t] + list[k..pos + 1], t)
  {
    var path := list[..k] + [t] + list[k..pos + 1];
    assert path[k] == path[pos + 1] == t;
  }

  lemma {:induction false} WalkIsPrefix(head: int, nexts: seq<int>, list: seq<nat>, path: seq<nat>)
    requires Chain(head, nexts, list) && Walk(head, nexts, path)
    ensures |path| <= |list| && path == list[..|path|]
    decreases list
  {
    if path != [] {
      WalkIsPrefix(nexts[list[0]], nexts, list[1..], path[1..]);
      assert path == [path[0]] + path[1..];
    }
  }

  /** A list tied into a loop is no chain any more, of whatever timers. */
  lemma LoopsIsNoChain(head: int, nexts: seq<int>, t: nat, list: seq<nat>)
    requires Loops(head, nexts, t)
    ensures !Chain(head, nexts, list)
  {
    if Chain(head, nexts, list) {
      var path :| Walk(head, nexts, path) && ComesBack(path, t);
      WalkIsPrefix(head, nexts, list, path);
      ChainNoRepeats(head, nexts, list);
    }
  }

  lemma {:induction false} NotEarlier(head: int, nexts: seq<int>, list: seq<nat>, pos: nat)
    requires Chain(head, nexts, list) && pos < |list|
    ensures list[pos] !in list[..pos]
    decreases list
  {
    if pos > 0 {
      NotEarlier(nexts[list[0]], nexts, list[1..], pos - 1);
      assert list[..pos] == [list[0]] + list[1..][..pos - 1];
    }
  }

  lemma {:induction false} ChainNoRepeats(head: int, nexts: seq<int>, list: seq<nat>)
    requires Chain(head, nexts, list)
    ensures NoRepeats(list)
    decreases list
  {
    if list != [] {
      ChainNoRepeats(nexts[list[0]], nexts, list[1..]);
    }
  }

  /** The next field of the k-th timer is the link to position k + 1. */
  lemma {:induction false} ChainNext(head: int, nexts: seq<int>, list: seq<nat>, k: nat)
    requires Chain(head, nexts, list) && k < |list| && list[k] < |nexts|
    ensures nexts[list[k]] == LinkAt(list, k + 1)
    decreases list
  {
    if k > 0 {
      ChainNext(nexts[list[0]], nexts, list[1..], k - 1);
      assert LinkAt(list[1..], k) == LinkAt(list, k + 1);
    }
  }
}
