/** The layer stack of gui.c as the list of visible layers, bottom first. */
module LayerSpec {
  import opened OptionType
  import opened Sequences

  const LAYER_STACK_SIZE: nat := 256

  /** The level of p in the list, or -1. */
  ghost function LevelOf(order: seq<nat>, p: nat): (r: int)
    ensures -1 <= r < |order| && (r >= 0 ==> order[r] == p) && (r < 0 <==> p !in order)
  {
    if p in order then var i :| 0 <= i < |order| && order[i] == p; i else -1
  }

  lemma LevelIsUnique(order: seq<nat>, i: nat)
    requires NoRepeats(order) && i < |order|
    ensures forall p :: LevelOf(order, p) == i <==> p == order[i]
  {
  }

  /** The levels of all layers, told without LevelOf. */
  ghost predicate AreLevels(order: seq<nat>, levels: seq<int>) {
    && |levels| == LAYER_STACK_SIZE
    && (forall i :: 0 <= i < |order| ==> order[i] < LAYER_STACK_SIZE && levels[order[i]] == i)
    && (forall p :: 0 <= p < LAYER_STACK_SIZE ==> levels[p] < |order| && (levels[p] >= 0 ==> order[levels[p]] == p))
  }

  ghost function LevelsOf(order: seq<nat>): (levels: seq<int>)
    requires NoRepeats(order) && forall i :: 0 <= i < |order| ==> order[i] < LAYER_STACK_SIZE
    ensures AreLevels(order, levels)
    ensures forall p :: 0 <= p < LAYER_STACK_SIZE ==> levels[p] == LevelOf(order, p)
  {
    seq(LAYER_STACK_SIZE, p requires 0 <= p < LAYER_STACK_SIZE => LevelOf(order, p))
  }

  /** The level a request is clamped to. */
  function Clamp(nz: int, zTop: int): int {
    if nz > zTop + 1 then zTop + 1 else if nz < -1 then -1 else nz
  }

  /** The moves that mov_layer_z makes correctly, from level cur to the clamped level nz:
      down, nowhere, up below the top, and from hidden to the very top. */
  predicate Supported(cur: int, nz: int, zTop: int) {
    nz <= cur || (cur >= 0 && nz <= zTop) || (cur < 0 && nz == zTop + 1)
  }

  function Removed(order: seq<nat>, cur: int): seq<nat>
    requires -1 <= cur < |order|
  {
    if cur < 0 then order else order[..cur] + order[cur + 1..]
  }

  /** Take p out of its level and, unless it is to be hidden, put it back at level nz. */
  function Moved(order: seq<nat>, p: nat, cur: int, nz: int): seq<nat>
    requires -1 <= cur < |order| && nz <= |Removed(order, cur)|
  {
    var rest := Removed(order, cur);
    if nz < 0 then rest else rest[..nz] + [p] + rest[nz..]
  }

  // ---- what a move does to the others ----

  /** The list without p, everything else in its order. */
  function Without(order: seq<nat>, p: nat): seq<nat> {
    if order == [] then []
    else (if order[0] == p then [] else [order[0]]) + Without(order[1..], p)
  }

  lemma {:induction false} WithoutSum(a: seq<nat>, b: seq<nat>, p: nat)
    ensures Without(a + b, p) == Without(a, p) + Without(b, p)
  {
    if a == [] {
      assert a + b == b;
    } else {
      assert (a + b)[1..] == a[1..] + b;
      WithoutSum(a[1..], b, p);
    }
  }

  /** Putting p somewhere adds nothing but p. */
  lemma WithoutInserted(a: seq<nat>, b: seq<nat>, p: nat)
    ensures Without(a + [p] + b, p) == Without(a + b, p)
  {
    assert a + [p] + b == a + ([p] + b);
    WithoutSum(a, [p] + b, p);
    WithoutSum(a, b, p);
    assert ([p] + b)[1..] == b;
  }

  lemma WithoutRemoved(order: seq<nat>, p: nat, cur: nat)
    requires cur < |order| && order[cur] == p
    ensures Without(order[..cur] + order[cur + 1..], p) == Without(order, p)
  {
    assert order == order[..cur] + [p] + order[cur + 1..];
    WithoutInserted(order[..cur], order[cur + 1..], p);
  }

  /** A move changes the place of one layer and the order of no two others. */
  lemma OthersKeepOrder(order: seq<nat>, p: nat, cur: int, nz: int)
    requires -1 <= cur < |order| && nz <= |Removed(order, cur)|
    requires cur >= 0 ==> order[cur] == p
    ensures Without(Moved(order, p, cur, nz), p) == Without(order, p)
  {
    var rest := Removed(order, cur);
    assert Without(rest, p) == Without(order, p) by {
      if cur >= 0 { WithoutRemoved(order, p, cur); }
    }
    if nz >= 0 {
      WithoutInserted(rest[..nz], rest[nz..], p);
      assert rest == rest[..nz] + rest[nz..];
    }
  }

  /** The moved list, level by level: lowering shifts the layers between up by one,
      raising and hiding shift them down. */
  function MovedAt(order: seq<nat>, p: nat, cur: int, nz: int, i: nat): nat
    requires -1 <= cur < |order| && nz <= |order| && i < |order|
    requires cur >= 0 && nz < 0 ==> i + 1 < |order|
    requires cur >= 0 ==> nz < |order|
  {
    if i == nz then p
    else if cur >= 0 && 0 <= nz < i <= cur then order[i - 1]
    else if cur >= 0 && nz < 0 && cur <= i then order[i + 1]
    else if cur >= 0 && cur <= i < nz then order[i + 1]
    else order[i]
  }

  /** m is the moved list, said level by level. */
  ghost predicate IsMoved(order: seq<nat>, m: seq<nat>, p: nat, cur: int, nz: int) {
    && -1 <= cur < |order| && -1 <= nz != cur && (if cur < 0 then nz == |order| else nz < |order|)
    && (cur >= 0 ==> order[cur] == p)
    && |m| == (if cur >= 0 && nz < 0 then |order| - 1 else if cur < 0 then |order| + 1 else |order|)
    && (forall i :: 0 <= i < |m| && i < |order| ==> m[i] == MovedAt(order, p, cur, nz, i))
    && (nz >= 0 ==> m[nz] == p)
    && NoRepeats(order) && NoRepeats(m)
    && forall q :: q in m <==> (q in order && q != p) || (q == p && nz >= 0)
  }

  lemma MovedValues(order: seq<nat>, p: nat, cur: int, nz: int)
    requires -1 <= cur < |order| && cur != nz
    requires nz <= |Removed(order, cur)| && (cur < 0 ==> nz == |order|)
    ensures var m := Moved(order, p, cur, nz);
            && |m| == (if cur >= 0 && nz < 0 then |order| - 1 else if cur < 0 then |order| + 1 else |order|)
            && (forall i :: 0 <= i < |m| && i < |order| ==> m[i] == MovedAt(order, p, cur, nz, i))
            && (nz >= 0 ==> m[nz] == p)
  {
    var m, rest := Moved(order, p, cur, nz), Removed(order, cur);
    forall i | 0 <= i < |rest| ensures rest[i] == if cur < 0 || i < cur then order[i] else order[i + 1] {
    }
    forall i | 0 <= i < |m| && nz >= 0 ensures m[i] == if i < nz then rest[i] else if i == nz then p else rest[i - 1] {
    }
  }

  lemma MovedIsMoved(order: seq<nat>, p: nat, cur: int, nz: int)
    requires NoRepeats(order) && cur == LevelOf(order, p) && -1 <= nz != cur
    requires if cur < 0 then nz == |order| else nz < |order|
    ensures nz <= |Removed(order, cur)| && IsMoved(order, Moved(order, p, cur, nz), p, cur, nz)
  {
    hide Moved, MovedAt, Removed;
    RemovedLength(order, cur);
    MovedValues(order, p, cur, nz);
    MovedMembers(order, p, cur, nz);
  }

  lemma RemovedLength(order: seq<nat>, cur: int)
    requires -1 <= cur < |order|
    ensures |Removed(order, cur)| == if cur < 0 then |order| else |order| - 1
  {
  }

  /** The list that the stack shows after a move, if it shows one at all.  SlotHoldsP says
      whether the slot at level nz, when that is above the top, held the layer already. */
  ghost function Outcome(order: seq<nat>, p: nat, nz: int, top: int, slotHoldsP: bool): Option<seq<nat>>
    requires NoRepeats(order) && top == |order| - 1 && -1 <= nz <= top + 1
  {
    var cur := LevelOf(order, p);
    assert |Removed(order, cur)| == if cur < 0 then |order| else |order| - 1;
    if Supported(cur, nz, top) then Some(Moved(order, p, cur, nz))
    else if 0 <= cur && slotHoldsP then Some(Moved(order, p, cur, top))
    else None
  }

  lemma MovedInPlace(order: seq<nat>, p: nat, cur: int)
    requires NoRepeats(order) && cur == LevelOf(order, p)
    ensures cur <= |Removed(order, cur)| && Moved(order, p, cur, cur) == order
  {
  }

  lemma MovedMembers(order: seq<nat>, p: nat, cur: int, nz: int)
    requires -1 <= cur < |order| && nz <= |Removed(order, cur)| && NoRepeats(order)
    requires (cur >= 0 ==> order[cur] == p) && (cur < 0 ==> p !in order)
    ensures NoRepeats(Moved(order, p, cur, nz))
    ensures forall q :: q in Moved(order, p, cur, nz) <==> (q in order && q != p) || (q == p && nz >= 0)
  {
    var rest := Removed(order, cur);
    RemovedMembers(order, p, cur);
    if nz >= 0 {
      assert rest == rest[..nz] + rest[nz..];
    }
  }

  lemma RemovedMembers(order: seq<nat>, p: nat, cur: int)
    requires -1 <= cur < |order| && NoRepeats(order)
    requires (cur >= 0 ==> order[cur] == p) && (cur < 0 ==> p !in order)
    ensures NoRepeats(Removed(order, cur))
    ensures forall q :: q in Removed(order, cur) <==> q in order && q != p
  {
    if cur >= 0 {
      var r := Removed(order, cur);
      assert forall i :: 0 <= i < |r| ==> r[i] == order[if i < cur then i else i + 1];
      forall q ensures q in r <==> q in order && q != p {
        if q in r {
          var i :| 0 <= i < |r| && r[i] == q;
          assert order[if i < cur then i else i + 1] == q;
        }
        if q in order && q != p {
          var i :| 0 <= i < |order| && order[i] == q;
          assert r[if i < cur then i else i - 1] == q;
        }
      }
    }
  }

  /** The level of every layer after a move that changes something. */
  function LevelAfter(l: int, moves: bool, cur: int, nz: int): int {
    if moves then nz
    else if cur >= 0 && 0 <= nz <= l < cur then l + 1
    else if cur >= 0 && ((nz < 0 && cur < l) || cur < l <= nz) then l - 1
    else l
  }

  lemma LevelsAfterMove(order: seq<nat>, m: seq<nat>, p: nat, cur: int, nz: int, q: nat)
    requires IsMoved(order, m, p, cur, nz) && cur == LevelOf(order, p)
    ensures LevelOf(m, q) == LevelAfter(LevelOf(order, q), q == p, cur, nz)
  {
    var l' := LevelAfter(LevelOf(order, q), q == p, cur, nz);
    if q in m {
      assert q != p ==> LevelOf(order, q) != cur;
      assert 0 <= l' < |m| && m[l'] == q;
      LevelIsUnique(m, l');
    }
  }

  // ---- runs of moves ----

  /** A request to move a layer, or to free it; alloc_layer changes no list. */
  datatype Request = MoveTo(p: nat, level: int) | Free(p: nat)

  /** The level that a request asks for. */
  function Level(order: seq<nat>, r: Request): int {
    match r
    case MoveTo(_, level) => Clamp(level, |order| - 1)
    case Free(_) => -1
  }

  ghost predicate Works(order: seq<nat>, r: Request) {
    Supported(LevelOf(order, r.p), Level(order, r), |order| - 1)
  }

  ghost function Served(order: seq<nat>, r: Request): (m: seq<nat>)
    requires NoRepeats(order) && Works(order, r)
    ensures NoRepeats(m)
  {
    var cur := LevelOf(order, r.p);
    assert |Removed(order, cur)| == if cur < 0 then |order| else |order| - 1;
    MovedMembers(order, r.p, cur, Level(order, r));
    Moved(order, r.p, cur, Level(order, r))
  }

  /** A level of the stack is the level that a visible layer gets.  A negative level hides a layer, and
      a hidden layer for which a level above the top is asked ends on top of all others. */
  lemma ServedAtLevel(order: seq<nat>, p: nat, level: int)
    requires NoRepeats(order)
    ensures p in order && 0 <= level < |order| ==>
              && Works(order, MoveTo(p, level))
              && var m := Served(order, MoveTo(p, level));
                 |m| == |order| && m[level] == p && Without(m, p) == Without(order, p)
    ensures level < 0 ==> Works(order, MoveTo(p, level)) && Served(order, MoveTo(p, level)) == Without(order, p)
    ensures p !in order && level >= |order| ==>
              Works(order, MoveTo(p, level)) && Served(order, MoveTo(p, level)) == order + [p]
  {
    var cur := LevelOf(order, p);
    if p in order && 0 <= level < |order| {
      OthersKeepOrder(order, p, cur, level);
    } else if level < 0 {
      WithoutIsRemoved(order, p);
    }
  }

  /** Hiding a layer is taking it out of the list. */
  lemma WithoutIsRemoved(order: seq<nat>, p: nat)
    requires NoRepeats(order)
    ensures Removed(order, LevelOf(order, p)) == Without(order, p)
  {
    var cur := LevelOf(order, p);
    RemovedMembers(order, p, cur);
    NothingWithout(Removed(order, cur), p);
    if cur >= 0 {
      WithoutRemoved(order, p, cur);
    }
  }

  lemma {:induction false} NothingWithout(order: seq<nat>, p: nat)
    requires p !in order
    ensures Without(order, p) == order
  {
    if order != [] {
      NothingWithout(order[1..], p);
    }
  }

  ghost predicate AllWork(order: seq<nat>, rs: seq<Request>)
    requires NoRepeats(order)
    decreases |rs|
  {
    rs == [] || (Works(order, rs[0]) && AllWork(Served(order, rs[0]), rs[1..]))
  }

  ghost function ServedAll(order: seq<nat>, rs: seq<Request>): (m: seq<nat>)
    requires NoRepeats(order) && AllWork(order, rs)
    ensures NoRepeats(m)
    decreases |rs|
  {
    if rs == [] then order else ServedAll(Served(order, rs[0]), rs[1..])
  }

  /** The layers of the list that belong to keep, in their order. */
  ghost function Only(order: seq<nat>, keep: set<nat>): seq<nat> {
    if order == [] then []
    else (if order[0] in keep then [order[0]] else []) + Only(order[1..], keep)
  }

  lemma {:induction false} OnlyWithout(order: seq<nat>, p: nat, keep: set<nat>)
    requires p !in keep
    ensures Only(Without(order, p), keep) == Only(order, keep)
  {
    if order != [] {
      OnlyWithout(order[1..], p, keep);
      if order[0] == p {
        assert Without(order, p) == Without(order[1..], p);
      } else {
        assert Without(order, p)[1..] == Without(order[1..], p);
      }
    }
  }

  lemma MoveKeepsOrder(order: seq<nat>, r: Request, keep: set<nat>)
    requires NoRepeats(order) && Works(order, r) && r.p !in keep
    ensures Only(Served(order, r), keep) == Only(order, keep)
  {
    OthersKeepOrder(order, r.p, LevelOf(order, r.p), Level(order, r));
    OnlyWithout(order, r.p, keep);
    OnlyWithout(Served(order, r), r.p, keep);
  }

  /** Over any run of moves that work, the layers that are never moved keep their order,
      and none of them appears or disappears. */
  lemma {:induction false} RunsKeepOrder(order: seq<nat>, rs: seq<Request>, keep: set<nat>)
    requires NoRepeats(order) && AllWork(order, rs)
    requires forall r :: r in rs ==> r.p !in keep
    ensures Only(ServedAll(order, rs), keep) == Only(order, keep)
    decreases |rs|
  {
    if rs != [] {
      assert rs[0] in rs;
      MoveKeepsOrder(order, rs[0], keep);
      RunsKeepOrder(Served(order, rs[0]), rs[1..], keep);
    }
  }

  /** A layer that is hidden leaves room for itself: distinct layers below 256 that miss
      one number are at most 255. */
  lemma RoomForHidden(order: seq<nat>, p: nat)
    requires NoRepeats(order) && p !in order && p < LAYER_STACK_SIZE
    requires forall i :: 0 <= i < |order| ==> order[i] < LAYER_STACK_SIZE
    ensures |order| < LAYER_STACK_SIZE
  {
    RoomBelow(order, p, LAYER_STACK_SIZE);
  }

  lemma RoomBelow(order: seq<nat>, p: nat, n: nat)
    requires NoRepeats(order) && p !in order && p < n
    requires forall i :: 0 <= i < |order| ==> order[i] < n
    ensures |order| < n
  {
    SizeOfElements(order);
    SubsetSize(Elements(order), Range(n) - {p});
  }

  ghost function Range(n: nat): (r: set<nat>)
    ensures |r| == n && forall i :: i in r <==> 0 <= i < n
  {
    if n == 0 then {} else Range(n - 1) + {n - 1}
  }

  ghost function Elements(s: seq<nat>): (r: set<nat>)
    ensures forall q :: q in r <==> q in s
  {
    set q | q in s
  }

  lemma {:induction false} SizeOfElements(s: seq<nat>)
    requires NoRepeats(s)
    ensures |Elements(s)| == |s|
  {
    if s != [] {
      var rest := s[1..];
      SizeOfElements(rest);
      assert s == [s[0]] + rest && s[0] !in rest;
      assert Elements(s) == Elements(rest) + {s[0]};
    }
  }

  lemma {:induction false} SubsetSize(a: set<nat>, b: set<nat>)
    requires a <= b
    ensures |a| <= |b|
  {
    if a != {} {
      var x :| x in a;
      SubsetSize(a - {x}, b - {x});
    }
  }
}

/** The layer table and the stack of gui.c. */
module LayerStack {
  import opened Words
  import opened OptionType
  import opened Sequences
  import opened LayerSpec

  /** layer_t.  A layer that was never given a buffer has none. */
  datatype Layer = Layer(
    vbuf: array?<Byte>,
    x: int, y: int, width: int, height: int,
    z: int, colInv: int, flags: int)

  /** An element of layer_stack: a null, a layer, or an integer that was stored there. */
  datatype Slot = Empty | At(layer: nat) | Address(value: int)

  class Screen {
    const layers: array<Layer>
    const layerStack: array<Slot>
    var zTop: int

    ghost predicate Shaped()
      reads this, layerStack
    {
      && layers.Length == LAYER_STACK_SIZE && layerStack.Length == LAYER_STACK_SIZE
      && -1 <= zTop < LAYER_STACK_SIZE
      && forall i :: 0 <= i < LAYER_STACK_SIZE && layerStack[i].At? ==> layerStack[i].layer < LAYER_STACK_SIZE
    }

    /** The stack holds exactly the layers of the list, all of them allocated. */
    ghost predicate Holds(order: seq<nat>)
      reads this, layers, layerStack
    {
      && Shaped() && |order| == zTop + 1 && NoRepeats(order)
      && forall i :: 0 <= i < |order| ==>
        order[i] < LAYER_STACK_SIZE && layerStack[i] == At(order[i]) && layers[order[i]].flags != 0
    }

    /** And every allocated layer knows its level, -1 when it is hidden. */
    ghost predicate Shows(order: seq<nat>)
      reads this, layers, layerStack
    {
      Holds(order) &&
      forall p :: 0 <= p < LAYER_STACK_SIZE && layers[p].flags != 0 ==> layers[p].z == LevelOf(order, p)
    }

    /** No layer changes in anything but its level. */
    twostate predicate OnlyLevels()
      requires layers.Length == LAYER_STACK_SIZE
      reads this, layers
    {
      forall q :: 0 <= q < LAYER_STACK_SIZE ==> layers[q] == old(layers[q]).(z := layers[q].z)
    }

    constructor ()
      ensures Shows([]) && fresh(layers) && fresh(layerStack)
      ensures forall i :: 0 <= i < LAYER_STACK_SIZE ==> layers[i].flags == 0
    {
      layers := new Layer[LAYER_STACK_SIZE](_ => Layer(null, 0, 0, 0, 0, 0, 0, 0));
      layerStack := new Slot[LAYER_STACK_SIZE](_ => Empty);
      zTop := -1;
    }

    /** layer_stack[z]->z = z; through anything but a layer the store goes elsewhere. */
    method SetLevel(z: nat)
      requires Shaped() && z < LAYER_STACK_SIZE
      modifies layers
      ensures forall p :: 0 <= p < LAYER_STACK_SIZE ==>
        layers[p] == if layerStack[z] == At(p) then old(layers[p]).(z := z) else old(layers[p])
    {
      match layerStack[z] {
        case At(p) => layers[p] := layers[p].(z := z);
        case _ =>
      }
    }

    /** The two statements of each shifting loop: copy a slot and store the new level. */
    method CopySlot(to: nat, from: nat)
      requires Shaped() && to < LAYER_STACK_SIZE && from < LAYER_STACK_SIZE
      modifies layers, layerStack
      ensures Shaped()
      ensures forall i {:trigger layerStack[i]} :: 0 <= i < LAYER_STACK_SIZE ==>
                layerStack[i] == old(layerStack[if i == to then from else i])
      ensures forall p {:trigger layers[p]} :: 0 <= p < LAYER_STACK_SIZE ==>
        layers[p] == if old(layerStack[from]) == At(p) then old(layers[p]).(z := to) else old(layers[p])
    {
      layerStack[to] := layerStack[from];
      SetLevel(to);
    }

    /** The loop of mov_layer_z that lowers a layer: levels lo, ..., hi - 1 move up by one. */
    method ShiftUp(lo: nat, hi: nat, ghost order: seq<nat>)
      requires Shaped() && lo <= hi < |order| <= LAYER_STACK_SIZE && NoRepeats(order)
      requires forall i :: 0 <= i < |order| ==> order[i] < LAYER_STACK_SIZE && layerStack[i] == At(order[i])
      modifies layers, layerStack
      ensures Shaped()
      ensures forall i {:trigger layerStack[i]} :: 0 <= i < LAYER_STACK_SIZE ==>
        layerStack[i] == if lo < i <= hi then At(order[i - 1]) else old(layerStack[i])
      ensures forall p {:trigger layers[p]} :: 0 <= p < LAYER_STACK_SIZE ==>
        layers[p] ==
          if lo <= LevelOf(order, p) < hi then old(layers[p]).(z := LevelOf(order, p) + 1) else old(layers[p])
    {
      MoveSlotsUp(lo, hi, order, LevelsOf(order));
    }

    method MoveSlotsUp(lo: nat, hi: nat, ghost order: seq<nat>, ghost levels: seq<int>)
      requires Shaped() && lo <= hi < |order| <= LAYER_STACK_SIZE && AreLevels(order, levels)
      requires forall i :: 0 <= i < |order| ==> layerStack[i] == At(order[i])
      modifies layers, layerStack
      ensures Shaped()
      ensures forall i {:trigger layerStack[i]} :: 0 <= i < LAYER_STACK_SIZE ==>
        layerStack[i] == if lo < i <= hi then At(order[i - 1]) else old(layerStack[i])
      ensures forall p {:trigger layers[p]} :: 0 <= p < LAYER_STACK_SIZE ==>
        layers[p] == if lo <= levels[p] < hi then old(layers[p]).(z := levels[p] + 1) else old(layers[p])
    {
      var z := hi;
      while z > lo
        invariant lo <= z <= hi && Shaped()
        invariant forall i {:trigger layerStack[i]} :: 0 <= i < LAYER_STACK_SIZE ==>
          layerStack[i] == if z < i <= hi then At(order[i - 1]) else old(layerStack[i])
        invariant forall p {:trigger layers[p]} :: 0 <= p < LAYER_STACK_SIZE ==>
          layers[p] == if z <= levels[p] < hi then old(layers[p]).(z := levels[p] + 1) else old(layers[p])
      {
        assert layerStack[z - 1] == At(order[z - 1]);
        CopySlot(z, z - 1);
        z := z - 1;
      }
    }

    /** The two loops that raise or hide a layer: levels lo + 1, ..., hi move down by one. */
    method ShiftDown(lo: nat, hi: nat, ghost order: seq<nat>)
      requires Shaped() && lo <= hi < |order| <= LAYER_STACK_SIZE && NoRepeats(order)
      requires forall i :: 0 <= i < |order| ==> order[i] < LAYER_STACK_SIZE && layerStack[i] == At(order[i])
      modifies layers, layerStack
      ensures Shaped()
      ensures forall i {:trigger layerStack[i]} :: 0 <= i < LAYER_STACK_SIZE ==>
        layerStack[i] == if lo <= i < hi then At(order[i + 1]) else old(layerStack[i])
      ensures forall p {:trigger layers[p]} :: 0 <= p < LAYER_STACK_SIZE ==>
        layers[p] ==
          if lo < LevelOf(order, p) <= hi then old(layers[p]).(z := LevelOf(order, p) - 1) else old(layers[p])
    {
      MoveSlotsDown(lo, hi, order, LevelsOf(order));
    }

    method MoveSlotsDown(lo: nat, hi: nat, ghost order: seq<nat>, ghost levels: seq<int>)
      requires Shaped() && lo <= hi < |order| <= LAYER_STACK_SIZE && AreLevels(order, levels)
      requires forall i :: 0 <= i < |order| ==> layerStack[i] == At(order[i])
      modifies layers, layerStack
      ensures Shaped()
      ensures forall i {:trigger layerStack[i]} :: 0 <= i < LAYER_STACK_SIZE ==>
        layerStack[i] == if lo <= i < hi then At(order[i + 1]) else old(layerStack[i])
      ensures forall p {:trigger layers[p]} :: 0 <= p < LAYER_STACK_SIZE ==>
        layers[p] == if lo < levels[p] <= hi then old(layers[p]).(z := levels[p] - 1) else old(layers[p])
    {
      var z := lo;
      while z < hi
        invariant lo <= z <= hi && Shaped()
        invariant forall i {:trigger layerStack[i]} :: 0 <= i < LAYER_STACK_SIZE ==>
          layerStack[i] == if lo <= i < z then At(order[i + 1]) else old(layerStack[i])
        invariant forall p {:trigger layers[p]} :: 0 <= p < LAYER_STACK_SIZE ==>
          layers[p] == if lo < levels[p] <= z then old(layers[p]).(z := levels[p] - 1) else old(layers[p])
      {
        assert layerStack[z + 1] == At(order[z + 1]);
        CopySlot(z, z + 1);
        z := z + 1;
      }
    }

    /** The loop of mov_layer_z that shows a layer below the top.  Its second store puts
        the number of the level where the layer should go. */
    method MakeRoom(nz: nat)
      requires Shaped() && nz <= zTop < LAYER_STACK_SIZE - 1
      modifies layerStack
      ensures Shaped() && layerStack[zTop + 1] == Address(zTop + 1)
    {
      var z := zTop;
      while z >= nz
        invariant nz - 1 <= z <= zTop && Shaped()
        invariant z < zTop ==> layerStack[zTop + 1] == Address(zTop + 1)
      {
        layerStack[z + 1] := layerStack[z];
        layerStack[z + 1] := Address(z + 1);
        z := z - 1;
      }
    }

    /** The stack still shows the list, but p already has its new level nz. */
    ghost predicate Lifted(order: seq<nat>, p: nat, nz: int)
      reads this, layers, layerStack
    {
      && Holds(order) && p < LAYER_STACK_SIZE && layers[p].flags != 0 && layers[p].z == nz
      && forall q :: 0 <= q < LAYER_STACK_SIZE && q != p && layers[q].flags != 0 ==> layers[q].z == LevelOf(order, q)
    }

    /** After the shifts and the store of p, the stack shows the moved list. */
    lemma ShowsMoved(order: seq<nat>, m: seq<nat>, p: nat, cur: int, nz: int)
      requires Shaped() && IsMoved(order, m, p, cur, nz) && cur == LevelOf(order, p) && zTop + 1 == |m|
      requires forall i :: 0 <= i <= zTop ==> layerStack[i] == At(m[i])
      requires forall q :: q in m ==> q < LAYER_STACK_SIZE && layers[q].flags != 0
      requires forall q :: 0 <= q < LAYER_STACK_SIZE && layers[q].flags != 0 ==>
        layers[q].z == LevelAfter(LevelOf(order, q), q == p, cur, nz)
      ensures Shows(m)
    {
      assert forall i :: 0 <= i < |m| ==> m[i] in m;
      forall q | 0 <= q < LAYER_STACK_SIZE && layers[q].flags != 0 ensures layers[q].z == LevelOf(m, q) {
        LevelsAfterMove(order, m, p, cur, nz, q);
      }
    }

    /** A layer goes down to level nz. */
    method Lower(p: nat, cur: nat, nz: nat, ghost order: seq<nat>, ghost m: seq<nat>)
      requires Lifted(order, p, nz) && LevelOf(order, p) == cur && nz < cur && IsMoved(order, m, p, cur, nz)
      modifies layers, layerStack
      ensures OnlyLevels()
      ensures Shows(m)
    {
      ShiftUp(nz, cur, order);
      layerStack[nz] := At(p);
      ShowsMoved(order, m, p, cur, nz);
    }

    /** A layer leaves the stack. */
    method Hide(p: nat, cur: nat, ghost order: seq<nat>, ghost m: seq<nat>)
      requires Lifted(order, p, -1) && LevelOf(order, p) == cur && IsMoved(order, m, p, cur, -1)
      modifies this, layers, layerStack
      ensures OnlyLevels()
      ensures Shows(m)
    {
      if zTop > cur {
        ShiftDown(cur, zTop, order);
      }
      zTop := zTop - 1;
      ShowsMoved(order, m, p, cur, -1);
    }

    /** A layer goes up to level nz. */
    method Raise(p: nat, cur: nat, nz: nat, ghost order: seq<nat>, ghost m: seq<nat>)
      requires Lifted(order, p, nz) && LevelOf(order, p) == cur < nz <= zTop && IsMoved(order, m, p, cur, nz)
      modifies layers, layerStack
      ensures OnlyLevels()
      ensures Shows(m)
    {
      ShiftDown(cur, nz, order);
      layerStack[nz] := At(p);
      ShowsMoved(order, m, p, cur, nz);
    }

    /** A hidden layer is put on top. */
    method ShowOnTop(p: nat, ghost order: seq<nat>, ghost m: seq<nat>)
      requires Lifted(order, p, zTop + 1) && p !in order && zTop + 1 < LAYER_STACK_SIZE
      requires IsMoved(order, m, p, -1, zTop + 1)
      modifies this, layerStack
      ensures OnlyLevels()
      ensures Shows(m)
    {
      layerStack[zTop + 1] := At(p);
      zTop := zTop + 1;
      ShowsMoved(order, m, p, -1, zTop);
    }

    lemma TopIsNoLayer(o: seq<nat>)
      requires Shaped() && zTop >= 0 && !layerStack[zTop].At?
      ensures !Shows(o)
    {
      if |o| == zTop + 1 {
        var top := o[zTop];
      }
    }

    lemma LevelIsAboveTop(o: seq<nat>, p: nat)
      requires Shaped() && p < LAYER_STACK_SIZE && layers[p].flags != 0 && layers[p].z > zTop
      ensures !Shows(o)
    {
      assert LevelOf(o, p) < |o|;
    }

    /** The raise loop going one level too far: its last iteration reads above the top. */
    method RaiseTooFar(p: nat, cur: nat, ghost order: seq<nat>)
      requires Shaped() && cur <= zTop && zTop + 1 == |order| < LAYER_STACK_SIZE
      requires NoRepeats(order) && p < LAYER_STACK_SIZE
      requires forall i :: 0 <= i < |order| ==> order[i] < LAYER_STACK_SIZE && layerStack[i] == At(order[i])
      modifies layers, layerStack
      ensures Shaped() && layerStack[zTop] == old(layerStack[zTop + 1])
      ensures forall i {:trigger layerStack[i]} :: 0 <= i < zTop ==>
                layerStack[i] == if cur <= i then At(order[i + 1]) else old(layerStack[i])
      ensures forall q {:trigger layers[q]} :: 0 <= q < LAYER_STACK_SIZE ==>
        layers[q] == old(layers[q]).(z := if old(layerStack[zTop + 1]) == At(q) then zTop
                                          else if cur < LevelOf(order, q) then LevelOf(order, q) - 1
                                          else old(layers[q].z))
    {
      ShiftDown(cur, zTop, order);
      CopySlot(zTop, zTop + 1);
      layerStack[zTop + 1] := At(p);
    }

    method RaiseAboveTop(p: nat, cur: nat, ghost order: seq<nat>, ghost m: seq<nat>)
      requires Lifted(order, p, zTop + 1) && LevelOf(order, p) == cur && zTop + 1 < LAYER_STACK_SIZE
      requires if cur == zTop then m == order else IsMoved(order, m, p, cur, zTop)
      modifies layers, layerStack
      ensures OnlyLevels()
      ensures if old(layerStack[zTop + 1]) == At(p) then Shows(m) else forall o :: !Shows(o)
    {
      RaiseTooFar(p, cur, order);
      if layerStack[zTop] != At(p) {
        forall o ensures !Shows(o) {
          LevelIsAboveTop(o, p);
        }
      } else if cur == zTop {
        assert Shows(order);
      } else {
        assert forall i :: 0 <= i <= zTop ==> layerStack[i] == At(m[i]);
        assert forall q :: 0 <= q < LAYER_STACK_SIZE && layers[q].flags != 0 ==>
          layers[q].z == LevelAfter(LevelOf(order, q), q == p, cur, zTop);
        ShowsMoved(order, m, p, cur, zTop);
      }
    }

    /** Showing a hidden layer below the top. */
    method ShowBelowTop(p: nat, nz: nat)
      requires Shaped() && p < LAYER_STACK_SIZE && nz <= zTop < LAYER_STACK_SIZE - 1
      modifies this, layerStack
      ensures OnlyLevels()
      ensures forall o :: !Shows(o)
    {
      MakeRoom(nz);
      layerStack[nz] := At(p);
      zTop := zTop + 1;
      forall o ensures !Shows(o) {
        TopIsNoLayer(o);
      }
    }

    /** What becomes of a raise: onto a level of the stack it is supported; above the top
        it works only when the slot there holds the layer already. */
    method RaiseTo(p: nat, cur: nat, nz: nat, ghost order: seq<nat>, ghost m: seq<nat>)
      requires Lifted(order, p, nz) && LevelOf(order, p) == cur < nz <= zTop + 1 && nz < LAYER_STACK_SIZE
      requires var top := if nz > zTop then zTop else nz;
               if cur == top then m == order else IsMoved(order, m, p, cur, top)
      modifies layers, layerStack
      ensures OnlyLevels()
      ensures if nz <= zTop || old(layerStack[nz]) == At(p) then Shows(m) else forall o :: !Shows(o)
    {
      hide IsMoved;
      if nz <= zTop {
        Raise(p, cur, nz, order, m);
      } else {
        RaiseAboveTop(p, cur, order, m);
      }
    }

    /** What becomes of showing a hidden layer: it works on top only. */
    method ShowAt(p: nat, nz: nat, ghost order: seq<nat>, ghost m: seq<nat>)
      requires Lifted(order, p, nz) && LevelOf(order, p) == -1 && nz <= zTop + 1
      requires nz == zTop + 1 ==> IsMoved(order, m, p, -1, nz)
      modifies this, layerStack
      ensures OnlyLevels()
      ensures if nz == old(zTop) + 1 then Shows(m) else forall o :: !Shows(o)
    {
      RoomForHidden(order, p);
      if nz <= zTop {
        ShowBelowTop(p, nz);
      } else {
        ShowOnTop(p, order, m);
      }
    }

    lemma MovedOrInPlace(order: seq<nat>, p: nat, cur: nat, top: nat)
      requires NoRepeats(order) && LevelOf(order, p) == cur <= top < |order|
      ensures top <= |Removed(order, cur)|
      ensures var m := Moved(order, p, cur, top);
              if cur == top then m == order else IsMoved(order, m, p, cur, top)
    {
      if cur == top {
        MovedInPlace(order, p, cur);
      } else {
        MovedIsMoved(order, p, cur, top);
      }
    }

    /** The stack shows what the outcome of a move says. */
    ghost predicate ShowsOutcome(m: Option<seq<nat>>)
      reads this, layers, layerStack
    {
      match m
      case Some(list) => Shows(list)
      case None => forall o :: !Shows(o)
    }

    /** The stack shows some list exactly when the move works, or the slot above the top helps. */
    lemma ShowsWhenItWorks(order: seq<nat>, p: nat, nz: int, top: int, slotHoldsP: bool)
      requires NoRepeats(order) && top == |order| - 1 && -1 <= nz <= top + 1
      requires ShowsOutcome(Outcome(order, p, nz, top, slotHoldsP))
      ensures (exists o :: Shows(o)) <==>
              Supported(LevelOf(order, p), nz, top) || (0 <= LevelOf(order, p) < nz && slotHoldsP)
    {
      var m := Outcome(order, p, nz, top, slotHoldsP);
      if m.Some? {
        assert Shows(m.value);
      }
    }

    /** The branch of mov_layer_z for a level above the present one. */
    method MoveUp(p: nat, cur: int, nz: int, ghost order: seq<nat>)
      requires Lifted(order, p, nz) && LevelOf(order, p) == cur < nz <= zTop + 1 && nz < LAYER_STACK_SIZE
      modifies this, layers, layerStack
      ensures OnlyLevels()
      ensures ShowsOutcome(Outcome(order, p, nz, old(zTop), old(layerStack[nz]) == At(p)))
    {
      if cur >= 0 {
        ghost var level := if nz > zTop then zTop else nz;
        MovedOrInPlace(order, p, cur, level);
        RaiseTo(p, cur, nz, order, Moved(order, p, cur, level));
      } else {
        if nz == zTop + 1 { MovedIsMoved(order, p, cur, nz); }
        ShowAt(p, nz, order, if nz == zTop + 1 then Moved(order, p, cur, nz) else []);
      }
    }

    /** The branch for a level below. */
    method MoveDown(p: nat, cur: int, nz: int, ghost order: seq<nat>)
      requires Lifted(order, p, nz) && -1 <= nz < cur == LevelOf(order, p)
      modifies this, layers, layerStack
      ensures OnlyLevels()
      ensures nz <= |Removed(order, cur)| && Shows(Moved(order, p, cur, nz))
    {
      MovedIsMoved(order, p, cur, nz);
      if nz >= 0 {
        Lower(p, cur, nz, order, Moved(order, p, cur, nz));
      } else {
        Hide(p, cur, order, Moved(order, p, cur, nz));
      }
    }

    method Lift(p: nat, nz: int, ghost order: seq<nat>)
      requires Shows(order) && p < LAYER_STACK_SIZE && layers[p].flags != 0
      modifies layers
      ensures OnlyLevels()
      ensures Lifted(order, p, nz) && (nz == LevelOf(order, p) ==> Shows(order))
    {
      layers[p] := layers[p].(z := nz);
    }

    /** mov_layer_z without its closing refresh.  A supported move takes the layer to its
        new level and leaves the others in order.  After any other the stack shows no list
        of layers, except when the slot above the top happened to hold the layer itself. */
    method MovLayerZ(p: nat, level: int, ghost order: seq<nat>)
      requires Shows(order) && p < LAYER_STACK_SIZE && layers[p].flags != 0
      requires Clamp(level, zTop) < LAYER_STACK_SIZE
      modifies this, layers, layerStack
      ensures OnlyLevels()
      ensures var nz := Clamp(level, old(zTop));
              ShowsOutcome(Outcome(order, p, nz, old(zTop), nz >= 0 && old(layerStack[nz]) == At(p)))
      ensures var nz, cur := Clamp(level, old(zTop)), LevelOf(order, p);
              (exists o :: Shows(o)) <==>
              Supported(cur, nz, old(zTop)) || (0 <= cur < nz && old(layerStack[nz]) == At(p))
      ensures p in order && 0 <= level <= old(zTop) ==>
                exists m :: Shows(m) && |m| == |order| && m[level] == p && Without(m, p) == Without(order, p)
      ensures level < 0 ==> Shows(Without(order, p))
      ensures p !in order && level > old(zTop) ==> Shows(order + [p])
    {
      ServedAtLevel(order, p, level);
      var nz := level;
      var cur := layers[p].z;
      if nz > zTop + 1 { nz := zTop + 1; }
      if nz < -1 { nz := -1; }
      Lift(p, nz, order);
      if cur > nz {
        MoveDown(p, cur, nz, order);
      } else if cur < nz {
        MoveUp(p, cur, nz, order);
      } else {
        MovedInPlace(order, p, cur);
      }
      ShowsWhenItWorks(order, p, nz, old(zTop), nz >= 0 && old(layerStack[nz]) == At(p));
    }

    /** A move that works, whatever the stack holds above its top. */
    method Serve(p: nat, level: int, ghost order: seq<nat>)
      requires Shows(order) && p < LAYER_STACK_SIZE && layers[p].flags != 0
      requires Works(order, MoveTo(p, level))
      modifies this, layers, layerStack
      ensures OnlyLevels() && Shows(Served(order, MoveTo(p, level)))
    {
      if LevelOf(order, p) < 0 {
        RoomForHidden(order, p);
      }
      MovLayerZ(p, level, order);
    }

    /** alloc_layer: the first unallocated layer, hidden. */
    method AllocLayer(ghost order: seq<nat>) returns (p: int)
      requires Shows(order)
      modifies layers
      ensures Shows(order)
      ensures if p < 0 then
                forall q :: 0 <= q < LAYER_STACK_SIZE ==> layers[q] == old(layers[q]) && layers[q].flags != 0
              else p < LAYER_STACK_SIZE && p !in order && old(layers[p]).flags == 0
      ensures forall q :: 0 <= q < LAYER_STACK_SIZE ==>
        && layers[q] == (if q == p then old(layers[q]).(flags := 1, z := -1) else old(layers[q]))
        && (q < p ==> layers[q].flags != 0)
    {
      for i := 0 to LAYER_STACK_SIZE
        invariant forall q :: 0 <= q < i ==> layers[q].flags != 0
        invariant forall q :: 0 <= q < LAYER_STACK_SIZE ==> layers[q] == old(layers[q])
      {
        if layers[i].flags == 0 {
          assert i !in order;
          layers[i] := layers[i].(flags := 1, z := -1);
          return i;
        }
      }
      return -1;
    }

    /** free_layer: hide it if it shows, then give it back. */
    method FreeLayer(p: nat, ghost order: seq<nat>)
      requires Shows(order) && p < LAYER_STACK_SIZE && layers[p].flags != 0
      modifies this, layers, layerStack
      ensures LevelOf(order, p) >= -1 && Shows(Removed(order, LevelOf(order, p)))
      ensures forall q :: 0 <= q < LAYER_STACK_SIZE ==>
        layers[q] == old(layers[q]).(z := layers[q].z, flags := if q == p then 0 else old(layers[q]).flags)
    {
      ghost var cur := LevelOf(order, p);
      ghost var rest := Removed(order, cur);
      if layers[p].z >= 0 {
        MovLayerZ(p, -1, order);
        assert Shows(rest);
      }
      RemovedMembers(order, p, cur);
      layers[p] := layers[p].(flags := 0);
    }
  }

  /** The second layer is asked for the level of the first: the stack is damaged. */
  method ShowBelowTheTop() returns (screen: Screen)
    ensures fresh(screen) && forall o :: !screen.Shows(o)
  {
    screen := new Screen();
    var p := screen.AllocLayer([]);
    assert screen.layers[0].flags != 0;
    screen.MovLayerZ(p, 0, []);
    assert screen.Shows([p]);
    assert screen.layers[1].flags == 0;
    var q := screen.AllocLayer([p]);
    assert LevelOf([p], q) == -1 && !Supported(-1, 0, 0);
    screen.MovLayerZ(q, 0, [p]);
  }
}
