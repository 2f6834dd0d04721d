/**
 The priority list on values: priorities by table position, and what inserting at a
 number, moving to a number and reordering do to them.
 */
module Priorities {
  import opened Wrappers

  /** The number a row gets when room is made at `target`, for a row that is not the one being moved. */
  function Shifted(p: int, target: int, from: Option<int>): int {
    match from
    case None => if target <= p then p + 1 else p
    case Some(was) =>
      if target < was then (if target <= p < was then p + 1 else p)
      else if was < target then (if was < p <= target then p - 1 else p)
      else (if target <= p then p + 1 else p)
  }

  /** Room made at `target`; the excluded row keeps its number for now. */
  function MadeRoom(ps: seq<int>, target: int, exclude: Option<nat>): (r: seq<int>)
    requires exclude.Some? ==> exclude.value < |ps|
    ensures |r| == |ps|
  {
    seq(|ps|, i requires 0 <= i < |ps| =>
      if exclude == Some(i) then ps[i]
      else Shifted(ps[i], target, if exclude.Some? then Some(ps[exclude.value]) else None))
  }

  function InsertAt(ps: seq<int>, target: int): seq<int> {
    MadeRoom(ps, target, None) + [target]
  }

  function MoveTo(ps: seq<int>, k: nat, target: int): (r: seq<int>)
    requires k < |ps|
    ensures |r| == |ps|
  {
    if target == ps[k] then ps else MadeRoom(ps, target, Some(k))[k := target]
  }

  /** A creation or a move, as the handler dispatches them. */
  function Placed(ps: seq<int>, row: Option<nat>, target: int): seq<int>
    requires row.Some? ==> row.value < |ps|
  {
    match row
    case None => InsertAt(ps, target)
    case Some(k) => MoveTo(ps, k, target)
  }

  ghost predicate WellPlaced(ps: seq<int>, r: seq<int>, k: nat, target: int) {
    && |ps| <= |r| && k < |r|
    && r[k] == target
    && Distinct(r)
    && forall i, j :: 0 <= i < |ps| && 0 <= j < |ps| && i != k && j != k ==> (ps[i] < ps[j] <==> r[i] < r[j])
  }

  /** Shifting keeps the order of the rows it shifts and clears the number asked for. */
  lemma ShiftedKeepsOrder(p: int, q: int, target: int, from: Option<int>)
    requires from.Some? ==> p != from.value && q != from.value && target != from.value
    ensures p < q <==> Shifted(p, target, from) < Shifted(q, target, from)
    ensures Shifted(p, target, from) != target
  {
  }

  lemma InsertedWell(ps: seq<int>, target: int)
    requires Distinct(ps)
    ensures WellPlaced(ps, InsertAt(ps, target), |ps|, target)
  {
  }

  lemma MovedWell(ps: seq<int>, k: nat, target: int)
    requires Distinct(ps) && k < |ps|
    ensures WellPlaced(ps, MoveTo(ps, k, target), k, target)
  {
    if target != ps[k] {
      var r := MoveTo(ps, k, target);
      forall i, j | 0 <= i < |ps| && 0 <= j < |ps| && i != k && j != k
        ensures (ps[i] < ps[j] <==> r[i] < r[j]) && r[i] != target
      {
        ShiftedKeepsOrder(ps[i], ps[j], target, Some(ps[k]));
      }
    }
  }

  /** Wherever a policy is created or moved, the final numbers are distinct, it has the number asked for,
      and the others keep their relative order. */
  lemma PlacedWell(ps: seq<int>, row: Option<nat>, target: int)
    requires Distinct(ps) && (row.Some? ==> row.value < |ps|)
    ensures |Placed(ps, row, target)| == if row.Some? then |ps| else |ps| + 1
    ensures WellPlaced(ps, Placed(ps, row, target), if row.Some? then row.value else |ps|, target)
  {
    if row.Some? {
      MovedWell(ps, row.value, target);
    } else {
      InsertedWell(ps, target);
    }
  }

  /** Who else is renumbered: at a creation exactly the policies at the number asked for or behind it, at a move exactly
      those from the number asked for up to where the policy came from; each by one, away from the one number and
      towards the other. */
  lemma OthersByOne(ps: seq<int>, row: Option<nat>, target: int, i: nat)
    requires Distinct(ps) && (row.Some? ==> row.value < |ps|) && i < |ps| && row != Some(i)
    ensures i < |Placed(ps, row, target)|
    ensures var p, q := ps[i], Placed(ps, row, target)[i];
            match row
            case None => q == (if p >= target then p + 1 else p)
            case Some(k) =>
              && (ps[k] > target ==> q == if target <= p < ps[k] then p + 1 else p)
              && (ps[k] < target ==> q == if ps[k] < p <= target then p - 1 else p)
              && (ps[k] == target ==> q == p)
  {
  }

  /** Before the moved row is renumbered, the list holds a number twice exactly when some row is next to it on the side
      it moves to. */
  lemma MidwayCollides(ps: seq<int>, k: nat, target: int)
    requires Distinct(ps) && k < |ps| && target != ps[k]
    ensures !Distinct(MadeRoom(ps, target, Some(k))) <==>
            exists j :: 0 <= j < |ps| && ps[j] == if target < ps[k] then ps[k] - 1 else ps[k] + 1
  {
    var r := MadeRoom(ps, target, Some(k));
    forall i, j | 0 <= i < j < |ps| && i != k && j != k
      ensures r[i] != r[j]
    {
      ShiftedKeepsOrder(ps[i], ps[j], target, Some(ps[k]));
    }
    if j :| 0 <= j < |ps| && ps[j] == if target < ps[k] then ps[k] - 1 else ps[k] + 1 {
      assert r[j] == r[k];
    }
  }

  /** Shifting back undoes shifting. */
  lemma ShiftBack(p: int, was: int, target: int)
    requires p != was && target != was
    ensures Shifted(Shifted(p, target, Some(was)), was, Some(target)) == p
  {
  }

  /** Moving back undoes a move, at every row. */
  lemma MoveBack(ps: seq<int>, k: nat, target: int)
    requires Distinct(ps) && k < |ps|
    ensures MoveTo(MoveTo(ps, k, target), k, ps[k]) == ps
  {
    var there := MoveTo(ps, k, target);
    forall i | 0 <= i < |ps|
      ensures MoveTo(there, k, ps[k])[i] == ps[i]
    {
      if i != k && target != ps[k] {
        ShiftBack(ps[i], ps[k], target);
      }
    }
  }

  /** Numbers exactly 0 .. n-1. */
  ghost predicate Dense(ps: seq<int>) {
    Distinct(ps) && forall i :: 0 <= i < |ps| ==> 0 <= ps[i] < |ps|
  }

  /** A dense list stays dense exactly under moves inside the range and inserts up to its length. */
  lemma PlacedDense(ps: seq<int>, row: Option<nat>, target: int)
    requires Dense(ps) && (row.Some? ==> row.value < |ps|)
    ensures Dense(Placed(ps, row, target)) <==> 0 <= target <= if row.Some? then |ps| - 1 else |ps|
  {
    PlacedWell(ps, row, target);
    var r := Placed(ps, row, target);
    var k := if row.Some? then row.value else |ps|;
    assert r[k] == target;
  }

  /** The numbers a request and a reply may carry. */
  const MAX_PRIORITY := 100000

  ghost predicate InRange(ps: seq<int>) {
    forall i :: 0 <= i < |ps| ==> 0 <= ps[i] <= MAX_PRIORITY
  }

  lemma ShiftedInRange(p: int, target: int, from: Option<int>)
    requires 0 <= p <= MAX_PRIORITY && 0 <= target <= MAX_PRIORITY
    requires from.Some? ==> from.value != target && 0 <= from.value <= MAX_PRIORITY
    ensures 0 <= Shifted(p, target, from) <= MAX_PRIORITY <==> from.Some? || p != MAX_PRIORITY
  {
  }

  lemma InsertedInRange(ps: seq<int>, target: int)
    requires InRange(ps) && 0 <= target <= MAX_PRIORITY
    ensures InRange(InsertAt(ps, target)) <==> MAX_PRIORITY !in ps
  {
    var r := InsertAt(ps, target);
    forall i | 0 <= i < |ps|
      ensures 0 <= r[i] <= MAX_PRIORITY <==> ps[i] != MAX_PRIORITY
    {
      ShiftedInRange(ps[i], target, None);
    }
  }

  lemma MovedInRange(ps: seq<int>, k: nat, target: int)
    requires InRange(ps) && 0 <= target <= MAX_PRIORITY && k < |ps|
    ensures InRange(MoveTo(ps, k, target))
  {
    if target != ps[k] {
      forall i | 0 <= i < |ps| && i != k
        ensures 0 <= MoveTo(ps, k, target)[i] <= MAX_PRIORITY
      {
        ShiftedInRange(ps[i], target, Some(ps[k]));
      }
    }
  }

  /** Placing a policy keeps the numbers in range exactly if it is a move or nobody holds the greatest number yet. */
  lemma PlacedInRange(ps: seq<int>, row: Option<nat>, target: int)
    requires InRange(ps) && 0 <= target <= 100000 && (row.Some? ==> row.value < |ps|)
    ensures InRange(Placed(ps, row, target)) <==> row.Some? || 100000 !in ps
  {
    match row
    case None => InsertedInRange(ps, target);
    case Some(k) => MovedInRange(ps, k, target);
  }

  /** Two creations at the greatest number already leave the range. */
  lemma TwoAtTheEnd()
    ensures Placed(Placed([], None, 100000), None, 100000) == [100001, 100000]
  {
    assert Placed([], None, 100000) == [100000];
  }

  /* ---------- Reordering ---------- */

  /** The last position at which a row is named. */
  function LastIndex(order: seq<nat>, k: nat): (i: nat)
    requires k in order
    ensures i < |order| && order[i] == k && k !in order[i + 1..]
  {
    var n := |order| - 1;
    if order[n] == k then n
    else
      assert order == order[..n] + [order[n]];
      var i := LastIndex(order[..n], k);
      assert order[i + 1..] == order[..n][i + 1..] + [order[n]];
      i
  }

  /** Each named row gets its (last) position, the others keep their number. */
  function Reordered(ps: seq<int>, order: seq<nat>): (r: seq<int>)
    ensures |r| == |ps|
  {
    seq(|ps|, i requires 0 <= i < |ps| => if i in order then LastIndex(order, i) else ps[i])
  }

  lemma ReorderedNext(ps: seq<int>, order: seq<nat>, k: nat)
    requires k < |ps|
    ensures Reordered(ps, order + [k]) == Reordered(ps, order)[k := |order|]
  {
  }

  /** The commit accepts a reorder exactly when no unnamed row already holds a number that is handed out. */
  lemma ReorderExact(ps: seq<int>, order: seq<nat>)
    requires Distinct(ps) && forall k :: k in order ==> k < |ps|
    ensures Distinct(Reordered(ps, order)) <==>
              forall u, k :: 0 <= u < |ps| && u !in order && k in order ==> ps[u] != LastIndex(order, k)
  {
    var r := Reordered(ps, order);
    if Distinct(r) {
      forall u, k | 0 <= u < |ps| && u !in order && k in order
        ensures ps[u] != LastIndex(order, k)
      {
        assert r[u] == ps[u] && r[k] == LastIndex(order, k) && u != k;
      }
    }
  }

  lemma LastIndexOnly(order: seq<nat>, i: nat)
    requires Distinct(order) && i < |order|
    ensures LastIndex(order, order[i]) == i
  {
  }

  /** Without repeats: exactly when every unnamed row's number lies beyond the list. */
  lemma ReorderWithoutRepeats(ps: seq<int>, order: seq<nat>)
    requires Distinct(ps) && Distinct(order) && forall k :: k in order ==> k < |ps|
    ensures Distinct(Reordered(ps, order)) <==>
              forall u :: 0 <= u < |ps| && u !in order ==> ps[u] < 0 || |order| <= ps[u]
    ensures forall i :: 0 <= i < |order| ==> order[i] < |ps| && Reordered(ps, order)[order[i]] == i
  {
    forall i | 0 <= i < |order|
      ensures LastIndex(order, order[i]) == i
    {
      LastIndexOnly(order, i);
    }
    assert forall i :: 0 <= i < |order| ==> order[i] in order;
    ReorderExact(ps, order);
    forall u | 0 <= u < |ps| && u !in order && 0 <= ps[u] < |order|
      ensures exists k :: k in order && ps[u] == LastIndex(order, k)
    {
      assert LastIndex(order, order[ps[u]]) == ps[u];
    }
  }

  /** Naming every policy once numbers the list 0 .. n-1 in the order given. */
  lemma FullReorder(ps: seq<int>, order: seq<nat>)
    requires Distinct(ps) && Distinct(order) && |order| == |ps|
    requires forall k :: 0 <= k < |ps| <==> k in order
    ensures Dense(Reordered(ps, order))
    ensures forall i :: 0 <= i < |order| ==> order[i] < |ps| && Reordered(ps, order)[order[i]] == i
  {
    ReorderWithoutRepeats(ps, order);
  }

  /** A reorder naming only some policies can be refused at commit. */
  lemma PartialReorderCanConflict()
    ensures Distinct([0, 1]) && !Distinct(Reordered([0, 1], [1]))
  {
    var r := Reordered([0, 1], [1]);
    LastIndexOnly([1], 0);
    assert r[0] == 0 && r[1] == 0;
  }

  /* ---------- First match ---------- */

  /** The matching policy with the smallest number: the one whose grant applies. */
  ghost predicate Wins(ps: seq<int>, matched: seq<bool>, w: nat)
    requires |matched| == |ps|
  {
    w < |ps| && matched[w] && forall i :: 0 <= i < |ps| && matched[i] && i != w ==> ps[w] < ps[i]
  }

  /** Creating or moving a policy leaves the decision unchanged for every request it does not match. */
  lemma DecisionUnmoved(ps: seq<int>, row: Option<nat>, target: int, matched: seq<bool>, w: nat)
    requires Distinct(ps) && |matched| == |ps| && w < |ps|
    requires row.Some? ==> row.value < |ps| && !matched[row.value]
    ensures Wins(Placed(ps, row, target), if row.Some? then matched else matched + [false], w) <==> Wins(ps, matched, w)
  {
    PlacedWell(ps, row, target);
  }
}
