/**
 The policies table as the handlers change it: row objects renumbered in place inside
 one transaction, whose unique constraints are checked only when it commits.
 */
module PolicyList {
  import opened Wrappers
  import opened Priorities

  class Policy {
    const id: nat
    var name: string
    var priority: int

    constructor (id: nat, name: string, priority: int)
      ensures this.id == id && this.name == name && this.priority == priority
    {
      this.id, this.name, this.priority := id, name, priority;
    }
  }

  datatype Failure = NotFound | Conflict | Refused

  predicate NameFree(names: seq<string>, row: Option<nat>, name: string) {
    forall i :: 0 <= i < |names| && row != Some(i) ==> names[i] != name
  }

  function Renamed(names: seq<string>, row: Option<nat>, name: string): seq<string>
    requires row.Some? ==> row.value < |names|
  {
    if row.Some? then names[row.value := name] else names + [name]
  }

  lemma RenamedDistinct(names: seq<string>, row: Option<nat>, name: string)
    requires Distinct(names) && (row.Some? ==> row.value < |names|)
    ensures Distinct(Renamed(names, row, name)) <==> NameFree(names, row, name)
  {
    var r := Renamed(names, row, name);
    var k := if row.Some? then row.value else |names|;
    assert r[k] == name;
    if Distinct(r) {
      forall i | 0 <= i < |names| && row != Some(i)
        ensures names[i] != name
      {
        assert r[i] == names[i] && i != k;
      }
    }
  }

  class Table {
    var rows: seq<Policy>

    constructor ()
      ensures Valid() && rows == []
    {
      rows := [];
    }

    ghost predicate Objects()
      reads this
    {
      Distinct(rows) && forall i, j :: 0 <= i < j < |rows| ==> rows[i].id != rows[j].id
    }

    /** What every committed state satisfies. */
    ghost predicate Valid()
      reads this, rows
    {
      Objects() && Distinct(Priorities()) && Distinct(Names())
    }

    function Priorities(): (r: seq<int>)
      reads this, rows
      ensures |r| == |rows|
    {
      seq(|rows|, i requires 0 <= i < |rows| reads this, rows => rows[i].priority)
    }

    function Names(): (r: seq<string>)
      reads this, rows
      ensures |r| == |rows|
    {
      seq(|rows|, i requires 0 <= i < |rows| reads this, rows => rows[i].name)
    }

    /** `filter(id != exclude, low <= priority < high)`; no upper bound when `high` is None. */
    method Select(low: int, high: Option<int>, exclude: Policy?) returns (hits: seq<Policy>)
      requires Objects()
      ensures Distinct(hits)
      ensures forall p :: p in hits <==>
                p in rows && p != exclude && low <= p.priority && (high.Some? ==> p.priority < high.value)
    {
      hits := [];
      for i := 0 to |rows|
        invariant Distinct(hits)
        invariant forall p :: p in hits <==>
                    p in rows[..i] && p != exclude && low <= p.priority && (high.Some? ==> p.priority < high.value)
      {
        var p := rows[i];
        assert p !in rows[..i];
        if p != exclude && low <= p.priority && (high.None? || p.priority < high.value) {
          hits := hits + [p];
        }
        assert rows[..i + 1] == rows[..i] + [p];
      }
      assert rows[..|rows|] == rows;
    }

    /** `for p in hits: p.priority += delta` */
    method Shift(hits: seq<Policy>, delta: int)
      requires Objects() && Distinct(hits) && forall p :: p in hits ==> p in rows
      modifies rows
      ensures forall i ::
                0 <= i < |rows| ==> rows[i].priority == old(rows[i].priority) + if rows[i] in hits then delta else 0
      ensures forall i :: 0 <= i < |rows| ==> rows[i].name == old(rows[i].name)
    {
      for i := 0 to |hits|
        invariant forall k :: 0 <= k < |rows| ==>
                    rows[k].priority == old(rows[k].priority) + if rows[k] in hits[..i] then delta else 0
        invariant forall k :: 0 <= k < |rows| ==> rows[k].name == old(rows[k].name)
      {
        var p := hits[i];
        assert p in hits && p !in hits[..i] && hits[..i + 1] == hits[..i] + [p];
        p.priority := p.priority + delta;
      }
      assert hits[..|hits|] == hits;
    }

    /** The rows `_make_room_for_priority` renumbers, and by how much. */
    method Plan(target: int, exclude: Option<nat>) returns (hits: seq<Policy>, delta: int)
      requires Objects() && (exclude.Some? ==> exclude.value < |rows|)
      ensures Distinct(hits) && forall p :: p in hits ==> p in rows
      ensures forall i :: 0 <= i < |rows| ==>
                MadeRoom(Priorities(), target, exclude)[i] == rows[i].priority + if rows[i] in hits then delta else 0
    {
      if exclude.Some? && rows[exclude.value].priority != target {
        var moving := rows[exclude.value];
        if target < moving.priority {
          hits := Select(target, Some(moving.priority), moving);
          delta := 1;
        } else {
          hits := Select(moving.priority + 1, Some(target + 1), moving);
          delta := -1;
        }
      } else {
        hits := Select(target, None, if exclude.Some? then rows[exclude.value] else null);
        delta := 1;
      }
    }

    /** `_make_room_for_priority` */
    method MakeRoom(target: int, exclude: Option<nat>)
      requires Objects() && (exclude.Some? ==> exclude.value < |rows|)
      modifies rows
      ensures Priorities() == MadeRoom(old(Priorities()), target, exclude)
      ensures Names() == old(Names())
    {
      ghost var goal, names := MadeRoom(Priorities(), target, exclude), Names();
      var hits, delta := Plan(target, exclude);
      Shift(hits, delta);
      forall i | 0 <= i < |rows|
        ensures Priorities()[i] == goal[i] && Names()[i] == names[i]
      {
        assert goal[i] == old(rows[i].priority) + if rows[i] in hits then delta else 0;
      }
    }

    /** Puts back every row as it was when the transaction began. */
    method Rollback(saved: seq<Policy>, names: seq<string>, priorities: seq<int>)
      requires Distinct(saved) && |names| == |priorities| == |saved|
      modifies this, saved
      ensures rows == saved && Names() == names && Priorities() == priorities
    {
      rows := saved;
      Restore(names, priorities);
    }

    method Restore(names: seq<string>, priorities: seq<int>)
      requires Distinct(rows) && |names| == |priorities| == |rows|
      modifies rows
      ensures Names() == names && Priorities() == priorities
    {
      for i := 0 to |rows|
        invariant forall k :: 0 <= k < i ==> rows[k].name == names[k] && rows[k].priority == priorities[k]
      {
        rows[i].name, rows[i].priority := names[i], priorities[i];
      }
    }

    /** The checks PostgreSQL makes at commit. */
    predicate Committable()
      reads this, rows
    {
      Distinct(Priorities()) && Distinct(Names())
    }

    /** Renumbers, then writes the row itself; nothing is checked yet. */
    method Write(row: Option<nat>, id: nat, name: string, priority: int) returns (k: nat)
      requires Objects() && (row.Some? ==> row.value < |rows|)
      requires row.None? ==> Unknown(id)
      modifies this, rows
      ensures Objects() && |rows| >= |old(rows)| && rows[..|old(rows)|] == old(rows) && fresh(rows[|old(rows)|..])
      ensures Priorities() == Placed(old(Priorities()), row, priority)
      ensures k == (if row.Some? then row.value else |old(rows)|) && k < |rows|
      ensures Names() == Renamed(old(Names()), row, name)
    {
      if row.None? || rows[row.value].priority != priority {
        MakeRoom(priority, row);
      }
      if row.None? {
        var p := new Policy(id, name, priority);
        k := |rows|;
        rows := rows + [p];
      } else {
        k := row.value;
        assert forall i :: 0 <= i < |rows| && i != k ==> rows[i] != rows[k];
        rows[k].name, rows[k].priority := name, priority;
      }
    }

    /** The numbering part of the one policy write: create (`row` None) or update the given row. */
    method Mutate(row: Option<nat>, id: nat, name: string, priority: int, othersPass: bool)
        returns (r: Result<nat, Failure>)
      requires Valid() && (row.Some? ==> row.value < |rows|)
      requires row.None? ==> Unknown(id)
      modifies this, rows
      ensures Valid()
      ensures r.Ok? <==> othersPass && NameFree(old(Names()), row, name)
      ensures r.Ok? ==> r.value == (if row.Some? then row.value else |old(rows)|) && r.value < |rows|
                        && Priorities() == Placed(old(Priorities()), row, priority)
                        && Names() == Renamed(old(Names()), row, name)
      ensures r.Err? ==> rows == old(rows) && Priorities() == old(Priorities()) && Names() == old(Names())
    {
      var saved, names, priorities := rows, Names(), Priorities();
      PlacedWell(priorities, row, priority);
      RenamedDistinct(names, row, name);
      var k := Write(row, id, name, priority);
      if !othersPass || !Committable() {
        Rollback(saved, names, priorities);
        return Err(if othersPass then Conflict else Refused);
      }
      return Ok(k);
    }

    ghost predicate Unknown(id: nat)
      reads this
    {
      forall p :: p in rows ==> p.id != id
    }

    method Find(id: nat) returns (k: Option<nat>)
      requires Objects()
      ensures k.Some? ==> k.value < |rows| && rows[k.value].id == id
      ensures k.None? <==> Unknown(id)
    {
      for i := 0 to |rows|
        invariant forall j :: 0 <= j < i ==> rows[j].id != id
      {
        if rows[i].id == id {
          return Some(i);
        }
      }
      return None;
    }

    ghost predicate Resolves(ids: seq<nat>, order: seq<nat>)
      reads this
    {
      |order| == |ids| && forall i :: 0 <= i < |ids| ==> order[i] < |rows| && rows[order[i]].id == ids[i]
    }

    /** The rows named by the ids; None if some id is unknown. */
    method Resolve(ids: seq<nat>) returns (order: Option<seq<nat>>)
      requires Objects()
      ensures order.Some? ==> Resolves(ids, order.value)
      ensures order.None? <==> exists i :: 0 <= i < |ids| && Unknown(ids[i])
    {
      var found := [];
      for i := 0 to |ids|
        invariant Resolves(ids[..i], found)
        invariant forall j :: 0 <= j < i ==> !Unknown(ids[j])
      {
        var k := Find(ids[i]);
        if k.None? {
          return None;
        }
        found := found + [k.value];
      }
      return Some(found);
    }

    /** `by_id[pid].priority = index` */
    method Renumber(k: nat, priority: int)
      requires Objects() && k < |rows|
      modifies rows[k]
      ensures Priorities() == old(Priorities())[k := priority] && Names() == old(Names())
    {
      assert forall j :: 0 <= j < |rows| && j != k ==> rows[j] != rows[k];
      rows[k].priority := priority;
    }

    /** `for index, pid in enumerate(ids)` */
    method Number(order: seq<nat>)
      requires Objects() && forall k :: k in order ==> k < |rows|
      modifies rows
      ensures Priorities() == Reordered(old(Priorities()), order) && Names() == old(Names())
    {
      for i := 0 to |order|
        invariant Priorities() == Reordered(old(Priorities()), order[..i]) && Names() == old(Names())
      {
        var k := order[i];
        assert k in order;
        assert order[..i + 1] == order[..i] + [k];
        ReorderedNext(old(Priorities()), order[..i], k);
        Renumber(k, i);
      }
      assert order[..|order|] == order;
    }

    /** The drag-and-drop reorder: all numbers are handed out, then the commit decides. */
    method Reorder(ids: seq<nat>) returns (r: Result<nat, Failure>, ghost order: seq<nat>)
      requires Valid()
      modifies rows
      ensures Valid() && Names() == old(Names())
      ensures r == Err(NotFound) <==> exists i :: 0 <= i < |ids| && Unknown(ids[i])
      ensures r != Err(NotFound) ==> Resolves(ids, order)
      ensures r != Err(NotFound) ==> (r.Ok? <==> Distinct(Reordered(old(Priorities()), order)))
      ensures r.Ok? ==> r.value == |ids| && Priorities() == Reordered(old(Priorities()), order)
      ensures r.Err? ==> Priorities() == old(Priorities())
    {
      var saved, names, priorities := rows, Names(), Priorities();
      order := [];
      var resolved := Resolve(ids);
      if resolved.None? {
        return Err(NotFound), order;
      }
      order := resolved.value;
      assert forall i :: 0 <= i < |ids| ==> rows[order[i]] in rows;
      Number(resolved.value);
      if !Committable() {
        Restore(names, priorities);
        return Err(Conflict), order;
      }
      return Ok(|ids|), order;
    }
  }
}
