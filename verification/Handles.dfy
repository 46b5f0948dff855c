/** `HandleCollection`: handles for game objects, allocated in increasing order.
    Main result: `HandlesStayGood`. */
module Handles {
  import opened Text

  /** `int32_t`. */
  const MAX := 0x7fff_ffff

  /** The object type is opaque; the null pointer is `None`. */
  type Pointer = nat

  datatype Table = Table(lastId: int, objects: map<int, Pointer>)

  const EMPTY := Table(0, map[])

  ghost function Above(objects: map<int, Pointer>, id: int): set<int> {
    set j | j in objects && id <= j
  }

  /** The first identifier at or after `id` that is free. */
  function Probe(objects: map<int, Pointer>, id: int): (free: int)
    ensures id <= free && free !in objects
    ensures forall j :: id <= j < free ==> j in objects
    decreases Above(objects, id)
  {
    if id in objects then
      assert id in Above(objects, id) && id !in Above(objects, id + 1);
      assert Above(objects, id + 1) < Above(objects, id);
      Probe(objects, id + 1)
    else id
  }

  /** `add`: the new table and the handle. Within `Roomy` no sum leaves 32 bits. */
  function Add(t: Table, ptr: Option<Pointer>): (Table, int) {
    if ptr.None? then (t, 0)
    else
      var id := Probe(t.objects, t.lastId + 1);
      if id == MAX - 1 then (t.(lastId := t.lastId + 1), -1)
      else (Table(t.lastId + 1, t.objects[id := ptr.value]), id)
  }

  function Get(t: Table, id: int): Option<Pointer> {
    if id == 0 || id !in t.objects then None else Some(t.objects[id])
  }

  function Drop(t: Table, id: int): Table {
    Table(if id == t.lastId then t.lastId - 1 else t.lastId, if id > 0 then t.objects - {id} else t.objects)
  }

  class HandleCollection {
    var lastId: int
    var objects: map<int, Pointer>

    function Value(): Table
      reads this
    {
      Table(lastId, objects)
    }

    constructor ()
      ensures Value() == EMPTY
    {
      lastId, objects := 0, map[];
    }

    method AddObject(ptr: Option<Pointer>) returns (handle: int)
      modifies this
      ensures (Value(), handle) == Add(old(Value()), ptr)
    {
      if ptr.None? {
        return 0;
      }
      lastId := lastId + 1;
      var fres := lastId;
      while fres in objects
        invariant objects == old(objects) && lastId <= fres
        invariant Probe(objects, lastId) == Probe(objects, fres)
        decreases Above(objects, fres)
      {
        assert fres in Above(objects, fres) && fres !in Above(objects, fres + 1);
        assert Above(objects, fres + 1) < Above(objects, fres);
        fres := fres + 1;
      }
      if fres == MAX - 1 {
        return -1;
      }
      objects := objects[fres := ptr.value];
      return fres;
    }

    method GetObject(id: int) returns (ptr: Option<Pointer>)
      ensures ptr == Get(Value(), id)
    {
      if id == 0 {
        return None;
      }
      if id !in objects {
        return None;
      }
      return Some(objects[id]);
    }

    method DropObject(id: int)
      modifies this
      ensures Value() == Drop(old(Value()), id)
    {
      if id > 0 {
        objects := objects - {id};
      }
      if id == lastId {
        lastId := lastId - 1;
      }
    }
  }

  datatype Action = AddAction(ptr: Option<Pointer>) | DropAction(id: int)

  function Step(t: Table, a: Action): Table {
    match a
    case AddAction(ptr) => Add(t, ptr).0
    case DropAction(id) => Drop(t, id)
  }

  function Run(t: Table, actions: seq<Action>): Table
    decreases |actions|
  {
    if actions == [] then t else Run(Step(t, actions[0]), actions[1..])
  }

  /** Every live handle lies in 1..lastId. */
  predicate Compact(t: Table) {
    t.lastId >= 0 && forall id <- t.objects :: 1 <= id <= t.lastId
  }

  /** What callers must see to: the null handle is not dropped while no handle is out, and the table does not grow to
      the end of the handle range. */
  predicate Roomy(t: Table, actions: seq<Action>)
    decreases |actions|
  {
    && t.lastId < MAX - 2
    && (actions == [] || (!(actions[0] == DropAction(0) && t.lastId == 0) && Roomy(Step(t, actions[0]), actions[1..])))
  }

  /** A compact table never probes: the next handle is fresh, positive, and resolves to its object. */
  lemma AddIsFresh(t: Table, ptr: Pointer)
    requires Compact(t) && t.lastId < MAX - 2
    ensures var (r, handle) := Add(t, Some(ptr));
      && Probe(t.objects, t.lastId + 1) == handle == t.lastId + 1
      && handle > 0 && handle !in t.objects && Get(r, handle) == Some(ptr) && Compact(r)
      && forall id <- t.objects :: Get(r, id) == Get(t, id)
  {
  }

  /** Dropping keeps the table compact exactly unless it drops the null handle of a table whose counter is at zero. */
  lemma DropKeepsCompact(t: Table, id: int)
    requires Compact(t)
    ensures Compact(Drop(t, id)) <==> !(id == 0 && t.lastId == 0)
    ensures forall other <- t.objects :: other != id ==> Get(Drop(t, id), other) == Get(t, other)
    ensures Get(Drop(t, id), id) == None
  {
    if !(id == 0 && t.lastId == 0) {
      forall j | j in Drop(t, id).objects ensures 1 <= j <= Drop(t, id).lastId {
        assert j in t.objects;
      }
    }
  }

  /** After such a drop the next object gets the null handle and cannot be reached. */
  lemma DroppingNullLosesAnObject(ptr: Pointer)
    ensures var (r, handle) := Add(Drop(EMPTY, 0), Some(ptr));
      handle == 0 && Get(r, handle) == None
  {
  }

  /** Handles over whole runs: the table stays compact, so the next handle is fresh, and a live handle that the run
      does not drop resolves to the same object at the end as at the start. */
  lemma {:induction false} HandlesStayGood(t: Table, actions: seq<Action>, id: int)
    requires Compact(t) && Roomy(t, actions)
    requires id in t.objects && DropAction(id) !in actions
    ensures Compact(Run(t, actions)) && Get(Run(t, actions), id) == Get(t, id)
    decreases |actions|
  {
    if actions != [] {
      var a := actions[0];
      match a {
        case AddAction(None) =>
        case AddAction(Some(ptr)) => AddIsFresh(t, ptr);
        case DropAction(other) => DropKeepsCompact(t, other);
      }
      HandlesStayGood(Step(t, a), actions[1..], id);
    }
  }

  lemma {:induction false} RunStaysCompact(t: Table, actions: seq<Action>)
    requires Compact(t) && Roomy(t, actions)
    ensures Compact(Run(t, actions)) && Run(t, actions).lastId < MAX - 2
    decreases |actions|
  {
    if actions != [] {
      match actions[0] {
        case AddAction(None) =>
        case AddAction(Some(ptr)) => AddIsFresh(t, ptr);
        case DropAction(other) => DropKeepsCompact(t, other);
      }
      RunStaysCompact(Step(t, actions[0]), actions[1..]);
    }
  }

  /** In every run from the empty table, `add` never probes and never disturbs a live handle. */
  lemma AddAfterRun(actions: seq<Action>, ptr: Pointer)
    requires Roomy(EMPTY, actions)
    ensures var t := Run(EMPTY, actions);
      var (r, handle) := Add(t, Some(ptr));
      && handle == t.lastId + 1 && handle !in t.objects && Get(r, handle) == Some(ptr)
      && forall id <- t.objects :: 1 <= id <= t.lastId && Get(r, id) == Get(t, id)
  {
    RunStaysCompact(EMPTY, actions);
    AddIsFresh(Run(EMPTY, actions), ptr);
  }
}
