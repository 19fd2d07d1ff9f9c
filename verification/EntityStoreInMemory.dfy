/** The in-memory store (`EntityStoreInMemory`): nested maps and one id counter for all entities. */
module EntityStoreInMemory {
  import opened Wrappers
  import opened EntityStore
  import opened EntityStoreValidation

  type Inner = map<int, string>

  datatype State = State(byEntity: map<string, Inner>, nextId: int)

  /** The finite map that the nested maps stand for: an entity that is missing is one without objects. */
  function Flattened(m: map<string, Inner>): Objects {
    map key | key in Keys(m) :: m[key.0][key.1]
  }

  function Keys(m: map<string, Inner>): (keys: set<(string, int)>)
    ensures forall key :: key in keys ==> key.0 in m && key.1 in m[key.0]
    ensures forall entity, id | entity in m && id in m[entity] :: (entity, id) in keys
  {
    set entity, id | entity in m && id in m[entity] :: (entity, id)
  }

  function InnerOf(m: map<string, Inner>, entity: string): Inner {
    if entity in m then m[entity] else map[]
  }

  /** `operator[]` of the outer map, which puts in an empty inner map when there is none. */
  function Touched(m: map<string, Inner>, entity: string): map<string, Inner> {
    m[entity := InnerOf(m, entity)]
  }

  /** The store after an operation, the ids of a listing aside; an operation that only looks touches the
      inner map all the same. */
  function After(s: State, op: Op): State {
    var touched := Touched(s.byEntity, op.entity);
    var inner := touched[op.entity];
    match op
    case Create(entity, data) =>
      var id := NextUnused(inner.Keys, s.nextId);
      State(touched[entity := inner[id := data]], id + 1)
    case Update(entity, id, data) => State(touched[entity := inner[id := data]], s.nextId)
    case Delete(entity, id) => State(touched[entity := inner - {id}], s.nextId)
    case _ => State(touched, s.nextId)
  }

  ghost predicate Answers(s: State, op: Op, r: Result) {
    var inner := InnerOf(s.byEntity, op.entity);
    match op
    case Create(_, _) => r == Created(NextUnused(inner.Keys, s.nextId))
    case Read(_, id) => r == Found(if id in inner then Some(inner[id]) else None)
    case Update(_, _, _) => r == Done(true)
    case Delete(_, id) => r == Done(id in inner)
    case List(_) => r.Listed? && NoDuplicates(r.ids) && forall id :: id in r.ids <==> id in inner
  }

  // ---------- The store ----------

  class Store {
    var byEntity: map<string, Inner>
    var nextId: int32

    constructor ()
      ensures Value() == State(map[], 0)
    {
      byEntity, nextId := map[], 0;
    }

    function Value(): State
      reads this
    {
      State(byEntity, nextId as int)
    }

    /** Every id up to the first free one, and the next, fit in an `int`. */
    predicate HasHeadroom(entity: string)
      reads this
    {
      NextUnused(InnerOf(byEntity, entity).Keys, nextId as int) < INT_MAX
    }

    method Create(entity: string, data: string) returns (id: int32)
      requires HasHeadroom(entity)
      modifies this
      ensures Value() == After(old(Value()), Op.Create(entity, data))
      ensures Answers(old(Value()), Op.Create(entity, data), Created(id as int))
    {
      byEntity := Touched(byEntity, entity);
      ghost var goal := NextUnused(byEntity[entity].Keys, nextId as int);
      ghost var inner := byEntity[entity];
      while nextId as int in byEntity[entity]
        invariant byEntity == Touched(old(byEntity), entity) && byEntity[entity] == inner
        invariant nextId as int <= goal == NextUnused(inner.Keys, nextId as int)
        decreases goal - nextId as int
      {
        nextId := nextId + 1;
      }
      id := nextId;
      nextId := nextId + 1;
      byEntity := byEntity[entity := byEntity[entity][id as int := data]];
    }

    method Read(entity: string, id: int32) returns (out: Option<string>)
      modifies this
      ensures Value() == After(old(Value()), Op.Read(entity, id as int))
      ensures Answers(old(Value()), Op.Read(entity, id as int), Found(out))
    {
      byEntity := Touched(byEntity, entity);
      if id as int in byEntity[entity] {
        return Some(byEntity[entity][id as int]);
      }
      return None;
    }

    method Update(entity: string, id: int32, data: string) returns (ok: bool)
      modifies this
      ensures Value() == After(old(Value()), Op.Update(entity, id as int, data))
      ensures Answers(old(Value()), Op.Update(entity, id as int, data), Done(ok))
    {
      byEntity := Touched(byEntity, entity);
      byEntity := byEntity[entity := byEntity[entity][id as int := data]];
      return true;
    }

    method Delete(entity: string, id: int32) returns (ok: bool)
      modifies this
      ensures Value() == After(old(Value()), Op.Delete(entity, id as int))
      ensures Answers(old(Value()), Op.Delete(entity, id as int), Done(ok))
    {
      byEntity := Touched(byEntity, entity);
      var erased := if id as int in byEntity[entity] then 1 else 0;
      byEntity := byEntity[entity := byEntity[entity] - {id as int}];
      return erased != 0;
    }

    /** The order of the ids is whatever the hash map has. */
    method List(entity: string) returns (ids: seq<int>)
      modifies this
      ensures Value() == After(old(Value()), Op.List(entity))
      ensures Answers(old(Value()), Op.List(entity), Listed(ids))
    {
      ghost var inner := InnerOf(byEntity, entity);
      byEntity := Touched(byEntity, entity);
      ids := [];
      var todo := byEntity[entity].Keys;
      while todo != {}
        invariant Value() == After(old(Value()), Op.List(entity)) && NoDuplicates(ids)
        invariant forall k: int :: k in ids || k in todo <==> k in inner
        invariant forall k: int :: k in ids ==> k !in todo
        decreases |todo|
      {
        Inhabited(todo);
        var id :| id in todo;
        ids := ids + [id];
        todo := todo - {id};
      }
    }
  }

  // ---------- Refinement ----------

  lemma {:induction false} FlattenedAt(m: map<string, Inner>, key: (string, int))
    ensures key in Flattened(m) <==> key.1 in InnerOf(m, key.0)
    ensures key in Flattened(m) ==> Flattened(m)[key] == m[key.0][key.1]
  {
    assert key == (key.0, key.1);
  }

  lemma {:induction false} FlattenedEverywhere(m: map<string, Inner>)
    ensures forall key :: key in Flattened(m) <==> key.1 in InnerOf(m, key.0)
  {
    forall key ensures key in Flattened(m) <==> key.1 in InnerOf(m, key.0) {
      FlattenedAt(m, key);
    }
  }

  lemma {:induction false} FlattenedTouched(m: map<string, Inner>, entity: string)
    ensures Flattened(Touched(m, entity)) == Flattened(m)
  {
    FlattenedEverywhere(m);
    FlattenedEverywhere(Touched(m, entity));
  }

  lemma {:induction false} LookupFlattened(m: map<string, Inner>, entity: string, id: int)
    ensures Lookup(Flattened(m), entity, id) ==
            if id in InnerOf(m, entity) then Some(InnerOf(m, entity)[id]) else None
  {
    FlattenedAt(m, (entity, id));
  }

  lemma {:induction false} SameObjects(a: Objects, b: Objects)
    requires forall entity, id :: Lookup(a, entity, id) == Lookup(b, entity, id)
    ensures a == b
  {
    forall key ensures key in a <==> key in b
      ensures key in a ==> a[key] == b[key]
    {
      assert key == (key.0, key.1) && Lookup(a, key.0, key.1) == Lookup(b, key.0, key.1);
    }
  }

  lemma {:induction false} FlattenedPut(m: map<string, Inner>, entity: string, id: int, data: string)
    ensures Flattened(m[entity := InnerOf(m, entity)[id := data]]) == Flattened(m)[(entity, id) := data]
  {
    var m' := m[entity := InnerOf(m, entity)[id := data]];
    forall e, k ensures Lookup(Flattened(m'), e, k) == Lookup(Flattened(m)[(entity, id) := data], e, k) {
      LookupFlattened(m, e, k);
      LookupFlattened(m', e, k);
    }
    SameObjects(Flattened(m'), Flattened(m)[(entity, id) := data]);
  }

  lemma {:induction false} FlattenedErased(m: map<string, Inner>, entity: string, id: int)
    ensures Flattened(m[entity := InnerOf(m, entity) - {id}]) == Flattened(m) - {(entity, id)}
  {
    var m' := m[entity := InnerOf(m, entity) - {id}];
    forall e, k ensures Lookup(Flattened(m'), e, k) == Lookup(Flattened(m) - {(entity, id)}, e, k) {
      LookupFlattened(m, e, k);
      LookupFlattened(m', e, k);
    }
    SameObjects(Flattened(m'), Flattened(m) - {(entity, id)});
  }

  /** Every operation, seen through the flattening, changes the objects as the contract promises; touching
      an inner map changes none. */
  lemma {:induction false} FlattenedAfter(s: State, op: Op)
    ensures Flattened(After(s, op).byEntity) ==
            var objects := Flattened(s.byEntity);
            match op
            case Create(entity, data) => objects[(entity, After(s, op).nextId - 1) := data]
            case Update(entity, id, data) => objects[(entity, id) := data]
            case Delete(entity, id) => objects - {(entity, id)}
            case _ => objects
  {
    var m := Touched(s.byEntity, op.entity);
    FlattenedTouched(s.byEntity, op.entity);
    match op
    case Create(entity, data) => FlattenedPut(m, entity, After(s, op).nextId - 1, data);
    case Update(entity, id, data) => FlattenedPut(m, entity, id, data);
    case Delete(entity, id) => FlattenedErased(m, entity, id);
    case _ =>
  }

  lemma {:induction false} LiveIds(m: map<string, Inner>, entity: string)
    ensures IdsOf(Flattened(m), entity) == InnerOf(m, entity).Keys
  {
    FlattenedEverywhere(m);
    forall id ensures id in IdsOf(Flattened(m), entity) <==> id in InnerOf(m, entity).Keys {
      assert (entity, id) in Flattened(m) <==> id in InnerOf(m, entity);
    }
  }

  lemma {:induction false} KeepsPromise(s: State, op: Op, r: Result)
    requires Answers(s, op, r) && s.nextId >= 0
    ensures Promised(Flattened(s.byEntity), op, r, Flattened(After(s, op).byEntity))
    ensures After(s, op).nextId >= s.nextId
  {
    FlattenedAfter(s, op);
    match op
    case Create(entity, _) => LookupFlattened(s.byEntity, entity, r.newId);
    case Read(entity, id) => LookupFlattened(s.byEntity, entity, id);
    case Update(_, _, _) =>
    case Delete(entity, id) => LookupFlattened(s.byEntity, entity, id);
    case List(entity) => LiveIds(s.byEntity, entity);
  }

  // ---------- How far the counter can get ----------

  /** The counter, and how many ids `Update` has planted ahead of it. */
  function Used(s: State): int {
    s.nextId + |IdsFrom(Flattened(s.byEntity), s.nextId)|
  }

  lemma {:induction false} SkipIds(objects: Objects, n: int, r: int)
    requires n <= r && forall k | n <= k < r :: k in IdsFrom(objects, n)
    ensures r + |IdsFrom(objects, r)| <= n + |IdsFrom(objects, n)|
    decreases r - n
  {
    if n < r {
      assert IdsFrom(objects, n) == IdsFrom(objects, n + 1) + {n};
      assert forall k | n + 1 <= k < r :: k in IdsFrom(objects, n) && k != n;
      SkipIds(objects, n + 1, r);
    }
  }

  lemma {:induction false} CreationUses(objects: Objects, entity: string, n: int, r: int, data: string)
    requires n <= r && forall k | n <= k < r :: (entity, k) in objects
    ensures r + 1 + |IdsFrom(objects[(entity, r) := data], r + 1)| <= n + |IdsFrom(objects, n)| + 1
  {
    forall k | n <= k < r ensures k in IdsFrom(objects, n) {
      assert (entity, k) in objects;
    }
    SkipIds(objects, n, r);
    SubsetSize(IdsFrom(objects[(entity, r) := data], r + 1), IdsFrom(objects, r));
  }

  lemma {:induction false} SkippedIdsAreLive(m: map<string, Inner>, entity: string, n: int)
    ensures forall k | n <= k < NextUnused(InnerOf(m, entity).Keys, n) :: (entity, k) in Flattened(m)
  {
    FlattenedEverywhere(m);
  }

  lemma {:induction false} CreationGrowsUsed(s: State, s': State, entity: string, r: int, data: string)
    requires s.nextId <= r && forall k | s.nextId <= k < r :: (entity, k) in Flattened(s.byEntity)
    requires s'.nextId == r + 1 && Flattened(s'.byEntity) == Flattened(s.byEntity)[(entity, r) := data]
    ensures Used(s') <= Used(s) + 1
  {
    CreationUses(Flattened(s.byEntity), entity, s.nextId, r, data);
  }

  lemma {:induction false} UsedGrowsByCreate(s: State, entity: string, data: string)
    ensures Used(After(s, Create(entity, data))) <= Used(s) + 1
  {
    FlattenedAfter(s, Create(entity, data));
    SkippedIdsAreLive(s.byEntity, entity, s.nextId);
    CreationGrowsUsed(s, After(s, Create(entity, data)), entity, After(s, Create(entity, data)).nextId - 1, data);
  }

  /** Each operation uses up one id at most, whatever it skips over: an id that is skipped had been planted. */
  lemma {:induction false} UsedGrows(s: State, op: Op)
    ensures Used(After(s, op)) <= Used(s) + 1
  {
    var objects, n := Flattened(s.byEntity), s.nextId;
    FlattenedAfter(s, op);
    match op
    case Create(entity, data) => UsedGrowsByCreate(s, entity, data);
    case Update(entity, id, data) =>
      SubsetSize(IdsFrom(objects[(entity, id) := data], n), IdsFrom(objects, n) + {id});
    case Delete(entity, id) => SubsetSize(IdsFrom(objects - {(entity, id)}, n), IdsFrom(objects, n));
    case _ =>
  }

  /** The id that comes next is within what is used. */
  lemma {:induction false} NextWithinUsed(s: State, entity: string)
    ensures NextUnused(InnerOf(s.byEntity, entity).Keys, s.nextId) <= Used(s)
  {
    var ids := InnerOf(s.byEntity, entity).Keys;
    LiveIds(s.byEntity, entity);
    forall k: int | k in AtLeast(ids, s.nextId) ensures k in IdsFrom(Flattened(s.byEntity), s.nextId) {
      assert (entity, k) in Flattened(s.byEntity);
    }
    SubsetSize(AtLeast(ids, s.nextId), IdsFrom(Flattened(s.byEntity), s.nextId));
  }

  // ---------- Whole runs ----------

  ghost predicate IsStoreRun(states: seq<State>, ops: seq<Op>, results: seq<Result>) {
    && |states| == |ops| + 1 && |results| == |ops|
    && states[0] == State(map[], 0)
    && forall i | 0 <= i < |ops| :: Answers(states[i], ops[i], results[i]) && states[i + 1] == After(states[i], ops[i])
  }

  lemma {:induction false} CounterGrows(states: seq<State>, ops: seq<Op>, results: seq<Result>, i: nat, j: nat)
    requires IsStoreRun(states, ops, results) && i <= j <= |ops|
    ensures 0 <= states[i].nextId <= states[j].nextId
    decreases j
  {
    if j > 0 {
      CounterGrows(states, ops, results, if i < j then i else j - 1, j - 1);
      assert states[j] == After(states[j - 1], ops[j - 1]);
    }
  }

  lemma {:induction false} UsedIsBounded(states: seq<State>, ops: seq<Op>, results: seq<Result>, i: nat)
    requires IsStoreRun(states, ops, results) && i <= |ops|
    ensures Used(states[i]) <= i
  {
    if i > 0 {
      UsedIsBounded(states, ops, results, i - 1);
      assert states[i] == After(states[i - 1], ops[i - 1]);
      UsedGrows(states[i - 1], ops[i - 1]);
    } else {
      assert Flattened(map[]) == map[] && IdsFrom(map[], 0) == {};
    }
  }

  /** No id is greater than the number of operations before it, whatever ids `Update` has planted: the counter
      cannot leave the range of `int` before as many operations. */
  lemma {:induction false} CreatedIdIsBounded(states: seq<State>, ops: seq<Op>, results: seq<Result>, i: nat)
    requires IsStoreRun(states, ops, results) && i < |ops| && ops[i].Create?
    ensures results[i].newId <= i
  {
    UsedIsBounded(states, ops, results, i);
    NextWithinUsed(states[i], ops[i].entity);
    assert Answers(states[i], ops[i], results[i]);
  }

  /** Over every run, the ids that `Create` returns are strictly increasing, over all entities together and
      whatever was deleted or planted by `Update` in between. */
  lemma {:induction false} CreatedIdsIncrease(states: seq<State>, ops: seq<Op>, results: seq<Result>, i: nat, j: nat)
    requires IsStoreRun(states, ops, results) && i < j < |ops|
    requires ops[i].Create? && ops[j].Create?
    ensures results[i].newId < results[j].newId
  {
    CounterGrows(states, ops, results, i + 1, j);
    assert states[i + 1] == After(states[i], ops[i]);
    assert Answers(states[i], ops[i], results[i]) && Answers(states[j], ops[j], results[j]);
  }

  /** Every run of the store is a run of the contract. */
  lemma {:induction false} RunsKeepPromises(states: seq<State>, ops: seq<Op>, results: seq<Result>)
    requires IsStoreRun(states, ops, results)
    ensures IsRun(seq(|states|, i requires 0 <= i < |states| => Flattened(states[i].byEntity)), ops, results)
  {
    forall i | 0 <= i < |ops|
      ensures Promised(Flattened(states[i].byEntity), ops[i], results[i], Flattened(states[i + 1].byEntity))
    {
      CounterGrows(states, ops, results, 0, i);
      assert Answers(states[i], ops[i], results[i]) && states[i + 1] == After(states[i], ops[i]);
      KeepsPromise(states[i], ops[i], results[i]);
    }
  }
}
