/** The contract that the entity stores share: one finite map from entities and ids to data. */
module EntityStore {
  import opened Wrappers

  type Objects = map<(string, int), string>

  datatype Op =
    | Create(entity: string, data: string)
    | Read(entity: string, id: int)
    | Update(entity: string, id: int, data: string)
    | Delete(entity: string, id: int)
    | List(entity: string)

  datatype Result =
    | Created(newId: int)
    | Found(out: Option<string>)
    | Done(ok: bool)
    | Listed(ids: seq<int>)

  /** The ids of the objects of an entity. */
  function IdsOf(objects: Objects, entity: string): set<int> {
    set key | key in objects && key.0 == entity :: key.1
  }

  function Lookup(objects: Objects, entity: string, id: int): Option<string> {
    if (entity, id) in objects then Some(objects[(entity, id)]) else None
  }

  lemma {:induction false} Inhabited(ids: set<int>)
    requires ids != {}
    ensures exists id :: id in ids
  {
    if forall id :: id !in ids {
      assert false;
    }
  }

  function AtLeast(ids: set<int>, n: int): set<int> {
    set k | k in ids && k >= n
  }

  /** The ids from `n` on that some object has, of whatever entity. */
  function IdsFrom(objects: Objects, n: int): set<int> {
    set key | key in objects && key.1 >= n :: key.1
  }

  lemma {:induction false} SubsetSize<T>(a: set<T>, b: set<T>)
    requires a <= b
    ensures |a| <= |b|
  {
    assert b == a + (b - a);
  }

  /** The first id from `n` on that is not in use: where the search loops of both stores stop. It lies at
      most as far from `n` as there are ids in use from there on. */
  function NextUnused(ids: set<int>, n: int): (r: int)
    ensures n <= r && r !in ids && forall k | n <= k < r :: k in ids
    ensures r - n <= |AtLeast(ids, n)|
    decreases AtLeast(ids, n)
  {
    if n !in ids then n
    else
      assert AtLeast(ids, n + 1) == AtLeast(ids, n) - {n};
      NextUnused(ids, n + 1)
  }

  predicate NoDuplicates<T(==)>(s: seq<T>) {
    forall i, j | 0 <= i < j < |s| :: s[i] != s[j]
  }

  /** What include/entity_store.h promises of one operation that succeeds: a created object gets an id that
      is not negative and not in use, and nothing else changes. */
  ghost predicate Promised(objects: Objects, op: Op, r: Result, objects': Objects) {
    match op
    case Create(entity, data) =>
      && r.Created? && r.newId >= 0 && (entity, r.newId) !in objects
      && objects' == objects[(entity, r.newId) := data]
    case Read(entity, id) => r == Found(Lookup(objects, entity, id)) && objects' == objects
    case Update(entity, id, data) => r == Done(true) && objects' == objects[(entity, id) := data]
    case Delete(entity, id) => r == Done((entity, id) in objects) && objects' == objects - {(entity, id)}
    case List(entity) =>
      && r.Listed? && NoDuplicates(r.ids)
      && (forall id :: id in r.ids <==> id in IdsOf(objects, entity))
      && objects' == objects
  }

  /** A sequential run: before each event the objects are `states[i]`, after it `states[i + 1]`. */
  ghost predicate IsRun(states: seq<Objects>, ops: seq<Op>, results: seq<Result>) {
    && |states| == |ops| + 1 && |results| == |ops|
    && forall i | 0 <= i < |ops| :: Promised(states[i], ops[i], results[i], states[i + 1])
  }
}
