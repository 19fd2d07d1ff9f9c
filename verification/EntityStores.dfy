/** A store of either class, behind the contract that both keep. */
module EntityStores {
  import opened Wrappers
  import opened EntityStore
  import opened EntityStoreValidation
  import M = EntityStoreInMemory
  import P = EntityStorePersistent

  /** The store that a handler shares, of whichever class. */
  datatype AnyStore = InMemory(m: M.Store) | Persistent(p: P.Store)

  function Footprint(s: AnyStore): set<object> {
    match s
    case InMemory(m) => {m}
    case Persistent(p) => {p}
  }

  ghost predicate Valid(s: AnyStore)
    reads Footprint(s)
  {
    match s
    case InMemory(m) => m.nextId >= 0
    case Persistent(p) => p.Valid()
  }

  ghost function ObjectsOf(s: AnyStore): Objects
    reads Footprint(s)
  {
    match s
    case InMemory(m) => M.Flattened(m.byEntity)
    case Persistent(p) => p.objects
  }

  /** There is an `int` left for a new id. */
  ghost predicate HasRoom(s: AnyStore, entity: string)
    reads Footprint(s)
  {
    match s
    case InMemory(m) => m.HasHeadroom(entity)
    case Persistent(p) => |IdsOf(p.objects, entity)| <= INT_MAX
  }

  /** A bound on the ids given and on the objects of any entity. */
  ghost function Used(s: AnyStore): int
    reads Footprint(s)
  {
    match s
    case InMemory(m) => M.Used(m.Value())
    case Persistent(p) => |p.objects|
  }

  lemma {:induction false} RoomWhileUnused(s: AnyStore, entity: string)
    requires Used(s) < INT_MAX
    ensures HasRoom(s, entity)
  {
    match s
    case InMemory(m) => M.NextWithinUsed(m.Value(), entity);
    case Persistent(p) => P.IdsOfSize(p.objects, entity);
  }

  method Create(s: AnyStore, entity: string, data: string) returns (id: int32)
    requires Valid(s) && IsValidEntityName(entity) && HasRoom(s, entity)
    modifies Footprint(s)
    ensures Valid(s) && Promised(old(ObjectsOf(s)), Op.Create(entity, data), Created(id as int), ObjectsOf(s))
    ensures Used(s) <= old(Used(s)) + 1
  {
    match s
    case InMemory(m) =>
      ghost var before := m.Value();
      id := m.Create(entity, data);
      M.UsedGrows(before, Op.Create(entity, data));
      M.KeepsPromise(before, Op.Create(entity, data), Created(id as int));
    case Persistent(p) =>
      ghost var before := p.objects;
      id := p.Create(entity, data);
      P.KeepsPromise(before, Op.Create(entity, data), Created(id as int));
      P.SizeGrows(before, Op.Create(entity, data));
  }

  method Read(s: AnyStore, entity: string, id: int32) returns (out: Option<string>)
    requires Valid(s)
    modifies Footprint(s)
    ensures Valid(s) && Promised(old(ObjectsOf(s)), Op.Read(entity, id as int), Found(out), ObjectsOf(s))
    ensures Used(s) <= old(Used(s)) + 1
  {
    match s
    case InMemory(m) =>
      ghost var before := m.Value();
      out := m.Read(entity, id);
      M.UsedGrows(before, Op.Read(entity, id as int));
      M.KeepsPromise(before, Op.Read(entity, id as int), Found(out));
    case Persistent(p) =>
      out := p.Read(entity, id);
  }

  method Update(s: AnyStore, entity: string, id: int32, data: string) returns (ok: bool)
    requires Valid(s) && IsValidEntityName(entity) && id >= 0
    modifies Footprint(s)
    ensures Valid(s) && Promised(old(ObjectsOf(s)), Op.Update(entity, id as int, data), Done(ok), ObjectsOf(s))
    ensures Used(s) <= old(Used(s)) + 1
  {
    match s
    case InMemory(m) =>
      ghost var before := m.Value();
      ok := m.Update(entity, id, data);
      M.UsedGrows(before, Op.Update(entity, id as int, data));
      M.KeepsPromise(before, Op.Update(entity, id as int, data), Done(ok));
    case Persistent(p) =>
      ghost var before := p.objects;
      ok := p.Update(entity, id, data);
      P.SizeGrows(before, Op.Update(entity, id as int, data));
  }

  method Delete(s: AnyStore, entity: string, id: int32) returns (ok: bool)
    requires Valid(s)
    modifies Footprint(s)
    ensures Valid(s) && Promised(old(ObjectsOf(s)), Op.Delete(entity, id as int), Done(ok), ObjectsOf(s))
    ensures Used(s) <= old(Used(s)) + 1
  {
    match s
    case InMemory(m) =>
      ghost var before := m.Value();
      ok := m.Delete(entity, id);
      M.UsedGrows(before, Op.Delete(entity, id as int));
      M.KeepsPromise(before, Op.Delete(entity, id as int), Done(ok));
    case Persistent(p) =>
      ghost var before := p.objects;
      ok := p.Delete(entity, id);
      P.SizeGrows(before, Op.Delete(entity, id as int));
  }

  method List(s: AnyStore, entity: string) returns (ids: seq<int>)
    requires Valid(s)
    modifies Footprint(s)
    ensures Valid(s) && Promised(old(ObjectsOf(s)), Op.List(entity), Listed(ids), ObjectsOf(s))
    ensures Used(s) <= old(Used(s)) + 1
  {
    match s
    case InMemory(m) =>
      ghost var before := m.Value();
      ids := m.List(entity);
      M.UsedGrows(before, Op.List(entity));
      M.KeepsPromise(before, Op.List(entity), Listed(ids));
    case Persistent(p) =>
      ids := p.List(entity);
      P.KeepsPromise(p.objects, Op.List(entity), Listed(ids));
  }
}
