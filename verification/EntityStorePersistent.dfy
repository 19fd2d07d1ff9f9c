/** The persistent store (`EntityStorePersistent`): a directory for each entity, and in it a file for each
    object, named by the decimal spelling of its id. */
module EntityStorePersistent {
  import opened Wrappers
  import opened EntityStore
  import opened EntityStoreValidation
  import opened Sorting

  type Files = map<string, string>

  // ---------- Paths ----------

  function EntityDirectory(root: string, entity: string): string {
    root + "/" + entity
  }

  function EntityFilePath(root: string, entity: string, id: nat): string {
    EntityDirectory(root, entity) + "/" + Decimal(id)
  }

  /** Where the file of an object is: two components below the root. */
  lemma {:induction false} FilePaths(root: string, entity: string, id: nat)
    ensures EntityFilePath(root, entity, id) == root + ("/" + (entity + ("/" + Decimal(id))))
  {
    assert root + "/" + entity + "/" + Decimal(id) == root + ("/" + (entity + ("/" + Decimal(id))));
  }

  /** The key of an object that has a file. */
  predicate IsKey(key: (string, int)) {
    IsValidEntityName(key.0) && 0 <= key.1 <= INT_MAX
  }

  lemma {:induction false} FirstSlash(e: string, name: string, f: string, other: string)
    requires '/' !in e && '/' !in f && e + "/" + name == f + "/" + other
    ensures e == f && name == other
  {
    var p := e + "/" + name;
    assert p[|e|] == '/' && p[|f|] == '/';
    assert forall i | 0 <= i < |e| :: p[i] == e[i] && e[i] in e;
    assert forall i | 0 <= i < |f| :: p[i] == f[i] && f[i] in f;
    assert |e| == |f|;
    assert p[..|e|] == e && p[|e| + 1..] == name;
    assert p[..|f|] == f && p[|f| + 1..] == other;
  }

  lemma {:induction false} NoSlash(entity: string)
    requires IsValidEntityName(entity)
    ensures '/' !in entity
  {
  }

  /** A path in the directory of an entity tells the entity and the name of the file. */
  lemma {:induction false} PathTells(root: string, e: string, name: string, f: string, other: string)
    requires IsValidEntityName(e) && IsValidEntityName(f)
    requires EntityDirectory(root, e) + "/" + name == EntityDirectory(root, f) + "/" + other
    ensures e == f && name == other
  {
    NoSlash(e);
    NoSlash(f);
    var p := EntityDirectory(root, e) + "/" + name;
    assert p[|root| + 1..] == e + "/" + name;
    assert p[|root| + 1..] == f + "/" + other;
    FirstSlash(e, name, f, other);
  }

  /** Distinct objects have distinct files. */
  lemma {:induction false} PathsDiffer(root: string, a: (string, int), b: (string, int))
    requires IsKey(a) && IsKey(b)
    ensures EntityFilePath(root, a.0, a.1) == EntityFilePath(root, b.0, b.1) <==> a == b
  {
    if EntityFilePath(root, a.0, a.1) == EntityFilePath(root, b.0, b.1) {
      PathTells(root, a.0, Decimal(a.1), b.0, Decimal(b.1));
      DecimalInjective(a.1, b.1);
    }
  }

  // ---------- What a directory tree stands for ----------

  /** The files and directories below `root` are those of the objects, and no others. */
  ghost predicate Stands(root: string, files: Files, dirs: set<string>, objects: Objects) {
    && (forall key :: key in objects ==>
         && IsKey(key)
         && EntityDirectory(root, key.0) in dirs
         && EntityFilePath(root, key.0, key.1) in files
         && files[EntityFilePath(root, key.0, key.1)] == objects[key])
    && (forall path :: path in files ==>
         exists key :: key in objects && IsKey(key) && path == EntityFilePath(root, key.0, key.1))
  }

  /** A directory tree stands for one finite map at most. */
  lemma {:induction false} StandsForOne(root: string, files: Files, dirs: set<string>, a: Objects, b: Objects)
    requires Stands(root, files, dirs, a) && Stands(root, files, dirs, b)
    ensures a == b
  {
    KeysAmong(root, files, dirs, a, b);
    KeysAmong(root, files, dirs, b, a);
    assert a.Keys == b.Keys;
  }

  lemma {:induction false} KeysAmong(root: string, files: Files, dirs: set<string>, a: Objects, b: Objects)
    requires Stands(root, files, dirs, a) && Stands(root, files, dirs, b)
    ensures forall key :: key in a ==> key in b && a[key] == b[key]
  {
    forall key | key in a ensures key in b && a[key] == b[key] {
      var path := EntityFilePath(root, key.0, key.1);
      var other :| other in b && IsKey(other) && path == EntityFilePath(root, other.0, other.1);
      PathsDiffer(root, key, other);
    }
  }

  lemma {:induction false} StandsAfterPut(root: string, files: Files, dirs: set<string>, objects: Objects,
                       key: (string, int), data: string)
    requires Stands(root, files, dirs, objects) && IsKey(key)
    ensures Stands(root, files[EntityFilePath(root, key.0, key.1) := data], dirs + {EntityDirectory(root, key.0)},
                   objects[key := data])
  {
    var path := EntityFilePath(root, key.0, key.1);
    var files', objects' := files[path := data], objects[key := data];
    forall k | k in objects'
      ensures IsKey(k) && EntityFilePath(root, k.0, k.1) in files'
      ensures files'[EntityFilePath(root, k.0, k.1)] == objects'[k]
    {
      PathsDiffer(root, key, k);
    }
    forall p | p in files' ensures exists k :: k in objects' && IsKey(k) && p == EntityFilePath(root, k.0, k.1) {
      if p == path {
        assert key in objects';
      } else {
        var k :| k in objects && IsKey(k) && p == EntityFilePath(root, k.0, k.1);
        assert k in objects';
      }
    }
  }

  /** An object is there exactly when its file is. */
  lemma {:induction false} FileOf(root: string, files: Files, dirs: set<string>, objects: Objects, key: (string, int))
    requires Stands(root, files, dirs, objects) && IsKey(key)
    ensures EntityFilePath(root, key.0, key.1) in files <==> key in objects
    ensures key in objects ==> files[EntityFilePath(root, key.0, key.1)] == objects[key]
  {
    var path := EntityFilePath(root, key.0, key.1);
    if path in files {
      var k :| k in objects && IsKey(k) && path == EntityFilePath(root, k.0, k.1);
      PathsDiffer(root, key, k);
    }
  }

  lemma {:induction false} StandsAfterRemove(root: string, files: Files, dirs: set<string>, objects: Objects,
                                             key: (string, int))
    requires Stands(root, files, dirs, objects) && IsKey(key)
    ensures Stands(root, files - {EntityFilePath(root, key.0, key.1)}, dirs, objects - {key})
  {
    var path := EntityFilePath(root, key.0, key.1);
    var files', objects' := files - {path}, objects - {key};
    forall k | k in objects' ensures EntityFilePath(root, k.0, k.1) in files' {
      PathsDiffer(root, key, k);
    }
    forall p | p in files' ensures exists k :: k in objects' && IsKey(k) && p == EntityFilePath(root, k.0, k.1) {
      var k :| k in objects && IsKey(k) && p == EntityFilePath(root, k.0, k.1);
      assert k in objects';
    }
  }

  // ---------- Directory entries ----------

  predicate IsEntry(dir: string, path: string) {
    |path| > |dir| && path[..|dir| + 1] == dir + "/" && '/' !in path[|dir| + 1..]
  }

  /** The names of the regular files in a directory. */
  function Entries(files: Files, dir: string): set<string> {
    set path | path in files && IsEntry(dir, path) :: path[|dir| + 1..]
  }

  /** The name of the file of some object. */
  predicate IsSpelling(name: string) {
    InRange(name) && ParsedId(name).Some? && name == Decimal(ParsedId(name).value)
  }

  function Spelled(name: string): nat
    requires IsSpelling(name)
  {
    ParsedId(name).value
  }

  function Elements(ids: seq<int>): set<int> {
    set id | id in ids
  }

  /** The ids that are left in `names`, with those already gathered, are the live ones. */
  ghost predicate Gathered(live: set<int>, ids: set<int>, names: set<string>) {
    && (forall name :: name in names ==> IsSpelling(name) && Spelled(name) in live && Spelled(name) !in ids)
    && (forall id: int :: id in ids ==> id in live)
    && (forall id: int :: id in live ==> id in ids || (0 <= id && Decimal(id) in names))
  }

  lemma {:induction false} GatherOne(live: set<int>, ids: set<int>, names: set<string>, name: string)
    requires Gathered(live, ids, names) && name in names
    ensures IsSpelling(name) && Spelled(name) !in ids
    ensures Gathered(live, ids + {Spelled(name)}, names - {name})
  {
    var id := Spelled(name);
    forall k: int | k in live && k !in ids + {id} ensures 0 <= k && Decimal(k) in names - {name} {
      DecimalInjective(k, id);
    }
  }

  /** The same when the ids gathered are a list. */
  lemma {:induction false} ListOne(live: set<int>, ids: seq<int>, names: set<string>, name: string)
    requires NoDuplicates(ids) && Gathered(live, Elements(ids), names) && name in names
    ensures IsSpelling(name)
    ensures NoDuplicates(ids + [Spelled(name)])
    ensures Gathered(live, Elements(ids + [Spelled(name)]), names - {name})
  {
    GatherOne(live, Elements(ids), names, name);
    assert forall i | 0 <= i < |ids| :: ids[i] in Elements(ids);
    assert Elements(ids + [Spelled(name)]) == Elements(ids) + {Spelled(name)};
  }

  /** The entries of an entity's directory are the spellings of its live ids. */
  lemma {:induction false} EntriesAreIds(root: string, files: Files, dirs: set<string>, objects: Objects,
                                         entity: string)
    requires Stands(root, files, dirs, objects) && IsValidEntityName(entity)
    ensures Gathered(IdsOf(objects, entity), {}, Entries(files, EntityDirectory(root, entity)))
  {
    var dir := EntityDirectory(root, entity);
    forall name | name in Entries(files, dir) ensures IsSpelling(name) && Spelled(name) in IdsOf(objects, entity) {
      EntryIsId(root, files, dirs, objects, entity, name);
    }
    forall id: int | id in IdsOf(objects, entity) ensures 0 <= id && Decimal(id) in Entries(files, dir) {
      var key :| key in objects && key == (entity, id);
      var path := EntityFilePath(root, entity, id);
      assert path[..|dir| + 1] == dir + "/" && path[|dir| + 1..] == Decimal(id);
    }
  }

  lemma {:induction false} EntryPath(dir: string, path: string)
    requires IsEntry(dir, path)
    ensures path == dir + "/" + path[|dir| + 1..]
  {
    assert path == path[..|dir| + 1] + path[|dir| + 1..];
  }

  lemma {:induction false} EntryIsId(root: string, files: Files, dirs: set<string>, objects: Objects,
                                     entity: string, name: string)
    requires Stands(root, files, dirs, objects) && IsValidEntityName(entity)
    requires name in Entries(files, EntityDirectory(root, entity))
    ensures IsSpelling(name) && Spelled(name) in IdsOf(objects, entity)
  {
    var dir := EntityDirectory(root, entity);
    var path :| path in files && IsEntry(dir, path) && path[|dir| + 1..] == name;
    var key :| key in objects && IsKey(key) && path == EntityFilePath(root, key.0, key.1);
    EntryPath(dir, path);
    PathTells(root, entity, name, key.0, Decimal(key.1));
    ParseSpelled(key.1);
    assert key == (entity, Spelled(name));
  }

  // ---------- The store as a function of its objects ----------

  function After(objects: Objects, op: Op): Objects {
    match op
    case Create(entity, data) =>
      if IsValidEntityName(entity) then objects[(entity, NextUnused(IdsOf(objects, entity), 0)) := data] else objects
    case Update(entity, id, data) =>
      if id >= 0 && IsValidEntityName(entity) then objects[(entity, id) := data] else objects
    case Delete(entity, id) => objects - {(entity, id)}
    case _ => objects
  }

  ghost predicate Answers(objects: Objects, op: Op, r: Result) {
    match op
    case Create(entity, _) =>
      r == Created(if IsValidEntityName(entity) then NextUnused(IdsOf(objects, entity), 0) else -1)
    case Read(entity, id) => r == Found(Lookup(objects, entity, id))
    case Update(entity, id, _) => r == Done(id >= 0 && IsValidEntityName(entity))
    case Delete(entity, id) => r == Done((entity, id) in objects)
    case List(entity) =>
      r.Listed? && Ascending(r.ids) && forall id: int :: id in r.ids <==> id in IdsOf(objects, entity)
  }

  // ---------- Loops over a directory ----------

  lemma {:induction false} NamesInhabited(names: set<string>)
    requires names != {}
    ensures exists name :: name in names
  {
    if forall name :: name !in names {
      assert false;
    }
  }

  method ParseName(name: string) returns (ok: bool, id: int32)
    requires IsSpelling(name)
    ensures ok && id as int == Spelled(name)
  {
    ok, id := ParseId(name);
  }

  /** Gathers all ids in use, in whatever order the directory has its entries. */
  method GatherIds(names: set<string>, ghost live: set<int>) returns (ids: set<int>)
    requires Gathered(live, {}, names)
    ensures ids == live
  {
    ids := {};
    var todo := names;
    while todo != {}
      invariant Gathered(live, ids, todo)
      decreases |todo|
    {
      NamesInhabited(todo);
      var name :| name in todo;
      GatherOne(live, ids, todo, name);
      var ok, parsed := ParseName(name);
      if ok {
        ids := ids + {parsed as int};
      }
      todo := todo - {name};
    }
    assert forall id: int :: id in ids <==> id in live;
  }

  /** The same into a list. */
  method ListIds(names: set<string>, ghost live: set<int>) returns (ids: seq<int>)
    requires Gathered(live, {}, names)
    ensures NoDuplicates(ids) && forall id: int :: id in ids <==> id in live
  {
    ids := [];
    var todo := names;
    while todo != {}
      invariant NoDuplicates(ids) && Gathered(live, Elements(ids), todo)
      decreases |todo|
    {
      NamesInhabited(todo);
      var name :| name in todo;
      ListOne(live, ids, todo, name);
      var ok, parsed := ParseName(name);
      if ok {
        ids := ids + [parsed as int];
      }
      todo := todo - {name};
    }
    assert forall id: int :: id in ids <==> id in Elements(ids);
  }

  method LeastUnused(ids: set<int>) returns (nextId: int32)
    requires |ids| <= INT_MAX
    ensures nextId as int == NextUnused(ids, 0)
  {
    LeastWithinSize(ids);
    nextId := 0;
    while nextId as int in ids
      invariant 0 <= nextId as int <= NextUnused(ids, 0)
      decreases NextUnused(ids, 0) - nextId as int
    {
      nextId := nextId + 1;
    }
  }

  // ---------- The store ----------

  class Store {
    const dataRoot: string
    var files: Files
    var dirs: set<string>
    ghost var objects: Objects

    ghost predicate Valid()
      reads this
    {
      Stands(dataRoot, files, dirs, objects)
    }

    /** A store on what is already below `dataPath`: nothing, or what an earlier store left there. */
    constructor (dataPath: string, files: Files, dirs: set<string>, ghost objects: Objects)
      requires Stands(dataPath, files, dirs, objects)
      ensures Valid() && this.objects == objects && dataRoot == dataPath
    {
      this.dataRoot, this.objects := dataPath, objects;
      this.files, this.dirs := files, dirs + {dataPath};
    }

    method EnsureEntityDirectory(entity: string)
      requires Valid()
      modifies this`dirs
      ensures Valid() && objects == old(objects)
      ensures dirs == old(dirs) + {EntityDirectory(dataRoot, entity)}
    {
      dirs := dirs + {EntityDirectory(dataRoot, entity)};
    }

    /** Opens the file of an object, truncating it, and writes the data. */
    method WriteFile(entity: string, id: int32, data: string)
      requires Valid() && IsKey((entity, id as int)) && EntityDirectory(dataRoot, entity) in dirs
      modifies this`files, this`objects
      ensures Valid() && objects == old(objects)[(entity, id as int) := data]
    {
      StandsAfterPut(dataRoot, files, dirs, objects, (entity, id as int), data);
      assert dirs + {EntityDirectory(dataRoot, entity)} == dirs;
      files := files[EntityFilePath(dataRoot, entity, id as int) := data];
      objects := objects[(entity, id as int) := data];
    }

    /** The search stays in range unless every `int` that is not negative is in use. */
    method Create(entity: string, data: string) returns (id: int32)
      requires Valid() && |IdsOf(objects, entity)| <= INT_MAX
      modifies this
      ensures Valid() && objects == After(old(objects), Op.Create(entity, data))
      ensures Answers(old(objects), Op.Create(entity, data), Created(id as int))
    {
      if !IsValidEntityName(entity) {
        return -1;
      }
      EnsureEntityDirectory(entity);
      ghost var live := IdsOf(objects, entity);
      EntriesAreIds(dataRoot, files, dirs, objects, entity);
      var ids := GatherIds(Entries(files, EntityDirectory(dataRoot, entity)), live);
      var nextId := LeastUnused(ids);
      WriteFile(entity, nextId, data);
      return nextId;
    }

    method Read(entity: string, id: int32) returns (out: Option<string>)
      requires Valid()
      ensures Answers(objects, Op.Read(entity, id as int), Found(out))
    {
      if id < 0 || !IsValidEntityName(entity) {
        return None;
      }
      var path := EntityFilePath(dataRoot, entity, id as int);
      FileOf(dataRoot, files, dirs, objects, (entity, id as int));
      return if path in files then Some(files[path]) else None;
    }

    method Update(entity: string, id: int32, data: string) returns (ok: bool)
      requires Valid()
      modifies this
      ensures Valid() && objects == After(old(objects), Op.Update(entity, id as int, data))
      ensures Answers(old(objects), Op.Update(entity, id as int, data), Done(ok))
    {
      if id < 0 || !IsValidEntityName(entity) {
        return false;
      }
      EnsureEntityDirectory(entity);
      WriteFile(entity, id, data);
      return true;
    }

    /** Removes the file of an object, if there is one. */
    method RemoveFile(entity: string, id: int32) returns (removed: bool)
      requires Valid() && IsKey((entity, id as int))
      modifies this`files, this`objects
      ensures Valid() && objects == old(objects) - {(entity, id as int)}
      ensures removed == ((entity, id as int) in old(objects))
    {
      var path := EntityFilePath(dataRoot, entity, id as int);
      StandsAfterRemove(dataRoot, files, dirs, objects, (entity, id as int));
      FileOf(dataRoot, files, dirs, objects, (entity, id as int));
      removed := path in files;
      files := files - {path};
      objects := objects - {(entity, id as int)};
    }

    method Delete(entity: string, id: int32) returns (ok: bool)
      requires Valid()
      modifies this
      ensures Valid() && objects == After(old(objects), Op.Delete(entity, id as int))
      ensures Answers(old(objects), Op.Delete(entity, id as int), Done(ok))
    {
      if id < 0 || !IsValidEntityName(entity) {
        assert objects - {(entity, id as int)} == objects;
        return false;
      }
      ok := RemoveFile(entity, id);
    }

    method List(entity: string) returns (ids: seq<int>)
      requires Valid()
      ensures Answers(objects, Op.List(entity), Listed(ids))
    {
      ids := [];
      var dir := EntityDirectory(dataRoot, entity);
      if !IsValidEntityName(entity) || dir !in dirs {
        assert forall key :: key in objects ==> key.0 != entity;
        return;
      }
      ghost var live := IdsOf(objects, entity);
      EntriesAreIds(dataRoot, files, dirs, objects, entity);
      ids := ListIds(Entries(files, dir), live);
      SortKeeps(ids);
      SortAscends(ids);
      ids := Sort(ids);
    }
  }

  // ---------- Refinement and whole runs ----------

  /** Pigeonhole: the least unused id is at most the number of ids in use. */
  lemma {:induction false} LeastWithinSize(ids: set<int>)
    ensures 0 <= NextUnused(ids, 0) <= |ids|
  {
    SubsetSize(AtLeast(ids, 0), ids);
  }

  lemma {:induction false} IdsOfSize(objects: Objects, entity: string)
    ensures |IdsOf(objects, entity)| <= |objects|
    decreases |objects|
  {
    if key :| key in objects {
      IdsOfSize(objects - {key}, entity);
      SubsetSize(IdsOf(objects, entity), IdsOf(objects - {key}, entity) + {key.1});
      assert |objects - {key}| == |objects| - 1;
    } else {
      assert IdsOf(objects, entity) == {};
    }
  }

  /** An operation adds one object at most. */
  lemma {:induction false} SizeGrows(objects: Objects, op: Op)
    ensures |After(objects, op)| <= |objects| + 1
  {
    match op
    case Create(entity, _) =>
      SubsetSize(After(objects, op).Keys, objects.Keys + {(entity, NextUnused(IdsOf(objects, entity), 0))});
    case Update(entity, id, _) => SubsetSize(After(objects, op).Keys, objects.Keys + {(entity, id)});
    case _ => SubsetSize(After(objects, op).Keys, objects.Keys);
  }

  /** The requests that the store does not turn down. */
  predicate IsServed(op: Op) {
    match op
    case Create(entity, _) => IsValidEntityName(entity)
    case Update(entity, id, _) => id >= 0 && IsValidEntityName(entity)
    case _ => true
  }

  /** Every operation refines the contract of the stores, or is turned down and changes nothing; a new id is
      the least one that is not in use, and no larger than the number of live objects of the entity. */
  lemma {:induction false} KeepsPromise(objects: Objects, op: Op, r: Result)
    requires Answers(objects, op, r)
    ensures if IsServed(op) then Promised(objects, op, r, After(objects, op))
            else After(objects, op) == objects && (r == Created(-1) || r == Done(false))
    ensures op.Create? && IsServed(op) ==>
              && 0 <= r.newId <= |IdsOf(objects, op.entity)|
              && forall id | 0 <= id < r.newId :: (op.entity, id) in objects
  {
    assert forall id: int :: id in IdsOf(objects, op.entity) <==> (op.entity, id) in objects;
    LeastWithinSize(IdsOf(objects, op.entity));
  }

  ghost predicate IsStoreRun(states: seq<Objects>, ops: seq<Op>, results: seq<Result>) {
    && |states| == |ops| + 1 && |results| == |ops|
    && states[0] == map[]
    && forall i | 0 <= i < |ops| :: Answers(states[i], ops[i], results[i]) && states[i + 1] == After(states[i], ops[i])
  }

  /** How many objects of an entity the first `n` operations create. */
  function Creates(ops: seq<Op>, entity: string, n: nat): nat
    requires n <= |ops|
  {
    if n == 0 then 0
    else Creates(ops, entity, n - 1) + if ops[n - 1].Create? && ops[n - 1].entity == entity then 1 else 0
  }

  /** No id of the entity is planted or freed. */
  predicate OnlyCreates(ops: seq<Op>, entity: string) {
    forall i | 0 <= i < |ops| :: (ops[i].Update? || ops[i].Delete?) ==> ops[i].entity != entity
  }

  /** The ids of the entity are those below `n`. */
  ghost predicate AreBelow(objects: Objects, entity: string, n: nat) {
    forall id: int :: (entity, id) in objects <==> 0 <= id < n
  }

  lemma {:induction false} LeastAbove(objects: Objects, entity: string, n: nat)
    requires AreBelow(objects, entity, n)
    ensures NextUnused(IdsOf(objects, entity), 0) == n
  {
    var ids := IdsOf(objects, entity);
    assert forall id: int :: id in ids <==> (entity, id) in objects;
    var r := NextUnused(ids, 0);
    assert r !in ids;
    assert n !in ids;
    assert r < n ==> r in ids;
    assert forall k | 0 <= k < r :: k in ids;
  }

  lemma {:induction false} OneMore(objects: Objects, op: Op, entity: string, n: nat)
    requires AreBelow(objects, entity, n) && IsValidEntityName(entity)
    requires op.Update? || op.Delete? ==> op.entity != entity
    ensures AreBelow(After(objects, op), entity, if op.Create? && op.entity == entity then n + 1 else n)
  {
    LeastAbove(objects, entity, n);
  }

  lemma {:induction false} IdsFillUp(states: seq<Objects>, ops: seq<Op>, results: seq<Result>, entity: string, n: nat)
    requires IsStoreRun(states, ops, results) && n <= |ops|
    requires IsValidEntityName(entity) && OnlyCreates(ops, entity)
    ensures AreBelow(states[n], entity, Creates(ops, entity, n))
  {
    if n > 0 {
      IdsFillUp(states, ops, results, entity, n - 1);
      assert states[n] == After(states[n - 1], ops[n - 1]);
      OneMore(states[n - 1], ops[n - 1], entity, Creates(ops, entity, n - 1));
    }
  }

  /** On a fresh entity without updates and deletes, whatever happens to other entities, the n-th object
      created has id n. */
  lemma {:induction false} CreatesCountUp(states: seq<Objects>, ops: seq<Op>, results: seq<Result>,
                                          entity: string, n: nat)
    requires IsStoreRun(states, ops, results) && n < |ops|
    requires IsValidEntityName(entity) && OnlyCreates(ops, entity)
    requires ops[n].Create? && ops[n].entity == entity
    ensures results[n] == Created(Creates(ops, entity, n))
  {
    IdsFillUp(states, ops, results, entity, n);
    assert Answers(states[n], ops[n], results[n]);
    LeastAbove(states[n], entity, Creates(ops, entity, n));
  }
}
