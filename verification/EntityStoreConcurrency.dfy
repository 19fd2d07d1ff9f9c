/** The in-memory store used by any number of threads: each operation is split at its lock, its reads, its
    writes and its loop tests, and the threads are interleaved in any way. Every such run is linearizable
    to the contract of the stores. */
module EntityStoreConcurrency {
  import opened Wrappers
  import opened EntityStore
  import M = EntityStoreInMemory

  type Thread = int

  /** What a thread is about to do. From `Entered` to `Leaving` it holds the mutex. */
  datatype Pc =
    | Idle
    | Called(op: Op)                                      // take the mutex
    | Entered(op: Op)                                     // operator[] of the outer map
    | Searching(op: Op)                                   // test whether next_id_ is in use
    | Skipping(op: Op)                                    // read next_id_, to step over it
    | SkippingTo(op: Op, n: int)                          // write it back
    | Taking(op: Op)                                      // int id = next_id_
    | Counting(op: Op, id: int)                           // read next_id_, to count on
    | CountingTo(op: Op, id: int, n: int)                 // write it back
    | Storing(op: Op, id: int)                            // write the object
    | Finding(op: Op)                                     // find the object
    | Copying(op: Op)                                     // copy its data out
    | Erasing(op: Op)                                     // erase the object
    | Collecting(op: Op, todo: set<int>, ids: seq<int>)   // go round the loop of List
    | Leaving(op: Op, r: Result)                          // give the mutex back
    | Answered(op: Op, r: Result)                         // return

  datatype Event =
    | Invocation(thread: Thread, op: Op)
    | Effect(thread: Thread, op: Op, r: Result)
    | Response(thread: Thread, op: Op, r: Result)

  datatype State = State(
    byEntity: map<string, M.Inner>,
    nextId: int,
    owner: Option<Thread>,
    threads: map<Thread, Pc>,
    history: seq<Event>)

  const INITIAL := State(map[], 0, None, map[], [])

  function PcOf(s: State, t: Thread): Pc {
    if t in s.threads then s.threads[t] else Idle
  }

  function Goto(s: State, t: Thread, pc: Pc): State {
    s.(threads := s.threads[t := pc])
  }

  predicate HoldsMutex(pc: Pc) {
    !pc.Idle? && !pc.Called? && !pc.Answered?
  }

  /** A thread's next step; `pick` is the id that the loop of `List` meets next. */
  datatype Action = Call(thread: Thread, op: Op) | Go(thread: Thread, pick: int)

  function FirstStep(op: Op): Pc {
    match op
    case Create(_, _) => Searching(op)
    case Read(_, _) => Finding(op)
    case Update(_, id, _) => Storing(op, id)
    case Delete(_, _) => Erasing(op)
    case List(_) => Idle
  }

  /** The state after an action; an action that cannot happen changes nothing. */
  function Apply(s: State, a: Action): State {
    var t := a.thread;
    match a
    case Call(_, op) =>
      if PcOf(s, t).Idle? then Goto(s, t, Called(op)).(history := s.history + [Invocation(t, op)]) else s
    case Go(_, pick) =>
      match PcOf(s, t)
      case Idle => s
      case Called(op) => if s.owner.None? then Goto(s, t, Entered(op)).(owner := Some(t)) else s
      case Answered(op, r) => Goto(s, t, Idle).(history := s.history + [Response(t, op, r)])
      case Leaving(op, r) => Goto(s, t, Answered(op, r)).(owner := None, history := s.history + [Effect(t, op, r)])
      case pc => Inside(s, t, pc, pick)
  }

  /** A step of a thread that holds the mutex. */
  function Inside(s: State, t: Thread, pc: Pc, pick: int): State
    requires HoldsMutex(pc) && !pc.Leaving?
  {
    var op := pc.op;
    var inner := M.InnerOf(s.byEntity, op.entity);
    match pc
    case Entered(_) =>
      var s' := s.(byEntity := M.Touched(s.byEntity, op.entity));
      Goto(s', t, if op.List? then Collecting(op, inner.Keys, []) else FirstStep(op))
    case Searching(_) => Goto(s, t, if s.nextId in inner then Skipping(op) else Taking(op))
    case Skipping(_) => Goto(s, t, SkippingTo(op, s.nextId))
    case SkippingTo(_, n) => Goto(s, t, Searching(op)).(nextId := n + 1)
    case Taking(_) => Goto(s, t, Counting(op, s.nextId))
    case Counting(_, id) => Goto(s, t, CountingTo(op, id, s.nextId))
    case CountingTo(_, id, n) => Goto(s, t, Storing(op, id)).(nextId := n + 1)
    case Storing(_, id) =>
      var data := if op.Create? || op.Update? then op.data else "";
      Goto(s, t, Leaving(op, if op.Create? then Created(id) else Done(true)))
        .(byEntity := s.byEntity[op.entity := inner[id := data]])
    case Finding(_) =>
      var id := if op.Read? then op.id else 0;
      Goto(s, t, if id in inner then Copying(op) else Leaving(op, Found(None)))
    case Copying(_) =>
      var id := if op.Read? then op.id else 0;
      Goto(s, t, Leaving(op, Found(if id in inner then Some(inner[id]) else None)))
    case Erasing(_) =>
      var id := if op.Delete? then op.id else 0;
      Goto(s, t, Leaving(op, Done(id in inner))).(byEntity := s.byEntity[op.entity := inner - {id}])
    case Collecting(_, todo, ids) =>
      if todo == {} then Goto(s, t, Leaving(op, Listed(ids)))
      else if pick in todo then Goto(s, t, Collecting(op, todo - {pick}, ids + [pick]))
      else s
  }

  function Exec(actions: seq<Action>): State {
    if actions == [] then INITIAL else Apply(Exec(actions[..|actions| - 1]), actions[|actions| - 1])
  }

  // ---------- Linearizability ----------

  datatype Phase = Out | Waiting(op: Op) | Effective(op: Op, r: Result)

  /** Where a thread stands after a history: outside the store, in an operation that has not taken effect,
      or in one that has. */
  function PhaseOf(history: seq<Event>, t: Thread): Phase {
    if history == [] then Out
    else
      var e := history[|history| - 1];
      if e.thread != t then PhaseOf(history[..|history| - 1], t)
      else PhaseAfter(e)
  }

  function PhaseAfter(e: Event): Phase {
    match e
    case Invocation(_, op) => Waiting(op)
    case Effect(_, op, r) => Effective(op, r)
    case Response(_, _, _) => Out
  }

  /** The phase in which a thread must be for an event to happen. */
  function PhaseBefore(e: Event): Phase {
    match e
    case Invocation(_, op) => Out
    case Effect(_, op, _) => Waiting(op)
    case Response(_, op, r) => Effective(op, r)
  }

  /** Every operation takes effect once, between its invocation and its response, with the result that is
      returned; each thread has one operation at a time. */
  ghost predicate WellFormed(history: seq<Event>) {
    forall j | 0 <= j < |history| :: PhaseOf(history[..j], history[j].thread) == PhaseBefore(history[j])
  }

  /** In the order in which they take effect, the operations are a sequential run of the contract, from no
      objects to `objects`. */
  ghost predicate Replays(history: seq<Event>, objects: Objects) {
    if history == [] then objects == map[]
    else
      var init, e := history[..|history| - 1], history[|history| - 1];
      if e.Effect? then exists before :: Replays(init, before) && Promised(before, e.op, e.r, objects)
      else Replays(init, objects)
  }

  ghost predicate Linearizable(history: seq<Event>) {
    WellFormed(history) && exists objects :: Replays(history, objects)
  }

  // ---------- The invariant ----------

  function PhaseAt(pc: Pc): Phase {
    match pc
    case Idle => Out
    case Answered(op, r) => Effective(op, r)
    case _ => Waiting(pc.op)
  }

  predicate OpFits(pc: Pc) {
    match pc
    case Searching(op) => op.Create?
    case Skipping(op) => op.Create?
    case SkippingTo(op, _) => op.Create?
    case Taking(op) => op.Create?
    case Counting(op, _) => op.Create?
    case CountingTo(op, _, _) => op.Create?
    case Storing(op, id) => op.Create? || op == Update(op.entity, id, if op.Update? then op.data else "")
    case Finding(op) => op.Read?
    case Copying(op) => op.Read?
    case Erasing(op) => op.Delete?
    case Collecting(op, _, _) => op.List?
    case _ => true
  }

  /** How far the thread that holds the mutex has got, starting from the objects `before`. */
  ghost predicate Progress(s: State, pc: Pc, before: Objects)
    requires HoldsMutex(pc)
  {
    var inner := M.InnerOf(s.byEntity, pc.op.entity);
    && OpFits(pc)
    && (!pc.Leaving? ==> M.Flattened(s.byEntity) == before)
    && match pc
       case SkippingTo(_, n) => n == s.nextId
       case Taking(_) => s.nextId !in inner
       case Counting(_, id) => id !in inner && 0 <= id == s.nextId
       case CountingTo(_, id, n) => id !in inner && 0 <= id == n
       case Storing(op, id) => op.Create? ==> id !in inner && 0 <= id
       case Collecting(_, todo, ids) =>
         && NoDuplicates(ids)
         && (forall k: int :: k in ids || k in todo <==> k in inner)
         && (forall k: int :: k in ids ==> k !in todo)
       case Leaving(op, r) => Promised(before, op, r, M.Flattened(s.byEntity))
       case _ => true
  }

  ghost predicate MutexInv(s: State, committed: Objects) {
    && s.nextId >= 0
    && (forall t :: HoldsMutex(PcOf(s, t)) <==> s.owner == Some(t))
    && (s.owner.None? ==> M.Flattened(s.byEntity) == committed)
    && (s.owner.Some? ==> Progress(s, PcOf(s, s.owner.value), committed))
  }

  ghost predicate HistoryInv(history: seq<Event>, committed: Objects) {
    WellFormed(history) && Replays(history, committed)
  }

  ghost predicate PhasesInv(s: State) {
    forall t :: PhaseOf(s.history, t) == PhaseAt(PcOf(s, t))
  }

  ghost predicate Inv(s: State, committed: Objects) {
    MutexInv(s, committed) && HistoryInv(s.history, committed) && PhasesInv(s)
  }

  lemma {:induction false} HistoryGrows(history: seq<Event>, e: Event, before: Objects, after: Objects)
    requires HistoryInv(history, before) && PhaseOf(history, e.thread) == PhaseBefore(e)
    requires if e.Effect? then Promised(before, e.op, e.r, after) else after == before
    ensures HistoryInv(history + [e], after)
  {
    var longer := history + [e];
    assert longer[..|history|] == history;
    forall j | 0 <= j < |longer| ensures PhaseOf(longer[..j], longer[j].thread) == PhaseBefore(longer[j]) {
      assert longer[..j] == history[..j];
      if j == |history| {
        assert history[..j] == history;
      }
    }
  }

  lemma {:induction false} PhasesGrow(s: State, s': State, e: Event)
    requires PhasesInv(s) && s'.history == s.history + [e] && s'.threads == s.threads[e.thread := PcOf(s', e.thread)]
    requires PhaseAt(PcOf(s', e.thread)) == PhaseAfter(e)
    ensures PhasesInv(s')
  {
    assert s'.history[..|s.history|] == s.history;
    forall u ensures PhaseOf(s'.history, u) == PhaseAt(PcOf(s', u)) {
      assert u != e.thread ==> PcOf(s', u) == PcOf(s, u);
    }
  }

  /** What a thread does outside the lock leaves the store to the others. */
  lemma {:induction false} OutsideKeepsMutexInv(s: State, s': State, t: Thread, committed: Objects)
    requires MutexInv(s, committed) && !HoldsMutex(PcOf(s, t)) && !HoldsMutex(PcOf(s', t))
    requires s'.byEntity == s.byEntity && s'.nextId == s.nextId && s'.owner == s.owner
    requires s'.threads == s.threads[t := PcOf(s', t)]
    ensures MutexInv(s', committed)
  {
    forall u ensures HoldsMutex(PcOf(s', u)) <==> s'.owner == Some(u) {
      assert u != t ==> PcOf(s', u) == PcOf(s, u);
    }
    if s.owner.Some? {
      assert PcOf(s', s.owner.value) == PcOf(s, s.owner.value);
    }
  }

  lemma {:induction false} CallKeepsInv(s: State, t: Thread, op: Op, committed: Objects)
    requires Inv(s, committed) && PcOf(s, t).Idle?
    ensures Inv(Apply(s, Call(t, op)), committed)
  {
    var s' := Apply(s, Call(t, op));
    HistoryGrows(s.history, Invocation(t, op), committed, committed);
    PhasesGrow(s, s', Invocation(t, op));
    OutsideKeepsMutexInv(s, s', t, committed);
  }

  lemma {:induction false} AcquireKeepsInv(s: State, t: Thread, pick: int, committed: Objects)
    requires Inv(s, committed) && PcOf(s, t).Called?
    ensures Inv(Apply(s, Go(t, pick)), committed)
  {
    var s' := Apply(s, Go(t, pick));
    assert forall u | u != t :: PcOf(s', u) == PcOf(s, u);
    assert PhaseAt(PcOf(s', t)) == PhaseAt(PcOf(s, t));
  }

  lemma {:induction false} LeaveKeepsInv(s: State, t: Thread, pick: int, committed: Objects)
    requires Inv(s, committed) && PcOf(s, t).Leaving?
    ensures Inv(Apply(s, Go(t, pick)), M.Flattened(s.byEntity))
  {
    var s', pc := Apply(s, Go(t, pick)), PcOf(s, t);
    assert HoldsMutex(pc) && s.owner == Some(t);
    HistoryGrows(s.history, Effect(t, pc.op, pc.r), committed, M.Flattened(s.byEntity));
    PhasesGrow(s, s', Effect(t, pc.op, pc.r));
    assert forall u | u != t :: PcOf(s', u) == PcOf(s, u);
  }

  lemma {:induction false} AnswerKeepsInv(s: State, t: Thread, pick: int, committed: Objects)
    requires Inv(s, committed) && PcOf(s, t).Answered?
    ensures Inv(Apply(s, Go(t, pick)), committed)
  {
    var s', pc := Apply(s, Go(t, pick)), PcOf(s, t);
    HistoryGrows(s.history, Response(t, pc.op, pc.r), committed, committed);
    PhasesGrow(s, s', Response(t, pc.op, pc.r));
    OutsideKeepsMutexInv(s, s', t, committed);
  }

  lemma {:induction false} InsideKeepsInv(s: State, t: Thread, pick: int, committed: Objects)
    requires Inv(s, committed) && HoldsMutex(PcOf(s, t)) && !PcOf(s, t).Leaving?
    ensures Inv(Apply(s, Go(t, pick)), committed)
  {
    var s' := Apply(s, Go(t, pick));
    InsideMovesOn(s, t, PcOf(s, t), pick);
    InsideProgresses(s, t, pick, committed);
  }

  lemma {:induction false} InsideMovesOn(s: State, t: Thread, pc: Pc, pick: int)
    requires PcOf(s, t) == pc && HoldsMutex(pc) && !pc.Leaving? && OpFits(pc)
    ensures var s' := Inside(s, t, pc, pick);
            && s'.history == s.history && s'.owner == s.owner
            && PhaseAt(PcOf(s', t)) == PhaseAt(pc)
            && HoldsMutex(PcOf(s', t))
            && forall u | u != t :: PcOf(s', u) == PcOf(s, u)
  {
  }

  lemma {:induction false} InsideProgresses(s: State, t: Thread, pick: int, before: Objects)
    requires HoldsMutex(PcOf(s, t)) && !PcOf(s, t).Leaving? && Progress(s, PcOf(s, t), before) && s.nextId >= 0
    ensures var s' := Inside(s, t, PcOf(s, t), pick);
            HoldsMutex(PcOf(s', t)) && s'.nextId >= 0 && Progress(s', PcOf(s', t), before)
  {
    var pc := PcOf(s, t);
    var op := pc.op;
    match pc
    case Entered(_) => M.FlattenedTouched(s.byEntity, op.entity);
    case Storing(_, id) =>
      M.FlattenedEverywhere(s.byEntity);
      M.FlattenedPut(s.byEntity, op.entity, id, op.data);
    case Finding(_) => M.FlattenedAt(s.byEntity, (op.entity, op.id));
    case Copying(_) => M.FlattenedAt(s.byEntity, (op.entity, op.id));
    case Erasing(_) =>
      M.FlattenedAt(s.byEntity, (op.entity, op.id));
      M.FlattenedErased(s.byEntity, op.entity, op.id);
    case Collecting(_, todo, ids) =>
      M.FlattenedEverywhere(s.byEntity);
      assert forall k: int :: k in IdsOf(before, op.entity) <==> (op.entity, k) in before;
    case _ =>
  }

  lemma {:induction false} ApplyKeepsInv(s: State, a: Action, committed: Objects) returns (committed': Objects)
    requires Inv(s, committed)
    ensures Inv(Apply(s, a), committed')
  {
    var pc := PcOf(s, a.thread);
    committed' := committed;
    match a
    case Call(t, op) =>
      if pc.Idle? {
        CallKeepsInv(s, t, op, committed);
      }
    case Go(t, pick) =>
      match pc
      case Idle =>
      case Called(_) => AcquireKeepsInv(s, t, pick, committed);
      case Answered(_, _) => AnswerKeepsInv(s, t, pick, committed);
      case Leaving(_, _) =>
        committed' := M.Flattened(s.byEntity);
        LeaveKeepsInv(s, t, pick, committed);
      case _ => InsideKeepsInv(s, t, pick, committed);
  }

  // ---------- Every run ----------

  lemma {:induction false} InvHolds(actions: seq<Action>) returns (committed: Objects)
    ensures Inv(Exec(actions), committed)
    decreases |actions|
  {
    if actions == [] {
      committed := map[];
      assert M.Flattened(map[]) == map[];
    } else {
      var before := InvHolds(actions[..|actions| - 1]);
      committed := ApplyKeepsInv(Exec(actions[..|actions| - 1]), actions[|actions| - 1], before);
    }
  }

  /** In every run of any number of threads the history is linearizable, and whenever the mutex is free the
      objects are those that its operations leave behind. */
  lemma {:induction false} EveryRunIsLinearizable(actions: seq<Action>)
    ensures Linearizable(Exec(actions).history)
    ensures Exec(actions).owner.None? ==> Replays(Exec(actions).history, M.Flattened(Exec(actions).byEntity))
  {
    var committed := InvHolds(actions);
  }

  // ---------- The order of new ids ----------

  predicate IsCreation(e: Event) {
    e.Effect? && e.r.Created?
  }

  predicate IdsBelow(history: seq<Event>, n: int) {
    forall i | 0 <= i < |history| && IsCreation(history[i]) :: history[i].r.newId < n
  }

  predicate IdsIncrease(history: seq<Event>) {
    forall i, j | 0 <= i < j < |history| && IsCreation(history[i]) && IsCreation(history[j]) ::
      history[i].r.newId < history[j].r.newId
  }

  /** The id that a creation inside the lock has taken. */
  function TakenId(pc: Pc): Option<int> {
    match pc
    case Counting(_, id) => Some(id)
    case CountingTo(_, id, _) => Some(id)
    case Storing(op, id) => if op.Create? then Some(id) else None
    case Leaving(_, Created(id)) => Some(id)
    case _ => None
  }

  function OwnersPc(s: State): Pc {
    if s.owner.Some? then PcOf(s, s.owner.value) else Idle
  }

  /** An id that has been taken is above those given so far, and below the counter once that has moved on. */
  predicate TakenFits(history: seq<Event>, nextId: int, pc: Pc) {
    TakenId(pc).Some? ==>
      && IdsBelow(history, TakenId(pc).value)
      && (if pc.Counting? || pc.CountingTo? then TakenId(pc).value == nextId else TakenId(pc).value < nextId)
      && (pc.CountingTo? ==> pc.n == nextId)
  }

  predicate CounterInv(s: State) {
    && IdsIncrease(s.history) && IdsBelow(s.history, s.nextId)
    && TakenFits(s.history, s.nextId, OwnersPc(s))
  }

  lemma {:induction false} CreationGrows(history: seq<Event>, e: Event, nextId: int)
    requires IdsIncrease(history) && IdsBelow(history, nextId)
    requires IsCreation(e) ==> IdsBelow(history, e.r.newId) && e.r.newId < nextId
    ensures IdsIncrease(history + [e]) && IdsBelow(history + [e], nextId)
  {
  }

  lemma {:induction false} OtherGrows(history: seq<Event>, e: Event, nextId: int, pc: Pc)
    requires !IsCreation(e) && TakenFits(history, nextId, pc)
    ensures TakenFits(history + [e], nextId, pc)
  {
  }

  /** A call or a return of a thread outside the lock. */
  lemma {:induction false} OutsideKeepsCounter(s: State, s': State, t: Thread, e: Event)
    requires CounterInv(s) && !IsCreation(e) && s.owner != Some(t)
    requires s'.history == s.history + [e] && s'.nextId == s.nextId && s'.owner == s.owner
    requires s'.threads == s.threads[t := PcOf(s', t)]
    ensures CounterInv(s')
  {
    assert OwnersPc(s') == OwnersPc(s);
    CreationGrows(s.history, e, s.nextId);
    OtherGrows(s.history, e, s.nextId, OwnersPc(s));
  }

  lemma {:induction false} LeaveKeepsCounter(s: State, t: Thread, pick: int)
    requires CounterInv(s) && s.owner == Some(t) && PcOf(s, t).Leaving?
    ensures CounterInv(Apply(s, Go(t, pick)))
  {
    var pc := PcOf(s, t);
    CreationGrows(s.history, Effect(t, pc.op, pc.r), s.nextId);
  }

  lemma {:induction false} InsideKeepsCounter(s: State, t: Thread, pc: Pc, pick: int, committed: Objects)
    requires CounterInv(s) && s.owner == Some(t) && PcOf(s, t) == pc && HoldsMutex(pc) && !pc.Leaving?
    requires Progress(s, pc, committed)
    ensures CounterInv(Inside(s, t, pc, pick))
  {
    var s' := Inside(s, t, pc, pick);
    assert s'.history == s.history && s'.owner == s.owner && s'.nextId >= s.nextId;
    assert IdsBelow(s'.history, s'.nextId);
  }

  lemma {:induction false} ApplyKeepsCounter(s: State, a: Action, committed: Objects)
    requires MutexInv(s, committed) && CounterInv(s)
    ensures CounterInv(Apply(s, a))
  {
    var t, pc := a.thread, PcOf(s, a.thread);
    assert HoldsMutex(pc) <==> s.owner == Some(t);
    match a
    case Call(_, op) =>
      if pc.Idle? {
        OutsideKeepsCounter(s, Apply(s, a), t, Invocation(t, op));
      }
    case Go(_, pick) =>
      match pc
      case Idle =>
      case Called(_) =>
      case Answered(op, r) => OutsideKeepsCounter(s, Apply(s, a), t, Response(t, op, r));
      case Leaving(_, _) => LeaveKeepsCounter(s, t, pick);
      case _ => InsideKeepsCounter(s, t, pc, pick, committed);
  }

  lemma {:induction false} CounterHolds(actions: seq<Action>)
    ensures CounterInv(Exec(actions))
    decreases |actions|
  {
    if actions != [] {
      var before := actions[..|actions| - 1];
      CounterHolds(before);
      var committed := InvHolds(before);
      ApplyKeepsCounter(Exec(before), actions[|actions| - 1], committed);
    }
  }

  /** However the threads are interleaved, each creation gets a greater id than all that took effect before it,
      of whatever entity and whatever was deleted or planted in between. */
  lemma {:induction false} CreatedIdsIncrease(actions: seq<Action>, i: nat, j: nat)
    requires i < j < |Exec(actions).history|
    requires Exec(actions).history[i].Effect? && Exec(actions).history[i].op.Create?
    requires Exec(actions).history[j].Effect? && Exec(actions).history[j].op.Create?
    ensures var h := Exec(actions).history;
            h[i].r.Created? && h[j].r.Created? && h[i].r.newId < h[j].r.newId
  {
    CounterHolds(actions);
    var committed := InvHolds(actions);
    ReplayedCreation(Exec(actions).history, committed, i);
    ReplayedCreation(Exec(actions).history, committed, j);
  }

  lemma {:induction false} ReplayedCreation(history: seq<Event>, objects: Objects, i: nat)
    requires Replays(history, objects) && i < |history| && history[i].Effect? && history[i].op.Create?
    ensures history[i].r.Created?
    decreases |history|
  {
    var init, e := history[..|history| - 1], history[|history| - 1];
    if e.Effect? {
      var before :| Replays(init, before) && Promised(before, e.op, e.r, objects);
      if i < |init| {
        ReplayedCreation(init, before, i);
      }
    } else {
      ReplayedCreation(init, objects, i);
    }
  }

  /** No two threads are ever between taking and giving back the mutex. */
  lemma {:induction false} MutexExcludes(actions: seq<Action>, t: Thread, u: Thread)
    requires HoldsMutex(PcOf(Exec(actions), t)) && HoldsMutex(PcOf(Exec(actions), u))
    ensures t == u
  {
    var committed := InvHolds(actions);
  }

  predicate Absent(history: seq<Event>, t: Thread, i: int, j: int) {
    forall k | i <= k < j && 0 <= k < |history| :: history[k].thread != t
  }

  /** The last event of a thread that is not outside the store. */
  lemma {:induction false} LastEvent(history: seq<Event>, t: Thread, j: nat) returns (i: nat)
    requires j <= |history| && PhaseOf(history[..j], t) != Out
    ensures i < j && history[i].thread == t && Absent(history, t, i + 1, j)
    ensures PhaseOf(history[..j], t) == PhaseOf(history[..i + 1], t)
  {
    assert history[..j][..j - 1] == history[..j - 1];
    i := j - 1;
    if history[i].thread != t {
      i := LastEvent(history, t, j - 1);
    }
  }

  /** The order of effects respects real time: an operation that has returned took effect after it was
      called and before it returned, and its thread did nothing else between. */
  lemma {:induction false} TookEffectInTime(history: seq<Event>, j: nat) returns (i: nat, k: nat)
    requires WellFormed(history) && j < |history| && history[j].Response?
    ensures i < k < j && history[i] == Invocation(history[j].thread, history[j].op)
    ensures history[k] == Effect(history[j].thread, history[j].op, history[j].r)
    ensures Absent(history, history[j].thread, i + 1, k) && Absent(history, history[j].thread, k + 1, j)
  {
    var t := history[j].thread;
    k := LastEvent(history, t, j);
    assert history[..k + 1][..k] == history[..k];
    i := LastEvent(history, t, k);
    assert history[..i + 1][..i] == history[..i];
  }
}
