/** Whole runs of the REST handler over either store, told from the requests and the responses alone. */
module ApiHistory {
  import opened Wrappers
  import opened EntityStore
  import opened EntityStoreValidation
  import opened RequestParser
  import opened ResponseBuilder
  import opened ApiJson
  import opened Sorting
  import opened UrlSegments
  import opened RequestHandlerApi
  import S = EntityStores

  /** A sequence of requests to a handler, and what its store held before each and after the last. */
  datatype Run = Run(
    prefix: string, isJson: string -> bool,
    states: seq<Objects>, requests: seq<RequestData>, responses: seq<ResponseData>)

  /** The store may start with objects: a directory may be there from an earlier time. */
  ghost predicate IsRun(run: Run) {
    && |run.states| == |run.requests| + 1 && |run.responses| == |run.requests|
    && NoneNegative(run.states[0])
    && forall i | 0 <= i < |run.requests| :: Step(run, i)
  }

  predicate NoneNegative(objects: Objects) {
    forall key :: key in objects ==> key.1 >= 0
  }

  ghost predicate Step(run: Run, i: nat)
    requires i < |run.requests| && i + 1 < |run.states| && i < |run.responses|
  {
    Handled(run.isJson, SegmentsOf(run, i), run.requests[i], run.states[i], run.responses[i], run.states[i + 1])
  }

  ghost predicate Handled(isJson: string -> bool, segments: seq<string>, q: RequestData,
                          objects: Objects, resp: ResponseData, objects': Objects)
  {
    Follows(CommandOf(isJson, segments, q), objects, resp, objects')
  }

  function SegmentsOf(run: Run, i: nat): seq<string>
    requires i < |run.requests|
  {
    Segments(run.prefix, run.requests[i].url)
  }

  // ---------- What a client has seen ----------

  /** A successful POST that was told the id, or a successful PUT to it. */
  predicate Wrote(segments: seq<string>, q: RequestData, resp: ResponseData, entity: string, id: nat) {
    && IsOk(resp) && segments != [] && segments[0] == entity
    && ((q.verb == "POST" && resp.body == IdJson(id))
        || (q.verb == "PUT" && |segments| >= 2 && ParsedId(segments[1]) == Some(id)))
  }

  predicate Erased(segments: seq<string>, q: RequestData, resp: ResponseData, entity: string, id: nat) {
    IsOk(resp) && q.verb == "DELETE" && |segments| >= 2 && segments[0] == entity && ParsedId(segments[1]) == Some(id)
  }

  /** The body of the latest successful POST or PUT to an id that no successful DELETE has followed; if there
      was none of these, what the store had at the start. */
  function Latest(run: Run, n: nat, entity: string, id: nat): Option<string>
    requires n <= |run.requests| == |run.responses| && run.states != []
  {
    if n == 0 then Lookup(run.states[0], entity, id)
    else
      var segments, q, resp := SegmentsOf(run, n - 1), run.requests[n - 1], run.responses[n - 1];
      if Wrote(segments, q, resp, entity, id) then Some(q.body)
      else if Erased(segments, q, resp, entity, id) then None
      else Latest(run, n - 1, entity, id)
  }

  // ---------- One step ----------

  lemma {:induction false} StatusesDiffer()
    ensures forall message :: !IsOk(NotFound(message)) && !IsOk(BadRequest(message))
    ensures forall message :: !IsOk(InternalServerError(message)) && !IsOk(MethodNotAllowed(message))
  {
    assert "404 Not Found"[0] != "200 OK"[0] && "400 Bad Request"[0] != "200 OK"[0];
    assert "500 Internal Server Error"[0] != "200 OK"[0] && "405 Method Not Allowed"[0] != "200 OK"[0];
  }

  lemma {:induction false} VerbsDiffer()
    ensures "POST" != "PUT" && "POST" != "DELETE" && "POST" != "GET" && "PUT" != "DELETE" && "PUT" != "GET"
    ensures "DELETE" != "GET"
  {
    assert "POST"[1] != "PUT"[1] && "POST"[0] != "DELETE"[0] && "POST"[0] != "GET"[0];
    assert "PUT"[0] != "DELETE"[0] && "PUT"[0] != "GET"[0] && "DELETE"[0] != "GET"[0];
  }

  /** What a request is that asks for an operation. */
  predicate Asks(isJson: string -> bool, segments: seq<string>, q: RequestData, op: Op) {
    && segments != [] && op.entity == segments[0]
    && match op
       case Create(_, data) => q.verb == "POST" && data == q.body && isJson(data)
       case Read(_, id) => q.verb == "GET" && |segments| >= 2 && id >= 0 && ParsedId(segments[1]) == Some(id)
       case Update(_, id, data) =>
         && q.verb == "PUT" && |segments| >= 2 && id >= 0 && ParsedId(segments[1]) == Some(id)
         && data == q.body && isJson(data)
       case Delete(_, id) => q.verb == "DELETE" && |segments| >= 2 && id >= 0 && ParsedId(segments[1]) == Some(id)
       case List(_) => q.verb == "GET"
  }

  lemma {:induction false} CommandAsks(isJson: string -> bool, segments: seq<string>, q: RequestData)
    ensures match CommandOf(isJson, segments, q)
            case Refuse(resp) => !IsOk(resp)
            case Ask(op) => Asks(isJson, segments, q, op)
  {
    StatusesDiffer();
  }

  lemma {:induction false} OpShows(isJson: string -> bool, segments: seq<string>, q: RequestData, op: Op, r: Result,
                before: Objects, after: Objects, entity: string, id: nat)
    requires Asks(isJson, segments, q, op) && Promised(before, op, r, after)
    ensures Lookup(after, entity, id) ==
            if Wrote(segments, q, Reply(op, r), entity, id) then Some(q.body)
            else if Erased(segments, q, Reply(op, r), entity, id) then None
            else Lookup(before, entity, id)
  {
    StatusesDiffer();
    VerbsDiffer();
    if op.Create? {
      IdJsonInjective(r.newId, id);
    }
  }

  /** What a client sees of a request says how it changes an object. */
  lemma {:induction false} StepShows(isJson: string -> bool, segments: seq<string>, q: RequestData,
                  before: Objects, resp: ResponseData, after: Objects, entity: string, id: nat)
    requires Handled(isJson, segments, q, before, resp, after)
    ensures Lookup(after, entity, id) ==
            if Wrote(segments, q, resp, entity, id) then Some(q.body)
            else if Erased(segments, q, resp, entity, id) then None
            else Lookup(before, entity, id)
  {
    CommandAsks(isJson, segments, q);
    if CommandOf(isJson, segments, q).Ask? {
      var op := CommandOf(isJson, segments, q).op;
      var r :| Promised(before, op, r, after) && resp == Reply(op, r);
      OpShows(isJson, segments, q, op, r, before, after, entity, id);
    }
  }

  ghost predicate AllChecked(isJson: string -> bool, objects: Objects) {
    forall key :: key in objects ==> isJson(objects[key])
  }

  lemma {:induction false} StepChecks(isJson: string -> bool, segments: seq<string>, q: RequestData,
                   before: Objects, resp: ResponseData, after: Objects)
    requires Handled(isJson, segments, q, before, resp, after)
    ensures NoneNegative(before) ==> NoneNegative(after)
    ensures AllChecked(isJson, before) ==> AllChecked(isJson, after)
  {
    CommandAsks(isJson, segments, q);
    if CommandOf(isJson, segments, q).Ask? {
      var op := CommandOf(isJson, segments, q).op;
      var r :| Promised(before, op, r, after) && resp == Reply(op, r);
    }
  }

  // ---------- Every run ----------

  /** No id is ever negative, and every body stored since the start has passed the JSON check. */
  lemma {:induction false} EverythingChecked(run: Run, n: nat)
    requires IsRun(run) && n <= |run.requests|
    ensures NoneNegative(run.states[n])
    ensures AllChecked(run.isJson, run.states[0]) ==> AllChecked(run.isJson, run.states[n])
  {
    if n > 0 {
      EverythingChecked(run, n - 1);
      assert Step(run, n - 1);
      StepChecks(run.isJson, SegmentsOf(run, n - 1), run.requests[n - 1],
                 run.states[n - 1], run.responses[n - 1], run.states[n]);
    }
  }

  lemma {:induction false} LookupIsLatest(run: Run, n: nat, entity: string, id: nat)
    requires IsRun(run) && n <= |run.requests|
    ensures Lookup(run.states[n], entity, id) == Latest(run, n, entity, id)
  {
    if n > 0 {
      LookupIsLatest(run, n - 1, entity, id);
      assert Step(run, n - 1);
      StepShows(run.isJson, SegmentsOf(run, n - 1), run.requests[n - 1], run.states[n - 1], run.responses[n - 1],
                run.states[n], entity, id);
    }
  }

  /** A GET of an id is answered 200 exactly when some write to that id is the latest, with its body; if the
      store started with valid JSON, the body is that. */
  lemma {:induction false} GetAnswersLatest(run: Run, n: nat)
    requires IsRun(run) && n < |run.requests|
    requires run.requests[n].verb == "GET" && |SegmentsOf(run, n)| >= 2
    ensures var entity, id := SegmentsOf(run, n)[0], ParsedId(SegmentsOf(run, n)[1]);
            && (IsOk(run.responses[n]) <==>
                IsValidEntityName(entity) && id.Some? && Latest(run, n, entity, id.value).Some?)
            && (IsOk(run.responses[n]) ==>
                && run.responses[n].body == Latest(run, n, entity, id.value).value
                && (AllChecked(run.isJson, run.states[0]) ==> run.isJson(run.responses[n].body)))
  {
    var segments, q := SegmentsOf(run, n), run.requests[n];
    StatusesDiffer();
    VerbsDiffer();
    assert Step(run, n);
    EverythingChecked(run, n);
    if IsValidEntityName(segments[0]) && ParsedId(segments[1]).Some? {
      var id := ParsedId(segments[1]).value;
      LookupIsLatest(run, n, segments[0], id);
      assert CommandOf(run.isJson, segments, q) == Ask(Op.Read(segments[0], id));
    }
  }

  /** The listing of an entity decodes to the ids that a GET would find, strictly ascending. */
  lemma {:induction false} ListAnswersLatest(run: Run, n: nat) returns (ids: seq<int>)
    requires IsRun(run) && n < |run.requests|
    requires run.requests[n].verb == "GET" && |SegmentsOf(run, n)| == 1 && IsValidEntityName(SegmentsOf(run, n)[0])
    ensures run.responses[n] == FormatResponse("200 OK", "application/json", run.responses[n].body)
    ensures IsOk(run.responses[n]) && DecodeIds(run.responses[n].body) == Some(ids) && Ascending(ids)
    ensures forall id: int :: id in ids <==> id >= 0 && Latest(run, n, SegmentsOf(run, n)[0], id).Some?
  {
    var segments, q := SegmentsOf(run, n), run.requests[n];
    var entity, objects := segments[0], run.states[n];
    VerbsDiffer();
    assert Step(run, n);
    EverythingChecked(run, n);
    assert CommandOf(run.isJson, segments, q) == Ask(Op.List(entity));
    var r :| Promised(objects, Op.List(entity), r, run.states[n + 1]) && run.responses[n] == Reply(Op.List(entity), r);
    ids := Sort(r.ids);
    SortKeeps(r.ids);
    SortAscends(r.ids);
    forall id: int ensures id in ids <==> id >= 0 && Latest(run, n, entity, id).Some? {
      assert id in IdsOf(objects, entity) <==> (entity, id) in objects;
      if id >= 0 {
        LookupIsLatest(run, n, entity, id);
      }
    }
    assert forall i | 0 <= i < |ids| :: ids[i] in ids;
    DecodeListing(ids);
  }

  // ---------- Every answer ----------

  /** What a client can know of a request when it is made: its segments, whether they name an entity, and which
      id they name. */
  datatype Target = Target(segments: seq<string>, entity: string, id: Option<nat>)

  function TargetOf(run: Run, n: nat): Target
    requires n < |run.requests|
  {
    var segments := SegmentsOf(run, n);
    var named := segments != [] && IsValidEntityName(segments[0]);
    Target(segments, if named then segments[0] else "",
           if named && |segments| >= 2 then ParsedId(segments[1]) else None)
  }

  predicate IsAnswer(resp: ResponseData, statusCode: string, contentType: string) {
    resp == FormatResponse(statusCode, contentType, resp.body)
  }

  predicate IsRefusal(resp: ResponseData, message: string) {
    resp == FormatResponse("400 Bad Request", "text/plain", message)
  }

  /** A request whose target names no entity is refused, whatever its method. */
  lemma {:induction false} NoEntityAnswer(run: Run, n: nat)
    requires IsRun(run) && n < |run.requests| && TargetOf(run, n).entity == ""
    ensures IsRefusal(run.responses[n],
                      if SegmentsOf(run, n) == [] then "Entity type required" else "Invalid entity name")
    ensures run.states[n + 1] == run.states[n]
  {
    assert Step(run, n);
  }

  /** A POST to an entity is answered 200 exactly with JSON, and with an id under which there was no object. */
  lemma {:induction false} PostAnswer(run: Run, n: nat) returns (id: nat)
    requires IsRun(run) && n < |run.requests| && run.requests[n].verb == "POST" && TargetOf(run, n).entity != ""
    ensures var t, resp := TargetOf(run, n), run.responses[n];
            if |t.segments| == 1 && run.isJson(run.requests[n].body)
            then
              && IsAnswer(resp, "200 OK", "application/json") && resp.body == "{\"id\":" + Decimal(id) + "}"
              && Latest(run, n, t.entity, id) == None
            else
              && run.states[n + 1] == run.states[n]
              && IsRefusal(resp,
                           if |t.segments| == 1 then "Body is not valid JSON" else "POST target must be /Entity")
  {
    VerbsDiffer();
    var t, q := TargetOf(run, n), run.requests[n];
    assert Step(run, n);
    id := 0;
    if |t.segments| == 1 && run.isJson(q.body) {
      var op := Op.Create(t.entity, q.body);
      assert CommandOf(run.isJson, t.segments, q) == Ask(op);
      var r :| Promised(run.states[n], op, r, run.states[n + 1]) && run.responses[n] == Reply(op, r);
      id := r.newId;
      LookupIsLatest(run, n, t.entity, id);
    }
  }

  /** A PUT is answered 200, with the id, exactly if it names an id and its body is JSON. */
  lemma {:induction false} PutAnswer(run: Run, n: nat)
    requires IsRun(run) && n < |run.requests| && run.requests[n].verb == "PUT" && TargetOf(run, n).entity != ""
    ensures var t, resp := TargetOf(run, n), run.responses[n];
            if |t.segments| == 2 && t.id.Some? && run.isJson(run.requests[n].body)
            then IsAnswer(resp, "200 OK", "application/json") && resp.body == "{\"id\":" + Decimal(t.id.value) + "}"
            else
              && run.states[n + 1] == run.states[n]
              && IsRefusal(resp,
                           if |t.segments| != 2 then "PUT target must be /Entity/{id}"
                           else if t.id.None? then "Invalid ID"
                           else "Body is not valid JSON")
  {
    VerbsDiffer();
    var t, q := TargetOf(run, n), run.requests[n];
    assert Step(run, n);
    if |t.segments| == 2 && t.id.Some? && run.isJson(q.body) {
      assert CommandOf(run.isJson, t.segments, q) == Ask(Op.Update(t.entity, t.id.value, q.body));
    }
  }

  /** A DELETE of an id is answered 200 exactly if a GET would have found the object, and 404 if it would not. */
  lemma {:induction false} DeleteAnswer(run: Run, n: nat)
    requires IsRun(run) && n < |run.requests| && run.requests[n].verb == "DELETE" && TargetOf(run, n).entity != ""
    ensures var t, resp := TargetOf(run, n), run.responses[n];
            if |t.segments| == 2 && t.id.Some?
            then
              if Latest(run, n, t.entity, t.id.value).Some?
              then IsAnswer(resp, "200 OK", "application/json") && resp.body == "{\"deleted\":true}"
              else
                resp == FormatResponse("404 Not Found", "text/plain", "Entity not found")
                && run.states[n + 1] == run.states[n]
            else
              && run.states[n + 1] == run.states[n]
              && IsRefusal(resp, if |t.segments| != 2 then "DELETE target must be /Entity/{id}" else "Invalid ID")
  {
    VerbsDiffer();
    var t, q := TargetOf(run, n), run.requests[n];
    assert Step(run, n);
    if |t.segments| == 2 && t.id.Some? {
      assert CommandOf(run.isJson, t.segments, q) == Ask(Op.Delete(t.entity, t.id.value));
      LookupIsLatest(run, n, t.entity, t.id.value);
    }
  }

  /** A GET of an id is answered with the object, or 404 if there is none; it changes nothing. */
  lemma {:induction false} GetAnswer(run: Run, n: nat)
    requires IsRun(run) && n < |run.requests| && run.requests[n].verb == "GET" && TargetOf(run, n).entity != ""
    requires |TargetOf(run, n).segments| >= 2
    ensures var t, resp := TargetOf(run, n), run.responses[n];
            && run.states[n + 1] == run.states[n]
            && if t.id.None? then IsRefusal(resp, "Invalid ID")
               else
                 match Latest(run, n, t.entity, t.id.value)
                 case Some(body) => resp == FormatResponse("200 OK", "application/json", body)
                 case None => resp == FormatResponse("404 Not Found", "text/plain", "Entity not found")
  {
    VerbsDiffer();
    var t, q := TargetOf(run, n), run.requests[n];
    assert Step(run, n);
    if t.id.Some? {
      assert CommandOf(run.isJson, t.segments, q) == Ask(Op.Read(t.entity, t.id.value));
      LookupIsLatest(run, n, t.entity, t.id.value);
    }
  }

  /** Any other method is answered 405. */
  lemma {:induction false} OtherAnswer(run: Run, n: nat)
    requires IsRun(run) && n < |run.requests| && TargetOf(run, n).entity != ""
    requires run.requests[n].verb !in ["GET", "POST", "PUT", "DELETE"]
    ensures run.responses[n] == FormatResponse("405 Method Not Allowed", "text/plain", "Unsupported method")
    ensures run.states[n + 1] == run.states[n]
  {
    assert Step(run, n);
    var verbs := ["GET", "POST", "PUT", "DELETE"];
    assert verbs[0] in verbs && verbs[1] in verbs && verbs[2] in verbs && verbs[3] in verbs;
  }

  // ---------- The handler makes such runs ----------

  /** A run of this handler, at the end of which its store holds what it holds now. */
  ghost predicate IsRunOf(run: Run, handler: ApiRequestHandler)
    reads S.Footprint(handler.entityStore)
  {
    && IsRun(run) && run.prefix == handler.urlPrefix && run.isJson == handler.isJson
    && run.states[|run.requests|] == S.ObjectsOf(handler.entityStore)
  }

  lemma {:induction false} StepStays(run: Run, longer: Run, i: nat)
    requires i < |run.requests| == |run.responses| && |run.states| == |run.requests| + 1 && Step(run, i)
    requires i < |longer.requests| && i + 1 < |longer.states| && i < |longer.responses|
    requires longer.prefix == run.prefix && longer.isJson == run.isJson
    requires longer.requests[i] == run.requests[i] && longer.responses[i] == run.responses[i]
    requires longer.states[i] == run.states[i] && longer.states[i + 1] == run.states[i + 1]
    ensures Step(longer, i)
  {
  }

  function Longer(run: Run, q: RequestData, resp: ResponseData, objects: Objects): Run {
    run.(states := run.states + [objects], requests := run.requests + [q], responses := run.responses + [resp])
  }

  lemma {:induction false} LastStep(run: Run, q: RequestData, resp: ResponseData, objects: Objects)
    requires |run.requests| == |run.responses| && |run.states| == |run.requests| + 1
    requires Handled(run.isJson, Segments(run.prefix, q.url), q, run.states[|run.requests|], resp, objects)
    ensures Step(Longer(run, q, resp, objects), |run.requests|)
  {
    var longer, n := Longer(run, q, resp, objects), |run.requests|;
    assert longer.states[n] == run.states[n] && longer.states[n + 1] == objects;
    assert longer.requests[n] == q && longer.responses[n] == resp;
  }

  lemma {:induction false} RunGrows(run: Run, q: RequestData, resp: ResponseData, objects: Objects)
    requires IsRun(run)
    requires Handled(run.isJson, Segments(run.prefix, q.url), q, run.states[|run.requests|], resp, objects)
    ensures IsRun(Longer(run, q, resp, objects))
  {
    var longer, n := Longer(run, q, resp, objects), |run.requests|;
    LastStep(run, q, resp, objects);
    forall i | 0 <= i < n ensures Step(longer, i) {
      assert Step(run, i);
      StepStays(run, longer, i);
    }
  }

  /** The id that a request names is in the range of `int`. */
  predicate FitsInt(prefix: string, q: RequestData) {
    NamesObject(Segments(prefix, q.url), q) ==> InRange(Segments(prefix, q.url)[1])
  }

  /** The first `i` requests have been handled, from `start` on and with `used` ids used up before. */
  ghost predicate Handling(handler: ApiRequestHandler, requests: seq<RequestData>, i: nat,
                           responses: seq<ResponseData>, run: Run, start: Objects, used: int)
    requires i <= |requests|
    reads S.Footprint(handler.entityStore)
  {
    && S.Valid(handler.entityStore) && S.Used(handler.entityStore) <= used + i
    && IsRunOf(run, handler) && run.requests == requests[..i] && run.responses == responses && run.states[0] == start
  }

  /** The requests are handled one after the other, over a store of either class, new or with objects in it.
      Nothing leaves the range of `int`: each request uses up one id at most. */
  method HandleAll(handler: ApiRequestHandler, requests: seq<RequestData>)
    returns (responses: seq<ResponseData>, ghost run: Run)
    requires S.Valid(handler.entityStore) && NoneNegative(S.ObjectsOf(handler.entityStore))
    requires S.Used(handler.entityStore) + |requests| <= INT_MAX
    requires forall i | 0 <= i < |requests| :: FitsInt(handler.urlPrefix, requests[i])
    modifies S.Footprint(handler.entityStore)
    ensures S.Valid(handler.entityStore)
    ensures IsRunOf(run, handler) && run.requests == requests && run.responses == responses
    ensures run.states[0] == old(S.ObjectsOf(handler.entityStore))
  {
    ghost var start, used := S.ObjectsOf(handler.entityStore), S.Used(handler.entityStore);
    responses := [];
    run := Run(handler.urlPrefix, handler.isJson, [start], [], []);
    for i := 0 to |requests|
      invariant Handling(handler, requests, i, responses, run, start, used)
    {
      var resp;
      resp, run := HandleNext(handler, requests, i, responses, run, start, used);
      responses := responses + [resp];
    }
    assert requests[..|requests|] == requests;
  }

  /** While ids are left, the handler may be called. */
  method HandleWithin(handler: ApiRequestHandler, q: RequestData) returns (resp: ResponseData)
    requires S.Valid(handler.entityStore) && S.Used(handler.entityStore) < INT_MAX
    requires FitsInt(handler.urlPrefix, q)
    modifies S.Footprint(handler.entityStore)
    ensures S.Valid(handler.entityStore)
    ensures S.Used(handler.entityStore) <= old(S.Used(handler.entityStore)) + 1
    ensures Handled(handler.isJson, Segments(handler.urlPrefix, q.url), q,
                    old(S.ObjectsOf(handler.entityStore)), resp, S.ObjectsOf(handler.entityStore))
  {
    ghost var segments := Segments(handler.urlPrefix, q.url);
    if segments != [] {
      S.RoomWhileUnused(handler.entityStore, segments[0]);
    }
    resp := handler.HandleRequest(q);
  }

  method HandleNext(handler: ApiRequestHandler, requests: seq<RequestData>, i: nat,
                    responses: seq<ResponseData>, ghost run: Run, ghost start: Objects, ghost used: int)
    returns (resp: ResponseData, ghost run': Run)
    requires i < |requests| && Handling(handler, requests, i, responses, run, start, used)
    requires used + |requests| <= INT_MAX && FitsInt(handler.urlPrefix, requests[i])
    modifies S.Footprint(handler.entityStore)
    ensures Handling(handler, requests, i + 1, responses + [resp], run', start, used)
  {
    resp := HandleWithin(handler, requests[i]);
    RunGrows(run, requests[i], resp, S.ObjectsOf(handler.entityStore));
    run' := Longer(run, requests[i], resp, S.ObjectsOf(handler.entityStore));
    assert requests[..i + 1] == requests[..i] + [requests[i]];
  }
}
