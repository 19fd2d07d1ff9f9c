/** The REST handler (`ApiRequestHandler`) over either store. */
module RequestHandlerApi {
  import opened Wrappers
  import opened Sequences
  import opened EntityStore
  import opened EntityStoreValidation
  import opened RequestParser
  import opened ResponseBuilder
  import opened ApiJson
  import opened Sorting
  import opened UrlSegments
  import S = EntityStores

  // ---------- What a request asks, and what it is answered ----------

  datatype Command = Refuse(resp: ResponseData) | Ask(op: Op)

  const JSON := "application/json"

  function CommandOf(isJson: string -> bool, segments: seq<string>, q: RequestData): Command {
    if segments == [] then Refuse(BadRequest("Entity type required"))
    else if !IsValidEntityName(segments[0]) then Refuse(BadRequest("Invalid entity name"))
    else if q.verb == "POST" then PostBranchCommand(isJson, segments, q.body)
    else if q.verb == "GET" then GetCommand(segments)
    else if q.verb == "PUT" then PutBranchCommand(isJson, segments, q.body)
    else if q.verb == "DELETE" then DeleteBranchCommand(segments)
    else Refuse(MethodNotAllowed("Unsupported method"))
  }

  function PostBranchCommand(isJson: string -> bool, segments: seq<string>, body: string): Command
    requires segments != []
  {
    if |segments| != 1 then Refuse(BadRequest("POST target must be /Entity"))
    else PostCommand(isJson, segments[0], body)
  }

  function PutBranchCommand(isJson: string -> bool, segments: seq<string>, body: string): Command {
    if |segments| != 2 then Refuse(BadRequest("PUT target must be /Entity/{id}"))
    else
      match ParsedId(segments[1])
      case None => Refuse(BadRequest("Invalid ID"))
      case Some(id) => PutCommand(isJson, segments[0], id, body)
  }

  function DeleteBranchCommand(segments: seq<string>): Command {
    if |segments| != 2 then Refuse(BadRequest("DELETE target must be /Entity/{id}"))
    else
      match ParsedId(segments[1])
      case None => Refuse(BadRequest("Invalid ID"))
      case Some(id) => Ask(Op.Delete(segments[0], id))
  }

  function PostCommand(isJson: string -> bool, entity: string, body: string): Command {
    if isJson(body) then Ask(Op.Create(entity, body)) else Refuse(BadRequest("Body is not valid JSON"))
  }

  function GetCommand(segments: seq<string>): Command
    requires segments != []
  {
    if |segments| == 1 then Ask(Op.List(segments[0]))
    else
      match ParsedId(segments[1])
      case None => Refuse(BadRequest("Invalid ID"))
      case Some(id) => Ask(Op.Read(segments[0], id))
  }

  function PutCommand(isJson: string -> bool, entity: string, id: int, body: string): Command {
    if isJson(body) then Ask(Op.Update(entity, id, body)) else Refuse(BadRequest("Body is not valid JSON"))
  }

  /** The handler gets as far as parsing an id. */
  predicate NamesObject(segments: seq<string>, q: RequestData) {
    && segments != [] && IsValidEntityName(segments[0])
    && ((q.verb == "GET" && |segments| >= 2) || ((q.verb == "PUT" || q.verb == "DELETE") && |segments| == 2))
  }

  predicate CreatesObject(segments: seq<string>, q: RequestData) {
    |segments| == 1 && IsValidEntityName(segments[0]) && q.verb == "POST"
  }

  function Reply(op: Op, r: Result): ResponseData {
    match r
    case Created(id) => if id < 0 then InternalServerError("Failed to create entity") else Ok(IdJson(id), JSON)
    case Found(Some(data)) => Ok(data, JSON)
    case Found(None) => NotFound("Entity not found")
    case Listed(ids) => Ok(ListJson(Sort(ids)), JSON)
    case Done(ok) =>
      if op.Update? then (if ok then Ok(IdJson(op.id), JSON) else InternalServerError("Failed to update entity"))
      else if ok then Ok("{\"deleted\":true}", JSON)
      else NotFound("Entity not found")
  }

  /** A request is refused and changes nothing, or is answered as the store answers, which keeps its promise. */
  ghost predicate Follows(command: Command, objects: Objects, resp: ResponseData, objects': Objects) {
    match command
    case Refuse(refusal) => resp == refusal && objects' == objects
    case Ask(op) => exists r :: Promised(objects, op, r, objects') && resp == Reply(op, r)
  }

  lemma {:induction false} ReplyFollows(op: Op, r: Result, objects: Objects, objects': Objects)
    requires Promised(objects, op, r, objects')
    ensures Follows(Ask(op), objects, Reply(op, r), objects')
  {
  }

  // ---------- The handler ----------

  class ApiRequestHandler {
    const entityStore: S.AnyStore
    const urlPrefix: string
    const isJson: string -> bool

    constructor (entityStore: S.AnyStore, urlPrefix: string, isJson: string -> bool)
      ensures this.entityStore == entityStore && this.urlPrefix == urlPrefix && this.isJson == isJson
    {
      this.entityStore, this.urlPrefix, this.isJson := entityStore, urlPrefix, isJson;
    }

    /** Ids are in range of `int` where they are parsed, and there is one left where one is created. */
    ghost predicate InBounds(segments: seq<string>, q: RequestData)
      reads S.Footprint(entityStore)
    {
      && (NamesObject(segments, q) ==> InRange(segments[1]))
      && (CreatesObject(segments, q) && isJson(q.body) ==> S.HasRoom(entityStore, segments[0]))
    }

    method HandleRequest(q: RequestData) returns (resp: ResponseData)
      requires S.Valid(entityStore) && InBounds(Segments(urlPrefix, q.url), q)
      modifies S.Footprint(entityStore)
      ensures S.Valid(entityStore) && S.Used(entityStore) <= old(S.Used(entityStore)) + 1
      ensures Obeys(CommandOf(isJson, Segments(urlPrefix, q.url), q), old(S.ObjectsOf(entityStore)), resp)
    {
      var segments := ExtractSegments(q.url);
      resp := HandleSegments(segments, q);
    }

    /** What `handle_request` does once it has the segments. */
    method HandleSegments(segments: seq<string>, q: RequestData) returns (resp: ResponseData)
      requires S.Valid(entityStore) && InBounds(segments, q)
      modifies S.Footprint(entityStore)
      ensures S.Valid(entityStore) && S.Used(entityStore) <= old(S.Used(entityStore)) + 1
      ensures Obeys(CommandOf(isJson, segments, q), old(S.ObjectsOf(entityStore)), resp)
    {
      if segments == [] {
        return BadRequest("Entity type required");
      }
      var entity := segments[0];
      if !IsValidEntityName(entity) {
        return BadRequest("Invalid entity name");
      }
      if q.verb == "POST" {
        resp := PostBranch(segments, q.body);
      } else if q.verb == "GET" {
        resp := HandleGet(entity, segments);
      } else if q.verb == "PUT" {
        resp := PutBranch(segments, q.body);
      } else if q.verb == "DELETE" {
        resp := DeleteBranch(segments);
      } else {
        resp := MethodNotAllowed("Unsupported method");
      }
    }

    method PostBranch(segments: seq<string>, body: string) returns (resp: ResponseData)
      requires S.Valid(entityStore) && segments != [] && IsValidEntityName(segments[0])
      requires |segments| == 1 && isJson(body) ==> S.HasRoom(entityStore, segments[0])
      modifies S.Footprint(entityStore)
      ensures S.Valid(entityStore) && S.Used(entityStore) <= old(S.Used(entityStore)) + 1
      ensures Obeys(PostBranchCommand(isJson, segments, body), old(S.ObjectsOf(entityStore)), resp)
    {
      if |segments| != 1 {
        return BadRequest("POST target must be /Entity");
      }
      resp := HandlePost(segments[0], body);
    }

    method PutBranch(segments: seq<string>, body: string) returns (resp: ResponseData)
      requires S.Valid(entityStore) && segments != [] && IsValidEntityName(segments[0])
      requires |segments| == 2 ==> InRange(segments[1])
      modifies S.Footprint(entityStore)
      ensures S.Valid(entityStore) && S.Used(entityStore) <= old(S.Used(entityStore)) + 1
      ensures Obeys(PutBranchCommand(isJson, segments, body), old(S.ObjectsOf(entityStore)), resp)
    {
      if |segments| != 2 {
        return BadRequest("PUT target must be /Entity/{id}");
      }
      var ok, id := ParseId(segments[1]);
      if !ok {
        return BadRequest("Invalid ID");
      }
      resp := HandlePut(segments[0], id, body);
    }

    method DeleteBranch(segments: seq<string>) returns (resp: ResponseData)
      requires S.Valid(entityStore) && segments != []
      requires |segments| == 2 ==> InRange(segments[1])
      modifies S.Footprint(entityStore)
      ensures S.Valid(entityStore) && S.Used(entityStore) <= old(S.Used(entityStore)) + 1
      ensures Obeys(DeleteBranchCommand(segments), old(S.ObjectsOf(entityStore)), resp)
    {
      if |segments| != 2 {
        return BadRequest("DELETE target must be /Entity/{id}");
      }
      var ok, id := ParseId(segments[1]);
      if !ok {
        return BadRequest("Invalid ID");
      }
      resp := HandleDelete(segments[0], id);
    }

    /** The answer and what the store now holds are what the command asks, of the objects `before`. */
    ghost predicate Obeys(command: Command, before: Objects, resp: ResponseData)
      reads S.Footprint(entityStore)
    {
      Follows(command, before, resp, S.ObjectsOf(entityStore))
    }

    method HandlePost(entity: string, body: string) returns (resp: ResponseData)
      requires S.Valid(entityStore) && IsValidEntityName(entity)
      requires isJson(body) ==> S.HasRoom(entityStore, entity)
      modifies S.Footprint(entityStore)
      ensures S.Valid(entityStore) && S.Used(entityStore) <= old(S.Used(entityStore)) + 1
      ensures Obeys(PostCommand(isJson, entity, body), old(S.ObjectsOf(entityStore)), resp)
    {
      if !isJson(body) {
        return BadRequest("Body is not valid JSON");
      }
      ghost var before := S.ObjectsOf(entityStore);
      var id := S.Create(entityStore, entity, body);
      ReplyFollows(Op.Create(entity, body), Created(id as int), before, S.ObjectsOf(entityStore));
      if id < 0 {
        return InternalServerError("Failed to create entity");
      }
      return Ok("{\"id\":" + ToString(id as int) + "}", JSON);
    }

    method HandleGet(entity: string, segments: seq<string>) returns (resp: ResponseData)
      requires S.Valid(entityStore) && segments != [] && entity == segments[0]
      requires |segments| >= 2 ==> InRange(segments[1])
      modifies S.Footprint(entityStore)
      ensures S.Valid(entityStore) && S.Used(entityStore) <= old(S.Used(entityStore)) + 1
      ensures Obeys(GetCommand(segments), old(S.ObjectsOf(entityStore)), resp)
    {
      if |segments| == 1 {
        resp := HandleGetList(entity);
        return;
      }
      var ok, id := ParseId(segments[1]);
      if !ok {
        return BadRequest("Invalid ID");
      }
      resp := HandleGetObject(entity, id);
    }

    /** The part of `HandleGet` that lists all ids. */
    method HandleGetList(entity: string) returns (resp: ResponseData)
      requires S.Valid(entityStore)
      modifies S.Footprint(entityStore)
      ensures S.Valid(entityStore) && S.Used(entityStore) <= old(S.Used(entityStore)) + 1
      ensures Obeys(Ask(Op.List(entity)), old(S.ObjectsOf(entityStore)), resp)
    {
      ghost var before := S.ObjectsOf(entityStore);
      var ids := S.List(entityStore, entity);
      resp := AnswerList(entity, ids, before);
    }

    method AnswerList(entity: string, ids: seq<int>, ghost before: Objects) returns (resp: ResponseData)
      requires Promised(before, Op.List(entity), Listed(ids), S.ObjectsOf(entityStore))
      ensures Obeys(Ask(Op.List(entity)), before, resp)
    {
      ReplyFollows(Op.List(entity), Listed(ids), before, S.ObjectsOf(entityStore));
      assert Obeys(Ask(Op.List(entity)), before, Ok(ListJson(Sort(ids)), JSON));
      var json := WriteList(Sort(ids));
      resp := Ok(json, JSON);
    }

    /** The part of `HandleGet` that retrieves one object. */
    method HandleGetObject(entity: string, id: int32) returns (resp: ResponseData)
      requires S.Valid(entityStore)
      modifies S.Footprint(entityStore)
      ensures S.Valid(entityStore) && S.Used(entityStore) <= old(S.Used(entityStore)) + 1
      ensures Obeys(Ask(Op.Read(entity, id as int)), old(S.ObjectsOf(entityStore)), resp)
    {
      ghost var before := S.ObjectsOf(entityStore);
      var data := S.Read(entityStore, entity, id);
      ReplyFollows(Op.Read(entity, id as int), Found(data), before, S.ObjectsOf(entityStore));
      if data.None? {
        return NotFound("Entity not found");
      }
      return Ok(data.value, JSON);
    }

    method WriteList(ids: seq<int>) returns (json: string)
      ensures json == ListJson(ids)
    {
      json := "[";
      for i := 0 to |ids|
        invariant json == "[" + Joined(ids[..i])
      {
        assert ids[..i + 1][..i] == ids[..i];
        Associate("[", Joined(ids[..i]), ",");
        Associate("[", Joined(ids[..i]) + ",", ToString(ids[i]));
        if i != 0 {
          json := json + ",";
        }
        json := json + ToString(ids[i]);
      }
      assert ids[..|ids|] == ids;
      json := json + "]";
    }

    method HandlePut(entity: string, id: int32, body: string) returns (resp: ResponseData)
      requires S.Valid(entityStore) && IsValidEntityName(entity) && id >= 0
      modifies S.Footprint(entityStore)
      ensures S.Valid(entityStore) && S.Used(entityStore) <= old(S.Used(entityStore)) + 1
      ensures Obeys(PutCommand(isJson, entity, id as int, body), old(S.ObjectsOf(entityStore)), resp)
    {
      if !isJson(body) {
        return BadRequest("Body is not valid JSON");
      }
      ghost var before := S.ObjectsOf(entityStore);
      var ok := S.Update(entityStore, entity, id, body);
      ReplyFollows(Op.Update(entity, id as int, body), Done(ok), before, S.ObjectsOf(entityStore));
      if !ok {
        return InternalServerError("Failed to update entity");
      }
      return Ok("{\"id\":" + ToString(id as int) + "}", JSON);
    }

    method HandleDelete(entity: string, id: int32) returns (resp: ResponseData)
      requires S.Valid(entityStore)
      modifies S.Footprint(entityStore)
      ensures S.Valid(entityStore) && S.Used(entityStore) <= old(S.Used(entityStore)) + 1
      ensures Obeys(Ask(Op.Delete(entity, id as int)), old(S.ObjectsOf(entityStore)), resp)
    {
      ghost var before := S.ObjectsOf(entityStore);
      var ok := S.Delete(entityStore, entity, id);
      ReplyFollows(Op.Delete(entity, id as int), Done(ok), before, S.ObjectsOf(entityStore));
      if !ok {
        return NotFound("Entity not found");
      }
      return Ok("{\"deleted\":true}", JSON);
    }

    /** What is left of a URL without its query and the prefix. */
    method PathOf(url: string) returns (path: string)
      ensures path == WithoutPrefix(urlPrefix, url[..IndexOf(url, '?')])
    {
      path := url;
      var queryPos := IndexOf(path, '?');
      assert url[..|url|] == url;
      if queryPos != |path| {
        path := path[..queryPos];
      }
      if urlPrefix != "" && StartsWith(path, urlPrefix) {
        var exactMatch := |path| == |urlPrefix|;
        var boundary := !exactMatch && path[|urlPrefix|] == '/';
        if exactMatch || boundary {
          path := path[|urlPrefix|..];
        }
      }
    }

    /** The two trimming loops leave the segments as they are. */
    method TrimSlashes(untrimmed: string) returns (path: string)
      ensures Pieces(path) == Pieces(untrimmed)
      ensures path != "" ==> path[0] != '/' && path[|path| - 1] != '/'
    {
      path := untrimmed;
      while path != "" && path[0] == '/'
        invariant Pieces(path) == Pieces(untrimmed)
        decreases |path|
      {
        path := path[1..];
      }
      while path != "" && path[|path| - 1] == '/'
        invariant Pieces(path) == Pieces(untrimmed)
        invariant path != "" ==> path[0] != '/'
        decreases |path|
      {
        TrimEnd(path[..|path| - 1]);
        assert path == path[..|path| - 1] + "/";
        path := path[..|path| - 1];
      }
    }

    method ExtractSegments(url: string) returns (segments: seq<string>)
      ensures segments == Segments(urlPrefix, url)
    {
      var path := PathOf(url);
      path := TrimSlashes(path);
      if path == "" {
        return [];
      }
      segments := SplitAtSlashes(path);
    }

    /** The `getline` loop. */
    method SplitAtSlashes(path: string) returns (segments: seq<string>)
      ensures segments == Pieces(path)
    {
      segments := [];
      var rest := path;
      while rest != ""
        invariant segments + Pieces(rest) == Pieces(path)
        decreases |rest|
      {
        var n := IndexOf(rest, '/');
        var segment := rest[..n];
        var left := if n < |rest| then rest[n + 1..] else "";
        LineOf(rest);
        Associate(segments, PieceOf(segment), Pieces(left));
        if segment != "" {
          segments := segments + [segment];
        }
        rest := left;
      }
    }
  }
}
