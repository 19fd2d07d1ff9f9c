/** The server and its sessions run by any number of threads: an outstanding operation completes on some
    idle thread, and the callback then runs in small steps, interleaved with those of all other threads.
    There is no lock; safety rests on each session having one owner, an outstanding operation or a thread. */
module SessionProtocol {
  import opened RequestParser
  import opened RequestStability
  import opened ResponseBuilder
  import opened Session

  type Sid = int
  type OpId = int
  type Thread = int

  /** A request that was answered, the response, and the number of the read that brought it on. */
  datatype Exchange = Exchange(request: RequestData, answer: ResponseData, upTo: nat)

  /** A session object, with what has come in over its connection and what it has answered. */
  datatype Conn = Conn(buffers: Buffers, received: seq<string>, exchanges: seq<Exchange>)

  const NEW := Conn(Buffers("", "", ""), [], [])

  /** An outstanding operation; its buffer lies in the session. */
  datatype Pending = Accept(sid: Sid) | Read(sid: Sid) | Write(sid: Sid, bytes: string)

  /** The member access that a thread is about to make. */
  datatype Pc =
    | Idle
    | Accepted(sid: Sid)                         // handle_accept: read the peer's endpoint
    | Starting(sid: Sid)                         // start: set ip and port
    | Greeting(sid: Sid)                         // start: issue the first read
    | Dropping(sid: Sid)                         // handle_accept: delete the session
    | Rearming                                   // start_accept: a new session, and accept into it
    | Received(sid: Sid, n: nat)                 // handle_read: append to the buffer
    | Parsing(sid: Sid)                          // parse the buffer
    | Answering(sid: Sid, request: RequestData)  // set response_
    | Sending(sid: Sid)                          // SendResponse: issue the write
    | Reading(sid: Sid)                          // StartAsyncRead: issue a read
    | Closing(sid: Sid)                          // HandleError: delete this
    | Returning                                  // out of the callback, behind the last access

  datatype State = State(
    sessions: map<Sid, Conn>,
    nextSid: Sid,
    ops: map<OpId, Pending>,
    nextOp: OpId,
    threads: map<Thread, Pc>,
    faulted: bool)                               // a session was used or deleted after its deletion

  // ---------- The steps ----------

  function PcOf(s: State, t: Thread): Pc {
    if t in s.threads then s.threads[t] else Idle
  }

  function Goto(s: State, t: Thread, pc: Pc): State {
    s.(threads := s.threads[t := pc])
  }

  function Put(s: State, sid: Sid, conn: Conn): State {
    s.(sessions := s.sessions[sid := conn])
  }

  function Issue(s: State, p: Pending): State {
    s.(ops := s.ops[s.nextOp := p], nextOp := s.nextOp + 1)
  }

  function StartAccept(s: State): State {
    Issue(Put(s, s.nextSid, NEW), Accept(s.nextSid)).(nextSid := s.nextSid + 1)
  }

  /** An operation completes on an idle thread, or the thread makes its next step; `handled` is what the
      dispatcher's handler answers if it is asked in that step. */
  datatype Action =
    | Complete(thread: Thread, op: OpId, error: bool, bytes: string)
    | Go(thread: Thread, handled: ResponseData)

  /** The constructor of the server starts the first accept. */
  const INITIAL := StartAccept(State(map[], 0, map[], 0, map[], false))

  /** The state after an action; an action that cannot happen changes nothing. */
  function Apply(s: State, a: Action): State {
    match a
    case Complete(t, op, error, bytes) =>
      if !PcOf(s, t).Idle? || op !in s.ops || |bytes| > MAX_LENGTH then s
      else if s.ops[op].sid !in s.sessions then s.(faulted := true)
      else Completed(s, t, op, error, bytes)
    case Go(t, handled) =>
      match PcOf(s, t)
      case Idle => s
      case Returning => Goto(s, t, Idle)
      case Rearming => Goto(StartAccept(s), t, Returning)
      case pc => if pc.sid !in s.sessions then s.(faulted := true) else Inside(s, t, pc, handled)
  }

  function Completed(s: State, t: Thread, op: OpId, error: bool, bytes: string): State
    requires op in s.ops && s.ops[op].sid in s.sessions
  {
    var s' := s.(ops := s.ops - {op});
    match s.ops[op]
    case Accept(sid) => Goto(s', t, if error then Dropping(sid) else Accepted(sid))
    case Read(sid) =>
      if error then Goto(s', t, Closing(sid))
      else Goto(Put(s', sid, Arrived(s.sessions[sid], bytes)), t, Received(sid, |bytes|))
    case Write(sid, _) => Goto(s', t, if error then Closing(sid) else Reading(sid))
  }

  /** A completed read has filled the session's array. */
  function Arrived(c: Conn, bytes: string): Conn {
    c.(buffers := c.buffers.(data := bytes), received := c.received + [bytes])
  }

  function Answered(c: Conn, q: RequestData, handled: ResponseData): Conn {
    var answer := ResponseTo(q, handled);
    c.(buffers := c.buffers.(response := Serialized(answer)),
       exchanges := c.exchanges + [Exchange(q, answer, |c.received|)])
  }

  /** A step that uses a live session. */
  function Inside(s: State, t: Thread, pc: Pc, handled: ResponseData): State
    requires !pc.Idle? && !pc.Returning? && !pc.Rearming? && pc.sid in s.sessions
  {
    var sid := pc.sid;
    var c := s.sessions[sid];
    match pc
    case Accepted(_) => Goto(s, t, Starting(sid))
    case Starting(_) => Goto(s, t, Greeting(sid))
    case Greeting(_) => Goto(Issue(s, Read(sid)), t, Rearming)
    case Dropping(_) => Goto(s.(sessions := s.sessions - {sid}), t, Rearming)
    case Received(_, n) =>
      var m := if n <= |c.buffers.data| then n else 0;
      Goto(Put(s, sid, c.(buffers := Appended(c.buffers, m))), t, Parsing(sid))
    case Parsing(_) =>
      var all := c.buffers.requestBuffer;
      Goto(s, t, if IsComplete(all) then Answering(sid, Parsed(all)) else Reading(sid))
    case Answering(_, q) => Goto(Put(s, sid, Answered(c, q, handled)), t, Sending(sid))
    case Sending(_) => Goto(Issue(s, Write(sid, c.buffers.response)), t, Returning)
    case Reading(_) => Goto(Issue(s, Read(sid)), t, Returning)
    case Closing(_) => Goto(s.(sessions := s.sessions - {sid}), t, Returning)
  }

  function Exec(actions: seq<Action>): State {
    if actions == [] then INITIAL else Apply(Exec(actions[..|actions| - 1]), actions[|actions| - 1])
  }

  // ---------- Who may use a session ----------

  datatype Claimant = ByOp(op: OpId) | ByThread(thread: Thread)

  /** An operation waiting to complete, or a thread at some step. */
  datatype Stage = Waits(p: Pending) | Runs(pc: Pc)

  function StageOf(s: State, c: Claimant): Stage {
    match c
    case ByOp(op) => if op in s.ops then Waits(s.ops[op]) else Runs(Idle)
    case ByThread(t) => Runs(PcOf(s, t))
  }

  predicate Holds(stage: Stage) {
    match stage
    case Waits(_) => true
    case Runs(pc) => !pc.Idle? && !pc.Returning? && !pc.Rearming?
  }

  /** The session whose members a stage uses. */
  function Held(stage: Stage): Sid
    requires Holds(stage)
  {
    match stage
    case Waits(p) => p.sid
    case Runs(pc) => pc.sid
  }

  predicate Uses(s: State, c: Claimant, sid: Sid) {
    Holds(StageOf(s, c)) && Held(StageOf(s, c)) == sid
  }

  /** The accept is outstanding or being handled. */
  predicate Accepts(stage: Stage) {
    match stage
    case Waits(p) => p.Accept?
    case Runs(pc) => pc.Accepted? || pc.Starting? || pc.Greeting? || pc.Dropping? || pc.Rearming?
  }

  // ---------- What a session holds at each stage ----------

  /** The numbers of the reads, up to number `n`, behind which the bytes hold a complete request. */
  function CompleteReads(chunks: seq<string>, n: nat): seq<nat>
    requires n <= |chunks|
  {
    if n == 0 then [] else CompleteReads(chunks, n - 1) + if IsComplete(After(chunks, n)) then [n] else []
  }

  function ReadsOf(exchanges: seq<Exchange>): seq<nat> {
    if exchanges == [] then []
    else ReadsOf(exchanges[..|exchanges| - 1]) + [exchanges[|exchanges| - 1].upTo]
  }

  /** Each answer is one to what the bytes of its reads parse to. */
  ghost predicate Consistent(c: Conn) {
    forall i | 0 <= i < |c.exchanges| :: IsAnswerTo(c.exchanges[i], c.received)
  }

  predicate IsAnswerTo(e: Exchange, received: seq<string>) {
    && 0 < e.upTo <= |received| && IsComplete(After(received, e.upTo))
    && e.request == Parsed(After(received, e.upTo))
    && (!e.request.isValid ==> e.answer == BadRequest("400 Bad Request"))
  }

  predicate Collected(c: Conn) {
    c.buffers.requestBuffer == Concat(c.received)
  }

  /** Every read that found a complete request has been answered, once and in order. */
  predicate Answers(c: Conn) {
    ReadsOf(c.exchanges) == CompleteReads(c.received, |c.received|)
  }

  /** The same but for the last read. */
  predicate AnswersEarlier(c: Conn) {
    c.received != [] && ReadsOf(c.exchanges) == CompleteReads(c.received, |c.received| - 1)
  }

  predicate HasAnswer(c: Conn) {
    c.exchanges != [] && c.buffers.response == Serialized(c.exchanges[|c.exchanges| - 1].answer)
  }

  ghost predicate Fits(c: Conn, stage: Stage) {
    && Consistent(c)
    && match stage
       case Waits(Accept(_)) => c == NEW
       case Waits(Read(_)) => Collected(c) && Answers(c)
       case Waits(Write(_, bytes)) => Collected(c) && Answers(c) && HasAnswer(c) && bytes == c.buffers.response
       case Runs(pc) =>
         match pc
         case Received(_, n) =>
           && AnswersEarlier(c) && n == |c.buffers.data| && c.buffers.data == c.received[|c.received| - 1]
           && c.buffers.requestBuffer == Concat(c.received[..|c.received| - 1])
         case Parsing(_) => Collected(c) && AnswersEarlier(c)
         case Answering(_, q) =>
           && Collected(c) && AnswersEarlier(c)
           && IsComplete(c.buffers.requestBuffer) && q == Parsed(c.buffers.requestBuffer)
         case Sending(_) => Collected(c) && Answers(c) && HasAnswer(c)
         case Reading(_) => Collected(c) && Answers(c)
         case Closing(_) => Collected(c) && Answers(c)
         case _ => c == NEW
  }

  // ---------- The invariant ----------

  type Owners = map<Sid, Claimant>

  ghost predicate FitsAt(s: State, c: Claimant, sid: Sid) {
    Uses(s, c, sid) && sid in s.sessions && Fits(s.sessions[sid], StageOf(s, c))
  }

  /** Whoever uses a session is the owner of it, and every owner uses its session. */
  ghost predicate OwnersUse(s: State, owners: Owners) {
    && (forall c :: Holds(StageOf(s, c)) ==>
          Held(StageOf(s, c)) in owners && owners[Held(StageOf(s, c))] == c)
    && (forall sid :: sid in owners ==> Uses(s, owners[sid], sid))
  }

  /** Every live session has an owner, and holds what it must at that owner's stage. */
  ghost predicate Owned(s: State, owners: Owners) {
    && owners.Keys == s.sessions.Keys
    && OwnersUse(s, owners)
    && (forall sid :: sid in owners ==> FitsAt(s, owners[sid], sid))
  }

  ghost predicate OneAccepts(s: State, acceptor: Claimant) {
    forall c :: Accepts(StageOf(s, c)) <==> c == acceptor
  }

  predicate Fresh(s: State) {
    (forall sid :: sid in s.sessions ==> sid < s.nextSid) && (forall op :: op in s.ops ==> op < s.nextOp)
  }

  ghost predicate Inv(s: State, owners: Owners, acceptor: Claimant) {
    !s.faulted && Fresh(s) && Owned(s, owners) && OneAccepts(s, acceptor)
  }

  /** Only the stages of `c` and `d` change. */
  ghost predicate OthersStay(s: State, s': State, c: Claimant, d: Claimant) {
    forall e :: e != c && e != d ==> StageOf(s', e) == StageOf(s, e)
  }

  lemma {:induction false} StaysFit(s: State, s': State, c: Claimant, sid: Sid)
    requires FitsAt(s, c, sid) && StageOf(s', c) == StageOf(s, c)
    requires sid in s'.sessions && s'.sessions[sid] == s.sessions[sid]
    ensures FitsAt(s', c, sid)
  {
  }

  /** An owner `c` gives up its session; `d`, which may be the same, may take one that has no other owner. */
  lemma {:induction false} OwnersMove(s: State, s': State, owners: Owners, owners': Owners, c: Claimant, d: Claimant)
    requires OwnersUse(s, owners) && OthersStay(s, s', c, d)
    requires Holds(StageOf(s, d)) ==> c == d
    requires forall k :: k in owners' && owners'[k] != d ==> owners'[k] != c && k in owners && owners[k] == owners'[k]
    requires forall k :: k in owners && owners[k] != c ==> k in owners' && owners'[k] == owners[k]
    requires Holds(StageOf(s', d)) ==> Held(StageOf(s', d)) in owners' && owners'[Held(StageOf(s', d))] == d
    requires forall k :: k in owners' && owners'[k] == d ==> Uses(s', d, k)
    requires c != d ==> !Holds(StageOf(s', c))
    ensures OwnersUse(s', owners')
  {
  }

  /** A session passes from its owner `c` to `d`, which may be the same. */
  lemma {:induction false} Handover(s: State, s': State, owners: Owners, sid: Sid, c: Claimant, d: Claimant)
    requires Owned(s, owners) && sid in owners && owners[sid] == c
    requires OthersStay(s, s', c, d) && (c != d ==> !Holds(StageOf(s', c)) && !Holds(StageOf(s, d)))
    requires sid in s'.sessions && s'.sessions == s.sessions[sid := s'.sessions[sid]]
    requires FitsAt(s', d, sid)
    ensures Owned(s', owners[sid := d])
  {
    var owners' := owners[sid := d];
    OwnersMove(s, s', owners, owners', c, d);
    forall k | k in owners' ensures FitsAt(s', owners'[k], k) {
      if k != sid {
        assert FitsAt(s, owners[k], k);
        StaysFit(s, s', owners[k], k);
      }
    }
  }

  /** An owner gives up a session, which is deleted. */
  lemma {:induction false} Deletion(s: State, s': State, owners: Owners, sid: Sid, c: Claimant)
    requires Owned(s, owners) && sid in owners && owners[sid] == c
    requires OthersStay(s, s', c, c) && !Holds(StageOf(s', c))
    requires s'.sessions == s.sessions - {sid}
    ensures Owned(s', owners - {sid})
  {
    var owners' := owners - {sid};
    forall k | k in owners' ensures FitsAt(s', owners'[k], k) {
      assert FitsAt(s, owners[k], k);
      StaysFit(s, s', owners[k], k);
    }
  }

  /** A new session gets an owner that had none. */
  lemma {:induction false} Addition(s: State, s': State, owners: Owners, sid: Sid, c: Claimant, d: Claimant)
    requires Owned(s, owners) && sid !in owners
    requires OthersStay(s, s', c, d) && c != d
    requires !Holds(StageOf(s, c)) && !Holds(StageOf(s', c)) && !Holds(StageOf(s, d))
    requires s'.sessions == s.sessions[sid := NEW] && FitsAt(s', d, sid)
    ensures Owned(s', owners[sid := d])
  {
    var owners' := owners[sid := d];
    forall k | k in owners' ensures FitsAt(s', owners'[k], k) {
      if k != sid {
        assert FitsAt(s, owners[k], k);
        StaysFit(s, s', owners[k], k);
      }
    }
  }

  function NextAcceptor(s': State, c: Claimant, d: Claimant, acceptor: Claimant): Claimant {
    if Accepts(StageOf(s', d)) then d else if Accepts(StageOf(s', c)) then c else acceptor
  }

  /** When only `c` and `d` change, and one of them has the accept before if and only if one has it after. */
  lemma {:induction false} AcceptMoves(s: State, s': State, c: Claimant, d: Claimant, acceptor: Claimant)
    requires OneAccepts(s, acceptor) && OthersStay(s, s', c, d)
    requires acceptor == c || acceptor == d <==> Accepts(StageOf(s', c)) || Accepts(StageOf(s', d))
    requires Accepts(StageOf(s', c)) && Accepts(StageOf(s', d)) ==> c == d
    ensures OneAccepts(s', NextAcceptor(s', c, d, acceptor))
  {
  }

  // ---------- Completions ----------

  predicate CanComplete(s: State, t: Thread, op: OpId, bytes: string) {
    PcOf(s, t).Idle? && op in s.ops && |bytes| <= MAX_LENGTH && s.ops[op].sid in s.sessions
  }

  lemma {:induction false} CompleteReadsAppend(chunks: seq<string>, more: string, n: nat)
    requires n <= |chunks|
    ensures CompleteReads(chunks + [more], n) == CompleteReads(chunks, n)
  {
    if n > 0 {
      CompleteReadsAppend(chunks, more, n - 1);
      assert (chunks + [more])[..n] == chunks[..n];
    }
  }

  lemma {:induction false} AnswerStays(e: Exchange, received: seq<string>, more: string)
    requires IsAnswerTo(e, received)
    ensures IsAnswerTo(e, received + [more])
  {
    assert (received + [more])[..e.upTo] == received[..e.upTo];
  }

  lemma {:induction false} ArrivedConsistent(c: Conn, bytes: string)
    requires Consistent(c)
    ensures Consistent(Arrived(c, bytes))
  {
    forall i | 0 <= i < |c.exchanges| ensures IsAnswerTo(c.exchanges[i], c.received + [bytes]) {
      AnswerStays(c.exchanges[i], c.received, bytes);
    }
  }

  lemma {:induction false} ArrivedEarlier(c: Conn, bytes: string)
    requires Answers(c)
    ensures AnswersEarlier(Arrived(c, bytes))
  {
    CompleteReadsAppend(c.received, bytes, |c.received|);
  }

  /** The bytes that a read brings are there to be appended, in order. */
  lemma {:induction false} ArrivedFits(c: Conn, bytes: string, sid: Sid)
    requires Consistent(c) && Collected(c) && Answers(c)
    ensures Fits(Arrived(c, bytes), Runs(Received(sid, |bytes|)))
  {
    ArrivedConsistent(c, bytes);
    ArrivedEarlier(c, bytes);
    assert (c.received + [bytes])[..|c.received|] == c.received;
  }

  lemma {:induction false} ReadFits(s: State, t: Thread, op: OpId, bytes: string)
    requires CanComplete(s, t, op, bytes) && s.ops[op].Read? && FitsAt(s, ByOp(op), s.ops[op].sid)
    ensures FitsAt(Completed(s, t, op, false, bytes), ByThread(t), s.ops[op].sid)
  {
    var sid := s.ops[op].sid;
    ArrivedFits(s.sessions[sid], bytes, sid);
  }

  lemma {:induction false} CompletionFits(s: State, t: Thread, op: OpId, error: bool, bytes: string)
    requires CanComplete(s, t, op, bytes) && FitsAt(s, ByOp(op), s.ops[op].sid)
    ensures FitsAt(Completed(s, t, op, error, bytes), ByThread(t), s.ops[op].sid)
  {
    if s.ops[op].Read? && !error {
      ReadFits(s, t, op, bytes);
    }
  }

  lemma {:induction false} CompletionMoves(s: State, t: Thread, op: OpId, error: bool, bytes: string)
    requires CanComplete(s, t, op, bytes)
    ensures var s', sid := Completed(s, t, op, error, bytes), s.ops[op].sid;
            && OthersStay(s, s', ByOp(op), ByThread(t))
            && sid in s'.sessions && s'.sessions == s.sessions[sid := s'.sessions[sid]]
            && (Accepts(StageOf(s', ByThread(t))) <==> s.ops[op].Accept?)
            && StageOf(s', ByOp(op)) == Runs(Idle)
            && s'.faulted == s.faulted && s'.nextSid == s.nextSid && s'.nextOp == s.nextOp && s'.ops == s.ops - {op}
  {
  }

  lemma {:induction false} CompletionKeeps(s: State, t: Thread, op: OpId, error: bool, bytes: string,
                                           owners: Owners, acceptor: Claimant)
    returns (owners': Owners, acceptor': Claimant)
    requires Inv(s, owners, acceptor) && CanComplete(s, t, op, bytes)
    ensures Inv(Completed(s, t, op, error, bytes), owners', acceptor')
  {
    var s', sid, c, d := Completed(s, t, op, error, bytes), s.ops[op].sid, ByOp(op), ByThread(t);
    assert Holds(StageOf(s, c)) && Held(StageOf(s, c)) == sid;
    assert FitsAt(s, c, sid);
    CompletionMoves(s, t, op, error, bytes);
    CompletionFits(s, t, op, error, bytes);
    Handover(s, s', owners, sid, c, d);
    assert Accepts(StageOf(s, c)) <==> s.ops[op].Accept?;
    AcceptMoves(s, s', c, d, acceptor);
    owners', acceptor' := owners[sid := d], NextAcceptor(s', c, d, acceptor);
  }

  // ---------- Steps of a thread ----------

  /** The thread goes on with its session. */
  predicate GoesOn(pc: Pc) {
    pc.Accepted? || pc.Starting? || pc.Received? || pc.Parsing? || pc.Answering?
  }

  /** The thread issues an operation, behind which it uses the session no more. */
  predicate Issues(pc: Pc) {
    pc.Greeting? || pc.Sending? || pc.Reading?
  }

  predicate Deletes(pc: Pc) {
    pc.Dropping? || pc.Closing?
  }

  lemma {:induction false} AppendedFits(c: Conn, stage: Stage, next: Stage)
    requires stage.Runs? && stage.pc.Received? && Fits(c, stage) && next.Runs? && next.pc.Parsing?
    ensures Fits(c.(buffers := Appended(c.buffers, |c.buffers.data|)), next)
  {
    assert c.buffers.data[..|c.buffers.data|] == c.buffers.data;
    assert Concat(c.received) == Concat(c.received[..|c.received| - 1]) + c.received[|c.received| - 1];
  }

  lemma {:induction false} ReceivedFits(s: State, t: Thread, handled: ResponseData)
    requires PcOf(s, t).Received? && FitsAt(s, ByThread(t), PcOf(s, t).sid)
    ensures FitsAt(Inside(s, t, PcOf(s, t), handled), ByThread(t), PcOf(s, t).sid)
  {
    var pc := PcOf(s, t);
    AppendedFits(s.sessions[pc.sid], Runs(pc), Runs(Parsing(pc.sid)));
  }

  lemma {:induction false} AfterAll(chunks: seq<string>)
    ensures After(chunks, |chunks|) == Concat(chunks)
  {
    assert chunks[..|chunks|] == chunks;
  }

  lemma {:induction false} AnsweredFits(c: Conn, q: RequestData, handled: ResponseData, stage: Stage, next: Stage)
    requires stage.Runs? && stage.pc.Answering? && stage.pc.request == q && Fits(c, stage)
    requires next.Runs? && next.pc.Sending?
    ensures Fits(Answered(c, q, handled), next)
  {
    var c' := Answered(c, q, handled);
    var n := |c.exchanges|;
    AfterAll(c.received);
    assert c'.exchanges[..n] == c.exchanges && c'.exchanges[n].upTo == |c.received|;
    forall i | 0 <= i < |c'.exchanges| ensures IsAnswerTo(c'.exchanges[i], c'.received) {
      assert i < n ==> c'.exchanges[i] == c.exchanges[i];
    }
  }

  lemma {:induction false} AnsweringFits(s: State, t: Thread, handled: ResponseData)
    requires PcOf(s, t).Answering? && FitsAt(s, ByThread(t), PcOf(s, t).sid)
    ensures FitsAt(Inside(s, t, PcOf(s, t), handled), ByThread(t), PcOf(s, t).sid)
  {
    var pc := PcOf(s, t);
    AnsweredFits(s.sessions[pc.sid], pc.request, handled, Runs(pc), Runs(Sending(pc.sid)));
  }

  /** A read that has not completed the request needs no answer. */
  lemma {:induction false} NothingToAnswer(c: Conn)
    requires Collected(c) && AnswersEarlier(c) && !IsComplete(c.buffers.requestBuffer)
    ensures Answers(c)
  {
    AfterAll(c.received);
    assert CompleteReads(c.received, |c.received| - 1) + [] == CompleteReads(c.received, |c.received| - 1);
  }

  lemma {:induction false} ParsingFits(s: State, t: Thread, handled: ResponseData)
    requires PcOf(s, t).Parsing? && FitsAt(s, ByThread(t), PcOf(s, t).sid)
    ensures FitsAt(Inside(s, t, PcOf(s, t), handled), ByThread(t), PcOf(s, t).sid)
  {
    var c := s.sessions[PcOf(s, t).sid];
    if !IsComplete(c.buffers.requestBuffer) {
      NothingToAnswer(c);
    }
  }

  lemma {:induction false} GoesOnFits(s: State, t: Thread, handled: ResponseData)
    requires GoesOn(PcOf(s, t)) && FitsAt(s, ByThread(t), PcOf(s, t).sid)
    ensures FitsAt(Inside(s, t, PcOf(s, t), handled), ByThread(t), PcOf(s, t).sid)
  {
    match PcOf(s, t)
    case Received(_, _) => ReceivedFits(s, t, handled);
    case Parsing(_) => ParsingFits(s, t, handled);
    case Answering(_, _) => AnsweringFits(s, t, handled);
    case _ =>
  }

  lemma {:induction false} GoesOnMoves(s: State, t: Thread, pc: Pc, handled: ResponseData)
    requires PcOf(s, t) == pc && GoesOn(pc) && pc.sid in s.sessions
    ensures var s' := Inside(s, t, pc, handled);
            && OthersStay(s, s', ByThread(t), ByThread(t))
            && pc.sid in s'.sessions && s'.sessions == s.sessions[pc.sid := s'.sessions[pc.sid]]
            && (Accepts(StageOf(s', ByThread(t))) <==> Accepts(StageOf(s, ByThread(t))))
            && s'.faulted == s.faulted && s'.nextSid == s.nextSid && s'.nextOp == s.nextOp && s'.ops == s.ops
  {
  }

  lemma {:induction false} GoesOnKeeps(s: State, t: Thread, handled: ResponseData, owners: Owners, acceptor: Claimant)
    returns (owners': Owners, acceptor': Claimant)
    requires Inv(s, owners, acceptor) && GoesOn(PcOf(s, t)) && PcOf(s, t).sid in s.sessions
    ensures Inv(Inside(s, t, PcOf(s, t), handled), owners', acceptor')
  {
    var pc, c := PcOf(s, t), ByThread(t);
    var s' := Inside(s, t, pc, handled);
    assert Holds(StageOf(s, c)) && Held(StageOf(s, c)) == pc.sid;
    assert FitsAt(s, c, pc.sid);
    GoesOnMoves(s, t, pc, handled);
    GoesOnFits(s, t, handled);
    Handover(s, s', owners, pc.sid, c, c);
    AcceptMoves(s, s', c, c, acceptor);
    owners', acceptor' := owners[pc.sid := c], NextAcceptor(s', c, c, acceptor);
  }

  /** What an operation needs of the session is what the thread leaves that issues it. */
  lemma {:induction false} IssuedFits(c: Conn, sid: Sid, pc: Pc)
    requires Issues(pc) && Fits(c, Runs(pc))
    ensures Fits(c, Waits(if pc.Sending? then Write(sid, c.buffers.response) else Read(sid)))
  {
  }

  lemma {:induction false} IssueFits(s: State, t: Thread, handled: ResponseData)
    requires Issues(PcOf(s, t)) && FitsAt(s, ByThread(t), PcOf(s, t).sid)
    ensures FitsAt(Inside(s, t, PcOf(s, t), handled), ByOp(s.nextOp), PcOf(s, t).sid)
  {
    var pc := PcOf(s, t);
    IssuedFits(s.sessions[pc.sid], pc.sid, pc);
  }

  lemma {:induction false} IssueMoves(s: State, t: Thread, pc: Pc, handled: ResponseData)
    requires PcOf(s, t) == pc && Issues(pc) && pc.sid in s.sessions
    ensures var s', c, d := Inside(s, t, pc, handled), ByThread(t), ByOp(s.nextOp);
            && OthersStay(s, s', c, d) && !Holds(StageOf(s', c))
            && s'.sessions == s.sessions[pc.sid := s.sessions[pc.sid]]
            && (Accepts(StageOf(s', c)) <==> Accepts(StageOf(s, c))) && !Accepts(StageOf(s', d))
            && s'.faulted == s.faulted && s'.nextSid == s.nextSid && s'.nextOp == s.nextOp + 1
            && s'.ops.Keys == s.ops.Keys + {s.nextOp}
  {
  }

  lemma {:induction false} IssueKeeps(s: State, t: Thread, handled: ResponseData, owners: Owners, acceptor: Claimant)
    returns (owners': Owners, acceptor': Claimant)
    requires Inv(s, owners, acceptor) && Issues(PcOf(s, t)) && PcOf(s, t).sid in s.sessions
    ensures Inv(Inside(s, t, PcOf(s, t), handled), owners', acceptor')
  {
    var pc, c, d := PcOf(s, t), ByThread(t), ByOp(s.nextOp);
    var s' := Inside(s, t, pc, handled);
    assert Holds(StageOf(s, c)) && Held(StageOf(s, c)) == pc.sid;
    assert FitsAt(s, c, pc.sid);
    IssueMoves(s, t, pc, handled);
    IssueFits(s, t, handled);
    assert s.nextOp !in s.ops && StageOf(s, d) == Runs(Idle);
    Handover(s, s', owners, pc.sid, c, d);
    AcceptMoves(s, s', c, d, acceptor);
    owners', acceptor' := owners[pc.sid := d], NextAcceptor(s', c, d, acceptor);
  }

  lemma {:induction false} DeleteKeeps(s: State, t: Thread, handled: ResponseData, owners: Owners, acceptor: Claimant)
    returns (owners': Owners, acceptor': Claimant)
    requires Inv(s, owners, acceptor) && Deletes(PcOf(s, t)) && PcOf(s, t).sid in s.sessions
    ensures Inv(Inside(s, t, PcOf(s, t), handled), owners', acceptor')
  {
    var pc, c := PcOf(s, t), ByThread(t);
    var s' := Inside(s, t, pc, handled);
    assert Holds(StageOf(s, c)) && Held(StageOf(s, c)) == pc.sid;
    Deletion(s, s', owners, pc.sid, c);
    assert Accepts(StageOf(s, c)) <==> pc.Dropping?;
    AcceptMoves(s, s', c, c, acceptor);
    owners', acceptor' := owners - {pc.sid}, NextAcceptor(s', c, c, acceptor);
  }

  lemma {:induction false} RearmKeeps(s: State, t: Thread, owners: Owners, acceptor: Claimant)
    returns (owners': Owners, acceptor': Claimant)
    requires Inv(s, owners, acceptor) && PcOf(s, t).Rearming?
    ensures Inv(Goto(StartAccept(s), t, Returning), owners', acceptor')
  {
    var c, d := ByThread(t), ByOp(s.nextOp);
    var s' := Goto(StartAccept(s), t, Returning);
    assert Accepts(StageOf(s, c)) && !Holds(StageOf(s, d)) && !Accepts(StageOf(s, d));
    Addition(s, s', owners, s.nextSid, c, d);
    AcceptMoves(s, s', c, d, acceptor);
    owners', acceptor' := owners[s.nextSid := d], NextAcceptor(s', c, d, acceptor);
  }

  lemma {:induction false} ReturnKeeps(s: State, t: Thread, owners: Owners, acceptor: Claimant)
    requires Inv(s, owners, acceptor) && PcOf(s, t).Returning?
    ensures Inv(Goto(s, t, Idle), owners, acceptor)
  {
    var s' := Goto(s, t, Idle);
    assert !Accepts(StageOf(s, ByThread(t)));
    assert OthersStay(s, s', ByThread(t), ByThread(t));
    forall k | k in owners ensures FitsAt(s', owners[k], k) {
      assert FitsAt(s, owners[k], k);
      StaysFit(s, s', owners[k], k);
    }
  }

  lemma {:induction false} ApplyKeepsInv(s: State, a: Action, owners: Owners, acceptor: Claimant)
    returns (owners': Owners, acceptor': Claimant)
    requires Inv(s, owners, acceptor)
    ensures Inv(Apply(s, a), owners', acceptor')
  {
    owners', acceptor' := owners, acceptor;
    match a
    case Complete(t, op, error, bytes) =>
      if op in s.ops {
        assert Holds(StageOf(s, ByOp(op))) && Held(StageOf(s, ByOp(op))) in owners;
      }
      if CanComplete(s, t, op, bytes) {
        owners', acceptor' := CompletionKeeps(s, t, op, error, bytes, owners, acceptor);
      }
    case Go(t, handled) =>
      owners', acceptor' := GoKeepsInv(s, t, handled, owners, acceptor);
  }

  lemma {:induction false} GoKeepsInv(s: State, t: Thread, handled: ResponseData, owners: Owners, acceptor: Claimant)
    returns (owners': Owners, acceptor': Claimant)
    requires Inv(s, owners, acceptor)
    ensures Inv(Apply(s, Go(t, handled)), owners', acceptor')
  {
    owners', acceptor' := owners, acceptor;
    var pc := PcOf(s, t);
    match pc
    case Idle =>
    case Returning => ReturnKeeps(s, t, owners, acceptor);
    case Rearming => owners', acceptor' := RearmKeeps(s, t, owners, acceptor);
    case _ =>
      assert Holds(StageOf(s, ByThread(t))) && Held(StageOf(s, ByThread(t))) in owners;
      if GoesOn(pc) {
        owners', acceptor' := GoesOnKeeps(s, t, handled, owners, acceptor);
      } else if Issues(pc) {
        owners', acceptor' := IssueKeeps(s, t, handled, owners, acceptor);
      } else {
        owners', acceptor' := DeleteKeeps(s, t, handled, owners, acceptor);
      }
  }

  lemma {:induction false} SendAlone(s: State, t: Thread, sid: Sid, handled: ResponseData)
    requires PcOf(s, t) == Sending(sid) && sid in s.sessions
    ensures var s' := Apply(s, Go(t, handled));
            && s'.sessions == s.sessions && PcOf(s', t) == Returning
            && s'.ops == s.ops[s.nextOp := Write(sid, s.sessions[sid].buffers.response)]
  {
  }

  lemma {:induction false} ParseAlone(s: State, t: Thread, sid: Sid, handled: ResponseData)
    requires PcOf(s, t) == Parsing(sid) && sid in s.sessions && IsComplete(s.sessions[sid].buffers.requestBuffer)
    ensures Apply(s, Go(t, handled)) == Goto(s, t, Answering(sid, Parsed(s.sessions[sid].buffers.requestBuffer)))
  {
  }

  lemma {:induction false} RespondAlone(s: State, t: Thread, sid: Sid, q: RequestData, handled: ResponseData)
    requires PcOf(s, t) == Answering(sid, q) && sid in s.sessions
    ensures Apply(s, Go(t, handled)) == Goto(Put(s, sid, Answered(s.sessions[sid], q, handled)), t, Sending(sid))
  {
  }

  lemma {:induction false} AnswerAlone(s: State, t: Thread, sid: Sid, handled: ResponseData)
    requires PcOf(s, t) == Parsing(sid) && sid in s.sessions && IsComplete(s.sessions[sid].buffers.requestBuffer)
    ensures var c, go := s.sessions[sid], Go(t, handled);
            var bytes := Serialized(ResponseTo(Parsed(c.buffers.requestBuffer), handled));
            var s' := Apply(Apply(Apply(s, go), go), go);
            && sid in s'.sessions && s'.sessions[sid].buffers == c.buffers.(response := bytes)
            && s'.ops == s.ops[s.nextOp := Write(sid, bytes)] && PcOf(s', t) == Returning
  {
    var c, go := s.sessions[sid], Go(t, handled);
    var q := Parsed(c.buffers.requestBuffer);
    ParseAlone(s, t, sid, handled);
    var s1 := Goto(s, t, Answering(sid, q));
    RespondAlone(s1, t, sid, q, handled);
    SendAlone(Apply(s1, go), t, sid, handled);
  }

  lemma {:induction false} ReadAlone(s: State, t: Thread, sid: Sid, handled: ResponseData)
    requires PcOf(s, t) == Parsing(sid) && sid in s.sessions && !IsComplete(s.sessions[sid].buffers.requestBuffer)
    ensures var go := Go(t, handled);
            var s' := Apply(Apply(s, go), go);
            s'.sessions == s.sessions && s'.ops == s.ops[s.nextOp := Read(sid)] && PcOf(s', t) == Returning
  {
    var s1 := Apply(s, Go(t, handled));
    assert s1 == Goto(s, t, Reading(sid));
  }

  function Times(s: State, a: Action, n: nat): State
    decreases n
  {
    if n == 0 then s else Times(Apply(s, a), a, n - 1)
  }

  /** A thread that is not interleaved does what the callback does as a whole, and leaves the operation
      outstanding that the callback names. */
  lemma {:induction false} CallbackAlone(s: State, t: Thread, handled: ResponseData) returns (steps: nat)
    requires PcOf(s, t).Received? && PcOf(s, t).sid in s.sessions
    requires PcOf(s, t).n == |s.sessions[PcOf(s, t).sid].buffers.data|
    ensures var sid, s' := PcOf(s, t).sid, Times(s, Go(t, handled), steps);
            var (buffers, next) := AfterRead(s.sessions[sid].buffers, false, PcOf(s, t).n, _ => handled);
            && sid in s'.sessions && s'.sessions[sid].buffers == buffers && PcOf(s', t) == Returning
            && s'.ops == s.ops[s.nextOp := if next.ReadNext? then Read(sid) else Write(sid, next.bytes)]
  {
    var go, sid, n := Go(t, handled), PcOf(s, t).sid, PcOf(s, t).n;
    var b := Appended(s.sessions[sid].buffers, n);
    var s1 := Apply(s, go);
    assert s1 == Goto(Put(s, sid, s.sessions[sid].(buffers := b)), t, Parsing(sid));
    if IsComplete(b.requestBuffer) {
      AnswerAlone(s1, t, sid, handled);
      steps := 4;
      assert Times(s1, go, 3) == Apply(Apply(Apply(s1, go), go), go);
    } else {
      ReadAlone(s1, t, sid, handled);
      steps := 3;
      assert Times(s1, go, 2) == Apply(Apply(s1, go), go);
    }
    assert Times(s, go, steps) == Times(s1, go, steps - 1);
  }

  /** The end of a write: a read is issued, or the session deleted, as `handle_write` says. */
  lemma {:induction false} WriteCallbackAlone(s: State, t: Thread, op: OpId, error: bool, handled: ResponseData)
    requires PcOf(s, t).Idle? && op in s.ops && s.ops[op].Write? && s.ops[op].sid in s.sessions
    ensures var s' := Apply(Apply(s, Complete(t, op, error, "")), Go(t, handled));
            var sid := s.ops[op].sid;
            && PcOf(s', t) == Returning && (error <==> AfterWrite(error) == Gone)
            && (if error then s'.sessions == s.sessions - {sid} && s'.ops == s.ops - {op}
                else s'.sessions == s.sessions && s'.ops == (s.ops - {op})[s.nextOp := Read(sid)])
  {
    var s1 := Apply(s, Complete(t, op, error, ""));
    assert PcOf(s1, t) == if error then Closing(s.ops[op].sid) else Reading(s.ops[op].sid);
  }

  /** The end of a read: the session is deleted on an error; otherwise the bytes are those of the callback that
      `CallbackAlone` is about. */
  lemma {:induction false} ReadCallbackAlone(s: State, t: Thread, op: OpId, error: bool, bytes: string,
                                             handled: ResponseData)
    requires PcOf(s, t).Idle? && op in s.ops && s.ops[op].Read? && s.ops[op].sid in s.sessions
    requires |bytes| <= MAX_LENGTH
    ensures var s1 := Apply(s, Complete(t, op, error, bytes));
            var s', sid := Apply(s1, Go(t, handled)), s.ops[op].sid;
            if error then PcOf(s', t) == Returning && s'.sessions == s.sessions - {sid} && s'.ops == s.ops - {op}
            else
              && s1.ops == s.ops - {op} && PcOf(s1, t) == Received(sid, |bytes|)
              && sid in s1.sessions && s1.sessions[sid].buffers == s.sessions[sid].buffers.(data := bytes)
  {
    var s1 := Apply(s, Complete(t, op, error, bytes));
    assert error ==> PcOf(s1, t) == Closing(s.ops[op].sid);
  }

  /** The end of an accept: the new connection is read from, or its session deleted; in both cases a new session
      is made and accepted into. */
  lemma {:induction false} AcceptCallbackAlone(s: State, t: Thread, op: OpId, error: bool, handled: ResponseData)
    requires PcOf(s, t).Idle? && op in s.ops && s.ops[op].Accept? && s.ops[op].sid in s.sessions && Fresh(s)
    ensures var go, sid := Go(t, handled), s.ops[op].sid;
            var s' := Times(Apply(s, Complete(t, op, error, "")), go, if error then 2 else 4);
            && PcOf(s', t) == Returning
            && (if error
                then
                  && s'.sessions == (s.sessions - {sid})[s.nextSid := NEW]
                  && s'.ops == (s.ops - {op})[s.nextOp := Accept(s.nextSid)]
                else
                  && s'.sessions == s.sessions[s.nextSid := NEW]
                  && s'.ops == (s.ops - {op})[s.nextOp := Read(sid)][s.nextOp + 1 := Accept(s.nextSid)])
  {
    var go, sid := Go(t, handled), s.ops[op].sid;
    var s1 := Apply(s, Complete(t, op, error, ""));
    if error {
      DropAlone(s1, t, sid, handled);
    } else {
      GreetAlone(s1, t, sid, handled);
    }
  }

  lemma {:induction false} DropAlone(s: State, t: Thread, sid: Sid, handled: ResponseData)
    requires PcOf(s, t) == Dropping(sid) && sid in s.sessions
    ensures var s' := Times(s, Go(t, handled), 2);
            && PcOf(s', t) == Returning && s'.sessions == (s.sessions - {sid})[s.nextSid := NEW]
            && s'.ops == s.ops[s.nextOp := Accept(s.nextSid)]
  {
    var go := Go(t, handled);
    var s1 := Apply(s, go);
    assert s1 == Goto(s.(sessions := s.sessions - {sid}), t, Rearming);
    assert Times(s, go, 2) == Times(s1, go, 1) == Apply(s1, go);
  }

  lemma {:induction false} GreetAlone(s: State, t: Thread, sid: Sid, handled: ResponseData)
    requires PcOf(s, t) == Accepted(sid) && sid in s.sessions
    ensures var s' := Times(s, Go(t, handled), 4);
            && PcOf(s', t) == Returning && s'.sessions == s.sessions[s.nextSid := NEW]
            && s'.ops == s.ops[s.nextOp := Read(sid)][s.nextOp + 1 := Accept(s.nextSid)]
  {
    var go := Go(t, handled);
    var s1 := Apply(s, go);
    assert s1 == Goto(s, t, Starting(sid));
    var s2 := Apply(s1, go);
    assert s2 == Goto(s1, t, Greeting(sid));
    var s3 := Apply(s2, go);
    assert s3 == Goto(Issue(s2, Read(sid)), t, Rearming);
    assert Times(s2, go, 2) == Times(s3, go, 1) == Apply(s3, go);
    assert Times(s, go, 4) == Times(s1, go, 3) == Times(s2, go, 2);
  }

  // ---------- Every run ----------

  lemma {:induction false} InvHolds(actions: seq<Action>) returns (owners: Owners, acceptor: Claimant)
    ensures Inv(Exec(actions), owners, acceptor)
    decreases |actions|
  {
    if actions == [] {
      owners, acceptor := map[0 := ByOp(0)], ByOp(0);
      assert FitsAt(INITIAL, ByOp(0), 0);
    } else {
      owners, acceptor := InvHolds(actions[..|actions| - 1]);
      owners, acceptor := ApplyKeepsInv(Exec(actions[..|actions| - 1]), actions[|actions| - 1], owners, acceptor);
    }
  }

  /** No step uses a session that is gone, or deletes it twice. */
  lemma {:induction false} NothingUsedAfterDeletion(actions: seq<Action>)
    ensures !Exec(actions).faulted
  {
    var owners, acceptor := InvHolds(actions);
  }

  /** Two that use the members of the same session are the same: there is never more than one outstanding
      operation, nor two threads in callbacks, nor a thread beside an outstanding operation. */
  lemma {:induction false} OneUserAtATime(actions: seq<Action>, c: Claimant, d: Claimant, sid: Sid)
    requires Uses(Exec(actions), c, sid) && Uses(Exec(actions), d, sid)
    ensures c == d && sid in Exec(actions).sessions
  {
    var owners, acceptor := InvHolds(actions);
  }

  /** No session is forgotten: something will go on with it or delete it. */
  lemma {:induction false} NoSessionLeaks(actions: seq<Action>, sid: Sid) returns (c: Claimant)
    requires sid in Exec(actions).sessions
    ensures Uses(Exec(actions), c, sid)
  {
    c := OwnerFits(actions, sid);
  }

  /** Exactly one accept is outstanding or being handled. */
  lemma {:induction false} ExactlyOneAccept(actions: seq<Action>)
    ensures exists c :: Accepts(StageOf(Exec(actions), c)) && forall d :: Accepts(StageOf(Exec(actions), d)) ==> d == c
  {
    var owners, acceptor := InvHolds(actions);
    assert Accepts(StageOf(Exec(actions), acceptor));
  }

  lemma {:induction false} OpFits(actions: seq<Action>, op: OpId)
    requires op in Exec(actions).ops
    ensures var s := Exec(actions);
            s.ops[op].sid in s.sessions && Fits(s.sessions[s.ops[op].sid], Waits(s.ops[op]))
  {
    var owners, acceptor := InvHolds(actions);
    var s := Exec(actions);
    assert Holds(StageOf(s, ByOp(op))) && Held(StageOf(s, ByOp(op))) == s.ops[op].sid;
    assert FitsAt(s, ByOp(op), s.ops[op].sid);
  }

  lemma {:induction false} OpStays(s: State, a: Action, op: OpId)
    requires op in s.ops && op < s.nextOp && op in Apply(s, a).ops
    ensures Apply(s, a).ops[op] == s.ops[op]
  {
  }

  /** While a write is outstanding, the response that it writes from stays as it was. */
  lemma {:induction false} ResponseStaysWhileWritten(actions: seq<Action>, a: Action, op: OpId)
    requires op in Exec(actions).ops && Exec(actions).ops[op].Write?
    requires op in Exec(actions + [a]).ops
    ensures var s, s', sid := Exec(actions), Exec(actions + [a]), Exec(actions).ops[op].sid;
            && sid in s.sessions && sid in s'.sessions && s'.ops[op] == s.ops[op]
            && s'.sessions[sid].buffers.response == s.sessions[sid].buffers.response == s.ops[op].bytes
  {
    assert (actions + [a])[..|actions|] == actions;
    OpFits(actions, op);
    OpFits(actions + [a], op);
    var owners, acceptor := InvHolds(actions);
    OpStays(Exec(actions), a, op);
  }

  lemma {:induction false} OwnerFits(actions: seq<Action>, sid: Sid) returns (c: Claimant)
    requires sid in Exec(actions).sessions
    ensures FitsAt(Exec(actions), c, sid)
  {
    var owners, acceptor := InvHolds(actions);
    c := owners[sid];
  }

  /** Whatever was answered on a connection, first or later, answers the one request that all its bytes
      determine, with the body that had come by then; a request that is not valid was answered 400. */
  lemma {:induction false} AnswersOneRequest(actions: seq<Action>, sid: Sid, i: nat)
    requires sid in Exec(actions).sessions && i < |Exec(actions).sessions[sid].exchanges|
    ensures var c := Exec(actions).sessions[sid];
            var e, all := c.exchanges[i], Concat(c.received);
            && IsComplete(all) && SameHead(e.request, Parsed(all))
            && e.upTo <= |c.received| && HeadLength(all) <= |After(c.received, e.upTo)| <= |all|
            && e.request.body ==
                 (if e.request.isValid then all[HeadLength(all)..|After(c.received, e.upTo)|] else "")
            && (!e.request.isValid ==> e.answer == BadRequest("400 Bad Request"))
  {
    var owner := OwnerFits(actions, sid);
    var c := Exec(actions).sessions[sid];
    assert IsAnswerTo(c.exchanges[i], c.received);
    AnswerOfPrefix(c.exchanges[i], c.received);
  }

  lemma {:induction false} AnswerOfPrefix(e: Exchange, received: seq<string>)
    requires IsAnswerTo(e, received)
    ensures var all, got := Concat(received), After(received, e.upTo);
            && IsComplete(all) && SameHead(e.request, Parsed(all)) && HeadLength(all) <= |got| <= |all|
            && e.request.body == if e.request.isValid then all[HeadLength(all)..|got|] else ""
  {
    AfterAll(received);
    AfterIsPrefix(received, e.upTo, |received|);
    AnswerOnPrefix(Concat(received), |After(received, e.upTo)|);
  }

  lemma {:induction false} CompleteReadsAre(chunks: seq<string>, n: nat)
    requires n <= |chunks|
    ensures forall k: nat :: k in CompleteReads(chunks, n) <==> 0 < k <= n && IsComplete(After(chunks, k))
    ensures forall i, j | 0 <= i < j < |CompleteReads(chunks, n)| ::
              CompleteReads(chunks, n)[i] < CompleteReads(chunks, n)[j]
  {
    if n > 0 {
      CompleteReadsAre(chunks, n - 1);
      var earlier := CompleteReads(chunks, n - 1);
      assert forall i | 0 <= i < |earlier| :: earlier[i] in earlier;
    }
  }

  lemma {:induction false} SomeCompleteRead(chunks: seq<string>)
    ensures CompleteReads(chunks, |chunks|) != [] <==> IsComplete(Concat(chunks))
  {
    var all := CompleteReads(chunks, |chunks|);
    CompleteReadsAre(chunks, |chunks|);
    AfterAll(chunks);
    if all != [] {
      assert all[0] in all;
      CompleteAfter(chunks, all[0]);
    }
    if IsComplete(Concat(chunks)) {
      assert chunks != [];
      assert |chunks| in all;
    }
  }

  /** While a session waits it has all bytes that came, once and in order; it has answered exactly the reads
      that found a complete request, each once and in their order, the first one being the first that could;
      and while it waits for a write, the bytes are those of its last answer. */
  lemma {:induction false} WaitingSessions(actions: seq<Action>, op: OpId)
    requires op in Exec(actions).ops
    ensures var s := Exec(actions);
            var p := s.ops[op];
            && p.sid in s.sessions
            && var c := s.sessions[p.sid];
            && c.buffers.requestBuffer == Concat(c.received)
            && ReadsOf(c.exchanges) == CompleteReads(c.received, |c.received|)
            && (IsComplete(Concat(c.received)) <==> c.exchanges != [])
            && (p.Accept? ==> c == NEW)
            && (p.Write? ==> c.exchanges != [] && p.bytes == Serialized(c.exchanges[|c.exchanges| - 1].answer))
  {
    OpFits(actions, op);
    SomeCompleteRead(Exec(actions).sessions[Exec(actions).ops[op].sid].received);
  }

  // ---------- Where answers come from ----------

  /** A step adds an exchange only where a thread answers: the handler's response to a valid request, and a 400 to
      any other. */
  lemma {:induction false} StepExchanges(s: State, a: Action, sid: Sid)
    requires sid in Apply(s, a).sessions
    ensures var after := Apply(s, a).sessions[sid].exchanges;
            if sid !in s.sessions then after == []
            else
              || after == s.sessions[sid].exchanges
              || after == []
              || (a.Go? && AnsweringAt(s, a.thread, sid)
                  && after == s.sessions[sid].exchanges
                              + [AnswerGiven(PcOf(s, a.thread).request, a.handled, |s.sessions[sid].received|)])
  {
  }

  predicate AnsweringAt(s: State, t: Thread, sid: Sid) {
    PcOf(s, t).Answering? && PcOf(s, t).sid == sid
  }

  function AnswerGiven(q: RequestData, handled: ResponseData, upTo: nat): Exchange {
    Exchange(q, if q.isValid then handled else FormatResponse("400 Bad Request", "text/plain", "400 Bad Request"), upTo)
  }

  /** Every answer to a valid request is what the handler answered in the step in which a thread handled it;
      every other answer is a 400. */
  lemma {:induction false} AnswersAreTheHandlers(actions: seq<Action>, sid: Sid, i: nat) returns (k: nat)
    requires sid in Exec(actions).sessions && i < |Exec(actions).sessions[sid].exchanges|
    ensures k < |actions| && actions[k].Go? && AnsweringAt(Exec(actions[..k]), actions[k].thread, sid)
    ensures var e := Exec(actions).sessions[sid].exchanges[i];
            && e.request == PcOf(Exec(actions[..k]), actions[k].thread).request
            && e.answer == if e.request.isValid then actions[k].handled
                           else FormatResponse("400 Bad Request", "text/plain", "400 Bad Request")
    decreases |actions|
  {
    var n := |actions| - 1;
    var before := actions[..n];
    StepExchanges(Exec(before), actions[n], sid);
    if sid in Exec(before).sessions && i < |Exec(before).sessions[sid].exchanges| {
      k := AnswersAreTheHandlers(before, sid, i);
      assert before[..k] == actions[..k];
    } else {
      k := n;
    }
  }
}
