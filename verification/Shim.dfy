/** What the shim does with an intercepted request, and what it may never do, `intercept.rs`. */
module Shim {
  import opened Bytes
  import opened Grpc
  import opened Intercept
  import opened Wrappers

  import C = Classify
  import T = Transaction

  const MAX_SEND_TX_BYTES: nat := 4 * 1024 * 1024
  const MAX_TX_FILTER_BYTES: nat := 1024

  // ----- requests, and what the world makes of them

  /** A request body as the client sends it, and how it ends: with trailers or without, by an error, or not in time. */
  datatype Ending = Finished(trailers: Option<HeaderMap>) | Failed | Stalled

  datatype Upload = Upload(bytes: seq<Byte>, ending: Ending)

  datatype Submit = Accepted(txid: string) | AlreadyKnown(known: Option<string>) | Rejected(reason: string) | TooLarge(limit: nat)

  datatype Lookup = Found(data: seq<Byte>, height: nat) | NotFound

  /** What the indexer and the hub would answer; a hub that gives no answer is unreachable. */
  datatype World = World(indexerUp: bool, indexerAnswers: bool, submit: Option<Submit>, lookup: Option<Lookup>)

  datatype Call = SendTransaction | GetTransaction

  datatype Request = Request(call: Call, headers: HeaderMap, upload: Upload, world: World)

  // ----- replies and effects

  datatype Status = Cancelled | DeadlineExceeded | InvalidArgument | NoSuchTransaction | ResourceExhausted | Unavailable

  datatype Reply =
    | Relayed
    | UpstreamFailed
    | GrpcError(status: Status)
    | Sent(code: int, message: string)
    | TransactionFound(data: seq<Byte>, height: nat)

  /** Contacts with the operator's indexer (the first three) and with the hub. */
  datatype Event =
    | Dialled
    | Forwarded(bytes: seq<Byte>, trailers: Option<HeaderMap>)
    | PassedThrough(upload: Upload)
    | Submitted(data: seq<Byte>)
    | LookedUp(hash: seq<Byte>)

  // ----- reading a body

  datatype ReadError = TooLong | Broken | TimedOut

  datatype Collected = Collected(bytes: seq<Byte>, trailers: Option<HeaderMap>)

  /** A bounded read: more than the limit fails as soon as it is seen. */
  function ReadBody(upload: Upload, limit: nat): Result<Collected, ReadError> {
    if |upload.bytes| > limit then Err(TooLong)
    else
      match upload.ending
      case Finished(trailers) => Ok(Collected(upload.bytes, trailers))
      case Failed => Err(Broken)
      case Stalled => Err(TimedOut)
  }

  function SendReadStatus(e: ReadError): Status {
    match e
    case TooLong => ResourceExhausted
    case Broken => Cancelled
    case TimedOut => DeadlineExceeded
  }

  // ----- what a request must lead to

  /** The body is cleanly unwrapped to bytes that may pass to the operator. */
  ghost predicate BodyMayPass(env: Env, headers: HeaderMap, body: seq<Byte>) {
    exists data :: Sends(env, headers, body, data) && C.MayPass(env.deserialize, data)
  }

  function SubmitReply(answer: Option<Submit>): Reply {
    match answer
    case None => GrpcError(Unavailable)
    case Some(Accepted(txid)) => Sent(0, txid)
    case Some(AlreadyKnown(known)) => Sent(0, if known.Some? then known.value else "")
    case Some(Rejected(reason)) => Sent(-1, reason)
    case Some(TooLarge(_)) => GrpcError(ResourceExhausted)
  }

  predicate IsForwarded(world: World, contact: Event, events: seq<Event>, reply: Reply) {
    if !world.indexerUp then events == [Dialled] && reply == UpstreamFailed
    else events == [Dialled, contact] && reply == if world.indexerAnswers then Relayed else UpstreamFailed
  }

  /** A readable body goes to the operator if it may pass or there is no hub; else its bytes go to the hub, or it is refused. */
  ghost predicate SendMeets(env: Env, hub: bool, req: Request, events: seq<Event>, reply: Reply) {
    match ReadBody(req.upload, MAX_SEND_TX_BYTES)
    case Err(e) => events == [] && reply == GrpcError(SendReadStatus(e))
    case Ok(body) =>
      if BodyMayPass(env, req.headers, body.bytes) || !hub then
        IsForwarded(req.world, Forwarded(body.bytes, body.trailers), events, reply)
      else
        || (&& (forall data :: !Sends(env, req.headers, body.bytes, data))
            && events == [] && reply == GrpcError(Unavailable))
        || (Sends(env, req.headers, body.bytes, []) && events == [] && reply == GrpcError(InvalidArgument))
        || (exists data :: Sends(env, req.headers, body.bytes, data) && data != []
                           && events == [Submitted(data)] && reply == SubmitReply(req.world.submit))
  }

  /** What a lookup body asks for. */
  ghost predicate Asks(env: Env, headers: HeaderMap, body: seq<Byte>, hash: seq<Byte>) {
    exists payload :: Unwraps(headers, body, payload) && env.decodeFilter(payload).Some? && env.decodeFilter(payload).value.hash == hash
  }

  function LookupReply(env: Env, hash: seq<Byte>, answer: Option<Lookup>): Reply {
    match answer
    case None => GrpcError(Unavailable)
    case Some(NotFound) => GrpcError(NoSuchTransaction)
    case Some(Found(data, height)) =>
      if Answers(env, data, hash) then TransactionFound(data, height) else GrpcError(NoSuchTransaction)
  }

  /** With a hub, a lookup of a 32-byte hash goes to the hub and anything else is refused. */
  ghost predicate GetMeets(env: Env, hub: bool, req: Request, events: seq<Event>, reply: Reply) {
    if !hub then IsForwarded(req.world, PassedThrough(req.upload), events, reply)
    else
      match ReadBody(req.upload, MAX_TX_FILTER_BYTES)
      case Err(e) => events == [] && reply == GrpcError(if e.TimedOut? then DeadlineExceeded else Cancelled)
      case Ok(body) =>
        || (&& (forall hash :: Asks(env, req.headers, body.bytes, hash) ==> |hash| != 32)
            && events == [] && reply == GrpcError(InvalidArgument))
        || (exists hash :: Asks(env, req.headers, body.bytes, hash) && |hash| == 32
                           && events == [LookedUp(hash)] && reply == LookupReply(env, hash, req.world.lookup))
  }

  ghost predicate Meets(env: Env, hub: bool, req: Request, events: seq<Event>, reply: Reply) {
    if req.call.SendTransaction? then SendMeets(env, hub, req, events, reply) else GetMeets(env, hub, req, events, reply)
  }

  // ----- the handlers

  class Shim {
    const env: Env
    const hub: bool
    /** Every contact made, in order. */
    var trace: seq<Event>

    constructor (env: Env, hub: bool)
      ensures this.env == env && this.hub == hub && trace == []
    {
      this.env, this.hub, trace := env, hub, [];
    }

    /** Dial the indexer and let it read a whole replayed body. */
    method Forward(world: World, replay: ReplayBody) returns (reply: Reply)
      requires replay.data.Some?
      modifies `trace, replay
      ensures |trace| >= |old(trace)| && trace[..|old(trace)|] == old(trace)
      ensures IsForwarded(world, Forwarded(old(replay.data).value, old(replay.trailers)), trace[|old(trace)|..], reply)
    {
      trace := trace + [Dialled];
      if !world.indexerUp {
        return UpstreamFailed;
      }
      var bytes, trailers := replay.Drain();
      trace := trace + [Forwarded(bytes, trailers)];
      reply := if world.indexerAnswers then Relayed else UpstreamFailed;
    }

    /** Send unwrapped bytes to the hub. */
    method Divert(data: Option<seq<Byte>>, world: World) returns (reply: Reply)
      modifies `trace
      ensures trace == old(trace) + (if data.Some? && data.value != [] then [Submitted(data.value)] else [])
      ensures reply == if data.None? then GrpcError(Unavailable) else if data.value == [] then GrpcError(InvalidArgument)
                       else SubmitReply(world.submit)
      ensures
        if data.None? then reply == GrpcError(Unavailable)
        else if data.value == [] then reply == GrpcError(InvalidArgument)
        else
          match world.submit {
            case None => reply == GrpcError(Unavailable)
            case Some(Accepted(txid)) => reply == Sent(0, txid)
            case Some(AlreadyKnown(Some(txid))) => reply == Sent(0, txid)
            case Some(AlreadyKnown(None)) => reply == Sent(0, "")
            case Some(Rejected(reason)) => reply == Sent(-1, reason)
            case Some(TooLarge(_)) => reply == GrpcError(ResourceExhausted)
          }
    {
      if data.None? {
        return GrpcError(Unavailable);
      }
      if data.value == [] {
        return GrpcError(InvalidArgument);
      }
      trace := trace + [Submitted(data.value)];
      match world.submit
      case Some(TooLarge(_)) => reply := GrpcError(ResourceExhausted);
      case Some(Accepted(txid)) => reply := Sent(0, txid);
      case Some(AlreadyKnown(known)) => reply := Sent(0, if known.Some? then known.value else "");
      case Some(Rejected(reason)) => reply := Sent(-1, reason);
      case None => reply := GrpcError(Unavailable);
    }

    method HandleSend(req: Request) returns (reply: Reply)
      requires env.usizeMax >= 0xFFFF_FFFF
      modifies `trace
      ensures |trace| >= |old(trace)| && trace[..|old(trace)|] == old(trace)
      ensures SendMeets(env, hub, req, trace[|old(trace)|..], reply)
      ensures
        var read := ReadBody(req.upload, MAX_SEND_TX_BYTES);
        !hub && read.Ok? && req.world.indexerUp ==>
          trace == old(trace) + [Dialled, Forwarded(read.value.bytes, read.value.trailers)]
    {
      var read := ReadBody(req.upload, MAX_SEND_TX_BYTES);
      if read.Err? {
        return GrpcError(SendReadStatus(read.error));
      }
      var frame := read.value.bytes;
      var (inspection, data) := Inspect(env, req.headers, frame);
      VerdictExact(env, req.headers, frame);
      if inspection.TreatAsMigration() && hub {
        reply := Divert(data, req.world);
        return;
      }
      var replay := new ReplayBody(frame, read.value.trailers);
      reply := Forward(req.world, replay);
    }

    method HandleGet(req: Request) returns (reply: Reply)
      requires env.usizeMax >= 0xFFFF_FFFF
      modifies `trace
      ensures |trace| >= |old(trace)| && trace[..|old(trace)|] == old(trace)
      ensures GetMeets(env, hub, req, trace[|old(trace)|..], reply)
    {
      if !hub {
        trace := trace + [Dialled];
        if !req.world.indexerUp {
          return UpstreamFailed;
        }
        trace := trace + [PassedThrough(req.upload)];
        return if req.world.indexerAnswers then Relayed else UpstreamFailed;
      }
      var read := ReadBody(req.upload, MAX_TX_FILTER_BYTES);
      if read.Err? {
        return GrpcError(if read.error.TimedOut? then DeadlineExceeded else Cancelled);
      }
      var filter := DecodeTxFilter(env, req.headers, read.value.bytes);
      AsksExact(env, req.headers, read.value.bytes);
      if filter.Err? {
        return GrpcError(InvalidArgument);
      }
      var hash := filter.value.hash;
      if hash == [] {
        return GrpcError(InvalidArgument);
      }
      if |hash| != 32 {
        return GrpcError(InvalidArgument);
      }
      trace := trace + [LookedUp(hash)];
      match req.world.lookup
      case Some(Found(data, height)) =>
        var matches := LookupIsForQuery(env, data, hash);
        reply := if matches then TransactionFound(data, height) else GrpcError(NoSuchTransaction);
      case Some(NotFound) => reply := GrpcError(NoSuchTransaction);
      case None => reply := GrpcError(Unavailable);
    }

    method Handle(req: Request) returns (reply: Reply)
      requires env.usizeMax >= 0xFFFF_FFFF
      modifies `trace
      ensures |trace| >= |old(trace)| && trace[..|old(trace)|] == old(trace)
      ensures Meets(env, hub, req, trace[|old(trace)|..], reply)
    {
      if req.call.SendTransaction? {
        reply := HandleSend(req);
      } else {
        reply := HandleGet(req);
      }
    }

    /**
     Requests one after the other: a run, whose trace is what each of them did in turn. With a hub, every
     contact in the trace is safe for one of the requests.
     */
    method HandleAll(reqs: seq<Request>) returns (replies: seq<Reply>, ghost did: seq<seq<Event>>)
      requires env.usizeMax >= 0xFFFF_FFFF
      modifies `trace
      ensures IsRun(env, hub, reqs, did, replies)
      ensures trace == old(trace) + Concat(did)
      ensures hub ==> forall k :: |old(trace)| <= k < |trace| ==> SafeForSome(env, reqs, trace[k])
    {
      hide Meets, SafeForSome;
      replies, did := [], [];
      for n := 0 to |reqs|
        invariant |did| == |replies| == n
        invariant forall i :: 0 <= i < n ==> Meets(env, hub, reqs[i], did[i], replies[i])
        invariant trace == old(trace) + Concat(did)
      {
        ghost var before := trace;
        var reply := Handle(reqs[n]);
        ghost var events := trace[|before|..];
        assert trace == before + events;
        ConcatSnoc(did, events);
        replies, did := replies + [reply], did + [events];
      }
      if hub {
        forall k | |old(trace)| <= k < |trace| ensures SafeForSome(env, reqs, trace[k]) {
          assert trace[k] in Concat(did);
          TraceIsSafe(env, reqs, did, replies, trace[k]);
        }
      }
    }
  }

  function Concat(did: seq<seq<Event>>): seq<Event> {
    if did == [] then [] else Concat(did[..|did| - 1]) + did[|did| - 1]
  }

  lemma ConcatSnoc(did: seq<seq<Event>>, events: seq<Event>)
    ensures Concat(did + [events]) == Concat(did) + events
  {
    assert (did + [events])[..|did|] == did;
  }

  lemma {:induction false} InConcat(did: seq<seq<Event>>, e: Event)
    requires e in Concat(did)
    ensures exists i :: 0 <= i < |did| && e in did[i]
    decreases |did|
  {
    var init, last := did[..|did| - 1], did[|did| - 1];
    if e in Concat(init) {
      InConcat(init, e);
      var i :| 0 <= i < |init| && e in init[i];
      assert e in did[i];
    } else {
      assert e in last;
    }
  }

  ghost predicate SafeForSome(env: Env, reqs: seq<Request>, e: Event) {
    exists i :: 0 <= i < |reqs| && Safe(env, reqs[i], e)
  }

  lemma TraceIsSafe(env: Env, reqs: seq<Request>, did: seq<seq<Event>>, replies: seq<Reply>, e: Event)
    requires IsRun(env, true, reqs, did, replies) && e in Concat(did)
    ensures SafeForSome(env, reqs, e)
  {
    InConcat(did, e);
    var i :| 0 <= i < |did| && e in did[i];
    HandledSafely(env, reqs[i], did[i], replies[i], e);
  }

  lemma AsksExact(env: Env, headers: HeaderMap, frame: seq<Byte>)
    requires IsSlice(frame, env.usizeMax)
    ensures
      var r := DecodeTxFilter(env, headers, frame);
      && (r.Err? ==> forall hash :: !Asks(env, headers, frame, hash))
      && (r.Ok? ==> forall hash :: Asks(env, headers, frame, hash) <==> hash == r.value.hash)
  {
    var r := DecodeTxFilter(env, headers, frame);
    forall payload | Unwraps(headers, frame, payload) ensures payload == frame[5..] {
      CarriesExact(frame, payload, env.usizeMax);
    }
    if |frame| >= 5 { FilterExact(env, headers, frame, frame[5..]); } else { FilterExact(env, headers, frame, []); }
    if r.Ok? {
      assert Unwraps(headers, frame, frame[5..]);
      assert Asks(env, headers, frame, r.value.hash);
    }
  }

  // ----- what the handlers' specification comes to, case by case

  /** A body is read whole up to and including its limit; the first thing wrong with it is its error. */
  lemma ReadExact(upload: Upload, limit: nat)
    ensures |upload.bytes| > limit ==> ReadBody(upload, limit) == Err(TooLong)
    ensures |upload.bytes| <= limit ==>
              match upload.ending {
                case Finished(trailers) => ReadBody(upload, limit) == Ok(Collected(upload.bytes, trailers))
                case Failed => ReadBody(upload, limit) == Err(Broken)
                case Stalled => ReadBody(upload, limit) == Err(TimedOut)
              }
  {
  }

  /** A transaction body over 4 MiB, broken off or stalled is refused with its own status, and no one is contacted. */
  lemma UnreadSend(env: Env, hub: bool, req: Request, events: seq<Event>, reply: Reply)
    requires SendMeets(env, hub, req, events, reply)
    requires |req.upload.bytes| > 4_194_304 || !req.upload.ending.Finished?
    ensures events == []
    ensures reply == GrpcError(if |req.upload.bytes| > 4_194_304 then ResourceExhausted
                               else if req.upload.ending.Failed? then Cancelled else DeadlineExceeded)
  {
    ReadExact(req.upload, 4_194_304);
  }

  predicate IsRead(req: Request, limit: nat) {
    |req.upload.bytes| <= limit && req.upload.ending.Finished?
  }

  /** The events and the reply of a request handed on to the operator. */
  predicate HandedOn(req: Request, contact: Event, events: seq<Event>, reply: Reply) {
    if req.world.indexerUp then events == [Dialled, contact] && reply == if req.world.indexerAnswers then Relayed else UpstreamFailed
    else events == [Dialled] && reply == UpstreamFailed
  }

  /**
   With a hub, a body that is wholly one transaction goes by its version and its Orchard bundle: a V5 or V6
   that has one never reaches the operator, and its exact bytes go to the hub; every other is handed on.
   */
  lemma VersionRoutes(env: Env, req: Request, events: seq<Event>, reply: Reply, data: seq<Byte>, tx: T.Transaction)
    requires env.usizeMax >= 0xFFFF_FFFF && SendMeets(env, true, req, events, reply) && IsRead(req, 4_194_304)
    requires Sends(env, req.headers, req.upload.bytes, data) && env.deserialize(data) == Some((tx, |data|))
    ensures
      var forwarded := HandedOn(req, Forwarded(req.upload.bytes, req.upload.ending.trailers), events, reply);
      var kept := events == if data == [] then [] else [Submitted(data)];
      match tx {
        case V1(_, _) => forwarded
        case V2(_, _, _) => forwarded
        case V3(_, _, _) => forwarded
        case V4(_, _, _, _) => forwarded
        case V5(_, _, _, None) => forwarded
        case V5(_, _, _, Some(_)) => kept
        case V6(_, _, _, None, _) => forwarded
        case V6(_, _, _, Some(_), _) => kept
      }
  {
    var frame := req.upload.bytes;
    ReadExact(req.upload, 4_194_304);
    TransactionDecides(env, req.headers, frame, data);
    VerdictExact(env, req.headers, frame);
  }

  /** With a hub, what does not unwrap, or is not wholly one transaction, never reaches the operator. */
  lemma UnparsedIsKept(env: Env, req: Request, events: seq<Event>, reply: Reply)
    requires env.usizeMax >= 0xFFFF_FFFF && SendMeets(env, true, req, events, reply) && IsRead(req, 4_194_304)
    ensures (forall data :: !Sends(env, req.headers, req.upload.bytes, data)) ==>
              events == [] && reply == GrpcError(Unavailable)
    ensures forall data | Sends(env, req.headers, req.upload.bytes, data) ::
              env.deserialize(data).None? || env.deserialize(data).value.1 != |data| ==>
                if data == [] then events == [] && reply == GrpcError(InvalidArgument) else events == [Submitted(data)]
  {
    var frame := req.upload.bytes;
    ReadExact(req.upload, 4_194_304);
    VerdictExact(env, req.headers, frame);
    forall data | Sends(env, req.headers, frame, data)
      ensures env.deserialize(data).None? || env.deserialize(data).value.1 != |data| ==>
                if data == [] then events == [] && reply == GrpcError(InvalidArgument) else events == [Submitted(data)]
    {
      TransactionDecides(env, req.headers, frame, data);
    }
  }

  /** With a hub, a lookup body over 1024 bytes, broken off or stalled is refused without contacting anyone. */
  lemma UnreadGet(env: Env, req: Request, events: seq<Event>, reply: Reply)
    requires GetMeets(env, true, req, events, reply)
    requires |req.upload.bytes| > 1024 || !req.upload.ending.Finished?
    ensures events == []
    ensures reply == GrpcError(if |req.upload.bytes| <= 1024 && req.upload.ending.Stalled? then DeadlineExceeded else Cancelled)
  {
    ReadExact(req.upload, 1024);
  }

  /**
   With a hub, a lookup that names 32 bytes asks the hub for exactly those, and the reply is what the hub
   found if it is the right transaction; one that names anything else is refused.
   */
  lemma LookupOutcome(env: Env, req: Request, events: seq<Event>, reply: Reply, hash: seq<Byte>)
    requires env.usizeMax >= 0xFFFF_FFFF && GetMeets(env, true, req, events, reply) && IsRead(req, 1024)
    requires Asks(env, req.headers, req.upload.bytes, hash)
    ensures forall other :: Asks(env, req.headers, req.upload.bytes, other) ==> other == hash
    ensures |hash| != 32 ==> events == [] && reply == GrpcError(InvalidArgument)
    ensures |hash| == 32 ==>
              && events == [LookedUp(hash)]
              && match req.world.lookup {
                   case None => reply == GrpcError(Unavailable)
                   case Some(NotFound) => reply == GrpcError(NoSuchTransaction)
                   case Some(Found(data, height)) =>
                     reply == if Answers(env, data, hash) then TransactionFound(data, height) else GrpcError(NoSuchTransaction)
                 }
  {
    ReadExact(req.upload, 1024);
    AsksExact(env, req.headers, req.upload.bytes);
  }

  /** And so is one that names nothing. */
  lemma UnaskedIsRefused(env: Env, req: Request, events: seq<Event>, reply: Reply)
    requires GetMeets(env, true, req, events, reply) && IsRead(req, 1024)
    requires forall hash :: !Asks(env, req.headers, req.upload.bytes, hash)
    ensures events == [] && reply == GrpcError(InvalidArgument)
  {
    ReadExact(req.upload, 1024);
  }

  // ----- whole runs

  /** One handling of each request: what it did and what it replied. */
  ghost predicate IsRun(env: Env, hub: bool, reqs: seq<Request>, did: seq<seq<Event>>, replies: seq<Reply>) {
    && |did| == |reqs| == |replies|
    && forall i :: 0 <= i < |reqs| ==> Meets(env, hub, reqs[i], did[i], replies[i])
  }

  /** The events of request `i` in a log of events tagged with their request. */
  function Of(log: seq<(nat, Event)>, i: nat): seq<Event> {
    if log == [] then []
    else
      var (tag, event) := log[|log| - 1];
      Of(log[..|log| - 1], i) + if tag == i then [event] else []
  }

  /** The log of requests handled concurrently: each one's events in its own order, interleaved anyhow. */
  ghost predicate Interleaves(log: seq<(nat, Event)>, did: seq<seq<Event>>) {
    && (forall k :: 0 <= k < |log| ==> log[k].0 < |did|)
    && (forall i: nat :: i < |did| ==> Of(log, i) == did[i])
  }

  lemma {:induction false} LoggedWasDone(log: seq<(nat, Event)>, k: nat)
    requires k < |log|
    ensures log[k].1 in Of(log, log[k].0)
    decreases |log|
  {
    if k < |log| - 1 {
      LoggedWasDone(log[..|log| - 1], k);
    }
  }

  predicate TouchesIndexer(e: Event) {
    e.Dialled? || e.Forwarded? || e.PassedThrough?
  }

  /** The indexer is contacted only for this kind of request, and is handed exactly what the wallet sent. */
  ghost predicate IndexerMayHear(env: Env, req: Request, e: Event) {
    && req.call.SendTransaction? && !e.PassedThrough?
    && |req.upload.bytes| <= MAX_SEND_TX_BYTES && req.upload.ending.Finished?
    && BodyMayPass(env, req.headers, req.upload.bytes)
    && (e.Forwarded? ==> e.bytes == req.upload.bytes && e.trailers == req.upload.ending.trailers)
  }

  /** The hub is handed exactly the bytes that were classified; they are not empty and may not pass. */
  ghost predicate HubMayHear(env: Env, req: Request, e: Event) {
    if e.Submitted? then
      && req.call.SendTransaction? && Sends(env, req.headers, req.upload.bytes, e.data)
      && e.data != [] && !C.MayPass(env.deserialize, e.data)
    else
      && e.LookedUp? && req.call.GetTransaction?
      && Asks(env, req.headers, req.upload.bytes, e.hash) && |e.hash| == 32
  }

  /** What a contact made for a request must be when there is a hub. */
  ghost predicate Safe(env: Env, req: Request, e: Event) {
    if TouchesIndexer(e) then IndexerMayHear(env, req, e) else HubMayHear(env, req, e)
  }

  lemma HandledSafely(env: Env, req: Request, events: seq<Event>, reply: Reply, e: Event)
    requires Meets(env, true, req, events, reply) && e in events
    ensures Safe(env, req, e)
  {
    if req.call.SendTransaction? {
      var body := ReadBody(req.upload, MAX_SEND_TX_BYTES).value;
      if BodyMayPass(env, req.headers, body.bytes) {
        assert e in [Dialled, Forwarded(body.bytes, body.trailers)];
      }
    }
  }

  /**
   Safety of every run with a hub, however the requests interleave: the indexer is dialled only for a
   transaction whose unwrapped bytes may pass, and reads back the wallet's exact bytes and trailers; the
   hub gets only what was classified, and not empty; no lookup dials the indexer.
   */
  lemma RunsAreSafe(env: Env, reqs: seq<Request>, did: seq<seq<Event>>, replies: seq<Reply>, log: seq<(nat, Event)>, k: nat)
    requires IsRun(env, true, reqs, did, replies) && Interleaves(log, did) && k < |log|
    ensures
      var (i, e) := log[k];
      i < |reqs| && Safe(env, reqs[i], e)
  {
    var (i, e) := log[k];
    LoggedWasDone(log, k);
    HandledSafely(env, reqs[i], did[i], replies[i], e);
  }

  /** A wallet is given a transaction only if it asked for its hash, in one byte order or the other. */
  lemma OnlyWhatWasAskedFor(env: Env, reqs: seq<Request>, did: seq<seq<Event>>, replies: seq<Reply>, i: nat)
    requires IsRun(env, true, reqs, did, replies) && i < |reqs| && replies[i].TransactionFound?
    ensures reqs[i].call.GetTransaction?
    ensures exists hash :: Asks(env, reqs[i].headers, reqs[i].upload.bytes, hash) && Answers(env, replies[i].data, hash)
  {
    var req := reqs[i];
    assert Meets(env, true, req, did[i], replies[i]);
    if req.call.GetTransaction? {
      var body := ReadBody(req.upload, MAX_TX_FILTER_BYTES).value;
      var hash :| Asks(env, req.headers, body.bytes, hash) && replies[i] == LookupReply(env, hash, req.world.lookup);
    }
  }
}
