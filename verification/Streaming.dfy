/** The streaming server call and the streaming client handler of egrpc, the channel between them,
    and the pool of server calls.  gRPC itself is a FIFO channel that completes each posted operation
    once; forced shutdown of a call is not modelled. */
module Streaming {
  import opened Listing
  import opened Outcomes

  datatype CallStatus = STARTUP | PROCESS | FINISH

  /** What a request asks for: the outcome of init_call_, the range it sets up, and what write_call_
      makes of an element: a reply, or nothing to write. */
  datatype Service<!E, !R> = Service(init: Status, range: seq<E>, write: E -> Option<R>)

  /** The replies for the elements from position i on. */
  function Replies<E, R>(svc: Service<E, R>, i: nat): seq<R>
    requires i <= |svc.range|
    decreases |svc.range| - i
  {
    if i == |svc.range| then []
    else
      match svc.write(svc.range[i])
      case Some(r) => [r] + Replies(svc, i + 1)
      case None => Replies(svc, i + 1)
  }

  ghost function WrittenFrom<E, R>(svc: Service<E, R>, i: nat): set<int> {
    set p | i <= p < |svc.range| && svc.write(svc.range[p]).Some?
  }

  /** The replies are what write_call_ makes of exactly the elements it makes something of, in the
      order of the range: an element with nothing to write is passed over and does not end the stream. */
  lemma {:induction false} RepliesInOrder<E, R>(svc: Service<E, R>, i: nat, ps: seq<int>)
    requires i <= |svc.range|
    requires Lists(ps, set p | i <= p < |svc.range| && svc.write(svc.range[p]).Some?)
    ensures |Replies(svc, i)| == |ps|
    ensures forall q | 0 <= q < |ps| ::
              0 <= ps[q] < |svc.range| && svc.write(svc.range[ps[q]]) == Some(Replies(svc, i)[q])
    decreases |svc.range| - i
  {
    hide Lists;
    assert WrittenFrom(svc, i) == set p | i <= p < |svc.range| && svc.write(svc.range[p]).Some?;
    if i == |svc.range| {
      ListsNothing(ps, WrittenFrom(svc, i));
    } else if svc.write(svc.range[i]).Some? {
      ListsFirst(ps, WrittenFrom(svc, i), i);
      assert WrittenFrom(svc, i + 1) == WrittenFrom(svc, i) - {i};
      RepliesInOrder(svc, i + 1, ps[1..]);
      assert ps == [ps[0]] + ps[1..];
    } else {
      assert WrittenFrom(svc, i + 1) == WrittenFrom(svc, i);
      RepliesInOrder(svc, i + 1, ps);
    }
  }

  // ---------------------------------------------------------------- the server call

  datatype ServerOp<R> = AwaitRequest | Write(reply: R) | Finish(status: Status)

  /** A server call: its status, its iterator, the operations it has posted, and whether it still
      exists. */
  datatype Server<R> = Server(status: CallStatus, it: nat, posted: seq<ServerOp<R>>, alive: bool)

  /** The first position from i on that has something to write, or the end of the range. */
  function NextWritten<E, R>(svc: Service<E, R>, i: nat): (j: nat)
    requires i <= |svc.range|
    ensures i <= j <= |svc.range|
    ensures j < |svc.range| ==> svc.write(svc.range[j]).Some?
    ensures j < |svc.range| ==> Replies(svc, i) == [svc.write(svc.range[j]).value] + Replies(svc, j + 1)
    ensures j == |svc.range| ==> Replies(svc, i) == []
    decreases |svc.range| - i
  {
    if i == |svc.range| || svc.write(svc.range[i]).Some? then i else NextWritten(svc, i + 1)
  }

  function Process<E, R>(svc: Service<E, R>, s: Server<R>): Server<R>
    requires s.it <= |svc.range|
  {
    var j := NextWritten(svc, s.it);
    if j < |svc.range| then
      s.(status := PROCESS, it := j + 1, posted := s.posted + [Write(svc.write(svc.range[j]).value)])
    else
      s.(status := FINISH, it := j, posted := s.posted + [Finish(Ok)])
  }

  /** What serve() makes of the call when its outstanding operation completes. */
  function ServeStep<E, R>(svc: Service<E, R>, s: Server<R>): Server<R>
    requires s.it <= |svc.range|
  {
    match s.status
    case STARTUP =>
      if svc.init != Ok then s.(status := FINISH, posted := s.posted + [Finish(svc.init)])
      else Process(svc, s.(it := 0))
    case PROCESS => Process(svc, s)
    case FINISH => s.(alive := false)
  }

  /** The replies a call has posted. */
  function Written<R>(posted: seq<ServerOp<R>>): seq<R> {
    if posted == [] then []
    else
      var op := posted[|posted| - 1];
      Written(posted[..|posted| - 1]) + if op.Write? then [op.reply] else []
  }

  /** The inner loop of serve(): advance the iterator until write_call_ has written a reply or the
      range ends. */
  method SkipUnwritten<E, R>(svc: Service<E, R>, first: nat) returns (wrote: Option<R>, it: nat)
    requires first < |svc.range|
    ensures var j := NextWritten(svc, first);
            if j < |svc.range| then wrote == svc.write(svc.range[j]) && it == j + 1
            else wrote == None && it == j
  {
    wrote, it := None, first;
    while wrote.None? && it != |svc.range|
      invariant it <= |svc.range|
      invariant wrote.None? ==> NextWritten(svc, it) == NextWritten(svc, first)
      invariant wrote.Some? ==>
                  0 < it && NextWritten(svc, first) == it - 1 && svc.write(svc.range[it - 1]) == wrote
      decreases |svc.range| - it
    {
      wrote := svc.write(svc.range[it]);
      it := it + 1;
    }
  }

  /** A server call as the source writes it. */
  class AsyncServerStreamCall<E, R> {
    const svc: Service<E, R>
    var status: CallStatus
    var it: nat
    var posted: seq<ServerOp<R>>
    var alive: bool

    ghost function Model(): Server<R>
      reads this
    {
      Server(status, it, posted, alive)
    }

    ghost predicate Valid()
      reads this
    {
      ServerInv(svc, Model())
    }

    constructor (svc: Service<E, R>)
      ensures Valid() && this.svc == svc && Model() == NewCall()
    {
      this.svc := svc;
      status, it, posted, alive := STARTUP, 0, [AwaitRequest], true;
      new;
      NewCallInv(svc);
      hide ServerInv;
    }

    /** Serving a request spawns the next listening call. */
    method Serve(next: Service<E, R>) returns (spawned: AsyncServerStreamCall?<E, R>)
      requires alive && it <= |svc.range| && Valid()
      modifies this
      ensures Valid() && Model() == ServeStep(svc, old(Model()))
      ensures spawned != null <==> old(status) == STARTUP
      ensures spawned != null ==>
                fresh(spawned) && spawned.Valid() && spawned.Model() == NewCall() && spawned.svc == next
    {
      ServeKeepsInv(svc, Model());
      hide ServerInv, Process;
      spawned := null;
      if status == FINISH {
        alive := false;
        return;
      }
      if status == STARTUP {
        spawned := new AsyncServerStreamCall(next);
        if svc.init != Ok {
          status := FINISH;
          posted := posted + [Finish(svc.init)];
          return;
        }
        it := 0;
      }
      WriteNext();
    }

    /** The PROCESS case of serve(), into which STARTUP falls through. */
    method WriteNext()
      requires it <= |svc.range|
      modifies this
      ensures Model() == Process(svc, old(Model()))
    {
      hide NextWritten, Replies;
      status := PROCESS;
      if it != |svc.range| {
        var wrote: Option<R>;
        wrote, it := SkipUnwritten(svc, it);
        if wrote.Some? {
          posted := posted + [Write(wrote.value)];
          return;
        }
      }
      if it == |svc.range| {
        status := FINISH;
        posted := posted + [Finish(Ok)];
      }
    }
  }

  function NewCall<R>(): Server<R> {
    Server(STARTUP, 0, [AwaitRequest], true)
  }

  // ---------------------------------------------------------------- the client handler

  datatype ClientOp = StartCall | Read | FinishCall

  /** A client handler: its status, the replies handed to handler_, the operations it has posted, the
      error it will leave in the promise, and whether it still exists. */
  datatype Client<R> = Client(
    status: CallStatus, handled: seq<R>, posted: seq<ClientOp>, error: Option<string>, alive: bool)

  /** What the completed operation brings: whether it succeeded, the reply a read has stored, and the
      status a finish has stored. */
  datatype Event<R> = Event(ok: bool, reply: Option<R>, status: Status)

  function NewHandler<R>(): Client<R> {
    Client(STARTUP, [], [StartCall], None, true)
  }

  /** What handle() makes of the handler when its outstanding operation completes. */
  function HandleStep<R>(c: Client<R>, e: Event<R>): Client<R>
    requires c.status == PROCESS && e.ok ==> e.reply.Some?
  {
    match c.status
    case STARTUP =>
      if e.ok then c.(status := PROCESS, posted := c.posted + [Read])
      else c.(status := FINISH, posted := c.posted + [FinishCall])
    case PROCESS =>
      if e.ok then c.(handled := c.handled + [e.reply.value], posted := c.posted + [Read])
      else c.(status := FINISH, posted := c.posted + [FinishCall])
    case FINISH =>
      c.(error := if e.status == Ok then None else Some(e.status.message), alive := false)
  }

  class AsyncClientStreamHandler<R> {
    var status: CallStatus
    var handled: seq<R>
    var posted: seq<ClientOp>
    var error: Option<string>
    var alive: bool

    ghost function Model(): Client<R>
      reads this
    {
      Client(status, handled, posted, error, alive)
    }

    ghost predicate Valid()
      reads this
    {
      ClientInv(Model())
    }

    constructor ()
      ensures Valid() && Model() == NewHandler()
    {
      status, handled, posted, error, alive := STARTUP, [], [StartCall], None, true;
    }

    method Handle(e: Event<R>)
      requires alive && (status == PROCESS && e.ok ==> e.reply.Some?) && Valid()
      modifies this
      ensures Valid() && Model() == HandleStep(old(Model()), e)
      ensures old(status) != FINISH && !e.ok ==>
                alive && status == FINISH && posted == old(posted) + [FinishCall]
      ensures old(status) != FINISH && e.ok ==>
                alive && status == PROCESS && posted == old(posted) + [Read]
      ensures handled == old(handled) + if old(status) == PROCESS && e.ok then [e.reply.value] else []
      ensures old(status) == FINISH ==> !alive && posted == old(posted)
      ensures old(status) == FINISH ==> error == if e.status == Ok then None else Some(e.status.message)
    {
      HandleKeepsInv(Model(), e);
      match status
      case STARTUP =>
        if e.ok {
          status := PROCESS;
          posted := posted + [Read];
        } else {
          status := FINISH;
          posted := posted + [FinishCall];
        }
      case PROCESS =>
        if e.ok {
          handled := handled + [e.reply.value];
          posted := posted + [Read];
        } else {
          status := FINISH;
          posted := posted + [FinishCall];
        }
      case FINISH =>
        if e.status != Ok {
          error := Some(e.status.message);
        }
        alive := false;
    }
  }

  // ---------------------------------------------------------------- one call end to end

  /** What travels from server to client. */
  datatype Item<R> = Reply(reply: R) | End(status: Status)

  /** A server call, the client handler it answers, and the channel between them.  `sent` says that
      the server's outstanding operation has been put on the channel; `broken` holds the error of a
      failed connection; `serverDone` and `clientDone` count the completed operations. */
  datatype Stream<R> = Stream(
    server: Server<R>, client: Client<R>, sent: bool, wire: seq<Item<R>>, broken: Option<string>,
    serverDone: nat, clientDone: nat)

  datatype Step =
    | Transmit                    // the server's outstanding write or finish enters the channel
    | ServerEvent                 // the server's outstanding operation completes
    | ClientStarted(ok: bool)     // the client's call is established, or is not
    | ClientRead                  // the client's read finds the next reply
    | ClientReadFails             // the client's read finds the end of the stream, or a broken connection
    | ClientFinished              // the client's finish brings the final status
    | Break(error: string)        // the connection fails

  function NewStream<R>(): Stream<R> {
    Stream(NewCall(), NewHandler(), false, [], None, 0, 0)
  }

  function LastOp<O>(ops: seq<O>): O
    requires ops != []
  {
    ops[|ops| - 1]
  }

  predicate Enabled<R>(s: Stream<R>, step: Step) {
    match step
    case Transmit =>
      s.server.alive && !s.sent && s.server.posted != [] && !LastOp(s.server.posted).AwaitRequest?
    case ServerEvent =>
      s.server.alive && s.server.posted != [] && (s.sent || LastOp(s.server.posted).AwaitRequest?)
    case ClientStarted(_) => s.client.alive && s.client.status == STARTUP
    case ClientRead => s.client.alive && s.client.status == PROCESS && s.wire != [] && s.wire[0].Reply?
    case ClientReadFails =>
      s.client.alive && s.client.status == PROCESS && (s.broken.Some? || (s.wire != [] && s.wire[0].End?))
    case ClientFinished =>
      s.client.alive && s.client.status == FINISH && (s.broken.Some? || (s.wire != [] && s.wire[0].End?))
    case Break(_) => true
  }

  /** The status a finish brings: the server's, unless the connection failed. */
  function FinalStatus<R>(s: Stream<R>): Status
    requires s.broken.Some? || (s.wire != [] && s.wire[0].End?)
  {
    if s.broken.Some? then Failed(s.broken.value) else s.wire[0].status
  }

  /** The stream after the server's outstanding operation has completed. */
  function Served<E, R>(svc: Service<E, R>, s: Stream<R>): Stream<R>
    requires s.server.it <= |svc.range|
  {
    s.(server := ServeStep(svc, s.server), sent := false, serverDone := s.serverDone + 1)
  }

  /** What an operation puts on the channel. */
  function Payload<R>(op: ServerOp<R>): Item<R>
    requires !op.AwaitRequest?
  {
    if op.Write? then Reply(op.reply) else End(op.status)
  }

  function Next<E, R>(svc: Service<E, R>, s: Stream<R>, step: Step): Stream<R>
    requires Enabled(s, step) && s.server.it <= |svc.range|
  {
    match step
    case Transmit =>
      s.(sent := true, wire := s.wire + [Payload(LastOp(s.server.posted))])
    case ServerEvent => Served(svc, s)
    case ClientStarted(ok) =>
      s.(client := HandleStep(s.client, Event(ok, None, Ok)), clientDone := s.clientDone + 1,
         broken := if ok || s.broken.Some? then s.broken else Some("call was not started"))
    case ClientRead =>
      s.(client := HandleStep(s.client, Event(true, Some(s.wire[0].reply), Ok)), wire := s.wire[1..],
         clientDone := s.clientDone + 1)
    case ClientReadFails =>
      s.(client := HandleStep(s.client, Event(false, None, Ok)), clientDone := s.clientDone + 1)
    case ClientFinished =>
      s.(client := HandleStep(s.client, Event(true, None, FinalStatus(s))), clientDone := s.clientDone + 1)
    case Break(e) => s.(broken := Some(e))
  }

  // ---------------------------------------------------------------- invariants of one call

  /** A server call has posted one operation more than have completed, until it is gone; only the
      last can be the finish, and the replies posted so far are those of the range before `it`. */
  ghost predicate ServerInv<E, R>(svc: Service<E, R>, s: Server<R>) {
    && s.posted != [] && s.posted[0] == AwaitRequest
    && s.it <= |svc.range|
    && (forall i | 0 < i < |s.posted| :: !s.posted[i].AwaitRequest?)
    && (forall i | 0 <= i < |s.posted| - 1 :: !s.posted[i].Finish?)
    && (s.status == STARTUP <==> |s.posted| == 1)
    && (s.status == FINISH <==> LastOp(s.posted).Finish?)
    && (!s.alive ==> s.status == FINISH)
    && (s.status == STARTUP ==> s.it == 0)
    && (s.status == PROCESS ==> svc.init == Ok)
    && (svc.init == Ok ==> Written(s.posted) + Replies(svc, s.it) == Replies(svc, 0))
    && (svc.init != Ok ==> Written(s.posted) == [])
    && (s.status == FINISH ==> LastOp(s.posted).status == svc.init && (svc.init == Ok ==> s.it == |svc.range|))
  }

  lemma NewCallInv<E, R>(svc: Service<E, R>)
    ensures ServerInv(svc, NewCall())
  {
    var posted: seq<ServerOp<R>> := [AwaitRequest];
    assert posted[..0] == [];
  }

  lemma WrittenGrows<R>(posted: seq<ServerOp<R>>, op: ServerOp<R>)
    ensures Written(posted + [op]) == Written(posted) + if op.Write? then [op.reply] else []
  {
    assert (posted + [op])[..|posted|] == posted;
  }

  lemma ProcessKeepsInv<E, R>(svc: Service<E, R>, s: Server<R>)
    requires ServerInv(svc, s) && s.status != FINISH && svc.init == Ok
    ensures ServerInv(svc, Process(svc, s)) && Process(svc, s).alive == s.alive
    ensures |Process(svc, s).posted| == |s.posted| + 1
  {
    hide Replies, Written, NextWritten;
    var s' := Process(svc, s);
    var j := NextWritten(svc, s.it);
    WrittenGrows(s.posted, s'.posted[|s.posted|]);
    if j < |svc.range| {
      var r := svc.write(svc.range[j]).value;
      assert Written(s.posted) + ([r] + Replies(svc, j + 1)) == (Written(s.posted) + [r]) + Replies(svc, j + 1);
    } else {
      NoReplies(svc);
    }
  }

  lemma NoReplies<E, R>(svc: Service<E, R>)
    ensures Replies(svc, |svc.range|) == []
  {
  }

  /** Each completion makes a live call post exactly one more operation, or, after the finish, go. */
  lemma ServeKeepsInv<E, R>(svc: Service<E, R>, s: Server<R>)
    requires ServerInv(svc, s) && s.alive
    ensures ServerInv(svc, ServeStep(svc, s))
    ensures if s.status == FINISH then !ServeStep(svc, s).alive && ServeStep(svc, s).posted == s.posted
            else ServeStep(svc, s).alive && |ServeStep(svc, s).posted| == |s.posted| + 1
                 && ServeStep(svc, s).posted[..|s.posted|] == s.posted
  {
    hide Replies, Written, NextWritten;
    if s.status != FINISH && svc.init == Ok {
      ProcessKeepsInv(svc, s.(it := if s.status == STARTUP then 0 else s.it));
    } else if s.status == STARTUP {
      WrittenGrows(s.posted, Finish(svc.init));
    }
  }

  ghost function Reads(n: nat): seq<ClientOp> {
    seq(n, _ => Read)
  }

  /** Everything a handler posts: the start; if that succeeds, one read more than there were replies;
      and a finish as soon as the start or a read has failed. */
  ghost predicate Posts<R>(c: Client<R>) {
    match c.status
    case STARTUP => c.posted == [StartCall] && c.handled == []
    case PROCESS => c.posted == [StartCall] + Reads(|c.handled| + 1)
    case FINISH =>
      || (c.posted == [StartCall, FinishCall] && c.handled == [])
      || c.posted == [StartCall] + Reads(|c.handled| + 1) + [FinishCall]
  }

  ghost predicate ClientInv<R>(c: Client<R>) {
    && Posts(c)
    && (!c.alive ==> c.status == FINISH)
    && (c.alive ==> c.error == None)
  }

  lemma ReadsGrow(n: nat)
    ensures |Reads(n)| == n && Reads(n + 1) == Reads(n) + [Read]
    ensures forall op | op in Reads(n) :: op == Read
  {
  }

  /** The replies on the channel. */
  function OnWire<R>(wire: seq<Item<R>>): seq<R> {
    if wire == [] then []
    else (if wire[0].Reply? then [wire[0].reply] else []) + OnWire(wire[1..])
  }

  /** What the server has put on the channel so far. */
  function Transmitted<R>(s: Stream<R>): seq<R> {
    var ops := s.server.posted;
    if ops != [] && !s.sent then Written(ops[..|ops| - 1]) else Written(ops)
  }

  ghost predicate EndOnWire<R>(s: Stream<R>) {
    s.wire != [] && LastOp(s.wire).End?
  }

  ghost predicate FinishSent<R>(s: Stream<R>) {
    s.server.posted != [] && LastOp(s.server.posted).Finish? && (s.sent || !s.server.alive)
  }

  /** The end marker is on the channel exactly when the server's finish has been sent, behind every
      reply; replies handled and replies on the channel are the replies sent; and a handler that is
      gone has found that marker behind the last reply and left its status, unless the connection
      broke. */
  ghost predicate WireInv<R>(s: Stream<R>) {
    && (forall i | 0 <= i < |s.wire| - 1 :: s.wire[i].Reply?)
    && (EndOnWire(s) <==> FinishSent(s))
    && (EndOnWire(s) ==> LastOp(s.wire).status == LastOp(s.server.posted).status)
    && s.client.handled + OnWire(s.wire) == Transmitted(s)
    && (!s.client.alive ==> LeftStatus(s))
    && (s.client.status == FINISH && s.broken == None ==> s.wire != [] && s.wire[0].End?)
  }

  /** The error a handler leaves is that of the end marker, or of the broken connection. */
  ghost predicate LeftStatus<R>(s: Stream<R>) {
    || (s.client.error == None && s.wire == [End(Ok)])
    || (s.client.error.Some? && s.wire == [End(Failed(s.client.error.value))])
    || (s.client.error.Some? && s.broken.Some?)
  }

  /** Each machine has exactly one operation outstanding until it is gone, and none then. */
  ghost predicate OneOutstanding<R>(s: Stream<R>) {
    && |s.server.posted| == s.serverDone + (if s.server.alive then 1 else 0)
    && |s.client.posted| == s.clientDone + (if s.client.alive then 1 else 0)
  }

  /** Each machine posts its finish at most once, as its last operation, and is not gone before. */
  ghost predicate FinishesOnce<R>(s: Stream<R>) {
    && (forall i | 0 <= i < |s.server.posted| - 1 :: !s.server.posted[i].Finish?)
    && (forall i | 0 <= i < |s.client.posted| - 1 :: !s.client.posted[i].FinishCall?)
    && (!s.server.alive ==> s.server.posted != [] && LastOp(s.server.posted).Finish?)
    && (!s.client.alive ==> s.client.posted != [] && LastOp(s.client.posted).FinishCall?)
  }

  ghost predicate StreamInv<E, R>(svc: Service<E, R>, s: Stream<R>) {
    && ServerInv(svc, s.server) && ClientInv(s.client) && WireInv(s)
    && OneOutstanding(s) && (s.sent ==> s.server.alive)
  }

  lemma {:induction false} OnWireGrows<R>(wire: seq<Item<R>>, item: Item<R>)
    ensures OnWire(wire + [item]) == OnWire(wire) + if item.Reply? then [item.reply] else []
    decreases |wire|
  {
    if wire != [] {
      OnWireGrows(wire[1..], item);
      assert (wire + [item])[1..] == wire[1..] + [item];
    }
  }

  lemma TransmitOnWire<R>(s: Stream<R>)
    requires WireInv(s) && Enabled(s, Transmit)
    ensures WireInv(s.(sent := true, wire := s.wire + [Payload(LastOp(s.server.posted))]))
  {
    hide OnWire, Written;
    var op := LastOp(s.server.posted);
    var rest := s.server.posted[..|s.server.posted| - 1];
    assert s.server.posted == rest + [op];
    WrittenGrows(rest, op);
    assert !EndOnWire(s);
    OnWireGrows(s.wire, Payload(op));
  }

  lemma TransmitKept<E, R>(svc: Service<E, R>, s: Stream<R>)
    requires StreamInv(svc, s) && Enabled(s, Transmit)
    ensures StreamInv(svc, Next(svc, s, Transmit))
  {
    TransmitOnWire(s);
    hide WireInv, ServerInv;
  }

  lemma LastNotWritten<R>(posted: seq<ServerOp<R>>)
    requires posted != []
    ensures !LastOp(posted).Write? ==> Written(posted[..|posted| - 1]) == Written(posted)
  {
    var rest := posted[..|posted| - 1];
    assert posted == rest + [LastOp(posted)];
    WrittenGrows(rest, LastOp(posted));
  }

  lemma ServedTransmits<E, R>(svc: Service<E, R>, s: Stream<R>)
    requires ServerInv(svc, s.server) && Enabled(s, ServerEvent)
    ensures Transmitted(Served(svc, s)) == Transmitted(s)
  {
    ServeKeepsInv(svc, s.server);
    LastNotWritten(s.server.posted);
    hide Written, ServeStep;
    var posted' := Served(svc, s).server.posted;
    if s.server.status == FINISH {
      assert posted' == s.server.posted;
    } else {
      assert posted'[..|posted'| - 1] == s.server.posted;
    }
  }

  lemma ServedFinishes<E, R>(svc: Service<E, R>, s: Stream<R>)
    requires ServerInv(svc, s.server) && Enabled(s, ServerEvent)
    ensures FinishSent(Served(svc, s)) <==> FinishSent(s)
    ensures FinishSent(s) ==> Served(svc, s).server.posted == s.server.posted
  {
    ServeKeepsInv(svc, s.server);
    hide Written, ServeStep;
  }

  lemma ServerEventOnWire<E, R>(svc: Service<E, R>, s: Stream<R>)
    requires ServerInv(svc, s.server) && WireInv(s) && Enabled(s, ServerEvent)
    ensures WireInv(Served(svc, s))
  {
    ServedTransmits(svc, s);
    ServedFinishes(svc, s);
    hide OnWire, Transmitted, ServerInv, FinishSent, ServeStep;
  }

  lemma ServerEventKept<E, R>(svc: Service<E, R>, s: Stream<R>)
    requires StreamInv(svc, s) && Enabled(s, ServerEvent)
    ensures StreamInv(svc, Next(svc, s, ServerEvent))
  {
    ServeKeepsInv(svc, s.server);
    ServerEventOnWire(svc, s);
    hide WireInv, ServerInv, ServeStep;
  }

  /** Each completion makes a live handler post exactly one more operation, or, after the finish,
      go. */
  lemma HandleKeepsInv<R>(c: Client<R>, e: Event<R>)
    requires ClientInv(c) && c.alive && (c.status == PROCESS && e.ok ==> e.reply.Some?)
    ensures ClientInv(HandleStep(c, e))
    ensures if c.status == FINISH then !HandleStep(c, e).alive && HandleStep(c, e).posted == c.posted
            else HandleStep(c, e).alive && |HandleStep(c, e).posted| == |c.posted| + 1
                 && HandleStep(c, e).posted[..|c.posted|] == c.posted
  {
  }

  lemma ClientReadKept<E, R>(svc: Service<E, R>, s: Stream<R>)
    requires StreamInv(svc, s) && Enabled(s, ClientRead)
    ensures StreamInv(svc, Next(svc, s, ClientRead))
  {
    var s' := Next(svc, s, ClientRead);
    assert ServerInv(svc, s'.server) && Transmitted(s') == Transmitted(s);
    HandleKeepsInv(s.client, Event(true, Some(s.wire[0].reply), Ok));
    hide ServerInv, Written, ClientInv;
    var r := s.wire[0].reply;
    assert s.client.handled + ([r] + OnWire(s.wire[1..])) == (s.client.handled + [r]) + OnWire(s.wire[1..]);
  }

  lemma ClientFinishedKept<E, R>(svc: Service<E, R>, s: Stream<R>)
    requires StreamInv(svc, s) && Enabled(s, ClientFinished)
    ensures StreamInv(svc, Next(svc, s, ClientFinished))
  {
    var s' := Next(svc, s, ClientFinished);
    assert ServerInv(svc, s'.server) && Transmitted(s') == Transmitted(s);
    HandleKeepsInv(s.client, Event(true, None, FinalStatus(s)));
    hide ServerInv, Written, ClientInv, OnWire;
  }

  /** A step of a client that stays alive and handles nothing leaves the channel as it is. */
  lemma WireUntouched<R>(s: Stream<R>, s': Stream<R>)
    requires WireInv(s) && s'.client.alive && s'.client.handled == s.client.handled
    requires s'.server == s.server && s'.sent == s.sent && s'.wire == s.wire
    requires s'.client.status == FINISH ==> s'.broken.Some? || (s'.wire != [] && s'.wire[0].End?)
    ensures WireInv(s')
  {
  }

  lemma ClientStartedKept<E, R>(svc: Service<E, R>, s: Stream<R>, ok: bool)
    requires StreamInv(svc, s) && Enabled(s, ClientStarted(ok))
    ensures StreamInv(svc, Next(svc, s, ClientStarted(ok)))
  {
    var s' := Next(svc, s, ClientStarted(ok));
    HandleKeepsInv(s.client, Event(ok, None, Ok));
    WireUntouched(s, s');
    hide ServerInv, ClientInv, WireInv;
  }

  lemma ClientReadFailsKept<E, R>(svc: Service<E, R>, s: Stream<R>)
    requires StreamInv(svc, s) && Enabled(s, ClientReadFails)
    ensures StreamInv(svc, Next(svc, s, ClientReadFails))
  {
    var s' := Next(svc, s, ClientReadFails);
    HandleKeepsInv(s.client, Event(false, None, Ok));
    WireUntouched(s, s');
    hide ServerInv, ClientInv, WireInv;
  }

  lemma BreakKept<E, R>(svc: Service<E, R>, s: Stream<R>, error: string)
    requires StreamInv(svc, s)
    ensures StreamInv(svc, Next(svc, s, Break(error)))
  {
    var s' := Next(svc, s, Break(error));
    assert ServerInv(svc, s'.server) && ClientInv(s'.client) && Transmitted(s') == Transmitted(s);
    hide ServerInv, Written, ClientInv, OnWire;
  }

  lemma StreamInvKept<E, R>(svc: Service<E, R>, s: Stream<R>, step: Step)
    requires StreamInv(svc, s) && Enabled(s, step)
    ensures StreamInv(svc, Next(svc, s, step))
  {
    hide StreamInv, Next;
    match step
    case Transmit => TransmitKept(svc, s);
    case ServerEvent => ServerEventKept(svc, s);
    case ClientRead => ClientReadKept(svc, s);
    case ClientFinished => ClientFinishedKept(svc, s);
    case ClientStarted(ok) => ClientStartedKept(svc, s, ok);
    case ClientReadFails => ClientReadFailsKept(svc, s);
    case Break(error) => BreakKept(svc, s, error);
  }

  lemma NewStreamInv<E, R>(svc: Service<E, R>)
    ensures StreamInv(svc, NewStream())
  {
    var posted: seq<ServerOp<R>> := [AwaitRequest];
    assert posted[..0] == [];
  }

  /** What the client has handled is always a prefix of the replies of the range, in order, and all of
      them when it is gone without an error. */
  lemma HandledIsPrefix<E, R>(svc: Service<E, R>, s: Stream<R>)
    requires StreamInv(svc, s)
    ensures svc.init == Ok ==> s.client.handled <= Replies(svc, 0)
    ensures svc.init != Ok ==> s.client.handled == []
    ensures !s.client.alive && s.client.error == None ==> svc.init == Ok && s.client.handled == Replies(svc, 0)
    ensures !s.client.alive && s.broken == None ==>
              s.client.error == if svc.init == Ok then None else Some(svc.init.message)
  {
    hide Replies, Written;
    var posted := s.server.posted;
    var rest := posted[..|posted| - 1];
    assert posted == rest + [LastOp(posted)];
    WrittenGrows(rest, LastOp(posted));
    if !s.client.alive && (s.client.error == None || s.broken == None) {
      assert EndOnWire(s) && FinishSent(s);
      assert OnWire(s.wire) == [];
      NoReplies(svc);
    }
  }

  /** Both machines post their finish last and once, and the client has no more events than its
      replies, its start, its failed read and its finish. */
  lemma FinishesAreLast<E, R>(svc: Service<E, R>, s: Stream<R>)
    requires StreamInv(svc, s)
    ensures FinishesOnce(s) && OneOutstanding(s) && Posts(s.client)
    ensures s.clientDone <= |s.client.handled| + 3
  {
    ReadsGrow(|s.client.handled|);
    ReadsGrow(|s.client.handled| + 1);
    hide Reads, Written, Replies, WireInv;
  }

  // ---------------------------------------------------------------- the pool of calls

  predicate Listening<R>(s: Stream<R>) {
    s.server.status == STARTUP && s.server.alive
  }

  /** All calls ever created; call i serves the service svcs(i).  Serving a request creates a call. */
  function PoolNext<E, R>(svcs: nat -> Service<E, R>, pool: seq<Stream<R>>, i: nat, step: Step): seq<Stream<R>>
    requires i < |pool| && Enabled(pool[i], step) && pool[i].server.it <= |svcs(i).range|
  {
    pool[i := Next(svcs(i), pool[i], step)] +
    if step == ServerEvent && pool[i].server.status == STARTUP then [NewStream()] else []
  }

  ghost predicate PoolInv<E, R>(svcs: nat -> Service<E, R>, pool: seq<Stream<R>>) {
    && pool != []
    && (forall i | 0 <= i < |pool| :: StreamInv(svcs(i), pool[i]))
    && (forall i | 0 <= i < |pool| :: Listening(pool[i]) <==> i == |pool| - 1)
  }

  datatype PoolStep = PoolStep(call: nat, step: Step)

  ghost predicate Possible<E, R>(svcs: nat -> Service<E, R>, pool: seq<Stream<R>>, steps: seq<PoolStep>)
    decreases |steps|
  {
    steps == [] ||
    var (i, step) := (steps[0].call, steps[0].step);
    && i < |pool| && Enabled(pool[i], step) && pool[i].server.it <= |svcs(i).range|
    && Possible(svcs, PoolNext(svcs, pool, i, step), steps[1..])
  }

  ghost function Run<E, R>(svcs: nat -> Service<E, R>, pool: seq<Stream<R>>, steps: seq<PoolStep>): seq<Stream<R>>
    requires Possible(svcs, pool, steps)
    decreases |steps|
  {
    if steps == [] then pool
    else Run(svcs, PoolNext(svcs, pool, steps[0].call, steps[0].step), steps[1..])
  }

  lemma ListeningAfter<E, R>(svc: Service<E, R>, s: Stream<R>, step: Step)
    requires StreamInv(svc, s) && Enabled(s, step)
    ensures Listening(Next(svc, s, step)) <==> Listening(s) && step != ServerEvent
  {
    if step == ServerEvent {
      ServeKeepsInv(svc, s.server);
    }
  }

  lemma PoolInvKept<E, R>(svcs: nat -> Service<E, R>, pool: seq<Stream<R>>, i: nat, step: Step)
    requires PoolInv(svcs, pool) && i < |pool| && Enabled(pool[i], step)
    requires pool[i].server.it <= |svcs(i).range|
    ensures PoolInv(svcs, PoolNext(svcs, pool, i, step))
  {
    hide StreamInv, Next, Enabled;
    var s := pool[i];
    StreamInvKept(svcs(i), s, step);
    ListeningAfter(svcs(i), s, step);
    NewStreamInv(svcs(|pool|));
    ServerEventIsAlive(s, step);
  }

  lemma ServerEventIsAlive<R>(s: Stream<R>, step: Step)
    requires Enabled(s, step)
    ensures step == ServerEvent ==> s.server.alive
  {
  }

  /** In every run of any number of calls, each client has handled a prefix of its replies and, if it
      ended without an error, all of them; and exactly one call is listening. */
  lemma {:induction false} EveryRunIsSafe<E, R>(svcs: nat -> Service<E, R>, pool: seq<Stream<R>>, steps: seq<PoolStep>)
    requires PoolInv(svcs, pool) && Possible(svcs, pool, steps)
    ensures PoolInv(svcs, Run(svcs, pool, steps))
    decreases |steps|
  {
    hide StreamInv, Next, Enabled;
    if steps != [] {
      PoolInvKept(svcs, pool, steps[0].call, steps[0].step);
      EveryRunIsSafe(svcs, PoolNext(svcs, pool, steps[0].call, steps[0].step), steps[1..]);
    }
  }

  lemma InitiallyOneListening<E, R>(svcs: nat -> Service<E, R>)
    ensures PoolInv(svcs, [NewStream()])
  {
    NewStreamInv(svcs(0));
  }

  /** The streaming protocol, for every run from a server that has just been started: exactly one call
      listens; each machine has one operation outstanding and finishes once; a client has handled a
      prefix of its replies, all of them if it ended without an error; and it reports the server's
      status unless the connection broke. */
  lemma StreamingIsSafe<E, R>(svcs: nat -> Service<E, R>, steps: seq<PoolStep>, i: nat)
    requires Possible(svcs, [NewStream()], steps) && i < |Run(svcs, [NewStream()], steps)|
    ensures
      var pool := Run(svcs, [NewStream()], steps);
      var client := pool[i].client;
      && (Listening(pool[i]) <==> i == |pool| - 1)
      && OneOutstanding(pool[i]) && FinishesOnce(pool[i])
      && Posts(client) && pool[i].clientDone <= |client.handled| + 3
      && (if svcs(i).init == Ok then client.handled <= Replies(svcs(i), 0) else client.handled == [])
      && (!client.alive && client.error == None ==>
            svcs(i).init == Ok && client.handled == Replies(svcs(i), 0))
      && (!client.alive && pool[i].broken == None ==>
            client.error == if svcs(i).init == Ok then None else Some(svcs(i).init.message))
  {
    InitiallyOneListening(svcs);
    EveryRunIsSafe(svcs, [NewStream()], steps);
    var s := Run(svcs, [NewStream()], steps)[i];
    assert StreamInv(svcs(i), s);
    HandledIsPrefix(svcs(i), s);
    FinishesAreLast(svcs(i), s);
    hide Run, Possible, StreamInv, FinishesOnce, Posts;
  }

  // ---------------------------------------------------------------- every stream comes to an end

  /** The steps of a single stream can be taken one after the other. */
  ghost predicate StreamPossible<E, R>(svc: Service<E, R>, s: Stream<R>, steps: seq<Step>)
    decreases |steps|
  {
    steps == [] ||
    (Enabled(s, steps[0]) && s.server.it <= |svc.range| && StreamPossible(svc, Next(svc, s, steps[0]), steps[1..]))
  }

  ghost function StreamRun<E, R>(svc: Service<E, R>, s: Stream<R>, steps: seq<Step>): Stream<R>
    requires StreamPossible(svc, s, steps)
    decreases |steps|
  {
    if steps == [] then s else StreamRun(svc, Next(svc, s, steps[0]), steps[1..])
  }

  /** How many operations of the server can still complete. */
  ghost function ServerLeft<E, R>(svc: Service<E, R>, server: Server<R>): int {
    if !server.alive then 0
    else
      match server.status
      case STARTUP => |svc.range| + 3
      case PROCESS => |svc.range| - server.it + 2
      case FINISH => 1
  }

  ghost function ClientLeft<R>(client: Client<R>): int {
    if !client.alive then 0
    else
      match client.status
      case STARTUP => 3
      case PROCESS => 2
      case FINISH => 1
  }

  /** A bound on the steps that are left in a stream. */
  ghost function StepsLeft<E, R>(svc: Service<E, R>, s: Stream<R>): int {
    4 * ServerLeft(svc, s.server) - (if s.sent then 2 else 0) + |s.wire| + ClientLeft(s.client)
  }

  /** Both machines are gone. */
  predicate Over<R>(s: Stream<R>) {
    !s.server.alive && !s.client.alive
  }

  lemma ServeLowers<E, R>(svc: Service<E, R>, s: Server<R>)
    requires ServerInv(svc, s) && s.alive
    ensures ServerLeft(svc, ServeStep(svc, s)) < ServerLeft(svc, s)
  {
    hide Replies, Written;
  }

  /** Every step but a break uses up some of what is left. */
  lemma StepLowers<E, R>(svc: Service<E, R>, s: Stream<R>, step: Step)
    requires StreamInv(svc, s) && Enabled(s, step)
    ensures if step.Break? then StepsLeft(svc, Next(svc, s, step)) == StepsLeft(svc, s)
            else StepsLeft(svc, Next(svc, s, step)) < StepsLeft(svc, s)
  {
    if step == ServerEvent {
      ServeLowers(svc, s.server);
    }
    hide StreamInv, ServeStep, ServerLeft;
  }

  lemma StepsLeftBound<E, R>(svc: Service<E, R>, s: Stream<R>)
    requires StreamInv(svc, s)
    ensures 0 <= StepsLeft(svc, s)
  {
    hide Replies, Written, WireInv, Posts;
  }

  /** Until both machines are gone something can happen, and not only a failure. */
  lemma NotStuck<E, R>(svc: Service<E, R>, s: Stream<R>) returns (step: Step)
    requires StreamInv(svc, s) && !Over(s)
    ensures Enabled(s, step) && !step.Break? && step != ClientStarted(false)
  {
    hide Replies, Written, OnWire, Posts, Transmitted;
    if s.client.alive && s.client.status == STARTUP {
      step := ClientStarted(true);
    } else if s.server.alive {
      step := if s.sent || LastOp(s.server.posted).AwaitRequest? then ServerEvent else Transmit;
    } else {
      assert EndOnWire(s);
      if s.client.status == FINISH {
        step := ClientFinished;
      } else {
        step := if s.wire[0].Reply? then ClientRead else ClientReadFails;
      }
    }
  }

  ghost function Breaks(steps: seq<Step>): nat {
    if steps == [] then 0 else (if steps[0].Break? then 1 else 0) + Breaks(steps[1..])
  }

  /** A stream does not go on for ever and does not get stuck: for every order of its steps their
      number, not counting breaks of the connection, is bounded by the length of the range, and
      where no step is possible any more both machines are gone. */
  lemma {:induction false} EveryStreamEnds<E, R>(svc: Service<E, R>, s: Stream<R>, steps: seq<Step>)
    requires StreamInv(svc, s) && StreamPossible(svc, s, steps)
    ensures |steps| - Breaks(steps) <= StepsLeft(svc, s)
    ensures s == NewStream() ==> |steps| - Breaks(steps) <= 4 * |svc.range| + 15
    ensures Over(StreamRun(svc, s, steps))
            || exists step :: Enabled(StreamRun(svc, s, steps), step) && !step.Break?
    decreases |steps|
  {
    StepsLeftBound(svc, s);
    if steps == [] {
      if !Over(s) {
        var step := NotStuck(svc, s);
      }
    } else {
      StreamInvKept(svc, s, steps[0]);
      StepLowers(svc, s, steps[0]);
      hide StreamInv, Next, Enabled, StepsLeft, Over;
      EveryStreamEnds(svc, Next(svc, s, steps[0]), steps[1..]);
    }
  }

  lemma UnbrokenAfter<E, R>(svc: Service<E, R>, s: Stream<R>, step: Step)
    requires s.server.it <= |svc.range| && Enabled(s, step) && !step.Break? && step != ClientStarted(false)
    ensures Next(svc, s, step).broken == s.broken
  {
  }

  lemma Completes<E, R>(svc: Service<E, R>, s: Stream<R>) returns (steps: seq<Step>)
    requires StreamInv(svc, s) && s.broken == None
    ensures StreamPossible(svc, s, steps) && Over(StreamRun(svc, s, steps))
    ensures StreamInv(svc, StreamRun(svc, s, steps)) && StreamRun(svc, s, steps).broken == None
    decreases StepsLeft(svc, s)
  {
    StepsLeftBound(svc, s);
    if Over(s) {
      steps := [];
    } else {
      var step := NotStuck(svc, s);
      StreamInvKept(svc, s, step);
      StepLowers(svc, s, step);
      UnbrokenAfter(svc, s, step);
      hide Next, Enabled, StepsLeft, Over, WireInv, ServerInv, ClientInv;
      var rest := Completes(svc, Next(svc, s, step));
      steps := [step] + rest;
      assert steps[1..] == rest;
    }
  }

  ghost function OfCall(call: nat, steps: seq<Step>): seq<PoolStep> {
    seq(|steps|, i requires 0 <= i < |steps| => PoolStep(call, steps[i]))
  }

  /** The steps of one stream are steps of the pool it is in. */
  lemma {:induction false} InPool<E, R>(svcs: nat -> Service<E, R>, pool: seq<Stream<R>>, steps: seq<Step>)
    requires pool != [] && StreamPossible(svcs(0), pool[0], steps)
    ensures Possible(svcs, pool, OfCall(0, steps))
    ensures Run(svcs, pool, OfCall(0, steps)) != []
    ensures Run(svcs, pool, OfCall(0, steps))[0] == StreamRun(svcs(0), pool[0], steps)
    decreases |steps|
  {
    hide Next, Enabled;
    if steps != [] {
      assert OfCall(0, steps)[1..] == OfCall(0, steps[1..]);
      InPool(svcs, PoolNext(svcs, pool, 0, steps[0]), steps[1..]);
    }
  }

  /** Every service can be served to its end: there is a run of a server that has just been started
      in which the client receives all the replies, and then the status, of its call. */
  lemma CleanRunExists<E, R>(svcs: nat -> Service<E, R>) returns (steps: seq<PoolStep>)
    ensures Possible(svcs, [NewStream()], steps) && Run(svcs, [NewStream()], steps) != []
    ensures
      var s := Run(svcs, [NewStream()], steps)[0];
      && Over(s) && s.broken == None
      && (svcs(0).init == Ok ==> s.client.handled == Replies(svcs(0), 0) && s.client.error == None)
      && (svcs(0).init != Ok ==> s.client.handled == [] && s.client.error == Some(svcs(0).init.message))
  {
    NewStreamInv(svcs(0));
    hide StreamInv, Next, Enabled, Run, Possible, StreamRun, StreamPossible;
    var own := Completes(svcs(0), NewStream());
    InPool(svcs, [NewStream()], own);
    HandledIsPrefix(svcs(0), StreamRun(svcs(0), NewStream(), own));
    steps := OfCall(0, own);
  }
}
