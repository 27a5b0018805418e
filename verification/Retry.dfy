/** egrpc/client_async.hpp with the destructor of egrpc/iclient_async.hpp: a chain of self-deleting
    handlers that pass one promise along until a call succeeds or the retries are used up. */
module Retry {
  import opened Outcomes

  /** What the world answers: the status that attempt i ends with, and whether init_ handles the
      attempt itself, before the constructor returns, or leaves it to a later completion event. */
  datatype World = World(status: nat -> Status, synchronous: nat -> bool)

  /** A chain of handlers.  `live` is the retries_ of the handler waiting for its completion, if any;
      `values` are the values given to the shared promise. */
  datatype Chain = Chain(live: Option<nat>, attempts: nat, callbacks: nat, values: seq<Option<string>>)

  const EMPTY := Chain(None, 0, 0, [])

  /** The status of the attempt that was started last. */
  function LastStatus(w: World, c: Chain): Status
    requires 0 < c.attempts
  {
    w.status(c.attempts - 1)
  }

  /** Construct a handler: one more attempt, which may be handled on the spot. */
  function Create(w: World, c: Chain, retries: nat): Chain
    decreases retries, 1
  {
    var begun := c.(live := Some(retries), attempts := c.attempts + 1);
    if w.synchronous(c.attempts) then Handle(w, begun, retries) else begun
  }

  /** handle() of the live handler, with the destructor it ends in: the promise is set there unless
      it was passed on. */
  function Handle(w: World, c: Chain, retries: nat): Chain
    requires 0 < c.attempts
    decreases retries, 0
  {
    match LastStatus(w, c)
    case Ok => c.(live := None, callbacks := c.callbacks + 1, values := c.values + [None])
    case Failed(message) =>
      if 0 < retries then Create(w, c.(live := None), retries - 1)
      else c.(live := None, values := c.values + [Some(message)])
  }

  /** The completion event of the live handler, if there is one. */
  function Complete(w: World, c: Chain): Chain
    requires c.live.Some? ==> 0 < c.attempts
  {
    if c.live.Some? then Handle(w, c, c.live.value) else c
  }

  /** The chain after its first handler was constructed and `events` completions have come in. */
  function After(w: World, retries: nat, events: nat): (c: Chain)
    ensures 0 < c.attempts
    decreases events
  {
    if events == 0 then
      ChainGrows(w, EMPTY, retries);
      Create(w, EMPTY, retries)
    else
      var before := After(w, retries, events - 1);
      CompleteGrows(w, before);
      Complete(w, before)
  }

  lemma {:induction false} ChainGrows(w: World, c: Chain, retries: nat)
    ensures c.attempts < Create(w, c, retries).attempts
    decreases retries, 1
  {
    if w.synchronous(c.attempts) {
      HandleGrows(w, c.(live := Some(retries), attempts := c.attempts + 1), retries);
    }
  }

  lemma {:induction false} HandleGrows(w: World, c: Chain, retries: nat)
    requires 0 < c.attempts
    ensures c.attempts <= Handle(w, c, retries).attempts
    decreases retries, 0
  {
    if LastStatus(w, c) != Ok && 0 < retries {
      ChainGrows(w, c.(live := None), retries - 1);
    }
  }

  lemma CompleteGrows(w: World, c: Chain)
    requires 0 < c.attempts
    ensures c.attempts <= Complete(w, c).attempts
  {
    if c.live.Some? {
      HandleGrows(w, c, c.live.value);
    }
  }

  /** Every attempt but the last has failed; while a handler is live it waits for a completion, nothing
      has been reported and its retries are those that are left; when none is, the promise has been set
      once, to nothing if the last attempt succeeded and to its error otherwise, and only then after all
      retries; and the callback has run once for a success and never for a failure. */
  ghost predicate Inv(w: World, retries: nat, c: Chain) {
    && 0 < c.attempts <= retries + 1
    && (forall i | 0 <= i < c.attempts - 1 :: w.status(i) != Ok)
    && match c.live
       case Some(left) =>
         !w.synchronous(c.attempts - 1) && left + c.attempts == retries + 1 && c.values == [] && c.callbacks == 0
       case None =>
         match LastStatus(w, c)
         case Ok => c.values == [None] && c.callbacks == 1
         case Failed(message) => c.values == [Some(message)] && c.callbacks == 0 && c.attempts == retries + 1
  }

  lemma {:induction false} CreateKeepsInv(w: World, retries: nat, c: Chain, left: nat)
    requires left + c.attempts == retries && c.values == [] && c.callbacks == 0
    requires forall i | 0 <= i < c.attempts :: w.status(i) != Ok
    ensures Inv(w, retries, Create(w, c, left))
    decreases left, 1
  {
    if w.synchronous(c.attempts) {
      HandleKeepsInv(w, retries, c.(live := Some(left), attempts := c.attempts + 1), left);
    }
  }

  lemma {:induction false} HandleKeepsInv(w: World, retries: nat, c: Chain, left: nat)
    requires 0 < c.attempts && left + c.attempts == retries + 1 && c.values == [] && c.callbacks == 0
    requires forall i | 0 <= i < c.attempts - 1 :: w.status(i) != Ok
    ensures Inv(w, retries, Handle(w, c, left))
    decreases left, 0
  {
    if LastStatus(w, c) != Ok && 0 < left {
      CreateKeepsInv(w, retries, c.(live := None), left - 1);
    }
  }

  /** For every sequence of statuses, every pattern of synchronous handling and any number of
      completion events the chain is in order. */
  lemma {:induction false} EveryRunIsSafe(w: World, retries: nat, events: nat)
    ensures Inv(w, retries, After(w, retries, events))
    decreases events
  {
    if events == 0 {
      CreateKeepsInv(w, retries, EMPTY, retries);
    } else {
      var before := After(w, retries, events - 1);
      EveryRunIsSafe(w, retries, events - 1);
      if before.live.Some? {
        HandleKeepsInv(w, retries, before, before.live.value);
      }
    }
  }

  /** Each completion either uses up a retry or ends the chain. */
  lemma {:induction false} CreateProgress(w: World, c: Chain, left: nat)
    ensures Create(w, c, left).live.Some? ==> Create(w, c, left).live.value <= left
    decreases left, 1
  {
    if w.synchronous(c.attempts) {
      HandleProgress(w, c.(live := Some(left), attempts := c.attempts + 1), left);
    }
  }

  lemma {:induction false} HandleProgress(w: World, c: Chain, left: nat)
    requires 0 < c.attempts
    ensures Handle(w, c, left).live.Some? ==> Handle(w, c, left).live.value < left
    decreases left, 0
  {
    if LastStatus(w, c) != Ok && 0 < left {
      CreateProgress(w, c.(live := None), left - 1);
    }
  }

  lemma {:induction false} RetriesShrink(w: World, retries: nat, events: nat)
    ensures var c := After(w, retries, events); c.live.Some? ==> c.live.value + events <= retries
    decreases events
  {
    if events == 0 {
      CreateProgress(w, EMPTY, retries);
    } else {
      RetriesShrink(w, retries, events - 1);
      var before := After(w, retries, events - 1);
      if before.live.Some? {
        HandleProgress(w, before, before.live.value);
      }
    }
  }

  /** Once nretries + 1 completions have come in, the promise has been set, exactly once: to nothing
      exactly when one of the first nretries + 1 attempts succeeds, and the attempts stop there. */
  lemma PromiseSetExactlyOnce(w: World, retries: nat, events: nat)
    requires retries < events
    ensures
      var c := After(w, retries, events);
      && c.live == None && |c.values| == 1 && c.attempts <= retries + 1
      && (c.values[0] == None <==> LastStatus(w, c) == Ok)
      && (c.values[0] == None <==> exists i | 0 <= i <= retries :: w.status(i) == Ok)
      && c.callbacks == (if c.values[0] == None then 1 else 0)
  {
    EveryRunIsSafe(w, retries, events);
    RetriesShrink(w, retries, events);
    var c := After(w, retries, events);
    if c.values[0] == None {
      assert w.status(c.attempts - 1) == Ok;
    }
  }

  /** How many of the first n attempts wait for a completion event. */
  ghost function Waiting(w: World, n: nat): nat {
    if n == 0 then 0 else Waiting(w, n - 1) + if w.synchronous(n - 1) then 0 else 1
  }

  lemma {:induction false} CreateWaits(w: World, c: Chain, left: nat)
    ensures var c' := Create(w, c, left);
            if c'.live.Some? then Waiting(w, c'.attempts) == Waiting(w, c.attempts) + 1
            else Waiting(w, c'.attempts) == Waiting(w, c.attempts)
    decreases left, 1
  {
    if w.synchronous(c.attempts) {
      HandleWaits(w, c.(live := Some(left), attempts := c.attempts + 1), left);
    }
  }

  lemma {:induction false} HandleWaits(w: World, c: Chain, left: nat)
    requires 0 < c.attempts
    ensures var c' := Handle(w, c, left);
            if c'.live.Some? then Waiting(w, c'.attempts) == Waiting(w, c.attempts) + 1
            else Waiting(w, c'.attempts) == Waiting(w, c.attempts)
    decreases left, 0
  {
    if LastStatus(w, c) != Ok && 0 < left {
      CreateWaits(w, c.(live := None), left - 1);
    }
  }

  /** An attempt that is handled on the spot takes no completion event and every other one takes one:
      a chain that still has a live handler has made, besides the attempt of that handler, one
      waiting attempt for each event. */
  lemma {:induction false} EventsMatchAttempts(w: World, retries: nat, events: nat)
    ensures var c := After(w, retries, events);
            if c.live.Some? then Waiting(w, c.attempts) == events + 1 else Waiting(w, c.attempts) <= events
    decreases events
  {
    if events == 0 {
      CreateWaits(w, EMPTY, retries);
    } else {
      EventsMatchAttempts(w, retries, events - 1);
      var before := After(w, retries, events - 1);
      if before.live.Some? {
        HandleWaits(w, before, before.live.value);
      }
    }
  }

  // ---------------------------------------------------------------- the objects

  /** The promise that the handlers share, and what has been done on their behalf. */
  class Shared {
    var attempts: nat
    var callbacks: nat
    var values: seq<Option<string>>
    var live: AsyncClientHandler?

    constructor ()
      ensures attempts == 0 && callbacks == 0 && values == [] && live == null
    {
      attempts, callbacks, values, live := 0, 0, [], null;
    }

    ghost function Model(): Chain
      reads this, live
    {
      Chain(if live == null then None else Some(live.nretries), attempts, callbacks, values)
    }
  }

  /** A handler.  `promise` is complete_promise_: null once it has been passed on. */
  class AsyncClientHandler {
    const nretries: nat
    var promise: Shared?
    var error: Option<string>

    constructor (promise: Shared, nretries: nat)
      ensures this.nretries == nretries && this.promise == promise && this.error == None
    {
      this.nretries := nretries;
      this.promise := promise;
      this.error := None;
    }

    /** `new AsyncClientHandler`: init_ starts the attempt and may handle it at once. */
    static method Make(w: World, promise: Shared, nretries: nat)
      requires promise.live == null
      modifies promise
      ensures promise.Model() == Create(w, old(promise.Model()), nretries)
      ensures promise.live != null ==>
                fresh(promise.live) && promise.live.promise == promise && promise.live.error == None
      decreases nretries, 1
    {
      var handler := new AsyncClientHandler(promise, nretries);
      promise.live := handler;
      var attempt := promise.attempts;
      promise.attempts := attempt + 1;
      if w.synchronous(attempt) {
        handler.HandleCompletion(w, promise);
      }
    }

    /** handle(), up to and including `delete this`. */
    method HandleCompletion(w: World, ghost shared: Shared)
      requires promise == shared && shared.live == this && 0 < shared.attempts && error == None
      modifies this, shared
      ensures shared.Model() == Handle(w, old(shared.Model()), nretries)
      ensures shared.live != null ==>
                fresh(shared.live) && shared.live.promise == shared && shared.live.error == None
      decreases nretries, 0
    {
      var own := promise;
      own.live := null;
      var status := w.status(own.attempts - 1);
      if status == Ok {
        own.callbacks := own.callbacks + 1;
      } else if nretries > 0 {
        Make(w, own, nretries - 1);
        promise := null;
      } else {
        error := Some(status.message);
      }
      Delete();
    }

    /** The base destructor: fulfil the promise if it is still held. */
    method Delete()
      modifies promise
      ensures promise != null ==> promise.values == old(promise.values) + [error]
      ensures promise != null ==> unchanged(promise`attempts, promise`callbacks, promise`live)
    {
      if promise != null {
        promise.values := promise.values + [error];
      }
    }
  }
}
