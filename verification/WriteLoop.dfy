/** The retry engine and the head-conflict write loop, as code over a wire and as one client automaton. */
module WriteLoop {
  import opened Errors
  import opened Wrappers

  /** A claim as built by the caller; the loop sets the head it is conditional on. */
  datatype Claim = Claim(body: string, expectedHead: Option<nat>)

  datatype Request = GetHead | ProposeClaim(key: nat, claim: Claim)

  /** A head or the sequence number of an accepted claim; otherwise the typed error. */
  type Reply = Result<nat, MunariumException>

  datatype Exchange = Exchange(request: Request, reply: Reply)

  /** What the network and the server answer: anything, depending on all that happened before. */
  type Environment = (seq<Exchange>, Request) -> Reply

  /** One caller's loop: its limits, its claim builder and its first idempotency key. */
  datatype Loop = Loop(maxAttempts: int, readRetries: int, build: nat -> Claim, firstKey: nat)

  function Max(a: int, b: int): int {
    if a < b then b else a
  }

  // ----- the automaton -----------------------------------------------------------

  /** Where a write loop stands; tries counts the sends of the current request. */
  datatype Client =
    | Reading(attempt: nat, tries: nat)
    | Sending(head: nat, attempt: nat, tries: nat)
    | Returned(seqNo: nat)
    | Threw(error: MunariumException)

  predicate Active(c: Client) {
    c.Reading? || c.Sending?
  }

  function Start(): Client {
    Reading(0, 1)
  }

  /** build(head) with { ExpectedHead = head } */
  function ClaimAt(loop: Loop, head: nat): Claim {
    loop.build(head).(expectedHead := Some(head))
  }

  /** The request an active client sends; the key is fresh for each attempt. */
  function RequestOf(loop: Loop, c: Client): Request
    requires Active(c)
  {
    match c
    case Reading(_, _) => GetHead
    case Sending(head, attempt, _) =>
      ProposeClaim(loop.firstKey + if attempt == 0 then 0 else attempt - 1, ClaimAt(loop, head))
  }

  function OnReply(loop: Loop, c: Client, reply: Reply): Client
    requires Active(c)
  {
    match c
    case Reading(attempt, tries) =>
      if reply.Ok? then Sending(reply.value, attempt + 1, 1)
      else if tries <= loop.readRetries && Retryable(Read, reply.error) then Reading(attempt, tries + 1)
      else Threw(reply.error)
    case Sending(head, attempt, tries) =>
      if reply.Ok? then Returned(reply.value)
      else if tries <= loop.readRetries && Retryable(Command, reply.error) then Sending(head, attempt, tries + 1)
      else if reply.error.HeadConflict? && attempt < loop.maxAttempts then
        if reply.error.actual > 0 then Sending(reply.error.actual, attempt + 1, 1) else Reading(attempt, 1)
      else Threw(reply.error)
  }

  /** The client after a conversation in which it sent what the automaton sends; None otherwise. */
  function After(loop: Loop, xs: seq<Exchange>): Option<Client> {
    if xs == [] then Some(Start())
    else
      var last := xs[|xs| - 1];
      var before := After(loop, xs[..|xs| - 1]);
      if before.Some? && Active(before.value) && last.request == RequestOf(loop, before.value)
      then Some(OnReply(loop, before.value, last.reply)) else None
  }

  lemma AfterOneMore(loop: Loop, xs: seq<Exchange>, x: Exchange)
    ensures After(loop, xs + [x]) ==
            var before := After(loop, xs);
            if before.Some? && Active(before.value) && x.request == RequestOf(loop, before.value)
            then Some(OnReply(loop, before.value, x.reply)) else None
  {
    assert (xs + [x])[..|xs|] == xs;
  }

  // ----- one request on the wire -----------------------------------------------------

  /** A request sent over and over: every answer was a retryable failure with tries left. */
  ghost predicate Retried(retryClass: RetryClass, retries: int, request: Request, xs: seq<Exchange>) {
    forall i | 0 <= i < |xs| ::
      xs[i].request == request && xs[i].reply.Err? && i + 1 <= retries && Retryable(retryClass, xs[i].reply.error)
  }

  /** One run of the retry engine: retried until the answer is a success, not retryable, or one too many. */
  ghost predicate Ran(retryClass: RetryClass, retries: int, request: Request, xs: seq<Exchange>, last: Reply) {
    xs != [] && xs[|xs| - 1] == Exchange(request, last) &&
    Retried(retryClass, retries, request, xs[..|xs| - 1]) &&
    !(last.Err? && |xs| <= retries && Retryable(retryClass, last.error))
  }

  function ClassOf(c: Client): RetryClass {
    if c.Reading? then Read else Command
  }

  function WithTries(c: Client, tries: nat): Client
    requires Active(c)
  {
    c.(tries := tries)
  }

  lemma RetryCounts(loop: Loop, c: Client, tries: nat, reply: Reply)
    requires Active(c) && reply.Err? && tries <= loop.readRetries && Retryable(ClassOf(c), reply.error)
    ensures OnReply(loop, WithTries(c, tries), reply) == WithTries(c, tries + 1)
    ensures RequestOf(loop, WithTries(c, tries)) == RequestOf(loop, c)
  {
  }

  /** While the engine retries, the automaton counts tries. */
  lemma {:induction false} RetriedAfter(loop: Loop, xs: seq<Exchange>, c: Client, ys: seq<Exchange>)
    requires Active(c) && c.tries == 1 && After(loop, xs) == Some(c)
    requires Retried(ClassOf(c), loop.readRetries, RequestOf(loop, c), ys)
    ensures After(loop, xs + ys) == Some(WithTries(c, 1 + |ys|))
  {
    hide After, OnReply, RequestOf, Retryable;
    if ys == [] {
      assert xs + ys == xs;
    } else {
      var n := |ys| - 1;
      RetriedAfter(loop, xs, c, ys[..n]);
      assert xs + ys == xs + ys[..n] + [ys[n]];
      AfterOneMore(loop, xs + ys[..n], ys[n]);
      RetryCounts(loop, c, 1 + n, ys[n].reply);
    }
  }

  /** A run of the engine takes the automaton to its answer to the last reply. */
  lemma RanAfter(loop: Loop, xs: seq<Exchange>, c: Client, ys: seq<Exchange>, last: Reply)
    requires Active(c) && c.tries == 1 && After(loop, xs) == Some(c)
    requires Ran(ClassOf(c), loop.readRetries, RequestOf(loop, c), ys, last)
    ensures After(loop, xs + ys) == Some(OnReply(loop, WithTries(c, |ys|), last))
  {
    hide After, OnReply, Retryable, Retried;
    var n := |ys| - 1;
    RetriedAfter(loop, xs, c, ys[..n]);
    assert xs + ys == xs + ys[..n] + [ys[n]];
    AfterOneMore(loop, xs + ys[..n], ys[n]);
  }

  // ----- the code -------------------------------------------------------------------

  /** The connection: a log of what was sent and answered, and the supply of fresh keys. */
  class Wire {
    const env: Environment
    var log: seq<Exchange>
    var issued: nat

    /** Every logged reply is the one the environment gave at that point. */
    ghost predicate Valid()
      reads this
    {
      forall i | 0 <= i < |log| :: log[i].reply == env(log[..i], log[i].request)
    }

    constructor (env: Environment)
      ensures Valid() && this.env == env && log == [] && issued == 0
    {
      this.env := env;
      log, issued := [], 0;
    }

    method Send(request: Request) returns (reply: Reply)
      requires Valid()
      modifies this`log
      ensures Valid() && log == old(log) + [Exchange(request, reply)]
    {
      reply := env(log, request);
      ghost var before := log;
      log := log + [Exchange(request, reply)];
      assert forall i | 0 <= i <= |before| :: log[..i] == before[..i];
      assert before[..|before|] == before;
    }

    /** Guid.NewGuid() */
    method NewKey() returns (key: nat)
      modifies this`issued
      ensures key == old(issued) && issued == old(issued) + 1
    {
      key := issued;
      issued := issued + 1;
    }
  }

  /** The one retry engine both transports share. */
  method RunAsync(wire: Wire, retryClass: RetryClass, retries: int, request: Request)
    returns (reply: Reply, ghost xs: seq<Exchange>)
    requires wire.Valid()
    modifies wire`log
    ensures wire.Valid() && wire.log == old(wire.log) + xs
    ensures Ran(retryClass, retries, request, xs, reply)
  {
    var tries := 0;
    xs := [];
    while true
      invariant wire.Valid() && wire.log == old(wire.log) + xs && tries == |xs|
      invariant Retried(retryClass, retries, request, xs)
      decreases retries - tries
    {
      tries := tries + 1;
      reply := wire.Send(request);
      ghost var before := xs;
      xs := xs + [Exchange(request, reply)];
      assert xs[..|xs| - 1] == before;
      if !(reply.Err? && tries <= retries && Retryable(retryClass, reply.error)) {
        return;
      }
    }
  }

  /** HeadAsync: a read. Base is the log before the loop, done the loop's conversation so far. */
  method Head(wire: Wire, loop: Loop, ghost base: seq<Exchange>, ghost done: seq<Exchange>, ghost attempt: nat)
    returns (reply: Reply, ghost now: seq<Exchange>)
    requires wire.Valid() && wire.log == base + done
    requires After(loop, done) == Some(Reading(attempt, 1))
    modifies wire`log
    ensures wire.Valid() && wire.log == base + now
    ensures After(loop, now) == Some(if reply.Ok? then Sending(reply.value, attempt + 1, 1) else Threw(reply.error))
  {
    ghost var xs;
    reply, xs := RunAsync(wire, Read, loop.readRetries, GetHead);
    RanAfter(loop, done, Reading(attempt, 1), xs, reply);
    now := done + xs;
    assert base + done + xs == base + now;
  }

  function Final(r: Reply): Client {
    if r.Ok? then Returned(r.value) else Threw(r.error)
  }

  /** The client after the outcome of one attempt's proposal. */
  function AfterAttempt(loop: Loop, attempt: nat, r: Reply): Client {
    if r.Err? && r.error.HeadConflict? && attempt < loop.maxAttempts
    then if r.error.actual > 0 then Sending(r.error.actual, attempt + 1, 1) else Reading(attempt, 1)
    else Final(r)
  }

  /** ProposeClaimAsync without a caller's key: one fresh key, re-used by every re-send. */
  method Propose(wire: Wire, loop: Loop, claim: Claim, ghost base: seq<Exchange>, ghost done: seq<Exchange>,
                 ghost head: nat, ghost attempt: nat)
    returns (reply: Reply, ghost now: seq<Exchange>)
    requires wire.Valid() && wire.log == base + done && claim == ClaimAt(loop, head)
    requires attempt > 0 && wire.issued == loop.firstKey + attempt - 1
    requires After(loop, done) == Some(Sending(head, attempt, 1))
    modifies wire
    ensures wire.Valid() && wire.log == base + now && wire.issued == old(wire.issued) + 1
    ensures After(loop, now) == Some(AfterAttempt(loop, attempt, reply))
  {
    hide After, Ran, Retryable;
    ghost var xs;
    var key := wire.NewKey();
    reply, xs := RunAsync(wire, Command, loop.readRetries, ProposeClaim(key, claim));
    RanAfter(loop, done, Sending(head, attempt, 1), xs, reply);
    now := done + xs;
    assert base + done + xs == base + now;
  }

  /** The head-conflict write loop: its conversation is exactly the automaton's, to the end. */
  method ProposeClaimWithRetry(wire: Wire, loop: Loop) returns (r: Reply, ghost xs: seq<Exchange>)
    requires wire.Valid() && wire.issued == loop.firstKey
    modifies wire
    ensures wire.Valid() && wire.log == old(wire.log) + xs
    ensures After(loop, xs) == Some(Final(r))
  {
    ghost var base := wire.log;
    r, xs := Head(wire, loop, base, [], 0);
    if r.Err? { return; }
    var head := r.value;
    var attempt := 0;
    while true
      invariant wire.Valid() && wire.log == base + xs
      invariant After(loop, xs) == Some(Sending(head, attempt + 1, 1))
      invariant attempt >= 0 && wire.issued == loop.firstKey + attempt
      decreases loop.maxAttempts - attempt
    {
      attempt := attempt + 1;
      var claim := loop.build(head).(expectedHead := Some(head));
      r, xs := Propose(wire, loop, claim, base, xs, head, attempt);
      if !(r.Err? && r.error.HeadConflict? && attempt < loop.maxAttempts) {
        return;
      }
      if r.error.actual > 0 {
        head := r.error.actual;
      } else {
        r, xs := Head(wire, loop, base, xs, attempt);
        if r.Err? { return; }
        head := r.value;
      }
    }
  }
}
