/** What holds of every conversation of a write loop: at most one execution, bounded sends, disciplined keys. */
module WriteLoopSafety {
  import opened Errors
  import opened Fates
  import opened WriteLoop
  import opened Wrappers

  // ----- every prefix of a conversation ------------------------------------------

  /** Before every exchange the client was active and sent its request; the reply moved it on. */
  lemma {:induction false} EveryStep(loop: Loop, xs: seq<Exchange>, i: nat)
    requires After(loop, xs).Some? && i < |xs|
    ensures After(loop, xs[..i]).Some? && Active(After(loop, xs[..i]).value)
    ensures xs[i].request == RequestOf(loop, After(loop, xs[..i]).value)
    ensures After(loop, xs[..i + 1]) == Some(OnReply(loop, After(loop, xs[..i]).value, xs[i].reply))
    decreases |xs|
  {
    var n := |xs| - 1;
    if i < n {
      EveryStep(loop, xs[..n], i);
      assert xs[..n][..i] == xs[..i] && xs[..n][..i + 1] == xs[..i + 1];
    } else {
      assert xs[..i + 1] == xs;
    }
  }

  // ----- how much is sent -----------------------------------------------------------

  function Proposals(xs: seq<Exchange>): nat {
    if xs == [] then 0
    else Proposals(xs[..|xs| - 1]) + if xs[|xs| - 1].request.ProposeClaim? then 1 else 0
  }

  /** Sends allowed for one request. */
  function SendsPerRequest(loop: Loop): nat {
    Max(0, loop.readRetries) + 1
  }

  function Attempts(loop: Loop): nat {
    Max(1, loop.maxAttempts)
  }

  /** The most proposals and head reads a client can have sent when it stands at c. */
  predicate WithinBudget(loop: Loop, c: Client, proposals: nat, headReads: nat) {
    var r := SendsPerRequest(loop);
    match c
    case Reading(a, t) => 1 <= t <= r && a < Attempts(loop) && proposals <= a * r && headReads <= a * r + t - 1
    case Sending(_, a, t) =>
      1 <= t <= r && 1 <= a <= Attempts(loop) && proposals <= (a - 1) * r + t - 1 && headReads <= a * r
    case _ => proposals <= Attempts(loop) * r && headReads <= Attempts(loop) * r
  }

  lemma OneMoreAttempt(a: nat, b: nat, r: nat)
    ensures (a + 1) * r == a * r + r
    ensures a <= b ==> a * r <= b * r
  {
    if a <= b {
      assert (b - a) * r >= 0;
      assert b * r == a * r + (b - a) * r;
    }
  }

  lemma StepWithinBudget(loop: Loop, c: Client, reply: Reply, proposals: nat, headReads: nat)
    requires Active(c) && WithinBudget(loop, c, proposals, headReads)
    ensures if c.Reading? then WithinBudget(loop, OnReply(loop, c, reply), proposals, headReads + 1)
            else WithinBudget(loop, OnReply(loop, c, reply), proposals + 1, headReads)
  {
    var r := SendsPerRequest(loop);
    if c.Reading? {
      OneMoreAttempt(c.attempt, Attempts(loop), r);
      OneMoreAttempt(c.attempt + 1, Attempts(loop), r);
    } else {
      OneMoreAttempt(c.attempt - 1, Attempts(loop), r);
      OneMoreAttempt(c.attempt, Attempts(loop), r);
      OneMoreAttempt(c.attempt + 1, Attempts(loop), r);
    }
  }

  lemma {:induction false} ConversationWithinBudget(loop: Loop, xs: seq<Exchange>)
    requires After(loop, xs).Some?
    ensures Proposals(xs) <= |xs| && WithinBudget(loop, After(loop, xs).value, Proposals(xs), |xs| - Proposals(xs))
    decreases |xs|
  {
    if xs != [] {
      var n := |xs| - 1;
      EveryStep(loop, xs, n);
      assert xs[..n + 1] == xs;
      ConversationWithinBudget(loop, xs[..n]);
      var before := After(loop, xs[..n]).value;
      StepWithinBudget(loop, before, xs[n].reply, Proposals(xs[..n]), n - Proposals(xs[..n]));
    }
  }

  /** Whatever the server answers, a write loop sends its claim at most
      max(1, MaxAttempts) * (max(0, ReadRetries) + 1) times, and reads the head at most as often. */
  lemma SendsAreBounded(loop: Loop, xs: seq<Exchange>)
    requires After(loop, xs).Some?
    ensures Proposals(xs) <= Attempts(loop) * SendsPerRequest(loop)
    ensures |xs| <= 2 * (Attempts(loop) * SendsPerRequest(loop))
  {
    ConversationWithinBudget(loop, xs);
    var c, r := After(loop, xs).value, SendsPerRequest(loop);
    if Active(c) {
      OneMoreAttempt(c.attempt, Attempts(loop), r);
      OneMoreAttempt(c.attempt + 1, Attempts(loop), r);
      if c.Sending? { OneMoreAttempt(c.attempt - 1, Attempts(loop), r); }
    }
  }

  // ----- at most once -----------------------------------------------------------------

  /** What was behind one exchange: the answer that was decoded, and what became of the request. */
  datatype Attempt = Attempt(answer: Answer, fate: Fate)

  /** The replies are what the answers decode to, and every proposal's answer is one its fate can produce. */
  ghost predicate Explains(why: seq<Attempt>, xs: seq<Exchange>) {
    |why| == |xs| &&
    forall i | 0 <= i < |xs| ::
      xs[i].reply == Decode(why[i].answer) &&
      (xs[i].request.ProposeClaim? ==> CanProduce(why[i].fate, why[i].answer))
  }

  predicate Executes(x: Exchange, a: Attempt) {
    x.request.ProposeClaim? && MayExecute(a.fate)
  }

  /** A bare ABORTED answers a proposal that may be executed, and the loop has an attempt left. */
  predicate Misread(loop: Loop, c: Client, a: Attempt) {
    c.Sending? && c.attempt < loop.maxAttempts && BareAborted(a.answer) && MayExecute(a.fate)
  }

  /** A proposal that may be executed ends the loop, unless its answer is misread; then the loop goes on. */
  lemma StepAfterExecution(loop: Loop, c: Client, a: Attempt)
    requires c.Sending? && MayExecute(a.fate) && CanProduce(a.fate, a.answer)
    ensures Active(OnReply(loop, c, Decode(a.answer))) <==> Misread(loop, c, a)
  {
    if !a.answer.Accepted? {
      ReplayRuleIsExact(a.answer);
    }
  }

  /** A proposal that may be executed is the last request of its conversation and ends it, for every
      conversation exactly when none of its answers is misread. */
  lemma AtMostOnce(loop: Loop, xs: seq<Exchange>, why: seq<Attempt>)
    requires After(loop, xs).Some? && Explains(why, xs)
    ensures (forall i | 0 <= i < |xs| && Executes(xs[i], why[i]) :: i == |xs| - 1 && !Active(After(loop, xs).value)) <==>
            (forall i | 0 <= i < |xs| :: After(loop, xs[..i]).Some? && !Misread(loop, After(loop, xs[..i]).value, why[i]))
  {
    hide OnReply, Decode, CanProduce, Misread;
    forall i | 0 <= i < |xs|
      ensures After(loop, xs[..i]).Some?
      ensures Misread(loop, After(loop, xs[..i]).value, why[i]) <==>
                Executes(xs[i], why[i]) && !(i == |xs| - 1 && !Active(After(loop, xs).value))
    {
      MisreadGoesOn(loop, xs, why, i);
    }
  }

  lemma MisreadGoesOn(loop: Loop, xs: seq<Exchange>, why: seq<Attempt>, i: nat)
    requires After(loop, xs).Some? && Explains(why, xs) && i < |xs|
    ensures After(loop, xs[..i]).Some?
    ensures Misread(loop, After(loop, xs[..i]).value, why[i]) <==>
              Executes(xs[i], why[i]) && !(i == |xs| - 1 && !Active(After(loop, xs).value))
  {
    EveryStep(loop, xs, i);
    var c := After(loop, xs[..i]).value;
    if i < |xs| - 1 {
      EveryStep(loop, xs, i + 1);
    } else {
      assert xs[..i + 1] == xs;
    }
    assert Active(OnReply(loop, c, xs[i].reply)) <==> !(i == |xs| - 1 && !Active(After(loop, xs).value));
    hide After, OnReply;
    if Executes(xs[i], why[i]) {
      StepAfterExecution(loop, c, why[i]);
    }
  }

  /** Nothing is answered over gRPC. */
  predicate OnRest(why: seq<Attempt>) {
    forall a | a in why :: !a.answer.RpcFailed?
  }

  /** Over REST at most one claim is appended, whatever the server and the network do; a returned sequence
      number is that of the one executed proposal. */
  lemma RestAppendsAtMostOnce(loop: Loop, xs: seq<Exchange>, why: seq<Attempt>)
    requires After(loop, xs).Some? && Explains(why, xs) && OnRest(why)
    ensures forall i, j | 0 <= i < |xs| && 0 <= j < |xs| && Executes(xs[i], why[i]) && Executes(xs[j], why[j]) :: i == j
  {
    forall i | 0 <= i < |xs| ensures After(loop, xs[..i]).Some? && !Misread(loop, After(loop, xs[..i]).value, why[i]) {
      MisreadGoesOn(loop, xs, why, i);
      assert why[i] in why;
    }
    AtMostOnce(loop, xs, why);
  }

  /** A loop that returned did so on the acceptance of its last proposal. */
  lemma ReturnedWasExecuted(loop: Loop, xs: seq<Exchange>, why: seq<Attempt>)
    requires After(loop, xs).Some? && Explains(why, xs) && After(loop, xs).value.Returned?
    ensures xs != [] && xs[|xs| - 1].request.ProposeClaim? && why[|xs| - 1].fate == Completed
    ensures why[|xs| - 1].answer == Accepted(After(loop, xs).value.seqNo)
  {
    var n := |xs| - 1;
    EveryStep(loop, xs, n);
    assert xs[..n + 1] == xs;
  }

  // ----- which environments keep a loop to one append -------------------------------------

  /** Which pairs of fate and answer a server and network can bring about. */
  type Behaviour = (Fate, Answer) -> bool

  ghost predicate Within(allowed: Behaviour, why: seq<Attempt>, xs: seq<Exchange>) {
    Explains(why, xs) && forall i | 0 <= i < |xs| && xs[i].request.ProposeClaim? :: allowed(why[i].fate, why[i].answer)
  }

  /** In every conversation at most one proposal may be executed. */
  ghost predicate AlwaysAtMostOnce(loop: Loop, allowed: Behaviour) {
    forall xs, why, i, j |
      After(loop, xs).Some? && Within(allowed, why, xs) &&
      0 <= i < |xs| && 0 <= j < |xs| && Executes(xs[i], why[i]) && Executes(xs[j], why[j]) :: i == j
  }

  /** A bare ABORTED never answers a proposal that may be executed. */
  ghost predicate BareAbortedIsSafe(allowed: Behaviour) {
    forall f, a :: allowed(f, a) && BareAborted(a) && CanProduce(f, a) ==> !MayExecute(f)
  }

  /** The head is read, a proposal is answered by a bare ABORTED, and both happen once more. */
  function Twice(loop: Loop, a: Answer): seq<Exchange> {
    var p := ClaimAt(loop, 0);
    [Exchange(GetHead, Ok(0)), Exchange(ProposeClaim(loop.firstKey, p), Decode(a)),
     Exchange(GetHead, Ok(0)), Exchange(ProposeClaim(loop.firstKey + 1, p), Decode(a))]
  }

  function TwiceWhy(f: Fate, a: Answer): seq<Attempt> {
    [Attempt(Accepted(0), Completed), Attempt(a, f), Attempt(Accepted(0), Completed), Attempt(a, f)]
  }

  lemma ExtendsTo(loop: Loop, xs: seq<Exchange>, c: Client, x: Exchange, ys: seq<Exchange>)
    requires After(loop, xs) == Some(c) && Active(c) && x.request == RequestOf(loop, c) && ys == xs + [x]
    ensures After(loop, ys) == Some(OnReply(loop, c, x.reply))
  {
    AfterOneMore(loop, xs, x);
  }

  /** With a second attempt left, two proposals answered by bare ABORTEDs may both be executed. */
  lemma BareAbortedExecutesTwice(loop: Loop, f: Fate, a: Answer)
    requires loop.maxAttempts >= 2 && BareAborted(a) && MayExecute(f) && CanProduce(f, a)
    ensures var xs, why := Twice(loop, a), TwiceWhy(f, a);
            After(loop, xs).Some? && Explains(why, xs) && Executes(xs[1], why[1]) && Executes(xs[3], why[3])
  {
    BareAbortedIsMisread(a);
    hide Decode, After;
    var xs := Twice(loop, a);
    StartsReading(loop);
    ExtendsTo(loop, [], Reading(0, 1), xs[0], xs[..1]);
    ExtendsTo(loop, xs[..1], Sending(0, 1, 1), xs[1], xs[..2]);
    ExtendsTo(loop, xs[..2], Reading(1, 1), xs[2], xs[..3]);
    ExtendsTo(loop, xs[..3], Sending(0, 2, 1), xs[3], xs);
    assert Decode(Accepted(0)) == Ok(0) by { AcceptedDecodes(0); }
  }

  lemma StartsReading(loop: Loop)
    ensures After(loop, []) == Some(Reading(0, 1))
  {
  }

  lemma AcceptedDecodes(n: nat)
    ensures Decode(Accepted(n)) == Ok(n)
  {
  }

  /** A loop with a second attempt is kept to one append exactly by the environments in which a bare
      ABORTED never answers a proposal that may be executed. */
  lemma AtMostOnceExactly(loop: Loop, allowed: Behaviour)
    ensures AlwaysAtMostOnce(loop, allowed) <==> loop.maxAttempts <= 1 || BareAbortedIsSafe(allowed)
  {
    if loop.maxAttempts > 1 && !BareAbortedIsSafe(allowed) {
      var f, a :| allowed(f, a) && BareAborted(a) && CanProduce(f, a) && MayExecute(f);
      BareAbortedExecutesTwice(loop, f, a);
      assert Within(allowed, TwiceWhy(f, a), Twice(loop, a));
      assert !AlwaysAtMostOnce(loop, allowed);
    }
    if loop.maxAttempts <= 1 || BareAbortedIsSafe(allowed) {
      forall xs, why, i, j |
        After(loop, xs).Some? && Within(allowed, why, xs) &&
        0 <= i < |xs| && 0 <= j < |xs| && Executes(xs[i], why[i]) && Executes(xs[j], why[j])
        ensures i == j
      {
        NothingMisread(loop, allowed, xs, why);
        AtMostOnce(loop, xs, why);
      }
    }
  }

  lemma NothingMisread(loop: Loop, allowed: Behaviour, xs: seq<Exchange>, why: seq<Attempt>)
    requires loop.maxAttempts <= 1 || BareAbortedIsSafe(allowed)
    requires After(loop, xs).Some? && Within(allowed, why, xs)
    ensures forall i | 0 <= i < |xs| :: After(loop, xs[..i]).Some? && !Misread(loop, After(loop, xs[..i]).value, why[i])
  {
    forall i | 0 <= i < |xs| ensures After(loop, xs[..i]).Some? && !Misread(loop, After(loop, xs[..i]).value, why[i]) {
      EveryStep(loop, xs, i);
      ConversationWithinBudget(loop, xs[..i]);
      hide After, CanProduce, BareAborted;
    }
  }

  // ----- keys and claims ----------------------------------------------------------------

  /** What has been sent by a client at c: proposals of earlier attempts carry smaller keys, and those
      of the current attempt are all the same request. */
  ghost predicate KeysSpent(loop: Loop, c: Client, xs: seq<Exchange>) {
    match c
    case Reading(a, _) => forall x | x in xs && x.request.ProposeClaim? :: x.request.key < loop.firstKey + a
    case Sending(_, a, _) =>
      a > 0 && forall x | x in xs && x.request.ProposeClaim? ::
        x.request.key < loop.firstKey + a - 1 || x.request == RequestOf(loop, c)
    case _ => true
  }

  ghost predicate OneRequestPerKey(xs: seq<Exchange>) {
    forall i, j | 0 <= i < j < |xs| ::
      xs[i].request.ProposeClaim? && xs[j].request.ProposeClaim? && xs[i].request.key == xs[j].request.key ==>
        xs[i].request == xs[j].request
  }

  lemma KeysSpentOneMore(loop: Loop, c: Client, xs: seq<Exchange>, x: Exchange)
    requires Active(c) && KeysSpent(loop, c, xs) && x.request == RequestOf(loop, c)
    ensures KeysSpent(loop, OnReply(loop, c, x.reply), xs + [x])
  {
    hide Retryable;
    assert forall y :: y in xs + [x] <==> y in xs || y == x;
  }

  /** A request whose key was used before is the request it was used for. */
  lemma KeyRepeats(loop: Loop, c: Client, xs: seq<Exchange>, y: Exchange)
    requires Active(c) && KeysSpent(loop, c, xs) && y in xs
    requires y.request.ProposeClaim? && RequestOf(loop, c).ProposeClaim? && y.request.key == RequestOf(loop, c).key
    ensures y.request == RequestOf(loop, c)
  {
  }

  lemma OneRequestPerKeyOneMore(xs: seq<Exchange>, x: Exchange)
    requires OneRequestPerKey(xs)
    requires forall y | y in xs && y.request.ProposeClaim? && x.request.ProposeClaim? && y.request.key == x.request.key ::
               y.request == x.request
    ensures OneRequestPerKey(xs + [x])
  {
  }

  lemma {:induction false} KeysAreDisciplined(loop: Loop, xs: seq<Exchange>)
    requires After(loop, xs).Some?
    ensures KeysSpent(loop, After(loop, xs).value, xs) && OneRequestPerKey(xs)
    decreases |xs|
  {
    if xs != [] {
      var n := |xs| - 1;
      EveryStep(loop, xs, n);
      hide After, KeysSpent, OneRequestPerKey, OnReply, RequestOf;
      assert xs[..n + 1] == xs && xs == xs[..n] + [xs[n]];
      KeysAreDisciplined(loop, xs[..n]);
      var before := After(loop, xs[..n]).value;
      KeysSpentOneMore(loop, before, xs[..n], xs[n]);
      forall y | y in xs[..n] && y.request.ProposeClaim? && xs[n].request.ProposeClaim? && y.request.key == xs[n].request.key
        ensures y.request == xs[n].request
      {
        KeyRepeats(loop, before, xs[..n], y);
      }
      OneRequestPerKeyOneMore(xs[..n], xs[n]);
    }
  }

  /** An idempotency key is re-used only to re-send the identical request, straight after an answer that
      proves it unexecuted: a connection never made, as only REST can tell, or the server's overloaded. */
  lemma ResendsOnlyWhenSafe(loop: Loop, xs: seq<Exchange>, why: seq<Attempt>, i: nat)
    requires After(loop, xs).Some? && Explains(why, xs) && i + 1 < |xs|
    requires xs[i].request.ProposeClaim? && xs[i + 1].request.ProposeClaim?
    requires xs[i].request.key == xs[i + 1].request.key
    ensures xs[i + 1].request == xs[i].request
    ensures why[i].fate == NeverSent || why[i].fate == Shed
    ensures Undelivered(why[i].answer) || Slug(why[i].answer) == Some("overloaded")
    ensures why[i].answer.RpcFailed? ==> why[i].fate == Shed && Decode(why[i].answer) == Err(Overloaded)
  {
    SameKeyIsResend(loop, xs, i);
    CommandRetryIsProof(why[i].answer);
  }

  lemma SameKeyIsResend(loop: Loop, xs: seq<Exchange>, i: nat)
    requires After(loop, xs).Some? && i + 1 < |xs|
    requires xs[i].request.ProposeClaim? && xs[i + 1].request.ProposeClaim?
    requires xs[i].request.key == xs[i + 1].request.key
    ensures xs[i + 1].request == xs[i].request
    ensures xs[i].reply.Err? && Retryable(Command, xs[i].reply.error)
  {
    KeysAreDisciplined(loop, xs);
    EveryStep(loop, xs, i);
    EveryStep(loop, xs, i + 1);
    KeysAreDisciplined(loop, xs[..i]);
    KeysAreDisciplined(loop, xs[..i + 1]);
  }

  /** Every proposal is the caller's claim for the very head it is conditional on. */
  lemma ProposalsAreBuiltForTheirHead(loop: Loop, xs: seq<Exchange>, i: nat)
    requires After(loop, xs).Some? && i < |xs| && xs[i].request.ProposeClaim?
    ensures xs[i].request.claim.expectedHead.Some?
    ensures xs[i].request.claim == ClaimAt(loop, xs[i].request.claim.expectedHead.value)
  {
    EveryStep(loop, xs, i);
  }

  // ----- where the loop goes on -------------------------------------------------------------

  /** After the server's own conflict at an actual head n > 0, with an attempt left, the next request proposes
      the caller's claim for head n, conditional on n, under the next fresh key. */
  lemma ConflictGoesOnAtActual(loop: Loop, c: Client, a: Answer, n: nat)
    requires c.Sending? && c.attempt > 0 && c.attempt < loop.maxAttempts && TellsHead(a, n) && n > 0
    ensures var d := OnReply(loop, c, Decode(a));
            Active(d) &&
            RequestOf(loop, d) ==
            ProposeClaim(RequestOf(loop, c).key + 1, loop.build(n).(expectedHead := Some(n)))
  {
    ConflictCarriesHead(a, n);
    hide Decode, TellsHead;
  }

  /** In any conversation: the request after such a conflict is that proposal. */
  lemma NextAfterConflict(loop: Loop, xs: seq<Exchange>, why: seq<Attempt>, i: nat, n: nat)
    requires After(loop, xs).Some? && Explains(why, xs) && i + 1 < |xs|
    requires xs[i].request.ProposeClaim? && TellsHead(why[i].answer, n) && n > 0
    ensures xs[i + 1].request == ProposeClaim(xs[i].request.key + 1, loop.build(n).(expectedHead := Some(n)))
  {
    EveryStep(loop, xs, i);
    EveryStep(loop, xs, i + 1);
    ConversationWithinBudget(loop, xs[..i]);
    ConflictCarriesHead(why[i].answer, n);
    var c := After(loop, xs[..i]).value;
    if c.attempt < loop.maxAttempts {
      ConflictGoesOnAtActual(loop, c, why[i].answer, n);
    }
    hide After, TellsHead, Decode, CanProduce, ClaimAt;
  }

  /** A conflict without a head makes the loop read it, and a head that was read is the one proposed on. */
  lemma HeadIsReadAndUsed(loop: Loop, c: Client, expected: nat, h: nat)
    ensures c.Sending? && c.attempt < loop.maxAttempts ==>
              var d := OnReply(loop, c, Err(HeadConflict(expected, 0))); Active(d) && RequestOf(loop, d) == GetHead
    ensures c.Reading? ==>
              var d := OnReply(loop, c, Ok(h));
              Active(d) && RequestOf(loop, d).ProposeClaim? &&
              RequestOf(loop, d).claim == loop.build(h).(expectedHead := Some(h))
  {
  }

  // ----- every retry and every attempt is used --------------------------------------------------

  function Overloads(n: nat): seq<Exchange> {
    seq(n, _ => Exchange(GetHead, Err(Overloaded)))
  }

  /** Against a server that is always overloaded, the first read is sent max(0, ReadRetries) + 1 times,
      and only then does the loop give up. */
  lemma RetriesAreUsed(loop: Loop, n: nat)
    ensures n <= Max(0, loop.readRetries) ==> After(loop, Overloads(n)) == Some(Reading(0, n + 1))
    ensures n == Max(0, loop.readRetries) + 1 ==> After(loop, Overloads(n)) == Some(Threw(Overloaded))
  {
    StartsReading(loop);
    if n <= Max(0, loop.readRetries) {
      RetriedAfter(loop, [], Start(), Overloads(n));
      assert [] + Overloads(n) == Overloads(n);
    }
    if n == Max(0, loop.readRetries) + 1 {
      RetriedAfter(loop, [], Start(), Overloads(n - 1));
      assert [] + Overloads(n - 1) == Overloads(n - 1);
      assert Overloads(n) == Overloads(n - 1) + [Exchange(GetHead, Err(Overloaded))];
      AfterOneMore(loop, Overloads(n - 1), Exchange(GetHead, Err(Overloaded)));
    }
  }

  function HeadAt(k: nat): nat {
    if k == 0 then 0 else 1
  }

  /** Head 0 is read, and then k proposals meet a conflict at head 1. */
  function Conflicts(loop: Loop, k: nat): seq<Exchange> {
    if k == 0 then [Exchange(GetHead, Ok(0))]
    else Conflicts(loop, k - 1) +
         [Exchange(ProposeClaim(loop.firstKey + k - 1, ClaimAt(loop, HeadAt(k - 1))), Err(HeadConflict(0, 1)))]
  }

  lemma ConflictStep(loop: Loop, k: nat)
    requires 0 < k <= Max(1, loop.maxAttempts)
    ensures var c := Sending(HeadAt(k - 1), k, 1);
            RequestOf(loop, c) == ProposeClaim(loop.firstKey + k - 1, ClaimAt(loop, HeadAt(k - 1))) &&
            OnReply(loop, c, Err(HeadConflict(0, 1))) ==
            if k < Max(1, loop.maxAttempts) then Sending(HeadAt(k), k + 1, 1) else Threw(HeadConflict(0, 1))
  {
  }

  /** Against a server that always answers with a conflict, max(1, MaxAttempts) proposals are sent, and only
      then does the loop give up. */
  lemma {:induction false} AttemptsAreUsed(loop: Loop, k: nat)
    requires k <= Max(1, loop.maxAttempts)
    ensures After(loop, Conflicts(loop, k)) ==
            Some(if k < Max(1, loop.maxAttempts) then Sending(HeadAt(k), k + 1, 1) else Threw(HeadConflict(0, 1)))
  {
    if k == 0 {
      StartsReading(loop);
      hide After;
      ExtendsTo(loop, [], Reading(0, 1), Exchange(GetHead, Ok(0)), Conflicts(loop, 0));
    } else {
      AttemptsAreUsed(loop, k - 1);
      ConflictStep(loop, k);
      hide After, ClaimAt, OnReply, RequestOf, HeadAt;
      var x := Exchange(ProposeClaim(loop.firstKey + k - 1, ClaimAt(loop, HeadAt(k - 1))), Err(HeadConflict(0, 1)));
      ExtendsTo(loop, Conflicts(loop, k - 1), Sending(HeadAt(k - 1), k, 1), x, Conflicts(loop, k));
    }
  }
}
