/** Any number of write loops, and other writers, on one lineage: no lost update, at most one append per loop. */
module Lineage {
  import opened Errors
  import opened Fates
  import opened WriteLoop
  import opened WriteLoopSafety
  import opened Wrappers

  /** A request on its way to the server: the nth send of a loop. */
  datatype Message = Message(id: nat, nth: nat, claim: Claim)

  /** An appended claim; its sequence number is its position plus one. */
  datatype Entry = ByLoop(id: nat, nth: nat, claim: Claim) | ByOther(body: string)

  /** A running write loop: its automaton, and whether it is waiting for an answer. */
  datatype Call = Call(loop: Loop, client: Client, waiting: bool, sends: nat)

  datatype State = State(calls: map<nat, Call>, inflight: set<Message>, ledger: seq<Entry>)

  datatype Step =
    | Begin(id: nat, loop: Loop)
    | SendRead(id: nat)
    | ReadAnswered(id: nat, reply: Reply)          // any head, however stale, or any error
    | SendClaim(id: nat)
    | Execute(m: Message)                          // the server appends under its head check
    | Lose(m: Message)                             // a request that never executes
    | AppendOther(body: string)                    // a writer outside the loops
    | Answered(id: nat, fate: Fate, answer: Answer) // what became of the proposal, and what the client hears

  predicate WaitingToSend(s: State, id: nat) {
    id in s.calls && s.calls[id].client.Sending? && s.calls[id].waiting
  }

  /** The message a waiting loop sent last. */
  function LastMessage(s: State, id: nat): Message
    requires WaitingToSend(s, id)
  {
    var c := s.calls[id];
    Message(id, if c.sends == 0 then 0 else c.sends - 1, ClaimAt(c.loop, c.client.head))
  }

  function EntryOf(m: Message): Entry {
    ByLoop(m.id, m.nth, m.claim)
  }

  /** The fate is what the state says of the message; a request under way may be on its way, or gone. */
  predicate FateHolds(s: State, m: Message, fate: Fate, answer: Answer) {
    match fate
    case Completed =>
      answer.Accepted? && 0 < answer.seqNo <= |s.ledger| && s.ledger[answer.seqNo - 1] == EntryOf(m)
    case ReplyLost => EntryOf(m) in s.ledger
    case UnderWay => true
    case _ => m in s.inflight
  }

  predicate Enabled(s: State, step: Step) {
    match step
    case Begin(id, _) => id !in s.calls
    case SendRead(id) => id in s.calls && s.calls[id].client.Reading? && !s.calls[id].waiting
    case ReadAnswered(id, _) => id in s.calls && s.calls[id].client.Reading? && s.calls[id].waiting
    case SendClaim(id) => id in s.calls && s.calls[id].client.Sending? && !s.calls[id].waiting
    case Execute(m) => m in s.inflight && m.claim.expectedHead == Some(|s.ledger|)
    case Lose(m) => m in s.inflight
    case AppendOther(_) => true
    case Answered(id, fate, answer) =>
      WaitingToSend(s, id) && CanProduce(fate, answer) && FateHolds(s, LastMessage(s, id), fate, answer)
  }

  function Hears(s: State, id: nat, reply: Reply): map<nat, Call>
    requires id in s.calls && Active(s.calls[id].client)
  {
    var c := s.calls[id];
    s.calls[id := c.(client := OnReply(c.loop, c.client, reply), waiting := false)]
  }

  function Apply(s: State, step: Step): State
    requires Enabled(s, step)
  {
    match step
    case Begin(id, loop) => s.(calls := s.calls[id := Call(loop, Start(), false, 0)])
    case SendRead(id) => s.(calls := s.calls[id := s.calls[id].(waiting := true)])
    case ReadAnswered(id, reply) => s.(calls := Hears(s, id, reply))
    case SendClaim(id) =>
      var c := s.calls[id];
      s.(calls := s.calls[id := c.(waiting := true, sends := c.sends + 1)],
         inflight := s.inflight + {Message(id, c.sends, ClaimAt(c.loop, c.client.head))})
    case Execute(m) => s.(inflight := s.inflight - {m}, ledger := s.ledger + [EntryOf(m)])
    case Lose(m) => s.(inflight := s.inflight - {m})
    case AppendOther(body) => s.(ledger := s.ledger + [ByOther(body)])
    case Answered(id, fate, answer) =>
      s.(calls := Hears(s, id, Decode(answer)),
         inflight := if MayExecute(fate) then s.inflight else s.inflight - {LastMessage(s, id)})
  }

  // ----- runs ------------------------------------------------------------------------

  /** The state after a run from an empty lineage; None when a step was not enabled. */
  function Run(steps: seq<Step>): Option<State> {
    if steps == [] then Some(State(map[], {}, []))
    else
      var before := Run(steps[..|steps| - 1]);
      var step := steps[|steps| - 1];
      if before.Some? && Enabled(before.value, step) then Some(Apply(before.value, step)) else None
  }

  // ----- what every step keeps -----------------------------------------------------------

  predicate BuiltFor(c: Call, claim: Claim) {
    claim.expectedHead.Some? && claim == ClaimAt(c.loop, claim.expectedHead.value)
  }

  predicate MessageOk(s: State, m: Message) {
    m.id in s.calls && m.nth < s.calls[m.id].sends && BuiltFor(s.calls[m.id], m.claim)
  }

  predicate EntryOk(s: State, i: nat)
    requires i < |s.ledger|
  {
    var e := s.ledger[i];
    e.ByLoop? ==>
      e.id in s.calls && e.nth < s.calls[e.id].sends && BuiltFor(s.calls[e.id], e.claim) &&
      e.claim.expectedHead == Some(i)
  }

  predicate CallOk(c: Call) {
    WithinBudget(c.loop, c.client, if c.client.Sending? && c.waiting then Max(0, c.sends - 1) else c.sends, 0) &&
    (c.client.Sending? && c.waiting ==> c.sends > 0)
  }

  predicate ReturnedOk(s: State, id: nat)
    requires id in s.calls
  {
    var c := s.calls[id];
    c.client.Returned? ==>
      0 < c.client.seqNo <= |s.ledger| &&
      s.ledger[c.client.seqNo - 1].ByLoop? && s.ledger[c.client.seqNo - 1].id == id
  }

  predicate Inv(s: State) {
    (forall m | m in s.inflight :: MessageOk(s, m)) &&
    (forall i | 0 <= i < |s.ledger| :: EntryOk(s, i)) &&
    (forall id | id in s.calls :: CallOk(s.calls[id]) && ReturnedOk(s, id))
  }

  lemma CallStaysOk(c: Call, reply: Reply)
    requires CallOk(c) && Active(c.client) && c.waiting
    ensures CallOk(c.(client := OnReply(c.loop, c.client, reply), waiting := false))
  {
    StepWithinBudget(c.loop, c.client, reply, if c.client.Sending? then c.sends - 1 else c.sends, 0);
    var d := OnReply(c.loop, c.client, reply);
    var r := SendsPerRequest(c.loop);
    if d.Reading? { OneMoreAttempt(0, d.attempt, r); }
    if d.Sending? { OneMoreAttempt(0, d.attempt, r); }
  }

  /** A loop returns only on an acceptance, with the number it carries. */
  lemma ReturnsOnAcceptance(loop: Loop, c: Client, answer: Answer)
    requires Active(c)
    ensures c.Sending? ==>
              (OnReply(loop, c, Decode(answer)).Returned? <==> answer.Accepted?) &&
              (answer.Accepted? ==> OnReply(loop, c, Decode(answer)) == Returned(answer.seqNo))
    ensures c.Reading? ==> forall reply :: !OnReply(loop, c, reply).Returned?
  {
  }

  /** Calls, messages and entries never disappear, except messages; loops and entries never change. */
  ghost predicate Extends(s: State, t: State) {
    s.ledger <= t.ledger &&
    forall id | id in s.calls ::
      id in t.calls && t.calls[id].loop == s.calls[id].loop && s.calls[id].sends <= t.calls[id].sends
  }

  lemma StepExtends(s: State, step: Step)
    requires Enabled(s, step)
    ensures Extends(s, Apply(s, step))
  {
    hide OnReply, Decode, CanProduce, FateHolds, ClaimAt;
  }

  lemma MessageStaysOk(s: State, t: State, m: Message)
    requires Extends(s, t) && MessageOk(s, m)
    ensures MessageOk(t, m)
  {
  }

  lemma StepKeepsMessages(s: State, step: Step)
    requires Inv(s) && Enabled(s, step)
    ensures forall m | m in Apply(s, step).inflight :: MessageOk(Apply(s, step), m)
    ensures forall i | 0 <= i < |Apply(s, step).ledger| :: EntryOk(Apply(s, step), i)
  {
    var t := Apply(s, step);
    StepExtends(s, step);
    hide OnReply, Decode, CanProduce, FateHolds, CallOk, ReturnedOk;
    forall m | m in t.inflight ensures MessageOk(t, m) {
      if m in s.inflight { MessageStaysOk(s, t, m); }
    }
    forall i | 0 <= i < |t.ledger| ensures EntryOk(t, i) {
      if i < |s.ledger| { assert EntryOk(s, i); }
      if step.Execute? { assert MessageOk(s, step.m); }
    }
  }

  lemma StepKeepsCall(s: State, step: Step, id: nat)
    requires Inv(s) && Enabled(s, step) && id in s.calls
    ensures id in Apply(s, step).calls && CallOk(Apply(s, step).calls[id]) && ReturnedOk(Apply(s, step), id)
  {
    assert CallOk(s.calls[id]) && ReturnedOk(s, id);
    var c := s.calls[id];
    if step.ReadAnswered? && step.id == id {
      CallStaysOk(c, step.reply);
      ReturnsOnAcceptance(c.loop, c.client, Answer.Accepted(0));
    }
    if step.Answered? && step.id == id {
      CallStaysOk(c, Decode(step.answer));
      ReturnsOnAcceptance(c.loop, c.client, step.answer);
      assert step.answer.Accepted? ==> step.fate == Completed;
    }
    StepExtends(s, step);
    hide OnReply, Decode, CanProduce, WithinBudget;
  }

  /** Every step keeps the invariant, extends the ledger, and never changes a running loop's limits or builder. */
  lemma StepKeepsInv(s: State, step: Step)
    requires Inv(s) && Enabled(s, step)
    ensures Inv(Apply(s, step)) && Extends(s, Apply(s, step))
  {
    StepKeepsMessages(s, step);
    StepExtends(s, step);
    forall id | id in Apply(s, step).calls
      ensures CallOk(Apply(s, step).calls[id]) && ReturnedOk(Apply(s, step), id)
    {
      if id in s.calls { StepKeepsCall(s, step, id); }
    }
  }

  // ----- every run ----------------------------------------------------------------------

  lemma {:induction false} RunKeepsInv(steps: seq<Step>)
    requires Run(steps).Some?
    ensures Inv(Run(steps).value)
  {
    if steps != [] {
      var n := |steps| - 1;
      RunKeepsInv(steps[..n]);
      StepKeepsInv(Run(steps[..n]).value, steps[n]);
    }
  }

  /** Nothing appended is ever changed, and a running loop keeps its limits and builder. */
  lemma {:induction false} RunOnlyAppends(steps: seq<Step>, n: nat)
    requires Run(steps).Some? && n <= |steps|
    ensures Run(steps[..n]).Some? && Extends(Run(steps[..n]).value, Run(steps).value)
    decreases |steps|
  {
    if n == |steps| {
      assert steps[..n] == steps;
    } else {
      var k := |steps| - 1;
      RunOnlyAppends(steps[..k], n);
      assert steps[..k][..n] == steps[..n];
      StepExtends(Run(steps[..k]).value, steps[k]);
    }
  }

  /** No lost update: in every interleaving, a loop's claim with sequence number i + 1 is what its
      builder made of head i, the head it was appended on. */
  lemma NoLostUpdate(steps: seq<Step>, i: nat)
    requires Run(steps).Some? && i < |Run(steps).value.ledger| && Run(steps).value.ledger[i].ByLoop?
    ensures var s := Run(steps).value; var e := s.ledger[i];
            e.id in s.calls && e.claim == ClaimAt(s.calls[e.id].loop, i) && e.claim.expectedHead == Some(i)
  {
    RunKeepsInv(steps);
    assert EntryOk(Run(steps).value, i);
  }

  /** A loop that returns reports the sequence number of its own claim, built on the head before it. */
  lemma ReturnedIsAppended(steps: seq<Step>, id: nat)
    requires Run(steps).Some? && id in Run(steps).value.calls && Run(steps).value.calls[id].client.Returned?
    ensures var s := Run(steps).value; var seqNo := s.calls[id].client.seqNo;
            0 < seqNo <= |s.ledger| && s.ledger[seqNo - 1].ByLoop? && s.ledger[seqNo - 1].id == id &&
            s.ledger[seqNo - 1].claim == ClaimAt(s.calls[id].loop, seqNo - 1)
  {
    RunKeepsInv(steps);
    hide Run, EntryOk, MessageOk, CallOk, ClaimAt;
    var s := Run(steps).value;
    assert ReturnedOk(s, id);
    NoLostUpdate(steps, s.calls[id].client.seqNo - 1);
  }

  /** No two loops report the same sequence number. */
  lemma ReturnedNumbersDiffer(steps: seq<Step>, id: nat, other: nat)
    requires Run(steps).Some? && id in Run(steps).value.calls && other in Run(steps).value.calls
    requires Run(steps).value.calls[id].client.Returned?
    requires Run(steps).value.calls[other].client == Run(steps).value.calls[id].client
    ensures id == other
  {
    hide ClaimAt;
    ReturnedIsAppended(steps, id);
    ReturnedIsAppended(steps, other);
    hide Run;
  }

  /** In every run a loop sends its claim at most max(1, MaxAttempts) * (max(0, ReadRetries) + 1) times. */
  lemma LoopSendsAreBounded(steps: seq<Step>, id: nat)
    requires Run(steps).Some? && id in Run(steps).value.calls
    ensures var c := Run(steps).value.calls[id]; c.sends <= Attempts(c.loop) * SendsPerRequest(c.loop)
  {
    RunKeepsInv(steps);
    var c := Run(steps).value.calls[id];
    assert CallOk(c);
    var r := SendsPerRequest(c.loop);
    if c.client.Reading? { OneMoreAttempt(c.client.attempt, Attempts(c.loop), r); }
    if c.client.Sending? {
      OneMoreAttempt(c.client.attempt - 1, Attempts(c.loop), r);
      OneMoreAttempt(c.client.attempt, Attempts(c.loop), r);
    }
  }

  // ----- at most one append per loop --------------------------------------------------------

  /** May the loop still have a claim on the way or on the ledger after sending nth? */
  predicate MayBeOut(c: Call, nth: nat) {
    Active(c.client) ==> c.client.Sending? && c.waiting && nth + 1 == c.sends
  }

  /** At most one trace of each loop, one message on the way or one entry on the ledger, and none of a
      loop that is about to send again. */
  predicate OneTrace(s: State) {
    (forall m | m in s.inflight :: m.id in s.calls && MayBeOut(s.calls[m.id], m.nth)) &&
    (forall i | 0 <= i < |s.ledger| && s.ledger[i].ByLoop? ::
      s.ledger[i].id in s.calls && MayBeOut(s.calls[s.ledger[i].id], s.ledger[i].nth)) &&
    (forall m, m' | m in s.inflight && m' in s.inflight && m.id == m'.id :: m == m') &&
    (forall m, i | m in s.inflight && 0 <= i < |s.ledger| && s.ledger[i].ByLoop? :: s.ledger[i].id != m.id) &&
    (forall i, j | 0 <= i < j < |s.ledger| && s.ledger[i].ByLoop? && s.ledger[j].ByLoop? ::
      s.ledger[i].id != s.ledger[j].id)
  }

  /** The answer to a proposal that may be executed is misread as a conflict, and an attempt is left. */
  predicate MisreadStep(s: State, step: Step) {
    step.Answered? && WaitingToSend(s, step.id) &&
    Misread(s.calls[step.id].loop, s.calls[step.id].client, Attempt(step.answer, step.fate))
  }

  predicate NothingOut(s: State, id: nat) {
    (forall m | m in s.inflight :: m.id != id) &&
    (forall i | 0 <= i < |s.ledger| && s.ledger[i].ByLoop? :: s.ledger[i].id != id)
  }

  /** An active loop that is not waiting on a claim has no trace yet. */
  lemma NoTraceUnlessWaiting(s: State, id: nat)
    requires OneTrace(s) && id in s.calls && Active(s.calls[id].client) && !WaitingToSend(s, id)
    ensures NothingOut(s, id)
  {
  }

  /** Once the last message of a loop is taken out of flight, nothing of the loop is left. */
  lemma TakenOutLeavesNothing(s: State, id: nat)
    requires OneTrace(s) && WaitingToSend(s, id) && LastMessage(s, id) in s.inflight
    ensures NothingOut(s.(inflight := s.inflight - {LastMessage(s, id)}), id)
  {
  }

  /** What a loop hears leaves at most one trace: either nothing of it is out, or it has ended. */
  lemma AnswerKeepsOneTrace(s: State, step: Step)
    requires OneTrace(s) && step.Answered? && Enabled(s, step) && !MisreadStep(s, step)
    ensures OneTrace(Apply(s, step))
  {
    var c := s.calls[step.id];
    if MayExecute(step.fate) {
      StepAfterExecution(c.loop, c.client, Attempt(step.answer, step.fate));
    } else {
      TakenOutLeavesNothing(s, step.id);
    }
    hide OnReply, Decode, CanProduce, ClaimAt, Misread;
  }

  lemma OtherStepKeepsOneTrace(s: State, step: Step)
    requires OneTrace(s) && !step.Answered? && Enabled(s, step)
    ensures OneTrace(Apply(s, step))
  {
    hide OnReply, Decode, CanProduce, ClaimAt, Misread;
    if step.SendRead? || step.ReadAnswered? || step.SendClaim? {
      NoTraceUnlessWaiting(s, step.id);
    }
  }

  /** No step of the run is misread. */
  predicate NothingMisreadIn(steps: seq<Step>) {
    forall i | 0 <= i < |steps| :: Run(steps[..i]).Some? ==> !MisreadStep(Run(steps[..i]).value, steps[i])
  }

  lemma {:induction false} RunKeepsOneTrace(steps: seq<Step>)
    requires Run(steps).Some? && NothingMisreadIn(steps)
    ensures OneTrace(Run(steps).value)
  {
    if steps != [] {
      var n := |steps| - 1;
      forall i | 0 <= i < n ensures steps[..n][..i] == steps[..i] {
      }
      RunKeepsOneTrace(steps[..n]);
      var s := Run(steps[..n]).value;
      if steps[n].Answered? { AnswerKeepsOneTrace(s, steps[n]); } else { OtherStepKeepsOneTrace(s, steps[n]); }
    }
  }

  /** Two claims of one loop are on the ledger. */
  ghost predicate AppendedTwice(s: State) {
    exists i, j :: 0 <= i < j < |s.ledger| && s.ledger[i].ByLoop? && s.ledger[j].ByLoop? && s.ledger[i].id == s.ledger[j].id
  }

  /** When nothing is misread, at most one claim of each loop is ever appended, even by requests still
      under way when it ended. */
  lemma OneAppendPerLoop(steps: seq<Step>)
    requires Run(steps).Some? && NothingMisreadIn(steps)
    ensures !AppendedTwice(Run(steps).value)
  {
    RunKeepsOneTrace(steps);
  }

  // ----- which environments keep every loop to one append ------------------------------------

  predicate AllowedRun(allowed: Behaviour, steps: seq<Step>) {
    forall i | 0 <= i < |steps| && steps[i].Answered? :: allowed(steps[i].fate, steps[i].answer)
  }

  /** In no run does a loop append twice. */
  ghost predicate AlwaysOneAppend(allowed: Behaviour) {
    forall steps | Run(steps).Some? && AllowedRun(allowed, steps) :: !AppendedTwice(Run(steps).value)
  }

  /** A loop with a second attempt, whose first proposal is executed and answered by a bare ABORTED. */
  function TwiceSteps(loop: Loop, f: Fate, a: Answer): seq<Step> {
    [Begin(0, loop), SendRead(0), ReadAnswered(0, Ok(0)), SendClaim(0), Execute(Message(0, 0, ClaimAt(loop, 0))),
     Answered(0, f, a), SendRead(0), ReadAnswered(0, Ok(1)), SendClaim(0), Execute(Message(0, 1, ClaimAt(loop, 1)))]
  }

  lemma RunOneMore(steps: seq<Step>, s: State, step: Step, more: seq<Step>, t: State)
    requires Run(steps) == Some(s) && Enabled(s, step) && more == steps + [step]
    requires var u := Apply(s, step); u.calls == t.calls && u.inflight == t.inflight && u.ledger == t.ledger
    ensures Run(more) == Some(t)
  {
    assert more[..|more| - 1] == steps;
  }

  function Alone(loop: Loop, c: Client, waiting: bool, sends: nat, flying: set<Message>, ledger: seq<Entry>): State {
    State(map[0 := Call(loop, c, waiting, sends)], flying, ledger)
  }

  lemma FirstHalf(loop: Loop, f: Fate, a: Answer)
    ensures var m := Message(0, 0, ClaimAt(loop, 0));
            Run(TwiceSteps(loop, f, a)[..5]) == Some(Alone(loop, Sending(0, 1, 1), true, 1, {}, [EntryOf(m)]))
  {
    var t := TwiceSteps(loop, f, a);
    var m := Message(0, 0, ClaimAt(loop, 0));
    var s0 := State(map[], {}, []);
    var s1 := Alone(loop, Start(), false, 0, {}, []);
    var s2 := Alone(loop, Start(), true, 0, {}, []);
    var s3 := Alone(loop, Sending(0, 1, 1), false, 0, {}, []);
    var s4 := Alone(loop, Sending(0, 1, 1), true, 1, {m}, []);
    assert Run([]) == Some(s0);
    hide Run;
    RunOneMore([], s0, t[0], t[..1], s1);
    RunOneMore(t[..1], s1, t[1], t[..2], s2);
    RunOneMore(t[..2], s2, t[2], t[..3], s3);
    RunOneMore(t[..3], s3, t[3], t[..4], s4);
    RunOneMore(t[..4], s4, t[4], t[..5], Alone(loop, Sending(0, 1, 1), true, 1, {}, [EntryOf(m)]));
  }

  /** The misread answer: the loop, whose claim is on the ledger, goes back to reading the head. */
  lemma MisreadOneMore(loop: Loop, f: Fate, a: Answer, e: Entry)
    requires loop.maxAttempts >= 2 && BareAborted(a) && MayExecute(f) && CanProduce(f, a)
    requires e == EntryOf(Message(0, 0, ClaimAt(loop, 0)))
    requires Run(TwiceSteps(loop, f, a)[..5]) == Some(Alone(loop, Sending(0, 1, 1), true, 1, {}, [e]))
    ensures Run(TwiceSteps(loop, f, a)[..6]) == Some(Alone(loop, Reading(1, 1), false, 1, {}, [e]))
  {
    BareAbortedIsMisread(a);
    assert f != Completed && e in [e];
    hide Run, Decode, ClaimAt, CanProduce, BareAborted;
    var t := TwiceSteps(loop, f, a);
    RunOneMore(t[..5], Alone(loop, Sending(0, 1, 1), true, 1, {}, [e]), t[5], t[..6],
               Alone(loop, Reading(1, 1), false, 1, {}, [e]));
  }

  lemma SecondHalf(loop: Loop, f: Fate, a: Answer, e: Entry)
    requires Run(TwiceSteps(loop, f, a)[..6]) == Some(Alone(loop, Reading(1, 1), false, 1, {}, [e]))
    ensures Run(TwiceSteps(loop, f, a)) ==
            Some(Alone(loop, Sending(1, 2, 1), true, 2, {}, [e, EntryOf(Message(0, 1, ClaimAt(loop, 1)))]))
  {
    var t := TwiceSteps(loop, f, a);
    var m := Message(0, 1, ClaimAt(loop, 1));
    AtHeadOne(loop);
    var s6 := Alone(loop, Reading(1, 1), false, 1, {}, [e]);
    var s7 := Alone(loop, Reading(1, 1), true, 1, {}, [e]);
    var s8 := Alone(loop, Sending(1, 2, 1), false, 1, {}, [e]);
    var s9 := Alone(loop, Sending(1, 2, 1), true, 2, {m}, [e]);
    hide Run, Decode, ClaimAt, CanProduce, BareAborted, Retryable, FateHolds;
    RunOneMore(t[..6], s6, t[6], t[..7], s7);
    RunOneMore(t[..7], s7, t[7], t[..8], s8);
    RunOneMore(t[..8], s8, t[8], t[..9], s9);
    RunOneMore(t[..9], s9, t[9], t, Alone(loop, Sending(1, 2, 1), true, 2, {}, [e, EntryOf(m)]));
  }

  lemma AtHeadOne(loop: Loop)
    ensures ClaimAt(loop, 1).expectedHead == Some(1)
  {
  }

  /** Every loop with a second attempt appends twice in some run of an environment that lets a bare ABORTED
      answer an executed proposal: the client takes it for a conflict, reads the head and proposes again. */
  lemma BareAbortedAppendsTwice(loop: Loop, f: Fate, a: Answer)
    requires loop.maxAttempts >= 2 && BareAborted(a) && MayExecute(f) && CanProduce(f, a)
    ensures var t := TwiceSteps(loop, f, a); Run(t).Some? && AppendedTwice(Run(t).value)
  {
    var e := EntryOf(Message(0, 0, ClaimAt(loop, 0)));
    FirstHalf(loop, f, a);
    MisreadOneMore(loop, f, a, e);
    SecondHalf(loop, f, a, e);
    hide Run, ClaimAt;
    var s := Run(TwiceSteps(loop, f, a)).value;
    assert s.ledger[0].id == s.ledger[1].id;
  }

  /** Every loop is kept to one append, in every run, exactly by the environments in which a bare ABORTED
      never answers a proposal that may be executed; over REST there is no such answer. */
  lemma OneAppendExactly(allowed: Behaviour)
    ensures AlwaysOneAppend(allowed) <==> BareAbortedIsSafe(allowed)
  {
    if !BareAbortedIsSafe(allowed) {
      var f, a :| allowed(f, a) && BareAborted(a) && CanProduce(f, a) && MayExecute(f);
      var loop := Loop(2, 0, head => Claim("", None), 0);
      BareAbortedAppendsTwice(loop, f, a);
      assert AllowedRun(allowed, TwiceSteps(loop, f, a));
    }
    if BareAbortedIsSafe(allowed) {
      forall steps | Run(steps).Some? && AllowedRun(allowed, steps) ensures !AppendedTwice(Run(steps).value) {
        SafeRunIsNotMisread(allowed, steps);
        OneAppendPerLoop(steps);
      }
    }
  }

  lemma SafeRunIsNotMisread(allowed: Behaviour, steps: seq<Step>)
    requires Run(steps).Some? && AllowedRun(allowed, steps) && BareAbortedIsSafe(allowed)
    ensures NothingMisreadIn(steps)
  {
    forall i | 0 <= i < |steps| && Run(steps[..i]).Some? ensures !MisreadStep(Run(steps[..i]).value, steps[i]) {
      StepsAreEnabled(steps, i);
      hide Run, CanProduce, BareAborted;
    }
  }

  lemma StepsAreEnabled(steps: seq<Step>, i: nat)
    requires Run(steps).Some? && i < |steps|
    ensures Run(steps[..i]).Some? && Enabled(Run(steps[..i]).value, steps[i])
  {
    hide Enabled, Apply, Extends;
    RunOnlyAppends(steps, i + 1);
    var more := steps[..i + 1];
    assert more[..|more| - 1] == steps[..i] && more[|more| - 1] == steps[i];
  }
}
