/** What became of a proposal that was sent, which answers each fate can produce, and what an answer proves. */
module Fates {
  import opened Errors
  import opened WriteLoop
  import opened Wrappers

  /** What reaches the client for one send, on either transport. */
  datatype Answer =
    | Accepted(seqNo: nat)
    | Problem(status: Option<int>, body: Body, retryAfter: Option<nat>)
    | HttpFailed(failure: HttpFailure, sendPhase: bool)
    | RpcFailed(exception: RpcException)

  /** The reply the transports make of an answer. */
  function Decode(a: Answer): Reply {
    match a
    case Accepted(n) => Ok(n)
    case Problem(status, body, retryAfter) => Err(FromProblem(status, body, retryAfter))
    case HttpFailed(f, sendPhase) => Err(FromHttp(f, sendPhase))
    case RpcFailed(e) => Err(FromRpc(e))
  }

  /** What became of one proposal. */
  datatype Fate =
    | NeverSent    // it did not leave the client
    | Shed         // the server turned it away before executing
    | Conflicted   // the head check failed; nothing was appended
    | Refused      // the server refused it for another reason; nothing was appended
    | ReplyLost    // it was executed, and the acceptance did not arrive
    | UnderWay     // it is delivered or on its way, and may still be executed
    | Completed    // it was executed, and the acceptance arrived

  predicate MayExecute(f: Fate) {
    f.ReplyLost? || f.UnderWay? || f.Completed?
  }

  // ----- which answers a fate can produce -------------------------------------------

  /** The slug the server itself put into an error, on either transport. */
  function Slug(a: Answer): Option<string> {
    match a
    case Accepted(_) => None
    case Problem(_, body, _) => if body.Parsed? then Some(LastSegment(GetOr(body.problem.slugUri, ""))) else None
    case HttpFailed(_, _) => None
    case RpcFailed(e) => if ServerInfo(e).Some? then Some(ServerInfo(e).value.reason) else None
  }

  /** A connection that was never made, as only the REST transport can tell. */
  predicate Undelivered(a: Answer) {
    a.HttpFailed? && a.sendPhase && ConnectPhase(a.failure)
  }

  /** An answer that is no acceptance, no proof that nothing was delivered, and not one of the two errors
      the server gives only before executing. */
  predicate Inconclusive(a: Answer) {
    !a.Accepted? && !Undelivered(a) && Slug(a) !in {Some("overloaded"), Some("head-conflict")}
  }

  /** The promise of the server and the network. An intermediary can put an inconclusive answer in the
      place of any reply, and anything but an acceptance can follow a lost one. */
  predicate CanProduce(f: Fate, a: Answer) {
    match f
    case NeverSent => Undelivered(a) || Inconclusive(a)
    case Shed => Slug(a) == Some("overloaded") || Inconclusive(a)
    case Conflicted => Slug(a) == Some("head-conflict") || Inconclusive(a)
    case Refused => Inconclusive(a)
    case ReplyLost => Inconclusive(a)
    case UnderWay => Inconclusive(a)
    case Completed => a.Accepted?
  }

  /** An ABORTED status without the server's own detail: a head conflict, or anything an intermediary
      calls by that name. */
  predicate BareAborted(a: Answer) {
    a.RpcFailed? && ServerInfo(a.exception).None? && a.exception.code.Aborted?
  }

  // ----- what an answer proves ---------------------------------------------------------

  /** A command is re-sent exactly on the two proofs that it was not executed. */
  lemma CommandRetryIsProof(a: Answer)
    requires !a.Accepted?
    ensures Retryable(Command, Decode(a).error) <==> Undelivered(a) || Slug(a) == Some("overloaded")
  {
    match a
    case Problem(status, body, retryAfter) =>
      if body.Parsed? {
        FromPartsResends(Slug(a).value, body.problem, if status.Some? then status else body.problem.status, retryAfter);
      }
    case HttpFailed(_, _) =>
    case RpcFailed(e) =>
      if ServerInfo(e).Some? {
        FromPartsResends(Slug(a).value, ServerInfo(e).value.metadata, None, None);
      }
  }

  lemma FromPartsConflicts(slug: string, ext: Errors.Problem, status: Option<int>, retryAfter: Option<nat>)
    ensures FromParts(slug, ext, status, retryAfter).HeadConflict? <==> slug == "head-conflict"
  {
  }

  /** A head conflict is decoded from the server's own conflict and from a bare ABORTED. */
  lemma ConflictsAre(a: Answer)
    requires !a.Accepted?
    ensures Decode(a).error.HeadConflict? <==> Slug(a) == Some("head-conflict") || BareAborted(a)
  {
    match a
    case Problem(status, body, retryAfter) =>
      if body.Parsed? {
        FromPartsConflicts(Slug(a).value, body.problem, if status.Some? then status else body.problem.status, retryAfter);
      }
    case HttpFailed(_, _) =>
    case RpcFailed(e) =>
      if ServerInfo(e).Some? {
        FromPartsConflicts(Slug(a).value, ServerInfo(e).value.metadata, None, None);
      }
  }

  /** The server's own conflict, on either transport, that tells the actual head. */
  predicate TellsHead(a: Answer, n: nat) {
    Slug(a) == Some("head-conflict") &&
    match a
    case Problem(_, body, _) => body.Parsed? && body.problem.actual == Some(n)
    case RpcFailed(e) => ServerInfo(e).Some? && ServerInfo(e).value.metadata.actual == Some(n)
    case _ => false
  }

  /** The decoded conflict carries the head the server told. */
  lemma ConflictCarriesHead(a: Answer, n: nat)
    requires TellsHead(a, n)
    ensures Decode(a).Err? && Decode(a).error.HeadConflict? && Decode(a).error.actual == n
  {
    hide FromParts;
    match a
    case Problem(status, body, retryAfter) =>
      var code := if status.Some? then status else body.problem.status;
      FromPartsConflicts(Slug(a).value, body.problem, code, retryAfter);
      ConflictCarried(Slug(a).value, body.problem, code, retryAfter);
    case RpcFailed(e) =>
      FromPartsConflicts(Slug(a).value, ServerInfo(e).value.metadata, None, None);
      ConflictCarried(Slug(a).value, ServerInfo(e).value.metadata, None, None);
  }

  /** The replay rule is safe and no safe case is missing: the client re-sends a command or rebuilds a
      claim on exactly the answers that no executed request can produce, and on a bare ABORTED besides. */
  lemma ReplayRuleIsExact(a: Answer)
    requires !a.Accepted?
    ensures Retryable(Command, Decode(a).error) ==> forall f | CanProduce(f, a) :: !MayExecute(f)
    ensures (forall f | CanProduce(f, a) :: !MayExecute(f)) <==>
              Retryable(Command, Decode(a).error) || (Decode(a).error.HeadConflict? && !BareAborted(a))
    ensures BareAborted(a) ==>
              Decode(a) == Err(HeadConflict(0, 0)) && CanProduce(ReplyLost, a) && CanProduce(UnderWay, a)
  {
    CommandRetryIsProof(a);
    ConflictsAre(a);
    hide Retryable, Decode, Slug, Undelivered, BareAborted;
    if forall f | CanProduce(f, a) :: !MayExecute(f) {
      assert !CanProduce(ReplyLost, a);
    }
    BareAbortedIsMisread(a);
  }

  /** A bare ABORTED reads as a conflict with a stripped head, although it proves nothing. */
  lemma BareAbortedIsMisread(a: Answer)
    ensures BareAborted(a) ==> Decode(a) == Err(HeadConflict(0, 0)) && Inconclusive(a)
  {
  }
}
