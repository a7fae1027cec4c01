/** The client's typed errors, how each transport decodes a failure into one, and which may be re-sent. */
module Errors {
  import opened Wrappers

  datatype MunariumException =
    | HeadConflict(expected: nat, actual: nat)
    | PolicyRejection
    | ShapeViolation(shapeRef: string)
    | IdempotencyMismatch
    | NotFound(kind: string, id: string)
    | InvalidInput
    | Unauthenticated
    | Forbidden
    | RateLimited(retryAfter: Option<nat>)
    | Overloaded
    | RunLocked
    | StorageError
    | ProviderError
    | UnsupportedTransport
    | Transport(mayHaveReachedServer: bool)
    | UnexpectedServer(status: Option<int>)

  /** Re-sending the same request may succeed. */
  predicate Transient(e: MunariumException) {
    e.Overloaded? || e.Transport? ||
    (e.UnexpectedServer? && e.status.Some? && 502 <= e.status.value <= 504)
  }

  datatype RetryClass = Read | Command | Write

  predicate Retryable(retryClass: RetryClass, e: MunariumException) {
    match retryClass
    case Read => Transient(e)
    case Command => e.Overloaded? || e == Transport(false)
    case Write => false
  }

  // ----- decoding ------------------------------------------------------------------

  /** The problem members the registry's constructors read. */
  datatype Problem = Problem(
    slugUri: Option<string>, status: Option<int>, expected: Option<nat>, actual: Option<nat>,
    shapeRef: Option<string>, kind: Option<string>, id: Option<string>)

  function GetOr<T>(o: Option<T>, default: T): T {
    if o.Some? then o.value else default
  }

  /** The single construction point: a registry slug to a typed error. */
  function FromParts(slug: string, ext: Problem, status: Option<int>, retryAfter: Option<nat>): MunariumException {
    if slug == "head-conflict" then HeadConflict(GetOr(ext.expected, 0), GetOr(ext.actual, 0))
    else if slug == "policy-rejection" then PolicyRejection
    else if slug == "shape-violation" then ShapeViolation(GetOr(ext.shapeRef, ""))
    else if slug == "idempotency-mismatch" then IdempotencyMismatch
    else if slug == "not-found" then NotFound(GetOr(ext.kind, "resource"), GetOr(ext.id, ""))
    else if slug == "invalid-input" then InvalidInput
    else if slug == "unauthenticated" then Unauthenticated
    else if slug == "forbidden" then Forbidden
    else if slug == "rate-limited" then RateLimited(retryAfter)
    else if slug == "overloaded" then Overloaded
    else if slug == "storage-error" then StorageError
    else if slug == "provider-error" then ProviderError
    else if slug == "uid-required" || slug == "removal-not-confirmed" then InvalidInput
    else if slug == "session-not-open" || slug == "authoring-draft-invalid" then InvalidInput
    else if slug == "run-locked" then RunLocked
    else if slug == "token-expired" || slug == "token-revoked" then Unauthenticated
    else if slug == "uid-mismatch" || slug == "scope-missing" || slug == "override-not-allowed" then Forbidden
    else if slug == "runbook-removed" then NotFound(GetOr(ext.kind, "runbook"), GetOr(ext.id, ""))
    else UnexpectedServer(status)
  }

  /** The text after the last slash. */
  function LastSegment(s: string): string {
    if '/' in s then
      assert s != "";
      LastSegment(s[1..])
    else s
  }

  datatype Body = NotJson | NullJson | Parsed(problem: Problem)

  /** A REST error answer. */
  function FromProblem(status: Option<int>, body: Body, retryAfter: Option<nat>): MunariumException {
    match body
    case NotJson => UnexpectedServer(status)
    case NullJson => UnexpectedServer(status)
    case Parsed(problem) =>
      FromParts(LastSegment(GetOr(problem.slugUri, "")), problem,
                if status.Some? then status else problem.status, retryAfter)
  }

  datatype StatusCode =
    | Aborted | NotFoundCode | InvalidArgument | UnauthenticatedCode | PermissionDenied
    | ResourceExhausted | Unavailable | DeadlineExceeded | Internal | OtherCode

  datatype ErrorInfo = ErrorInfo(domain: string, reason: string, metadata: Problem)

  datatype Detail = Info(info: ErrorInfo) | OtherDetail

  /** A failed call; details is None when the trailer is absent or not decodable. */
  datatype RpcException = RpcException(code: StatusCode, details: Option<seq<Detail>>)

  const DOMAIN := "mmp.ioka.io"

  function FirstInfo(details: seq<Detail>): Option<ErrorInfo> {
    if details == [] then None
    else if details[0].Info? then Some(details[0].info)
    else FirstInfo(details[1..])
  }

  /** The structured detail the server itself attached, if any. */
  function ServerInfo(e: RpcException): Option<ErrorInfo> {
    var info := if e.details.None? then None else FirstInfo(e.details.value);
    if info.Some? && info.value.domain == DOMAIN then info else None
  }

  /** A gRPC failure. */
  function FromRpc(e: RpcException): MunariumException {
    var info := ServerInfo(e);
    if info.Some? then FromParts(info.value.reason, info.value.metadata, None, None)
    else match e.code
      case Aborted => HeadConflict(0, 0)
      case NotFoundCode => NotFound("resource", "")
      case InvalidArgument => InvalidInput
      case UnauthenticatedCode => Unauthenticated
      case PermissionDenied => Forbidden
      case ResourceExhausted => RateLimited(None)
      case Unavailable => Transport(true)
      case DeadlineExceeded => Transport(true)
      case Internal => StorageError
      case OtherCode => UnexpectedServer(None)
  }

  /** What the HTTP stack reports. */
  datatype HttpFailure =
    | ConnectionError | NameResolutionError | SecureConnectionError | ProxyTunnelError
    | OtherHttpError | TimedOut | StreamError

  predicate ConnectPhase(f: HttpFailure) {
    f.ConnectionError? || f.NameResolutionError? || f.SecureConnectionError? || f.ProxyTunnelError?
  }

  /** A REST transport failure; only the send phase classifies reach. */
  function FromHttp(f: HttpFailure, sendPhase: bool): MunariumException {
    Transport(!sendPhase || !ConnectPhase(f))
  }

  // ----- which failures re-send a command ----------------------------------------------

  /** The registry's only re-sendable error is overloaded, and it never builds a transport error. */
  lemma FromPartsResends(slug: string, ext: Problem, status: Option<int>, retryAfter: Option<nat>)
    ensures Retryable(Command, FromParts(slug, ext, status, retryAfter)) <==> slug == "overloaded"
    ensures !FromParts(slug, ext, status, retryAfter).Transport?
  {
  }

  /** On gRPC a command is re-sent exactly for the server's own typed overloaded: FromRpc never yields
      an undelivered transport error. */
  lemma GrpcCommandResends(e: RpcException)
    ensures FromRpc(e) != Transport(false)
    ensures Retryable(Command, FromRpc(e)) <==> ServerInfo(e).Some? && ServerInfo(e).value.reason == "overloaded"
  {
    if ServerInfo(e).Some? {
      FromPartsResends(ServerInfo(e).value.reason, ServerInfo(e).value.metadata, None, None);
    }
  }

  /** On gRPC a read is retried exactly for overloaded, an unavailable peer or an expired deadline. */
  lemma GrpcReadRetries(e: RpcException)
    ensures Retryable(Read, FromRpc(e)) <==>
              if ServerInfo(e).Some? then ServerInfo(e).value.reason == "overloaded"
              else e.code.Unavailable? || e.code.DeadlineExceeded?
  {
    if ServerInfo(e).Some? {
      FromPartsResends(ServerInfo(e).value.reason, ServerInfo(e).value.metadata, None, None);
    }
  }

  /** On REST a command is re-sent exactly for overloaded answers and for sends that failed in one of the
      four ways that happen before anything is delivered; every failed exchange is retried as a read. */
  lemma RestCommandResends(status: Option<int>, body: Body, retryAfter: Option<nat>, f: HttpFailure, sendPhase: bool)
    ensures Retryable(Command, FromProblem(status, body, retryAfter)) <==>
              body.Parsed? && LastSegment(GetOr(body.problem.slugUri, "")) == "overloaded"
    ensures Retryable(Command, FromHttp(f, sendPhase)) <==>
              sendPhase && f in {ConnectionError, NameResolutionError, SecureConnectionError, ProxyTunnelError}
    ensures Retryable(Read, FromHttp(f, sendPhase))
  {
    if body.Parsed? {
      FromPartsResends(LastSegment(GetOr(body.problem.slugUri, "")), body.problem,
                       if status.Some? then status else body.problem.status, retryAfter);
    }
  }

  /** On REST a read is retried exactly for overloaded and for an answer outside the registry whose status,
      the transport's or else the body's own, is 502, 503 or 504. */
  lemma RestReadRetries(status: Option<int>, body: Body, retryAfter: Option<nat>)
    ensures var slug := if body.Parsed? then Some(LastSegment(GetOr(body.problem.slugUri, ""))) else None;
            var code := if status.None? && body.Parsed? then body.problem.status else status;
            Retryable(Read, FromProblem(status, body, retryAfter)) <==>
              slug == Some("overloaded") ||
              (code in {Some(502), Some(503), Some(504)} && (slug.None? || slug.value !in REGISTRY))
  {
    if body.Parsed? {
      var slug := LastSegment(GetOr(body.problem.slugUri, ""));
      var code := if status.Some? then status else body.problem.status;
      hide FromParts, LastSegment, REGISTRY;
      TransientParts(slug, body.problem, code, retryAfter);
    }
  }

  /** The slugs that have an error of their own. */
  const REGISTRY: set<string> := {
    "head-conflict", "policy-rejection", "shape-violation", "idempotency-mismatch", "not-found", "invalid-input",
    "unauthenticated", "forbidden", "rate-limited", "overloaded", "storage-error", "provider-error", "uid-required",
    "removal-not-confirmed", "session-not-open", "authoring-draft-invalid", "run-locked", "token-expired",
    "token-revoked", "uid-mismatch", "scope-missing", "override-not-allowed", "runbook-removed"}

  lemma TransientParts(slug: string, ext: Problem, status: Option<int>, retryAfter: Option<nat>)
    ensures var e := FromParts(slug, ext, status, retryAfter);
            (e.UnexpectedServer? <==> slug !in REGISTRY) && (e.UnexpectedServer? ==> e.status == status) &&
            (Transient(e) <==>
              slug == "overloaded" || (slug !in REGISTRY && status in {Some(502), Some(503), Some(504)}))
  {
  }

  /** Which slugs give errors of which kind: about claims, */
  lemma ClaimSlugs(slug: string, ext: Problem, status: Option<int>, retryAfter: Option<nat>)
    ensures var e := FromParts(slug, ext, status, retryAfter);
            (e.HeadConflict? <==> slug == "head-conflict") &&
            (e.PolicyRejection? <==> slug == "policy-rejection") &&
            (e.ShapeViolation? <==> slug == "shape-violation")
  {
  }

  /** about requests, */
  lemma RequestSlugs(slug: string, ext: Problem, status: Option<int>, retryAfter: Option<nat>)
    ensures var e := FromParts(slug, ext, status, retryAfter);
            (e.NotFound? <==> slug in {"not-found", "runbook-removed"}) &&
            (e.InvalidInput? <==> slug in {"invalid-input", "uid-required", "removal-not-confirmed", "session-not-open",
                                           "authoring-draft-invalid"})
  {
  }

  /** about identity, */
  lemma IdentitySlugs(slug: string, ext: Problem, status: Option<int>, retryAfter: Option<nat>)
    ensures FromParts(slug, ext, status, retryAfter).Unauthenticated? <==>
              slug == "unauthenticated" || slug == "token-expired" || slug == "token-revoked"
  {
  }

  /** about permission, */
  lemma PermissionSlugs(slug: string, ext: Problem, status: Option<int>, retryAfter: Option<nat>)
    ensures FromParts(slug, ext, status, retryAfter).Forbidden? <==>
              slug == "forbidden" || slug == "uid-mismatch" || slug == "scope-missing" || slug == "override-not-allowed"
  {
  }

  /** about load and replay, */
  lemma LoadSlugs(slug: string, ext: Problem, status: Option<int>, retryAfter: Option<nat>)
    ensures var e := FromParts(slug, ext, status, retryAfter);
            (e.RateLimited? <==> slug == "rate-limited") &&
            (e.Overloaded? <==> slug == "overloaded") &&
            (e.IdempotencyMismatch? <==> slug == "idempotency-mismatch")
  {
  }

  /** and about the server. */
  lemma ServerSlugs(slug: string, ext: Problem, status: Option<int>, retryAfter: Option<nat>)
    ensures var e := FromParts(slug, ext, status, retryAfter);
            (e.RunLocked? <==> slug == "run-locked") &&
            (e.StorageError? <==> slug == "storage-error") &&
            (e.ProviderError? <==> slug == "provider-error")
  {
  }

  /** What a decoded conflict carries: each head from its own member, or zero. */
  lemma ConflictCarried(slug: string, ext: Problem, status: Option<int>, retryAfter: Option<nat>)
    ensures var e := FromParts(slug, ext, status, retryAfter);
            e.HeadConflict? ==>
              (if ext.expected.Some? then ext.expected == Some(e.expected) else e.expected == 0) &&
              (if ext.actual.Some? then ext.actual == Some(e.actual) else e.actual == 0)
  {
  }

  /** What other decoded errors carry: each value from its own member, or the default. */
  lemma PartsCarried(slug: string, ext: Problem, status: Option<int>, retryAfter: Option<nat>)
    ensures var e := FromParts(slug, ext, status, retryAfter);
            (e.ShapeViolation? ==> if ext.shapeRef.Some? then ext.shapeRef == Some(e.shapeRef) else e.shapeRef == "") &&
            (e.RateLimited? ==> e.retryAfter == retryAfter) && (e.UnexpectedServer? ==> e.status == status)
  {
  }

  lemma MissingCarried(slug: string, ext: Problem, status: Option<int>, retryAfter: Option<nat>)
    ensures var e := FromParts(slug, ext, status, retryAfter);
            e.NotFound? ==>
              (if ext.kind.Some? then ext.kind == Some(e.kind)
               else e.kind == if slug == "runbook-removed" then "runbook" else "resource") &&
              (if ext.id.Some? then ext.id == Some(e.id) else e.id == "")
  {
  }

  /** The server's own detail is the first structured one, and only if it is of the server's domain. */
  lemma {:induction false} ServerInfoIs(e: RpcException, info: ErrorInfo)
    ensures ServerInfo(e) == Some(info) <==>
              e.details.Some? && info.domain == "mmp.ioka.io" &&
              exists k | 0 <= k < |e.details.value| ::
                e.details.value[k] == Info(info) && forall j | 0 <= j < k :: e.details.value[j].OtherDetail?
  {
    if e.details.Some? { FirstInfoIs(e.details.value, info); }
  }

  lemma {:induction false} FirstInfoIs(details: seq<Detail>, info: ErrorInfo)
    ensures FirstInfo(details) == Some(info) <==>
              exists k | 0 <= k < |details| :: details[k] == Info(info) && forall j | 0 <= j < k :: details[j].OtherDetail?
  {
    if details != [] && details[0].OtherDetail? {
      var rest := details[1..];
      FirstInfoIs(rest, info);
      if k :| 0 <= k < |rest| && rest[k] == Info(info) && forall j | 0 <= j < k :: rest[j].OtherDetail? {
        assert details[k + 1] == Info(info);
        assert forall j | 0 <= j < k + 1 :: j > 0 ==> details[j] == rest[j - 1];
      }
      if k :| 0 <= k < |details| && details[k] == Info(info) && forall j | 0 <= j < k :: details[j].OtherDetail? {
        assert rest[k - 1] == Info(info) && forall j | 0 <= j < k - 1 :: rest[j] == details[j + 1];
      }
    }
  }

  // ----- one error surface on both transports ------------------------------------------------

  lemma {:induction false} LastSegmentOf(prefix: string, slug: string)
    requires '/' !in slug
    ensures LastSegment(slug) == slug && LastSegment(prefix + "/" + slug) == slug
  {
    var s := prefix + "/" + slug;
    assert s[|prefix|] == '/';
    if prefix == "" {
      assert s[1..] == slug;
    } else {
      assert s[1..] == prefix[1..] + "/" + slug;
      LastSegmentOf(prefix[1..], slug);
    }
  }

  /** REST problem documents and gRPC error details of one slug decode to the same error; only a retry
      delay and an HTTP status are known on REST alone. */
  lemma TransportsAgree(prefix: string, slug: string, ext: Problem, status: Option<int>, retryAfter: Option<nat>,
                        code: StatusCode)
    requires '/' !in slug
    ensures var rest := FromProblem(status, Parsed(ext.(slugUri := Some(prefix + "/" + slug))), retryAfter);
            var grpc := FromRpc(RpcException(code, Some([Info(ErrorInfo(DOMAIN, slug, ext))])));
            rest == grpc || (rest == RateLimited(retryAfter) && grpc == RateLimited(None)) ||
            (rest.UnexpectedServer? && grpc == UnexpectedServer(None))
  {
    LastSegmentOf(prefix, slug);
    FromPartsIgnoresUri(slug, ext, Some(prefix + "/" + slug), if status.Some? then status else ext.status, retryAfter);
  }

  lemma FromPartsIgnoresUri(slug: string, ext: Problem, uri: Option<string>, status: Option<int>, retryAfter: Option<nat>)
    ensures var rest, grpc := FromParts(slug, ext.(slugUri := uri), status, retryAfter), FromParts(slug, ext, None, None);
            rest == grpc || (rest == RateLimited(retryAfter) && grpc == RateLimited(None)) ||
            (rest == UnexpectedServer(status) && grpc == UnexpectedServer(None))
  {
  }
}
