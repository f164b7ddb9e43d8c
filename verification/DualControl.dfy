/** Two-principal approval of protected operations: tokens, requests, and the checks an approval must pass. */
module DualControl {
  import opened PyText

  type Time = real

  datatype Operation = KeyRotate | KeyRevoke | BreakGlass | ApplySignedBundle | ServiceRepair | RestoreAndVerify

  datatype StepUpLevel = SingleFactor | MultiFactor | HardToken {
    function Rank(): int {
      match this
      case SingleFactor => 0
      case MultiFactor => 1
      case HardToken => 2
    }

    predicate AtLeast(other: StepUpLevel): (b: bool)
      ensures b <==> this == other || this == HardToken || other == SingleFactor
    {
      Rank() >= other.Rank()
    }
  }

  datatype State = Pending | Approved | Rejected | Expired | Executed | Failed

  datatype Token = Token(principal: string, level: StepUpLevel, validatedAt: Time, expiresAt: Time, hash: string) {
    predicate IsExpired(now: Time) { now >= expiresAt }
  }

  datatype Request = Request(id: string, operation: Operation, requester: string, digest: string,
                             stepUp: StepUpLevel, createdAt: Time, expiresAt: Time, tokenHash: string) {
    predicate IsExpired(now: Time) { now >= expiresAt }
  }

  datatype Approval = Approval(requestId: string, approver: string, approvedAt: Time, tokenHash: string, digest: string)

  datatype Record = Record(request: Request, approval: Option<Approval>, state: State, createdAt: Time, updatedAt: Time)

  /** Why a call decided as it did; one per message of the source. */
  datatype Reason =
    | NotFound | AlreadyApproved | AlreadyExecuted | Closed(State)
    | RequestExpired | TokenExpired | LevelTooLow | SamePrincipal
    | WrongRequestId | WrongDigest | WrongTokenHash | WrongApprover
    | Satisfied | RejectedByStore | StoreError | MarkedExecuted

  datatype Decision = Decision(state: State, requestId: string, operation: Operation, reason: Reason)

  /** Raised: the comparison refuses text outside ASCII with an exception. */
  datatype Outcome = Decided(decision: Decision) | Raised {
    predicate IsApproved() { Decided? && decision.state == Approved }
  }

  datatype Refusal = ExpiredToken | ExpiredRequest | InsufficientLevel | SamePerson | NotAscii

  datatype Result<+T, +E> = Ok(value: T) | Err(error: E)

  function RequiredStepUp(operation: Operation): (level: StepUpLevel)
    ensures level == HardToken <==> operation == BreakGlass
    ensures level != SingleFactor
  {
    match operation
    case BreakGlass => HardToken
    case KeyRotate | KeyRevoke | ApplySignedBundle | ServiceRepair | RestoreAndVerify => MultiFactor
  }

  predicate IsAscii(s: string) { forall i :: 0 <= i < |s| ==> s[i] as int < 128 }

  /** `hmac.compare_digest` on text: None stands for the TypeError. */
  function CompareDigest(a: string, b: string): Option<bool> {
    if IsAscii(a) && IsAscii(b) then Some(a == b) else None
  }

  /** The level a new request will demand: a caller may raise the operation's minimum, never lower it. */
  function EffectiveLevel(operation: Operation, asked: Option<StepUpLevel>): (level: StepUpLevel)
    ensures level.AtLeast(RequiredStepUp(operation))
    ensures asked.Some? ==> level.AtLeast(asked.value)
    ensures level == if operation == BreakGlass || asked == Some(HardToken) then HardToken else MultiFactor
  {
    var minimum := RequiredStepUp(operation);
    if asked.Some? && asked.value.AtLeast(minimum) then asked.value else minimum
  }

  /** The token is strong enough to ask for an operation: break-glass, and whatever is asked for, takes a hard token. */
  predicate StrongEnough(operation: Operation, asked: Option<StepUpLevel>, level: StepUpLevel) {
    if operation == BreakGlass || asked == Some(HardToken) then level == HardToken else level != SingleFactor
  }

  /** `checkedAt` and `now` are the two clock readings; `id` is the random identifier. */
  function CreateRequest(operation: Operation, token: Token, digest: string, asked: Option<StepUpLevel>,
                         ttl: int, id: string, checkedAt: Time, now: Time): (r: Result<Request, Refusal>)
    ensures r.Ok? <==> checkedAt < token.expiresAt && StrongEnough(operation, asked, token.level)
    ensures r.Ok? ==>
              r.value == Request(id, operation, token.principal, digest,
                                 if operation == BreakGlass || asked == Some(HardToken) then HardToken else MultiFactor,
                                 now, now + ttl as real, token.hash)
  {
    var required := EffectiveLevel(operation, asked);
    if token.IsExpired(checkedAt) then Err(ExpiredToken)
    else if !token.level.AtLeast(required) then Err(InsufficientLevel)
    else Ok(Request(id, operation, token.principal, digest, required, now, now + ttl as real, token.hash))
  }

  /** The clock is read for the request, for the token, and for the approval. */
  function CreateApproval(request: Request, token: Token, requestAt: Time, tokenAt: Time, now: Time):
    (r: Result<Approval, Refusal>)
    ensures r.Ok? ==> requestAt < request.expiresAt && tokenAt < token.expiresAt
                      && token.level.AtLeast(request.stepUp) && request.requester != token.principal
    ensures r.Ok? ==> r.value == Approval(request.id, token.principal, now, token.hash, request.digest)
    ensures requestAt < request.expiresAt && tokenAt < token.expiresAt && token.level.AtLeast(request.stepUp)
            && request.requester != token.principal && IsAscii(request.requester) && IsAscii(token.principal) ==>
              r.Ok?
  {
    if request.IsExpired(requestAt) then Err(ExpiredRequest)
    else if token.IsExpired(tokenAt) then Err(ExpiredToken)
    else if !token.level.AtLeast(request.stepUp) then Err(InsufficientLevel)
    else match CompareDigest(request.requester, token.principal)
         case None => Err(NotAscii)
         case Some(true) => Err(SamePerson)
         case Some(false) => Ok(Approval(request.id, token.principal, now, token.hash, request.digest))
  }

  function Deny(request: Request, state: State, reason: Reason): Outcome {
    Decided(Decision(state, request.id, request.operation, reason))
  }

  /** What dual control means: a live request approved, as asked, by somebody else with a live, strong enough token. */
  ghost predicate DualControlled(request: Request, approval: Approval, token: Token, current: Time) {
    && current < request.expiresAt && current < token.expiresAt
    && token.level.AtLeast(request.stepUp)
    && token.principal != request.requester
    && approval.approver == token.principal && approval.tokenHash == token.hash
    && approval.requestId == request.id && approval.digest == request.digest
  }

  /** All the text the checks compare is ASCII. */
  predicate Comparable(request: Request, approval: Approval, token: Token) {
    && IsAscii(request.requester) && IsAscii(request.id) && IsAscii(request.digest)
    && IsAscii(token.principal) && IsAscii(token.hash)
    && IsAscii(approval.requestId) && IsAscii(approval.digest)
    && IsAscii(approval.tokenHash) && IsAscii(approval.approver)
  }

  /** The checks, in the source's order: they approve exactly the comparable approvals under dual control. */
  function CheckApproval(request: Request, approval: Approval, token: Token, current: Time): (r: Outcome)
    ensures r.IsApproved() <==>
            DualControlled(request, approval, token, current) && Comparable(request, approval, token)
    ensures r.Decided? ==> r.decision.requestId == request.id && r.decision.state in {Approved, Rejected, Expired}
    ensures r == Decided(Decision(Expired, request.id, request.operation, RequestExpired))
            <==> current >= request.expiresAt
  {
    if request.IsExpired(current) then Deny(request, Expired, RequestExpired)
    else if token.IsExpired(current) then Deny(request, Rejected, TokenExpired)
    else if !token.level.AtLeast(request.stepUp) then Deny(request, Rejected, LevelTooLow)
    else match CompareDigest(request.requester, token.principal)
         case None => Raised
         case Some(true) => Deny(request, Rejected, SamePrincipal)
         case Some(false) =>
    match CompareDigest(approval.requestId, request.id)
    case None => Raised
    case Some(false) => Deny(request, Rejected, WrongRequestId)
    case Some(true) =>
    match CompareDigest(approval.digest, request.digest)
    case None => Raised
    case Some(false) => Deny(request, Rejected, WrongDigest)
    case Some(true) =>
    match CompareDigest(approval.tokenHash, token.hash)
    case None => Raised
    case Some(false) => Deny(request, Rejected, WrongTokenHash)
    case Some(true) =>
    match CompareDigest(approval.approver, token.principal)
    case None => Raised
    case Some(false) => Deny(request, Rejected, WrongApprover)
    case Some(true) => Deny(request, Approved, Satisfied)
  }

  /** Dual control holds, and the check still raises: the approver's name is not ASCII. */
  lemma NonAsciiNameRaises() returns (request: Request, approval: Approval, token: Token)
    ensures DualControlled(request, approval, token, 1.0)
    ensures CheckApproval(request, approval, token, 1.0) == Raised
  {
    var name := ['\U{00E9}'];
    request := Request("1", KeyRotate, "a", "d", MultiFactor, 0.0, 9.0, "h");
    token := Token(name, MultiFactor, 0.0, 9.0, "t");
    approval := Approval("1", name, 1.0, "t", "d");
    assert !IsAscii(name) by {
      assert name[0] as int == 0xE9;
    }
  }

  /**
   * An approval made for a live request, by three readings of the clock, passes the checks with the same token at any
   * time before either expires.
   */
  lemma CreatedApprovalPasses(request: Request, token: Token, requestAt: Time, tokenAt: Time, made: Time, current: Time)
    requires requestAt <= tokenAt <= made && CreateApproval(request, token, requestAt, tokenAt, made).Ok?
    requires IsAscii(request.id) && IsAscii(request.digest) && IsAscii(token.hash)
    ensures var approval := CreateApproval(request, token, requestAt, tokenAt, made).value;
            CheckApproval(request, approval, token, current).IsApproved()
            <==> current < request.expiresAt && current < token.expiresAt
  {}

  /** The decision on what the store holds under the request's id: either final, or the stored request to check. */
  function Admit(found: Option<Record>, request: Request): Result<Request, Decision> {
    match found
    case None => Err(Decision(Rejected, request.id, request.operation, NotFound))
    case Some(record) =>
      match record.state
      case Pending => Ok(record.request)
      case Approved => Err(Decision(Rejected, request.id, request.operation, AlreadyApproved))
      case Executed => Err(Decision(Rejected, request.id, request.operation, AlreadyExecuted))
      case _ => Err(Decision(Rejected, request.id, request.operation, Closed(record.state)))
  }

  /** Everything `evaluate_approval` decides between its read of the store and its write. */
  function EvaluateRead(found: Option<Record>, request: Request, approval: Approval, token: Token, current: Time):
    (r: Outcome)
    ensures r.IsApproved() <==>
            && found.Some? && found.value.state == Pending
            && DualControlled(found.value.request, approval, token, current)
            && Comparable(found.value.request, approval, token)
    ensures found.None? || found.value.state != Pending ==>
              r.Decided? && r.decision.state == Rejected && r.decision.requestId == request.id
  {
    match Admit(found, request)
    case Err(decision) => Decided(decision)
    case Ok(stored) => CheckApproval(stored, approval, token, current)
  }
}
