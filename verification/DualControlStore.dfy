/** The file-backed store of dual control requests, and what it does to the map of records it holds. */
module DualControlStore {
  import opened PyText
  import opened DualControl

  type Records = map<string, Record>

  datatype StoreError =
    | AlreadyExists | NotInStore | NotPending(State) | NotApproved(State) | HasExpired | Corrupted | Malformed

  // ---- The operations on the map of records

  function WithCreated(records: Records, request: Request, now: Time): Result<Records, StoreError> {
    if request.id in records then Err(AlreadyExists)
    else Ok(records[request.id := Record(request, None, Pending, now, now)])
  }

  function WithApproval(records: Records, id: string, approval: Approval, now: Time): Result<Records, StoreError> {
    if id !in records then Err(NotInStore)
    else if records[id].state != Pending then Err(NotPending(records[id].state))
    else Ok(records[id := records[id].(approval := Some(approval), state := Approved, updatedAt := now)])
  }

  /** `checkedAt` is the clock reading of the expiry test. */
  function WithExecuted(records: Records, id: string, checkedAt: Time, now: Time): Result<Records, StoreError> {
    if id !in records then Err(NotInStore)
    else if records[id].state != Approved then Err(NotApproved(records[id].state))
    else if records[id].request.IsExpired(checkedAt) then Err(HasExpired)
    else Ok(records[id := records[id].(state := Executed, updatedAt := now)])
  }

  /** `clock` gives the reading of the expiry test of each record. */
  function ExpiredIds(records: Records, clock: string -> Time): set<string> {
    set id | id in records && records[id].state == Pending && records[id].request.IsExpired(clock(id))
  }

  function WithoutExpired(records: Records, clock: string -> Time): Records {
    records - ExpiredIds(records, clock)
  }

  /** What goes is counted, and nothing goes where nothing has expired. */
  lemma ExpiredCount(records: Records, clock: string -> Time)
    ensures |records| - |WithoutExpired(records, clock)| == |ExpiredIds(records, clock)|
    ensures ExpiredIds(records, clock) == {} ==> WithoutExpired(records, clock) == records
  {
    var ids := ExpiredIds(records, clock);
    assert (records - ids).Keys == records.Keys - ids;
    assert |records.Keys - ids| == |records.Keys| - |ids|;
  }

  /** Exactly the pending records go whose time is up. */
  lemma CleanupKeeps(records: Records, clock: string -> Time, id: string, record: Record)
    ensures var after := WithoutExpired(records, clock);
            id in after && after[id] == record <==>
            id in records && records[id] == record && (record.state == Pending ==> clock(id) < record.request.expiresAt)
  {}

  // ---- What every operation keeps

  /** Records sit under their own id; only the three live states are stored; an approval is there once approved. */
  ghost predicate Proper(records: Records) {
    forall id :: id in records ==>
      && records[id].request.id == id
      && records[id].state in {Pending, Approved, Executed}
      && (records[id].approval.Some? <==> records[id].state != Pending)
  }

  /** What may happen to one record in one operation. */
  ghost predicate RecordStep(before: Record, after: Record) {
    || before == after
    || (&& after.request == before.request && after.createdAt == before.createdAt
        && (if before.state == Pending then after.state == Approved && after.approval.Some?
            else before.state == Approved && after.state == Executed && after.approval == before.approval))
  }

  /** New records are pending; old ones step or, only when pending and expired, go. */
  ghost predicate StoreStep(before: Records, after: Records, clock: string -> Time) {
    && (forall id :: id in after && id !in before ==> after[id].state == Pending)
    && (forall id :: id in after && id in before ==> RecordStep(before[id], after[id]))
    && (forall id :: id in before && id !in after ==>
          before[id].state == Pending && before[id].request.IsExpired(clock(id)))
  }

  /** A result of one of the four operations on `records`. */
  ghost predicate ResultOf(records: Records, after: Records, clock: string -> Time) {
    || (exists request, now :: WithCreated(records, request, now) == Ok(after))
    || (exists id, approval, now :: WithApproval(records, id, approval, now) == Ok(after))
    || (exists id, checkedAt, now :: WithExecuted(records, id, checkedAt, now) == Ok(after))
    || after == WithoutExpired(records, clock)
  }

  lemma CreatedKeepsProper(records: Records, request: Request, now: Time, clock: string -> Time)
    requires Proper(records) && WithCreated(records, request, now).Ok?
    ensures var after := WithCreated(records, request, now).value; Proper(after) && StoreStep(records, after, clock)
  {}

  lemma ApprovalKeepsProper(records: Records, id: string, approval: Approval, now: Time, clock: string -> Time)
    requires Proper(records) && WithApproval(records, id, approval, now).Ok?
    ensures var after := WithApproval(records, id, approval, now).value;
            Proper(after) && StoreStep(records, after, clock)
  {}

  lemma ExecutedKeepsProper(records: Records, id: string, checkedAt: Time, now: Time, clock: string -> Time)
    requires Proper(records) && WithExecuted(records, id, checkedAt, now).Ok?
    ensures var after := WithExecuted(records, id, checkedAt, now).value;
            Proper(after) && StoreStep(records, after, clock)
  {}

  lemma CleanupKeepsProper(records: Records, clock: string -> Time)
    requires Proper(records)
    ensures Proper(WithoutExpired(records, clock)) && StoreStep(records, WithoutExpired(records, clock), clock)
  {}

  lemma OperationsKeepProper(records: Records, after: Records, clock: string -> Time)
    requires Proper(records) && ResultOf(records, after, clock)
    ensures Proper(after) && StoreStep(records, after, clock)
  {
    if request, now :| WithCreated(records, request, now) == Ok(after) {
      CreatedKeepsProper(records, request, now, clock);
    } else if id, approval, now :| WithApproval(records, id, approval, now) == Ok(after) {
      ApprovalKeepsProper(records, id, approval, now, clock);
    } else if id, checkedAt, now :| WithExecuted(records, id, checkedAt, now) == Ok(after) {
      ExecutedKeepsProper(records, id, checkedAt, now, clock);
    } else {
      CleanupKeepsProper(records, clock);
    }
  }

  // ---- Records as stored: trees of named fields

  datatype Json = Null | Text(text: string) | Number(number: real) | Object(fields: map<string, Json>)

  function OperationName(o: Operation): string {
    match o
    case KeyRotate => "key_rotate"
    case KeyRevoke => "key_revoke"
    case BreakGlass => "break_glass"
    case ApplySignedBundle => "apply_signed_bundle"
    case ServiceRepair => "service_repair"
    case RestoreAndVerify => "restore_and_verify"
  }

  function LevelName(l: StepUpLevel): string {
    match l
    case SingleFactor => "single_factor"
    case MultiFactor => "multi_factor"
    case HardToken => "hard_token"
  }

  function StateName(s: State): string {
    match s
    case Pending => "pending"
    case Approved => "approved"
    case Rejected => "rejected"
    case Expired => "expired"
    case Executed => "executed"
    case Failed => "failed"
  }

  function OperationNamed(name: string): Option<Operation> {
    if name == "key_rotate" then Some(KeyRotate)
    else if name == "key_revoke" then Some(KeyRevoke)
    else if name == "break_glass" then Some(BreakGlass)
    else if name == "apply_signed_bundle" then Some(ApplySignedBundle)
    else if name == "service_repair" then Some(ServiceRepair)
    else if name == "restore_and_verify" then Some(RestoreAndVerify)
    else None
  }

  function LevelNamed(name: string): Option<StepUpLevel> {
    if name == "single_factor" then Some(SingleFactor)
    else if name == "multi_factor" then Some(MultiFactor)
    else if name == "hard_token" then Some(HardToken)
    else None
  }

  function StateNamed(name: string): Option<State> {
    if name == "pending" then Some(Pending)
    else if name == "approved" then Some(Approved)
    else if name == "rejected" then Some(Rejected)
    else if name == "expired" then Some(Expired)
    else if name == "executed" then Some(Executed)
    else if name == "failed" then Some(Failed)
    else None
  }

  function RequestToDict(r: Request): Json {
    Object(map["request_id" := Text(r.id), "operation" := Text(OperationName(r.operation)),
               "requester_principal" := Text(r.requester), "operation_digest" := Text(r.digest),
               "step_up_required" := Text(LevelName(r.stepUp)), "created_at" := Number(r.createdAt),
               "expires_at" := Number(r.expiresAt), "requester_token_hash" := Text(r.tokenHash)])
  }

  function ApprovalToDict(a: Approval): Json {
    Object(map["request_id" := Text(a.requestId), "approver_principal" := Text(a.approver),
               "approved_at" := Number(a.approvedAt), "approver_token_hash" := Text(a.tokenHash),
               "operation_digest" := Text(a.digest)])
  }

  function ToDict(r: Record): Json {
    Object(map["request" := RequestToDict(r.request),
               "approval" := match r.approval case None => Null case Some(a) => ApprovalToDict(a),
               "state" := Text(StateName(r.state)),
               "created_at" := Number(r.createdAt), "updated_at" := Number(r.updatedAt)])
  }

  // A missing field or a value of another kind gives None, for the source's exception.

  function Field(j: Json, name: string): Option<Json> {
    if j.Object? && name in j.fields then Some(j.fields[name]) else None
  }

  function TextField(j: Json, name: string): Option<string> {
    var f :- Field(j, name);
    if f.Text? then Some(f.text) else None
  }

  function NumberField(j: Json, name: string): Option<real> {
    var f :- Field(j, name);
    if f.Number? then Some(f.number) else None
  }

  function RequestFromDict(j: Json): Option<Request> {
    var id :- TextField(j, "request_id");
    var operationName :- TextField(j, "operation");
    var operation :- OperationNamed(operationName);
    var requester :- TextField(j, "requester_principal");
    var digest :- TextField(j, "operation_digest");
    var levelName :- TextField(j, "step_up_required");
    var stepUp :- LevelNamed(levelName);
    var createdAt :- NumberField(j, "created_at");
    var expiresAt :- NumberField(j, "expires_at");
    var tokenHash :- TextField(j, "requester_token_hash");
    Some(Request(id, operation, requester, digest, stepUp, createdAt, expiresAt, tokenHash))
  }

  function ApprovalFromDict(j: Json): Option<Approval> {
    var requestId :- TextField(j, "request_id");
    var approver :- TextField(j, "approver_principal");
    var approvedAt :- NumberField(j, "approved_at");
    var tokenHash :- TextField(j, "approver_token_hash");
    var digest :- TextField(j, "operation_digest");
    Some(Approval(requestId, approver, approvedAt, tokenHash, digest))
  }

  function FromDict(j: Json): Option<Record> {
    var requestDict :- Field(j, "request");
    var request :- RequestFromDict(requestDict);
    var approvalDict := Field(j, "approval");
    var approval :- if approvalDict.None? || approvalDict.value.Null? then Some(None)
                    else match ApprovalFromDict(approvalDict.value) case None => None case Some(a) => Some(Some(a));
    var stateName :- TextField(j, "state");
    var state :- StateNamed(stateName);
    var createdAt :- NumberField(j, "created_at");
    var updatedAt :- NumberField(j, "updated_at");
    Some(Record(request, approval, state, createdAt, updatedAt))
  }

  lemma RequestRoundTrip(r: Request)
    ensures RequestFromDict(RequestToDict(r)) == Some(r)
  {}

  lemma ApprovalRoundTrip(a: Approval)
    ensures ApprovalFromDict(ApprovalToDict(a)) == Some(a)
  {}

  lemma RecordFields(r: Record)
    ensures var j := ToDict(r);
            && Field(j, "request") == Some(RequestToDict(r.request))
            && Field(j, "approval") == Some(match r.approval case None => Null case Some(a) => ApprovalToDict(a))
            && TextField(j, "state") == Some(StateName(r.state))
            && NumberField(j, "created_at") == Some(r.createdAt) && NumberField(j, "updated_at") == Some(r.updatedAt)
  {}

  lemma StateRoundTrip(s: State)
    ensures StateNamed(StateName(s)) == Some(s)
  {}

  lemma RecordRoundTrip(r: Record)
    ensures FromDict(ToDict(r)) == Some(r)
  {
    RecordFields(r);
    StateRoundTrip(r.state);
    RequestRoundTrip(r.request);
    if r.approval.Some? {
      ApprovalRoundTrip(r.approval.value);
    }
  }

  // ---- The file

  /** What a file holds: nothing readable, or one tree per record. */
  datatype Content = NoFile | Garbled | Stored(dicts: map<string, Json>)

  datatype Disk = Disk(file: Content, temp: Content)

  function Encode(records: Records): Content {
    Stored(map id | id in records :: ToDict(records[id]))
  }

  function Load(file: Content): Result<Records, StoreError> {
    match file
    case NoFile => Ok(map[])
    case Garbled => Err(Corrupted)
    case Stored(dicts) =>
      if forall id :: id in dicts ==> FromDict(dicts[id]).Some?
      then Ok(map id | id in dicts :: FromDict(dicts[id]).value)
      else Err(Malformed)
  }

  lemma LoadUndoesEncode(records: Records)
    ensures Load(Encode(records)) == Ok(records)
  {
    forall id | id in records ensures FromDict(Encode(records).dicts[id]) == Some(records[id]) {
      RecordRoundTrip(records[id]);
    }
    assert Load(Encode(records)).value == records;
  }

  // ---- The store object

  /** The map after `op`, or the first error met. */
  function Then(before: Result<Records, StoreError>, op: Records -> Result<Records, StoreError>):
    Result<Records, StoreError>
  {
    match before case Err(e) => Err(e) case Ok(records) => op(records)
  }

  /** A crash anywhere on the way leaves the file as it was or as it ends up. */
  ghost predicate AllOrNothing(trace: seq<Disk>, trace': seq<Disk>, file: Content, file': Content) {
    trace <= trace' && forall i :: |trace| <= i < |trace'| ==> trace'[i].file == file || trace'[i].file == file'
  }

  /** One lock holder at a time: every method runs from locking to unlocking without interference. */
  class Store {
    var file: Content
    var temp: Content
    ghost var trace: seq<Disk>  // every state the disk has been in

    ghost predicate Valid()
      reads this
    {
      trace != [] && trace[|trace| - 1] == Disk(file, temp)
    }

    ghost function Contents(): Result<Records, StoreError>
      reads this
    {
      Load(file)
    }

    /** The outcome of an operation whose effect on the map is `after`. */
    ghost predicate Performed(file0: Content, trace0: seq<Disk>, after: Result<Records, StoreError>,
                              r: Result<(), StoreError>)
      reads this
    {
      && Valid() && AllOrNothing(trace0, trace, file0, file)
      && (if after.Ok? then r == Ok(()) && Contents() == after
          else r == Err(after.error) && file == file0 && trace == trace0)
    }

    /** Opens a store on whatever a disk holds, the leftovers of a crash included. */
    constructor (disk: Disk)
      ensures Valid() && file == disk.file && temp == disk.temp
    {
      file, temp, trace := disk.file, disk.temp, [disk];
    }

    method ReadAll() returns (r: Result<Records, StoreError>)
      ensures r == Contents()
    {
      r := Load(file);
    }

    /** Truncate the temporary file, fill it, rename it over the real one. */
    method WriteAll(records: Records)
      requires Valid()
      modifies this
      ensures Valid() && file == Encode(records) && temp == NoFile
      ensures Contents() == Ok(records)
      ensures AllOrNothing(old(trace), trace, old(file), file)
    {
      temp := Garbled;
      trace := trace + [Disk(file, temp)];
      temp := Encode(records);
      trace := trace + [Disk(file, temp)];
      file, temp := temp, NoFile;
      trace := trace + [Disk(file, temp)];
      LoadUndoesEncode(records);
    }

    method Create(request: Request, now: Time) returns (r: Result<(), StoreError>)
      requires Valid()
      modifies this
      ensures Performed(old(file), old(trace), Then(old(Contents()), rs => WithCreated(rs, request, now)), r)
    {
      var loaded := ReadAll();
      if loaded.Err? { return Err(loaded.error); }
      var records := loaded.value;
      if request.id in records { return Err(AlreadyExists); }
      records := records[request.id := Record(request, None, Pending, now, now)];
      WriteAll(records);
      r := Ok(());
    }

    method Approve(id: string, approval: Approval, now: Time) returns (r: Result<(), StoreError>)
      requires Valid()
      modifies this
      ensures Performed(old(file), old(trace), Then(old(Contents()), rs => WithApproval(rs, id, approval, now)), r)
    {
      var loaded := ReadAll();
      if loaded.Err? { return Err(loaded.error); }
      var records := loaded.value;
      if id !in records { return Err(NotInStore); }
      var record := records[id];
      if record.state != Pending { return Err(NotPending(record.state)); }
      records := records[id := Record(record.request, Some(approval), Approved, record.createdAt, now)];
      WriteAll(records);
      r := Ok(());
    }

    method Get(id: string) returns (r: Result<Option<Record>, StoreError>)
      ensures r == match Contents()
                   case Err(e) => Err(e)
                   case Ok(records) => Ok(if id in records then Some(records[id]) else None)
    {
      var loaded := ReadAll();
      match loaded {
        case Err(e) => r := Err(e);
        case Ok(records) => r := Ok(if id in records then Some(records[id]) else None);
      }
    }

    method MarkExecuted(id: string, checkedAt: Time, now: Time) returns (r: Result<(), StoreError>)
      requires Valid()
      modifies this
      ensures Performed(old(file), old(trace), Then(old(Contents()), rs => WithExecuted(rs, id, checkedAt, now)), r)
    {
      var loaded := ReadAll();
      if loaded.Err? { return Err(loaded.error); }
      var records := loaded.value;
      if id !in records { return Err(NotInStore); }
      var record := records[id];
      if record.state != Approved { return Err(NotApproved(record.state)); }
      if record.request.IsExpired(checkedAt) { return Err(HasExpired); }
      records := records[id := Record(record.request, record.approval, Executed, record.createdAt, now)];
      WriteAll(records);
      r := Ok(());
    }

    method CleanupExpired(clock: string -> Time) returns (r: Result<nat, StoreError>)
      requires Valid()
      modifies this
      ensures Valid() && AllOrNothing(old(trace), trace, old(file), file)
      ensures match old(Contents())
              case Err(e) => r == Err(e) && file == old(file)
              case Ok(records) =>
                && Contents() == Ok(WithoutExpired(records, clock))
                && r == Ok(|records| - |WithoutExpired(records, clock)|)
    {
      var loaded := ReadAll();
      if loaded.Err? { return Err(loaded.error); }
      var records := loaded.value;
      var ids := ExpiredIds(records, clock);
      ExpiredCount(records, clock);
      if ids != {} {
        WriteAll(records - ids);
      }
      r := Ok(|ids|);
    }
  }

  // ---- The two calls clients make

  /** `store` is null when the caller passed none; `writtenAt` is the clock reading of the write. */
  method EvaluateApproval(request: Request, approval: Approval, token: Token, current: Time, store: Store?,
                          writtenAt: Time)
    returns (outcome: Outcome)
    requires store != null ==> store.Valid()
    modifies store
    ensures store == null ==> outcome == CheckApproval(request, approval, token, current)
    ensures store != null ==> store.Valid() && AllOrNothing(old(store.trace), store.trace, old(store.file), store.file)
    ensures store != null && old(store.Contents()).Err? ==> outcome == Raised && store.file == old(store.file)
    ensures store != null && old(store.Contents()).Ok? ==>
              var records := old(store.Contents()).value;
              var read := EvaluateRead(if request.id in records then Some(records[request.id]) else None,
                                       request, approval, token, current);
              if !read.IsApproved() then outcome == read && store.file == old(store.file)
              else match WithApproval(records, read.decision.requestId, approval, writtenAt)
                   case Ok(after) => outcome == read && store.Contents() == Ok(after)
                   case Err(_) => outcome == Decided(read.decision.(state := Rejected, reason := RejectedByStore))
                                  && store.file == old(store.file)
  {
    var checked := request;
    if store != null {
      var found := store.Get(request.id);
      if found.Err? { return Raised; }
      match Admit(found.value, request) {
        case Err(decision) => return Decided(decision);
        case Ok(stored) => checked := stored;
      }
    }
    outcome := CheckApproval(checked, approval, token, current);
    if outcome.IsApproved() && store != null {
      var written := store.Approve(checked.id, approval, writtenAt);
      if written.Err? {
        outcome := Deny(checked, Rejected, RejectedByStore);
      }
    }
  }

  method MarkExecuted(id: string, store: Store, checkedAt: Time, now: Time) returns (outcome: Outcome)
    requires store.Valid()
    modifies store
    ensures store.Valid() && AllOrNothing(old(store.trace), store.trace, old(store.file), store.file)
    ensures old(store.Contents()).Err? ==> outcome == Raised && store.file == old(store.file)
    ensures old(store.Contents()).Ok? ==>
              var records := old(store.Contents()).value;
              match WithExecuted(records, id, checkedAt, now)
              case Ok(after) => store.Contents() == Ok(after)
                                && var operation := after[id].request.operation;
                                outcome == Decided(Decision(Executed, id, operation, MarkedExecuted))
              case Err(_) => outcome.Decided? && outcome.decision.state == Failed && store.file == old(store.file)
  {
    var found := store.Get(id);
    if found.Err? { return Raised; }
    var operation := if found.value.Some? then found.value.value.request.operation else ServiceRepair;
    var marked := store.MarkExecuted(id, checkedAt, now);
    if marked.Err? {
      return Decided(Decision(Failed, id, operation, StoreError));
    }
    outcome := Decided(Decision(Executed, id, operation, MarkedExecuted));
  }
}
