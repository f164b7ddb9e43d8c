/** Validation of identity tokens, with and without the cache. */
module Entra {
  import opened PyText
  import opened DualControl
  import C = TokenCache

  /** A claim of a decoded token, as a value of the interchange format; `Absent` when it is not there. */
  datatype Claim =
    | Absent | Null | Text(text: string) | Number(number: real) | Flag(flag: bool) | Structure(nonEmpty: bool)
  {
    predicate Truthy() {
      match this
      case Absent | Null => false
      case Text(t) => t != ""
      case Number(n) => n != 0.0
      case Flag(b) => b
      case Structure(nonEmpty) => nonEmpty
    }

    /** The language counts truth values as numbers. */
    function AsNumber(): Option<real> {
      match this
      case Number(n) => Some(n)
      case Flag(b) => Some(if b then 1.0 else 0.0)
      case _ => None
    }
  }

  datatype Claims = Claims(oid: Claim, sub: Claim, exp: Claim, nbf: Claim, tid: Claim, acr: Claim)

  datatype Config = Config(tenantId: string, hasKey: bool)

  datatype Failure =
    | NoSigningKey | DecodeFailed | BadPrincipal | BadExpiry | TokenExpired | BadNotBefore | NotYetValid
    | BadTenant | WrongTenant | BadAcr | UnknownAcr | StepUpNotMet | CacheRaised

  type Outcome = Result<Token, Failure>

  function LevelOfAcr(acr: string): Option<StepUpLevel> {
    if acr == "urn:microsoft:entra:1f:singlefactor" then Some(SingleFactor)
    else if acr == "urn:microsoft:entra:2f:mfa" then Some(MultiFactor)
    else if acr == "urn:microsoft:entra:3f:hardtoken" then Some(HardToken)
    else None
  }

  /** The library's verification of the signature and standard claims: `decode(token, t)` at time `t`. */
  type Decoder = (string, Time) -> Option<Claims>

  /** What tells one validator from another, but for its cache. */
  datatype Validator = Validator(config: Config, decode: Decoder)

  /** What is left to check of a token whose signature holds. */
  function CheckClaims(c: Claims, tenantId: string, hash: string, required: StepUpLevel, now: Time): Outcome {
    var principal := if c.oid.Truthy() then c.oid else if c.sub == Absent then Text("") else c.sub;
    if !principal.Truthy() || !principal.Text? then Err(BadPrincipal)
    else if c.exp.AsNumber().None? || c.exp.AsNumber().value <= 0.0 then Err(BadExpiry)
    else if now >= c.exp.AsNumber().value then Err(Failure.TokenExpired)
    else if !c.nbf.Absent? && !c.nbf.Null? && c.nbf.AsNumber().None? then Err(BadNotBefore)
    else if !c.nbf.Absent? && !c.nbf.Null? && now < c.nbf.AsNumber().value then Err(NotYetValid)
    else if !c.tid.Truthy() || !c.tid.Text? then Err(BadTenant)
    else if c.tid.text != tenantId then Err(WrongTenant)
    else if !c.acr.Absent? && !c.acr.Text? then Err(BadAcr)
    else match LevelOfAcr(if c.acr.Absent? then "" else c.acr.text)
         case None => Err(UnknownAcr)
         case Some(level) =>
           if !level.AtLeast(required) then Err(StepUpNotMet)
           else Ok(Token(principal.text, level, now, c.exp.AsNumber().value, hash))
  }

  /** Validation without a cache, all at time `now`. */
  function Uncached(v: Validator, token: string, hash: string, required: StepUpLevel, now: Time): (outcome: Outcome)
    ensures outcome.Ok? ==>
              && now < outcome.value.expiresAt && outcome.value.hash == hash
              && outcome.value.level.AtLeast(required)
  {
    if !v.config.hasKey then Err(NoSigningKey)
    else match v.decode(token, now)
         case None => Err(DecodeFailed)
         case Some(claims) => CheckClaims(claims, v.config.tenantId, hash, required, now)
  }

  /** Fixed keys: a token once accepted is decoded to the same claims until it expires. */
  ghost predicate StableDecoding(decode: Decoder) {
    forall token, t, t' :: t <= t' && decode(token, t).Some?
        && decode(token, t).value.exp.AsNumber().Some? && t' < decode(token, t).value.exp.AsNumber().value
      ==> decode(token, t') == decode(token, t)
  }

  ghost predicate Injective(hash: string -> string) {
    forall a, b :: hash(a) == hash(b) ==> a == b
  }

  /** Everything but the time of validation. */
  ghost predicate SameToken(a: Token, b: Token) {
    a == b.(validatedAt := a.validatedAt)
  }

  /** The same failure, or success with the same token. */
  ghost predicate Agrees(a: Outcome, b: Outcome) {
    match a case Err(_) => a == b case Ok(token) => b.Ok? && SameToken(token, b.value)
  }

  /** What an acceptance of a token at one time says about its validation at a later one. */
  lemma AcceptedStaysAccepted(v: Validator, token: string, hash: string,
                              required: StepUpLevel, t: Time, required': StepUpLevel, t': Time)
    requires StableDecoding(v.decode) && t <= t'
    requires Uncached(v, token, hash, required, t).Ok?
    ensures var accepted := Uncached(v, token, hash, required, t).value;
            accepted.level.AtLeast(required') && !accepted.IsExpired(t') ==>
            Agrees(Ok(accepted), Uncached(v, token, hash, required', t'))
  {}

  // ---- What an accepted token says

  ghost predicate IsFalse(c: Claim) {
    c == Absent || c == Null || c == Text("") || c == Number(0.0) || c == Flag(false) || c == Structure(false)
  }

  /** A claim that is a number, or a truth value, which counts as one or zero. */
  ghost predicate Says(c: Claim, n: real) {
    c == Number(n) || (c == Flag(true) && n == 1.0) || (c == Flag(false) && n == 0.0)
  }

  ghost predicate Level(acr: Claim, level: StepUpLevel) {
    || (acr == Text("urn:microsoft:entra:1f:singlefactor") && level == SingleFactor)
    || (acr == Text("urn:microsoft:entra:2f:mfa") && level == MultiFactor)
    || (acr == Text("urn:microsoft:entra:3f:hardtoken") && level == HardToken)
  }

  /**
   * The token that claims stand for: the principal is oid's, and sub's only when oid says nothing; the expiry is exp,
   * still to come; nbf, where there is one, is past; the tenant is the configured one; and the level is what acr names.
   */
  ghost predicate StandFor(c: Claims, tenantId: string, now: Time, t: Token) {
    && t.principal != "" && (c.oid == Text(t.principal) || (IsFalse(c.oid) && c.sub == Text(t.principal)))
    && Says(c.exp, t.expiresAt) && 0.0 < t.expiresAt && now < t.expiresAt
    && (c.nbf == Absent || c.nbf == Null || exists n :: Says(c.nbf, n) && n <= now)
    && tenantId != "" && c.tid == Text(tenantId)
    && Level(c.acr, t.level) && t.validatedAt == now
  }

  /** The token that a text stands for: there is a key, it decodes, and its claims stand for it at the level
      required. */
  ghost predicate StandsFor(v: Validator, token: string, hash: string, required: StepUpLevel, now: Time, t: Token) {
    && v.config.hasKey && v.decode(token, now).Some?
    && StandFor(v.decode(token, now).value, v.config.tenantId, now, t) && t.hash == hash
    && (t.level == required || t.level == HardToken || required == SingleFactor)
  }

  lemma ClaimsStandFor(c: Claims, tenantId: string, hash: string, required: StepUpLevel, now: Time, t: Token)
    ensures CheckClaims(c, tenantId, hash, required, now) == Ok(t) <==>
            && StandFor(c, tenantId, now, t) && t.hash == hash
            && (t.level == required || t.level == HardToken || required == SingleFactor)
  {
    LevelIsNamed(if c.acr.Absent? then "" else if c.acr.Text? then c.acr.text else "");
    NumberIsSaid(c.nbf);
    NumberIsSaid(c.exp);
    PrincipalIsNamed(c);
  }

  lemma NumberIsSaid(c: Claim)
    ensures c.AsNumber().Some? ==> Says(c, c.AsNumber().value)
    ensures forall n :: Says(c, n) ==> c.AsNumber() == Some(n)
  {}

  lemma LevelIsNamed(acr: string)
    ensures forall level :: LevelOfAcr(acr) == Some(level) <==> Level(Text(acr), level)
  {
    assert "urn:microsoft:entra:1f:singlefactor"[20] == '1';
    assert "urn:microsoft:entra:2f:mfa"[20] == '2';
    assert "urn:microsoft:entra:3f:hardtoken"[20] == '3';
  }

  lemma PrincipalIsNamed(c: Claims)
    ensures c.oid.Truthy() <==> !IsFalse(c.oid)
    ensures c.sub.Truthy() <==> !IsFalse(c.sub)
  {}

  /** Without a cache, a text is accepted exactly as the token it stands for. */
  lemma AcceptedIffClaimsStandFor(v: Validator, token: string, hash: string, required: StepUpLevel, now: Time, t: Token)
    ensures Uncached(v, token, hash, required, now) == Ok(t) <==> StandsFor(v, token, hash, required, now, t)
  {
    if v.decode(token, now).Some? {
      ClaimsStandFor(v.decode(token, now).value, v.config.tenantId, hash, required, now, t);
    }
  }

  // ---- Validation with the cache

  /** The clock readings of one call: for the cache lookup, for the checks, and, per entry, for the clean-up. */
  datatype Call = Call(token: string, required: StepUpLevel, lookupAt: Time, checkAt: Time, clock: string -> Time)

  predicate CacheAnswers(es: C.Entries, hash: string, call: Call) {
    && C.Hit(es, C.Get(hash, call.lookupAt))
    && C.Find(es, hash).value.level.AtLeast(call.required)
  }

  function Cached(v: Validator, hash: string -> string, es: C.Entries, max: int, call: Call): (Outcome, C.Entries) {
    var h := hash(call.token);
    var es1 := C.Apply(es, max, C.Get(h, call.lookupAt));
    if CacheAnswers(es, h, call) then (Ok(C.Find(es, h).value), es1)
    else
      var result := Uncached(v, call.token, h, call.required, call.checkAt);
      if result.Err? then (result, es1)
      else (if max >= 0 then result else Err(CacheRaised), C.Apply(es1, max, C.Put(result.value, call.clock)))
  }

  class EntraTokenValidator {
    const v: Validator
    const hash: string -> string
    const cache: C.TokenCache?

    constructor (config: Config, decode: Decoder, hash: string -> string, cache: C.TokenCache?)
      ensures v == Validator(config, decode) && this.hash == hash && this.cache == cache
    {
      this.v, this.hash, this.cache := Validator(config, decode), hash, cache;
    }

    method Validate(call: Call) returns (outcome: Outcome)
      requires cache != null ==> cache.Valid()
      modifies cache
      ensures cache == null ==> outcome == Uncached(v, call.token, hash(call.token), call.required, call.checkAt)
      ensures cache != null ==>
                && cache.Valid()
                && (outcome, cache.entries) == Cached(v, hash, old(cache.entries), cache.maxEntries, call)
      ensures outcome.Ok? ==>
                || StandsFor(v, call.token, hash(call.token), call.required, call.checkAt, outcome.value)
                || (cache != null && outcome.value in old(cache.entries))
    {
      var tokenHash := hash(call.token);
      if cache != null {
        var cached := cache.Get(tokenHash, call.lookupAt);
        if cached.Some? && cached.value.level.AtLeast(call.required) {
          return Ok(cached.value);
        }
      }
      outcome := Uncached(v, call.token, tokenHash, call.required, call.checkAt);
      if outcome.Ok? {
        AcceptedIffClaimsStandFor(v, call.token, tokenHash, call.required, call.checkAt, outcome.value);
      }
      if outcome.Ok? && cache != null {
        var stored := cache.Put(outcome.value, call.clock);
        if !stored {
          outcome := Err(CacheRaised);
        }
      }
    }
  }

  // ---- Transparency. The cache is handed to a validator, so several may share one.

  /** The validators that share a cache. */
  type Sharing = Validator -> bool

  /** What one of the validators accepts, every one of them accepts later, as long as it is live and strong enough. */
  ghost predicate Interchangeable(shares: Sharing, hash: string -> string) {
    forall v, u, token, required, t, required', t' ::
      shares(v) && shares(u) ==> Consistent(v, u, token, hash(token), required, t, required', t')
  }

  ghost predicate Consistent(v: Validator, u: Validator, token: string, h: string,
                             required: StepUpLevel, t: Time, required': StepUpLevel, t': Time) {
    var first := Uncached(v, token, h, required, t);
    first.Ok? && t <= t' && first.value.level.AtLeast(required') && !first.value.IsExpired(t') ==>
      Agrees(first, Uncached(u, token, h, required', t'))
  }

  /** A validator with fixed keys is interchangeable with itself. */
  lemma OneIsInterchangeable(v: Validator, hash: string -> string)
    requires StableDecoding(v.decode)
    ensures Interchangeable(u => u == v, hash)
  {
    forall token, required, t, required', t'
      ensures Consistent(v, v, token, hash(token), required, t, required', t')
    {
      var first := Uncached(v, token, hash(token), required, t);
      if first.Ok? && t <= t' {
        AcceptedStaysAccepted(v, token, hash(token), required, t, required', t');
      }
    }
  }

  /** Every entry is what one of the validators accepted some token as, at some time up to `now`. */
  ghost predicate Genuine(shares: Sharing, hash: string -> string, es: C.Entries, now: Time) {
    forall e :: e in es ==> AcceptedBefore(shares, hash, e, now)
  }

  ghost predicate AcceptedBefore(shares: Sharing, hash: string -> string, e: Token, now: Time) {
    exists v, token, required, t :: AcceptedAs(shares, hash, e, now, v, token, required, t)
  }

  ghost predicate AcceptedAs(shares: Sharing, hash: string -> string, e: Token, now: Time,
                             v: Validator, token: string, required: StepUpLevel, t: Time) {
    shares(v) && t <= now && Uncached(v, token, hash(token), required, t) == Ok(e)
  }

  /** A call leaves old entries, and perhaps the one it was accepted as. */
  lemma EntriesOfCall(v: Validator, hash: string -> string, es: C.Entries, max: int, call: Call, e: Token)
    requires e in Cached(v, hash, es, max, call).1
    ensures e in es || Uncached(v, call.token, hash(call.token), call.required, call.checkAt) == Ok(e)
  {
    var h := hash(call.token);
    var looked := C.Apply(es, max, C.Get(h, call.lookupAt));
    var result := Uncached(v, call.token, h, call.required, call.checkAt);
    if !CacheAnswers(es, h, call) && result.Ok? {
      C.EntriesAfterOp(looked, max, C.Put(result.value, call.clock), e);
    }
    if e in looked {
      C.EntriesAfterOp(es, max, C.Get(h, call.lookupAt), e);
    }
  }

  lemma StillAccepted(shares: Sharing, hash: string -> string, e: Token, now: Time, later: Time)
    requires AcceptedBefore(shares, hash, e, now) && now <= later
    ensures AcceptedBefore(shares, hash, e, later)
  {
    var v, token, required, t :| AcceptedAs(shares, hash, e, now, v, token, required, t);
    assert AcceptedAs(shares, hash, e, later, v, token, required, t);
  }

  lemma CallKeepsGenuine(shares: Sharing, v: Validator, hash: string -> string, es: C.Entries, max: int, call: Call,
                         now: Time)
    requires shares(v) && Genuine(shares, hash, es, now) && now <= call.lookupAt <= call.checkAt
    ensures Genuine(shares, hash, Cached(v, hash, es, max, call).1, call.checkAt)
  {
    forall e | e in Cached(v, hash, es, max, call).1 ensures AcceptedBefore(shares, hash, e, call.checkAt) {
      EntriesOfCall(v, hash, es, max, call, e);
      if e in es {
        StillAccepted(shares, hash, e, now, call.checkAt);
      } else {
        assert AcceptedAs(shares, hash, e, call.checkAt, v, call.token, call.required, call.checkAt);
      }
    }
  }

  /** A genuine entry is what any of the validators says of its token, as long as it is live and strong enough. */
  lemma GenuineEntryIsRight(shares: Sharing, u: Validator, hash: string -> string, e: Token, now: Time,
                            token: string, required: StepUpLevel, at: Time)
    requires Interchangeable(shares, hash) && Injective(hash) && shares(u)
    requires AcceptedBefore(shares, hash, e, now) && e.hash == hash(token)
    requires now <= at && !e.IsExpired(at) && e.level.AtLeast(required)
    ensures Agrees(Ok(e), Uncached(u, token, hash(token), required, at))
  {
    var v, token0, required0, t :| AcceptedAs(shares, hash, e, now, v, token0, required0, t);
    assert token0 == token;
    assert Consistent(v, u, token, hash(token), required0, t, required, at);
  }

  /** A cached answer is what validation would say at the moment of the lookup. */
  lemma CachedAnswerIsRight(shares: Sharing, u: Validator, hash: string -> string, es: C.Entries, call: Call, now: Time)
    requires Interchangeable(shares, hash) && Injective(hash) && shares(u)
    requires Genuine(shares, hash, es, now) && now <= call.lookupAt <= call.checkAt
    requires CacheAnswers(es, hash(call.token), call)
    ensures var h := hash(call.token);
            var answer: Outcome := Ok(C.Find(es, h).value);
            && Agrees(answer, Uncached(u, call.token, h, call.required, call.lookupAt))
            && (Agrees(answer, Uncached(u, call.token, h, call.required, call.checkAt))
                <==> call.checkAt < C.Find(es, h).value.expiresAt)
  {
    var e := C.Find(es, hash(call.token)).value;
    GenuineEntryIsRight(shares, u, hash, e, now, call.token, call.required, call.lookupAt);
    if call.checkAt < e.expiresAt {
      GenuineEntryIsRight(shares, u, hash, e, now, call.token, call.required, call.checkAt);
    }
  }

  /** Calls of the validators that share a cache, between which it may lose any entries. */
  datatype Event = Ask(v: Validator, call: Call) | Evict(keep: Token -> bool)

  function EntriesAfter(hash: string -> string, max: int, events: seq<Event>): C.Entries {
    if events == [] then []
    else
      var es := EntriesAfter(hash, max, events[..|events| - 1]);
      match events[|events| - 1]
      case Ask(v, call) => Cached(v, hash, es, max, call).1
      case Evict(keep) => C.Filter(es, keep)
  }

  ghost predicate AskedOf(shares: Sharing, events: seq<Event>) {
    forall i :: 0 <= i < |events| && events[i].Ask? ==> shares(events[i].v)
  }

  /** The clock never runs backwards, within a call or from one to the next. */
  ghost predicate ForwardInTime(events: seq<Event>) {
    && (forall i :: 0 <= i < |events| && events[i].Ask? ==> events[i].call.lookupAt <= events[i].call.checkAt)
    && (forall i, j :: 0 <= i < j < |events| && events[i].Ask? && events[j].Ask? ==>
          events[i].call.checkAt <= events[j].call.lookupAt)
  }

  /** Every call of `events` is over by `now`. */
  ghost predicate AllBefore(events: seq<Event>, now: Time) {
    forall i :: 0 <= i < |events| && events[i].Ask? ==> events[i].call.checkAt <= now
  }

  lemma GenuineLater(shares: Sharing, hash: string -> string, es: C.Entries, now: Time, later: Time)
    requires Genuine(shares, hash, es, now) && now <= later
    ensures Genuine(shares, hash, es, later)
  {
    forall e | e in es ensures AcceptedBefore(shares, hash, e, later) {
      StillAccepted(shares, hash, e, now, later);
    }
  }

  lemma EvictionKeepsGenuine(shares: Sharing, hash: string -> string, es: C.Entries, now: Time, keep: Token -> bool)
    requires Genuine(shares, hash, es, now)
    ensures Genuine(shares, hash, C.Filter(es, keep), now)
  {}

  lemma LastOver(shares: Sharing, events: seq<Event>, now: Time)
    requires events != [] && AskedOf(shares, events) && ForwardInTime(events) && AllBefore(events, now)
    ensures var before, last := events[..|events| - 1], events[|events| - 1];
            && AskedOf(shares, before) && ForwardInTime(before) && AllBefore(before, now)
            && (last.Ask? ==> shares(last.v) && AllBefore(before, last.call.lookupAt)
                              && last.call.lookupAt <= last.call.checkAt <= now)
  {}

  lemma {:induction false} EntriesStayGenuine(shares: Sharing, hash: string -> string, max: int, events: seq<Event>,
                                              now: Time)
    requires AskedOf(shares, events) && ForwardInTime(events) && AllBefore(events, now)
    ensures Genuine(shares, hash, EntriesAfter(hash, max, events), now)
    decreases |events|
  {
    if events != [] {
      var before := events[..|events| - 1];
      var es := EntriesAfter(hash, max, before);
      LastOver(shares, events, now);
      match events[|events| - 1] {
        case Ask(v, call) =>
          EntriesStayGenuine(shares, hash, max, before, call.lookupAt);
          CallKeepsGenuine(shares, v, hash, es, max, call, call.lookupAt);
          GenuineLater(shares, hash, Cached(v, hash, es, max, call).1, call.checkAt, now);
        case Evict(keep) =>
          EntriesStayGenuine(shares, hash, max, before, now);
          EvictionKeepsGenuine(shares, hash, es, now, keep);
      }
    }
  }

  /** The answer of one call of a run, and what validation without a cache would say at the lookup and at the checks. */
  function Answer(hash: string -> string, max: int, events: seq<Event>, i: nat): Outcome
    requires i < |events| && events[i].Ask?
  {
    Cached(events[i].v, hash, EntriesAfter(hash, max, events[..i]), max, events[i].call).0
  }

  function Uninformed(hash: string -> string, events: seq<Event>, i: nat, now: Time): Outcome
    requires i < |events| && events[i].Ask?
  {
    var call := events[i].call;
    Uncached(events[i].v, call.token, hash(call.token), call.required, now)
  }

  predicate FromCache(hash: string -> string, max: int, events: seq<Event>, i: nat)
    requires i < |events| && events[i].Ask?
  {
    CacheAnswers(EntriesAfter(hash, max, events[..i]), hash(events[i].call.token), events[i].call)
  }

  /**
   * Over every run of interchangeable validators, each call answers as validation without a cache would: at the lookup
   * when the cache answers, at the checks when it does not. It differs from the latter exactly when the token expires
   * between the two readings of the call, or the cache's limit is negative and there was something to store.
   */
  lemma SharedCacheIsTransparent(shares: Sharing, hash: string -> string, max: int, events: seq<Event>, i: nat)
    requires Interchangeable(shares, hash) && Injective(hash) && AskedOf(shares, events) && ForwardInTime(events)
    requires i < |events| && events[i].Ask?
    ensures var call, answer := events[i].call, Answer(hash, max, events, i);
            var atCheck := Uninformed(hash, events, i, call.checkAt);
            && (FromCache(hash, max, events, i) ==>
                  && Agrees(answer, Uninformed(hash, events, i, call.lookupAt))
                  && (Agrees(answer, atCheck) <==> call.checkAt < answer.value.expiresAt))
            && (!FromCache(hash, max, events, i) ==> (Agrees(answer, atCheck) <==> max >= 0 || atCheck.Err?))
            && (max >= 0 && call.lookupAt == call.checkAt ==> Agrees(answer, atCheck))
  {
    var call, es := events[i].call, EntriesAfter(hash, max, events[..i]);
    EntriesStayGenuine(shares, hash, max, events[..i], call.lookupAt);
    if FromCache(hash, max, events, i) {
      CachedAnswerIsRight(shares, events[i].v, hash, es, call, call.lookupAt);
    }
  }

  /** One validator with fixed keys is the ordinary case of it. */
  lemma CacheIsTransparent(v: Validator, hash: string -> string, max: int, events: seq<Event>, i: nat)
    requires StableDecoding(v.decode) && Injective(hash) && ForwardInTime(events)
    requires forall j :: 0 <= j < |events| && events[j].Ask? ==> events[j].v == v
    requires i < |events| && events[i].Ask?
    ensures var call, answer := events[i].call, Answer(hash, max, events, i);
            var atCheck := Uninformed(hash, events, i, call.checkAt);
            && (FromCache(hash, max, events, i) ==>
                  && Agrees(answer, Uninformed(hash, events, i, call.lookupAt))
                  && (Agrees(answer, atCheck) <==> call.checkAt < answer.value.expiresAt))
            && (!FromCache(hash, max, events, i) ==> (Agrees(answer, atCheck) <==> max >= 0 || atCheck.Err?))
            && (max >= 0 && call.lookupAt == call.checkAt ==> Agrees(answer, atCheck))
  {
    OneIsInterchangeable(v, hash);
    SharedCacheIsTransparent(u => u == v, hash, max, events, i);
  }

  // ---- When a shared cache is transparent

  /** Every call of every run that reads the clock once is answered as it would be without a cache. */
  ghost predicate Transparent(shares: Sharing, hash: string -> string, max: int) {
    forall events: seq<Event>, i: nat :: AskedOf(shares, events) && ForwardInTime(events) ==>
        AnswersTruly(hash, max, events, i)
  }

  ghost predicate AnswersTruly(hash: string -> string, max: int, events: seq<Event>, i: nat) {
    i < |events| && events[i].Ask? && events[i].call.lookupAt == events[i].call.checkAt ==>
      Agrees(Answer(hash, max, events, i), Uninformed(hash, events, i, events[i].call.checkAt))
  }

  function Once(token: string, required: StepUpLevel, t: Time): Call { Call(token, required, t, t, _ => t) }

  /** After one accepted call, a cache with room holds exactly that entry. */
  lemma OneEntry(v: Validator, hash: string -> string, max: int, call: Call)
    requires max >= 1
    requires Uncached(v, call.token, hash(call.token), call.required, call.checkAt).Ok?
    ensures EntriesAfter(hash, max, [Ask(v, call)])
         == [Uncached(v, call.token, hash(call.token), call.required, call.checkAt).value]
  {
    var e := Uncached(v, call.token, hash(call.token), call.required, call.checkAt).value;
    assert [Ask(v, call)][..0] == [];
    assert C.Candidates([], e, call.clock) == [e];
  }

  /** A call of one validator and a later one of another, which the cache answers. */
  function TwoCalls(v: Validator, u: Validator, first: Call, second: Call): seq<Event> {
    [Ask(v, first), Ask(u, second)]
  }

  lemma SecondIsFromCache(v: Validator, u: Validator, hash: string -> string, max: int, first: Call, second: Call)
    requires max >= 1 && first.token == second.token
    requires var outcome := Uncached(v, first.token, hash(first.token), first.required, first.checkAt);
             outcome.Ok? && outcome.value.level.AtLeast(second.required) && !outcome.value.IsExpired(second.lookupAt)
    ensures Answer(hash, max, TwoCalls(v, u, first, second), 1)
         == Uncached(v, first.token, hash(first.token), first.required, first.checkAt)
  {
    assert TwoCalls(v, u, first, second)[..1] == [Ask(v, first)];
    OneEntry(v, hash, max, first);
  }

  /** A shared cache with room is transparent exactly when the validators are interchangeable. */
  lemma TransparentIffInterchangeable(shares: Sharing, hash: string -> string, max: int)
    requires Injective(hash) && max >= 1
    ensures Transparent(shares, hash, max) <==> Interchangeable(shares, hash)
  {
    if Interchangeable(shares, hash) {
      forall events: seq<Event>, i: nat | AskedOf(shares, events) && ForwardInTime(events)
        ensures AnswersTruly(hash, max, events, i)
      {
        if i < |events| && events[i].Ask? {
          SharedCacheIsTransparent(shares, hash, max, events, i);
        }
      }
    }
    if Transparent(shares, hash, max) {
      forall v, u, token, required, t, required', t' | shares(v) && shares(u)
        ensures Consistent(v, u, token, hash(token), required, t, required', t')
      {
        TransparentIsConsistent(shares, hash, max, v, u, token, required, t, required', t');
      }
    }
  }

  lemma TwoCallsForward(v: Validator, u: Validator, first: Call, second: Call)
    requires first.lookupAt <= first.checkAt <= second.lookupAt <= second.checkAt
    ensures ForwardInTime(TwoCalls(v, u, first, second))
  {}

  lemma TruthOfTwoCalls(shares: Sharing, hash: string -> string, max: int, v: Validator, u: Validator,
                        first: Call, second: Call)
    requires Transparent(shares, hash, max) && shares(v) && shares(u)
    requires first.lookupAt <= first.checkAt <= second.lookupAt == second.checkAt
    ensures AnswersTruly(hash, max, TwoCalls(v, u, first, second), 1)
  {
    TwoCallsForward(v, u, first, second);
    assert AskedOf(shares, TwoCalls(v, u, first, second));
  }

  lemma TransparentIsConsistent(shares: Sharing, hash: string -> string, max: int, v: Validator, u: Validator,
                                token: string, required: StepUpLevel, t: Time, required': StepUpLevel, t': Time)
    requires Transparent(shares, hash, max) && max >= 1 && shares(v) && shares(u)
    ensures Consistent(v, u, token, hash(token), required, t, required', t')
  {
    var outcome := Uncached(v, token, hash(token), required, t);
    if outcome.Ok? && t <= t' && outcome.value.level.AtLeast(required') && !outcome.value.IsExpired(t') {
      var first, second := Once(token, required, t), Once(token, required', t');
      TruthOfTwoCalls(shares, hash, max, v, u, first, second);
      SecondIsFromCache(v, u, hash, max, first, second);
    }
  }

  // ---- Two runs in which a cached answer is not what validation would say

  const MULTI_FACTOR_ACR := "urn:microsoft:entra:2f:mfa"

  const CLAIMS := Claims(Text("p"), Absent, Number(10.0), Absent, Text("tenant"), Text(MULTI_FACTOR_ACR))

  function AnyToken(): Decoder { (token: string, t: Time) => Some(CLAIMS) }

  function ValidatorOf(tenantId: string): Validator { Validator(Config(tenantId, true), AnyToken()) }

  lemma AnyTokenIsStable()
    ensures StableDecoding(AnyToken())
  {}

  lemma AnyTokenChecked(tenantId: string, token: string, hash: string, now: Time)
    ensures Uncached(ValidatorOf(tenantId), token, hash, MultiFactor, now) ==
            if now >= 10.0 then Err(Failure.TokenExpired) else if tenantId != "tenant" then Err(WrongTenant)
            else Ok(Token("p", MultiFactor, now, 10.0, hash))
  {
    assert LevelOfAcr(MULTI_FACTOR_ACR) == Some(MultiFactor);
  }

  /** A token that expires between the lookup and the moment of the checks: the cache accepts it, the checks would
      not. */
  lemma ExpiryBetweenReadings(token: string, hash: string -> string) returns (v: Validator, events: seq<Event>)
    ensures StableDecoding(v.decode) && ForwardInTime(events)
    ensures events == TwoCalls(v, v, Once(token, MultiFactor, 1.0), Call(token, MultiFactor, 9.0, 11.0, _ => 9.0))
    ensures Answer(hash, 256, events, 1).Ok? && Uninformed(hash, events, 1, 11.0) == Err(Failure.TokenExpired)
  {
    v := ValidatorOf("tenant");
    var first, second := Once(token, MultiFactor, 1.0), Call(token, MultiFactor, 9.0, 11.0, _ => 9.0);
    events := TwoCalls(v, v, first, second);
    AnyTokenIsStable();
    TwoCallsForward(v, v, first, second);
    AnyTokenChecked("tenant", token, hash(token), 1.0);
    AnyTokenChecked("tenant", token, hash(token), 11.0);
    SecondIsFromCache(v, v, hash, 256, first, second);
  }

  /** Validators of two tenants on one cache: the second accepts a token of the first's, which it would refuse by
      itself. */
  lemma TenantsOnOneCache(token: string, hash: string -> string)
    returns (v: Validator, u: Validator, events: seq<Event>)
    ensures v.config.tenantId != u.config.tenantId && v.decode == u.decode && StableDecoding(v.decode)
    ensures events == TwoCalls(v, u, Once(token, MultiFactor, 1.0), Once(token, MultiFactor, 2.0))
    ensures ForwardInTime(events)
    ensures Answer(hash, 256, events, 1).Ok? && Uninformed(hash, events, 1, 2.0) == Err(WrongTenant)
  {
    v, u := ValidatorOf("tenant"), ValidatorOf("other");
    var first, second := Once(token, MultiFactor, 1.0), Once(token, MultiFactor, 2.0);
    events := TwoCalls(v, u, first, second);
    AnyTokenIsStable();
    TwoCallsForward(v, u, first, second);
    AnyTokenChecked("tenant", token, hash(token), 1.0);
    AnyTokenChecked("other", token, hash(token), 2.0);
    SecondIsFromCache(v, u, hash, 256, first, second);
  }
}
