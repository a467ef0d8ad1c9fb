/** Enrollment secrets and the filebeat enrollment sessions verified with them. Each HTTP
    request is one atomic step: a step that fails is rolled back. */
module EnrollmentSecrets {
  import opened Wrappers

  // ----- tables -----

  datatype Owner = FilebeatEnrollment | FilebeatSession | OtherModel

  datatype Secret = Secret(
    owner: Owner, businessUnit: nat, serialNumbers: Option<seq<string>>, udids: Option<seq<string>>,
    quota: Option<int>, requestCount: int, revoked: bool, expiredAt: Option<int>)

  datatype Request = Request(secret: string, serialNumber: Option<string>, udid: Option<string>)

  datatype Status = Started | ScepVerified | Completed

  /** `scepRequest` is the index of a request. */
  datatype Session = Session(status: Status, scepRequest: Option<nat>, enrolledMachine: Option<string>)

  /** Secrets and sessions are found by the secret, which is unique. */
  datatype State = State(secrets: map<string, Secret>, requests: seq<Request>, sessions: map<string, Session>)

  // ----- verification -----

  datatype Refusal =
    | UnknownSecret | Revoked | Expired | SerialNumberMismatch | UdidMismatch | BusinessUnitMismatch | QuotaUsedUp

  datatype Failure = Refused(refusal: Refusal) | MissingKey | SecretTaken | AssertionFailed

  /** A list is only looked at if it is there and not empty, and a value given is not empty. */
  predicate NotListed(value: Option<string>, values: Option<seq<string>>) {
    value.Some? && value.value != "" && values.Some? && values.value != [] && value.value !in values.value
  }

  predicate UsedUp(es: Secret) {
    es.quota.Some? && es.quota.value != 0 && es.requestCount >= es.quota.value
  }

  predicate HasExpired(es: Secret, now: int) {
    es.expiredAt.Some? && es.expiredAt.value <= now
  }

  /** `is_valid`: the first reason to refuse */
  function IsValid(es: Secret, serialNumber: Option<string>, udid: Option<string>, businessUnit: Option<nat>,
      now: int): Option<Refusal> {
    if es.revoked then Some(Revoked)
    else if HasExpired(es, now) then Some(Expired)
    else if NotListed(serialNumber, es.serialNumbers) then Some(SerialNumberMismatch)
    else if NotListed(udid, es.udids) then Some(UdidMismatch)
    else if businessUnit.Some? && businessUnit.value != es.businessUnit then Some(BusinessUnitMismatch)
    else if UsedUp(es) then Some(QuotaUsedUp)
    else None
  }

  /** What a verification leaves of the secret: one more on the count, or a refusal */
  function Used(es: Secret, serialNumber: Option<string>, udid: Option<string>, businessUnit: Option<nat>,
      now: int): Result<Secret, Refusal> {
    match IsValid(es, serialNumber, udid, businessUnit, now)
    case Some(reason) => Err(reason)
    case None => Ok(es.(requestCount := es.requestCount + 1))
  }

  /** Who asks for what. */
  datatype Query = Query(owner: Owner, statuses: set<Status>, secret: string,
                         serialNumber: Option<string>, udid: Option<string>, businessUnit: Option<nat>)

  /** The filter on the model and, for a session, on its status. */
  predicate Finds(s: State, q: Query) {
    && q.secret in s.secrets && s.secrets[q.secret].owner == q.owner
    && (q.owner.FilebeatSession? ==> q.secret in s.sessions && s.sessions[q.secret].status in q.statuses)
  }

  /** `verify`: a new request, and one more on the count, or a refusal */
  function Verified(s: State, q: Query, now: int): Result<State, Failure> {
    if !Finds(s, q) then Err(Refused(UnknownSecret))
    else
      var used := Used(s.secrets[q.secret], q.serialNumber, q.udid, q.businessUnit, now);
      if used.Err? then Err(Refused(used.error))
      else Ok(s.(requests := s.requests + [Request(q.secret, q.serialNumber, q.udid)],
                 secrets := s.secrets[q.secret := used.value]))
  }

  // ----- requests -----

  datatype Step =
    | Start(secret: string, serialNumber: string, newSecret: string)
    | VerifyScep(secret: string, subjectSerial: Option<string>, organization: nat)
    | Complete(secret: string, serialNumber: string, allKeys: bool)
    | VerifyOther(secret: string, serial: Option<string>, udid: Option<string>, businessUnit: Option<nat>)
    | Revoke(secret: string)

  function QueryOf(step: Step): Query
    requires !step.Revoke?
  {
    match step
    case Start(secret, serial, _) => Query(FilebeatEnrollment, {}, secret, Some(serial), None, None)
    case VerifyScep(secret, serial, unit) =>
      Query(FilebeatSession, {Started}, secret, if serial == Some("") then None else serial, None, Some(unit))
    case Complete(secret, serial, _) => Query(FilebeatSession, {Started, ScepVerified}, secret, Some(serial), None,
        None)
    case VerifyOther(secret, serial, udid, unit) => Query(OtherModel, {}, secret, serial, udid, unit)
  }

  /** `create_from_enrollment` */
  function Created(s: State, step: Step): Result<State, Failure>
    requires step.Start? && step.secret in s.secrets
  {
    var parent := s.secrets[step.secret];
    if step.newSecret in s.secrets then Err(SecretTaken)
    else
      var es := Secret(FilebeatSession, parent.businessUnit, Some([step.serialNumber]), None, Some(2), 0, false,
          parent.expiredAt);
      Ok(s.(secrets := s.secrets[step.newSecret := es],
            sessions := s.sessions[step.newSecret := Session(Started, None, None)]))
  }

  /** `set_scep_verified_status` */
  function ScepVerifiedSession(session: Session, request: nat): Result<Session, Failure> {
    if session.status == Started && session.scepRequest.None? then
        Ok(session.(status := ScepVerified, scepRequest := Some(request)))
    else Err(AssertionFailed)
  }

  /** `set_completed` */
  function CompletedSession(session: Session, machine: string): Result<Session, Failure> {
    if (session.status == Started && session.scepRequest.None?) ||
        (session.status == ScepVerified && session.scepRequest.Some?) then
      Ok(session.(status := Completed, enrolledMachine := Some(machine)))
    else Err(AssertionFailed)
  }

  function Next(s: State, step: Step, now: int): Result<State, Failure> {
    if step.Revoke? then
      Ok(if step.secret in s.secrets then
          s.(secrets := s.secrets[step.secret := s.secrets[step.secret].(revoked := true)]) else s)
    else
      var verified :- Verified(s, QueryOf(step), now);
      match step
      case Start(_, _, _) => Created(verified, step)
      case VerifyScep(secret, _, _) =>
        var session :- ScepVerifiedSession(verified.sessions[secret], |s.requests|);
        Ok(verified.(sessions := verified.sessions[secret := session]))
      case Complete(secret, serial, allKeys) =>
        if !allKeys then Err(MissingKey)
        else
          var session :- CompletedSession(verified.sessions[secret], serial);
          Ok(verified.(sessions := verified.sessions[secret := session]))
      case VerifyOther(_, _, _, _) => Ok(verified)
  }

  // ----- the views -----

  class Service {
    var secrets: map<string, Secret>
    var requests: seq<Request>
    var sessions: map<string, Session>

    constructor (secrets: map<string, Secret>)
      ensures Contents() == State(secrets, [], map[])
    {
      this.secrets, requests, sessions := secrets, [], map[];
    }

    function Contents(): State
      reads this
    {
      State(secrets, requests, sessions)
    }

    method RollBack(before: State)
      modifies this
      ensures Contents() == before
    {
      secrets, requests, sessions := before.secrets, before.requests, before.sessions;
    }

    /** `EnrollmentSecretManager.verify` */
    method VerifySecret(q: Query, now: int) returns (r: Result<nat, Failure>)
      modifies this
      ensures match Verified(old(Contents()), q, now)
              case Ok(after) => Contents() == after && r == Ok(|old(requests)|)
              case Err(e) => Contents() == old(Contents()) && r == Err(e)
    {
      if !Finds(Contents(), q) {
        return Err(Refused(UnknownSecret));
      }
      var es := secrets[q.secret];
      var reason := IsValid(es, q.serialNumber, q.udid, q.businessUnit, now);
      if reason.Some? {
        return Err(Refused(reason.value));
      }
      requests := requests + [Request(q.secret, q.serialNumber, q.udid)];
      secrets := secrets[q.secret := es.(requestCount := es.requestCount + 1)];
      r := Ok(|requests| - 1);
    }

    /** `StartEnrollmentView` */
    method StartEnrollment(step: Step, now: int) returns (failure: Option<Failure>)
      requires step.Start?
      modifies this
      ensures Answers(old(Contents()), step, now, Contents(), failure)
    {
      var before := Contents();
      var r := VerifySecret(QueryOf(step), now);
      if r.Err? {
        return Some(r.error);
      }
      var parent := secrets[step.secret];
      if step.newSecret in secrets {
        RollBack(before);
        return Some(SecretTaken);
      }
      secrets := secrets[step.newSecret := Secret(FilebeatSession, parent.businessUnit, Some([step.serialNumber]),
          None, Some(2), 0, false, parent.expiredAt)];
      sessions := sessions[step.newSecret := Session(Started, None, None)];
      failure := None;
    }

    /** `VerifySCEPCSRView` */
    method VerifyScepCsr(step: Step, now: int) returns (failure: Option<Failure>)
      requires step.VerifyScep?
      modifies this
      ensures Answers(old(Contents()), step, now, Contents(), failure)
    {
      var before := Contents();
      var r := VerifySecret(QueryOf(step), now);
      if r.Err? {
        return Some(r.error);
      }
      var session := ScepVerifiedSession(sessions[step.secret], r.value);
      if session.Err? {
        RollBack(before);
        return Some(session.error);
      }
      sessions := sessions[step.secret := session.value];
      failure := None;
    }

    /** `CompleteEnrollmentView` */
    method CompleteEnrollment(step: Step, now: int) returns (failure: Option<Failure>)
      requires step.Complete?
      modifies this
      ensures Answers(old(Contents()), step, now, Contents(), failure)
    {
      var before := Contents();
      var r := VerifySecret(QueryOf(step), now);
      if r.Err? {
        return Some(r.error);
      }
      if !step.allKeys {
        RollBack(before);
        return Some(MissingKey);
      }
      var session := CompletedSession(sessions[step.secret], step.serialNumber);
      if session.Err? {
        RollBack(before);
        return Some(session.error);
      }
      sessions := sessions[step.secret := session.value];
      failure := None;
    }
  }

  /** A step succeeds, or fails and is rolled back. */
  ghost predicate Answers(before: State, step: Step, now: int, after: State, failure: Option<Failure>) {
    match Next(before, step, now)
    case Ok(s) => after == s && failure == None
    case Err(e) => after == before && failure == Some(e)
  }

  // ----- invariant -----

  /** The requests created with a secret. */
  function CountRequests(requests: seq<Request>, secret: string): nat {
    if requests == [] then 0
    else CountRequests(requests[..|requests| - 1], secret) + if requests[|requests| - 1].secret == secret then 1 else 0
  }

  /** The transitions a session has made: at most one verification, and a completion. */
  function Transitions(session: Session): nat {
    (if session.scepRequest.Some? then 1 else 0) + (if session.status == Completed then 1 else 0)
  }

  predicate SessionOk(s: State, session: Session, secret: string) {
    && (session.status == Started ==> session.scepRequest.None?)
    && (session.status == ScepVerified ==> session.scepRequest.Some?)
    && (session.enrolledMachine.Some? <==> session.status == Completed)
    && (session.scepRequest.Some? ==>
        session.scepRequest.value < |s.requests| &&
        s.requests[session.scepRequest.value].secret == secret)
  }

  ghost predicate SecretOk(s: State, secret: string)
    requires secret in s.secrets
  {
    var es := s.secrets[secret];
    && es.requestCount == CountRequests(s.requests, secret)
    && (es.quota.Some? && es.quota.value > 0 ==> es.requestCount <= es.quota.value)
    && (es.owner.FilebeatSession? <==> secret in s.sessions)
    && (secret in s.sessions ==>
          && es.quota == Some(2)
          && es.requestCount == Transitions(s.sessions[secret])
          && SessionOk(s, s.sessions[secret], secret))
  }

  ghost predicate Inv(s: State) {
    && (forall secret {:trigger SecretOk(s, secret)} | secret in s.secrets :: SecretOk(s, secret))
    && (forall secret | secret in s.sessions :: secret in s.secrets)
    && (forall i | 0 <= i < |s.requests| :: s.requests[i].secret in s.secrets)
  }

  /** A service at its first start: secrets that nobody used. */
  ghost predicate Fresh(s: State) {
    && s.requests == [] && s.sessions == map[]
    && forall secret | secret in s.secrets :: s.secrets[secret].requestCount == 0 &&
        !s.secrets[secret].owner.FilebeatSession?
  }

  lemma {:induction false} NoRequests(requests: seq<Request>, secret: string)
    requires forall i | 0 <= i < |requests| :: requests[i].secret != secret
    ensures CountRequests(requests, secret) == 0
  {
    if requests != [] {
      NoRequests(requests[..|requests| - 1], secret);
    }
  }

  lemma {:induction false} CountOneMore(requests: seq<Request>, r: Request, secret: string)
    ensures CountRequests(requests + [r], secret) ==
            CountRequests(requests, secret) + if r.secret == secret then 1 else 0
  {
    assert (requests + [r])[..|requests|] == requests;
  }

  /** What verification leaves: all secrets as they should be, the verified one with one
      request more than its session accounts for. */
  lemma {:induction false} VerifiedKeeps(s: State, q: Query, now: int, secret: string)
    requires Inv(s) && Verified(s, q, now).Ok? && secret in s.secrets
    ensures var t := Verified(s, q, now).value;
            var es := t.secrets[secret];
            && es.requestCount == CountRequests(t.requests, secret)
            && (es.quota.Some? && es.quota.value > 0 ==> es.requestCount <= es.quota.value)
            && (secret in s.sessions ==>
                  && es.requestCount == Transitions(s.sessions[secret]) + (if secret == q.secret then 1 else 0)
                  && SessionOk(t, s.sessions[secret], secret))
  {
    var t := Verified(s, q, now).value;
    assert SecretOk(s, secret);
    CountOneMore(s.requests, Request(q.secret, q.serialNumber, q.udid), secret);
  }

  lemma {:induction false} StartKeeps(s: State, step: Step, now: int)
    requires Inv(s) && step.Start? && Next(s, step, now).Ok?
    ensures Inv(Next(s, step, now).value)
  {
    var verified := Verified(s, QueryOf(step), now).value;
    var t := Next(s, step, now).value;
    forall secret {:trigger SecretOk(t, secret)} | secret in t.secrets ensures SecretOk(t, secret) {
      if secret == step.newSecret {
        NoRequests(t.requests, secret);
      } else {
        assert SecretOk(s, secret);
        VerifiedKeeps(s, QueryOf(step), now, secret);
      }
    }
  }

  lemma {:induction false} SessionStepKeeps(s: State, step: Step, now: int)
    requires Inv(s) && (step.VerifyScep? || step.Complete? || step.VerifyOther?) && Next(s, step, now).Ok?
    ensures Inv(Next(s, step, now).value)
  {
    var t := Next(s, step, now).value;
    forall secret {:trigger SecretOk(t, secret)} | secret in t.secrets ensures SecretOk(t, secret) {
      assert SecretOk(s, secret);
      VerifiedKeeps(s, QueryOf(step), now, secret);
    }
  }

  lemma {:induction false} RevokeKeeps(s: State, step: Step, now: int)
    requires Inv(s) && step.Revoke?
    ensures Inv(Next(s, step, now).value)
  {
    var t := Next(s, step, now).value;
    forall secret {:trigger SecretOk(t, secret)} | secret in t.secrets ensures SecretOk(t, secret) {
      assert SecretOk(s, secret);
    }
  }

  lemma {:induction false} StepKeeps(s: State, step: Step, now: int)
    requires Inv(s) && Next(s, step, now).Ok?
    ensures Inv(Next(s, step, now).value)
  {
    match step
    case Start(_, _, _) => StartKeeps(s, step, now);
    case Revoke(_) => RevokeKeeps(s, step, now);
    case _ => SessionStepKeeps(s, step, now);
  }

  /** The asserts of the sessions never fail, and the quota of 2 never stands in the way
      of a session that is not completed. */
  lemma {:induction false} SessionsNeverStuck(s: State, step: Step, now: int)
    requires Inv(s) && (step.VerifyScep? || step.Complete?)
    ensures Next(s, step, now) != Err(AssertionFailed)
    ensures Next(s, step, now) != Err(Refused(QuotaUsedUp))
  {
    if step.secret in s.secrets {
      assert SecretOk(s, step.secret);
    }
  }

  // ----- runs -----

  datatype Timed = Timed(step: Step, now: int)

  /** Failed requests leave no trace. */
  function After(s: State, t: Timed): State {
    var r := Next(s, t.step, t.now);
    if r.Ok? then r.value else s
  }

  function Run(s: State, steps: seq<Timed>): State {
    if steps == [] then s else After(Run(s, steps[..|steps| - 1]), steps[|steps| - 1])
  }

  lemma {:induction false} RunKeeps(s: State, steps: seq<Timed>)
    requires Fresh(s)
    ensures Inv(Run(s, steps))
  {
    if steps == [] {
      assert forall secret | secret in s.secrets :: SecretOk(s, secret);
    } else {
      RunKeeps(s, steps[..|steps| - 1]);
      var before, last := Run(s, steps[..|steps| - 1]), steps[|steps| - 1];
      if Next(before, last.step, last.now).Ok? {
        StepKeeps(before, last.step, last.now);
      }
    }
  }

  predicate Succeeds(s: State, steps: seq<Timed>, i: nat)
    requires i < |steps|
  {
    Next(Run(s, steps[..i]), steps[i].step, steps[i].now).Ok?
  }

  /** How often a secret was verified with success in a run. */
  function Verifications(s: State, steps: seq<Timed>, secret: string): nat {
    if steps == [] then 0
    else
      var n := |steps| - 1;
      var last := steps[n];
      Verifications(s, steps[..n], secret)
      + if !last.step.Revoke? && last.step.secret == secret &&
          Next(Run(s, steps[..n]), last.step, last.now).Ok? then 1 else 0
  }

  /** `request_count` is the number of successful verifications, of which a quota allows
      no more. */
  lemma {:induction false} RequestCountIsVerifications(s: State, steps: seq<Timed>, secret: string)
    requires Fresh(s) && secret in Run(s, steps).secrets
    ensures var es := Run(s, steps).secrets[secret];
            && es.requestCount == CountRequests(Run(s, steps).requests, secret) == Verifications(s, steps, secret)
            && (es.quota.Some? && es.quota.value > 0 ==> Verifications(s, steps, secret) <= es.quota.value)
  {
    RunKeeps(s, steps);
    assert SecretOk(Run(s, steps), secret);
    CountsAreVerifications(s, steps, secret);
  }

  lemma {:induction false} CountsAreVerifications(s: State, steps: seq<Timed>, secret: string)
    requires s.requests == []
    ensures CountRequests(Run(s, steps).requests, secret) == Verifications(s, steps, secret)
  {
    if steps != [] {
      CountsAreVerifications(s, steps[..|steps| - 1], secret);
      var before, last := Run(s, steps[..|steps| - 1]), steps[|steps| - 1];
      if Next(before, last.step, last.now).Ok? && !last.step.Revoke? {
        var q := QueryOf(last.step);
        CountOneMore(before.requests, Request(q.secret, q.serialNumber, q.udid), secret);
      }
    }
  }

  /** A completed session stays as it is. */
  lemma {:induction false} CompletedStays(s: State, steps: seq<Timed>, i: nat, secret: string)
    requires i <= |steps|
    requires secret in Run(s, steps[..i]).sessions && secret in Run(s, steps[..i]).secrets
    requires Run(s, steps[..i]).sessions[secret].status == Completed
    ensures secret in Run(s, steps).secrets
    ensures secret in Run(s, steps).sessions && Run(s, steps).sessions[secret] == Run(s, steps[..i]).sessions[secret]
  {
    if i < |steps| {
      assert steps[..|steps| - 1][..i] == steps[..i];
      CompletedStays(s, steps[..|steps| - 1], i, secret);
    } else {
      assert steps[..i] == steps;
    }
  }

  /** No session is completed twice in a run. */
  lemma {:induction false} CompletedOnce(s: State, steps: seq<Timed>, i: nat, j: nat)
    requires i < j < |steps| && steps[i].step.Complete? && steps[j].step.Complete?
    requires steps[i].step.secret == steps[j].step.secret
    ensures !(Succeeds(s, steps, i) && Succeeds(s, steps, j))
  {
    if Succeeds(s, steps, i) && Succeeds(s, steps, j) {
      assert steps[..i + 1][..i] == steps[..i] && steps[..j][..i + 1] == steps[..i + 1];
      CompletedStays(s, steps[..j], i + 1, steps[i].step.secret);
    }
  }
}
