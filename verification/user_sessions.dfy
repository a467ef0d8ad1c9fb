/** The enrollment session of a user enrollment, which is started from a profile or from
    the account on the device, and the secret it is verified with. */
module UserSessions {
  import opened Wrappers
  import Secrets = EnrollmentSecrets
  import Verifications = SecretVerifications
  import EnrollmentSessions

  datatype Status = AccountDrivenStart | AccountDrivenAuthenticated | Started | ScepVerified | Authenticated | Completed

  datatype RealmUser = RealmUser(pk: nat, email: string)

  datatype Session = Session(
    status: Status, realmUser: Option<RealmUser>, managedAppleId: Option<string>, accessToken: Option<string>,
    scepRequest: Option<nat>, enrolledDevice: Option<nat>)

  predicate IsSet(text: Option<string>) {
    text.Some? && text.value != ""
  }

  function Start(managedAppleId: Option<string>): Session {
    Session(if IsSet(managedAppleId) then Started else AccountDrivenStart, None, managedAppleId, None, None, None)
  }

  /** The access token is random, and never empty. */
  type Token = t: string | t != "" witness "token"

  datatype Step =
    | SetAccountDrivenAuthenticated(user: Option<RealmUser>, token: Token)
    | SetStarted
    | SetScepVerified(request: Option<nat>)
    | SetAuthenticated(device: Option<nat>)
    | SetCompleted(device: Option<nat>)

  /** The tests of the `set_*_status` methods. */
  predicate Test(s: Session, step: Step) {
    match step
    case SetAccountDrivenAuthenticated(user, _) => user.Some? && user.value.email != "" &&
        s.status == AccountDrivenStart
    case SetStarted =>
      s.realmUser.Some? && IsSet(s.managedAppleId) && IsSet(s.accessToken) && s.status == AccountDrivenAuthenticated
    case SetScepVerified(request) => request.Some? && s.status == Started && s.scepRequest.None? &&
        s.enrolledDevice.None?
    case SetAuthenticated(device) => device.Some? && s.status == ScepVerified && s.scepRequest.Some? &&
        s.enrolledDevice.None?
    case SetCompleted(device) =>
      device.Some? && s.status == Authenticated && s.scepRequest.Some? && s.enrolledDevice == device
  }

  /** What they set when the test holds. */
  function Set(s: Session, step: Step): Session {
    match step
    case SetAccountDrivenAuthenticated(user, token) =>
      if user.None? then s
      else
        s.(status := AccountDrivenAuthenticated, realmUser := user, managedAppleId := Some(user.value.email),
            accessToken := Some(token))
    case SetStarted => s.(status := Started)
    case SetScepVerified(request) => s.(status := ScepVerified, scepRequest := request)
    case SetAuthenticated(device) => s.(status := Authenticated, enrolledDevice := device)
    case SetCompleted(_) => s.(status := Completed)
  }

  function Next(s: Session, step: Step): Session {
    if Test(s, step) then Set(s, step) else s
  }

  method SetStatus(session: EnrollmentSessions.EnrollmentSession<Session>, step: Step) returns (ok: bool)
    modifies session
    ensures ok == Test(old(session.state), step) && session.state == Next(old(session.state), step)
  {
    ok := session.SetNextStatus(Set(session.state, step), Test(session.state, step));
  }

  // ----- runs -----

  function Rank(status: Status): nat {
    match status
    case AccountDrivenStart => 0
    case AccountDrivenAuthenticated => 1
    case Started => 2
    case ScepVerified => 3
    case Authenticated => 4
    case Completed => 5
  }

  function Run(s: Session, steps: seq<Step>): Session {
    if steps == [] then s else Next(Run(s, steps[..|steps| - 1]), steps[|steps| - 1])
  }

  function Successes(s: Session, steps: seq<Step>): nat {
    if steps == [] then 0
    else Successes(s, steps[..|steps| - 1]) + if Test(Run(s, steps[..|steps| - 1]), steps[|steps| - 1]) then 1 else 0
  }

  /** What the status, and the way the session was started, determine: there is an access
      token exactly in an account driven session that is past its start. */
  predicate Determined(s: Session, managedAppleId: Option<string>) {
    var accountDriven := !IsSet(managedAppleId);
    && (s.accessToken.Some? <==> accountDriven && Rank(s.status) >= 1)
    && (s.accessToken.Some? ==> s.accessToken.value != "")
    && (s.realmUser.Some? <==> s.accessToken.Some?)
    && s.managedAppleId == (if s.realmUser.Some? then Some(s.realmUser.value.email) else managedAppleId)
    && (Rank(s.status) >= 1 ==> IsSet(s.managedAppleId))
    && (!accountDriven ==> Rank(s.status) >= 2)
    && (s.scepRequest.Some? <==> Rank(s.status) >= 3)
    && (s.enrolledDevice.Some? <==> s.status == Authenticated || s.status == Completed)
  }

  /** In every run each success takes the status one rank up. */
  lemma {:induction false} RunDetermined(managedAppleId: Option<string>, steps: seq<Step>)
    ensures var s := Start(managedAppleId);
            && Determined(Run(s, steps), managedAppleId)
            && Rank(Run(s, steps).status) == Rank(s.status) + Successes(s, steps)
  {
    if steps != [] {
      RunDetermined(managedAppleId, steps[..|steps| - 1]);
    }
  }

  predicate Kept<T(==)>(before: Option<T>, after: Option<T>) {
    before.Some? ==> after == before
  }

  /** The user, the access token, the request and the device are set only once. */
  lemma {:induction false} NeverRebound(managedAppleId: Option<string>, steps: seq<Step>, i: nat)
    requires i <= |steps|
    ensures var a, b := Run(Start(managedAppleId), steps[..i]), Run(Start(managedAppleId), steps);
            && Rank(a.status) <= Rank(b.status)
            && Kept(a.realmUser, b.realmUser) && Kept(a.accessToken, b.accessToken)
            && Kept(a.scepRequest, b.scepRequest) && Kept(a.enrolledDevice, b.enrolledDevice)
  {
    if i < |steps| {
      assert steps[..|steps| - 1][..i] == steps[..i];
      NeverRebound(managedAppleId, steps[..|steps| - 1], i);
      RunDetermined(managedAppleId, steps[..|steps| - 1]);
    } else {
      assert steps[..i] == steps;
    }
  }

  /** Given its arguments, a step succeeds in a run exactly when its status is the next one. */
  lemma {:induction false} NeverStuck(managedAppleId: Option<string>, steps: seq<Step>, step: Step)
    ensures var now := Run(Start(managedAppleId), steps);
            Test(now, step) <==>
            match step
            case SetAccountDrivenAuthenticated(user, _) => now.status == AccountDrivenStart && user.Some? &&
                user.value.email != ""
            case SetStarted => now.status == AccountDrivenAuthenticated
            case SetScepVerified(request) => now.status == Started && request.Some?
            case SetAuthenticated(device) => now.status == ScepVerified && device.Some?
            case SetCompleted(device) => now.status == Authenticated && device.Some? && device == now.enrolledDevice
  {
    RunDetermined(managedAppleId, steps);
  }

  // ----- the session's secret -----

  datatype Enrollment = Enrollment(session: Session, secret: Secrets.Secret)

  /** `create_from_user_enrollment`, of an enrollment with a realm */
  function FromUserEnrollment(parent: Secrets.Secret, managedAppleId: Option<string>): Enrollment {
    Enrollment(Start(managedAppleId),
               Secrets.Secret(Secrets.OtherModel, parent.businessUnit, None, None,
                   Some(if IsSet(managedAppleId) then 1 else 10),
                              0, false, parent.expiredAt))
  }

  /** `LogIn` is a GET of the authentication view: it verifies the secret, whatever the
      status, and leaves the session as it is. */
  datatype Request =
    | LogIn
    | CallBack(user: RealmUser, token: Token)
    | Enroll
    | VerifyScep(businessUnit: nat)
    | Authenticate(device: nat)
    | UpdateToken(device: nat)
    | Revoke

  datatype Denial = Denied(refusal: Secrets.Refusal) | StatusError

  function Stepped(e: Enrollment, secret: Secrets.Secret, step: Step): Result<Enrollment, Denial> {
    if Test(e.session, step) then Ok(Enrollment(Set(e.session, step), secret)) else Err(StatusError)
  }

  /** One request; `pk` is the primary key of the secret request it creates. */
  function Handled(e: Enrollment, r: Request, pk: nat, now: int): Result<Enrollment, Denial> {
    match r
    case LogIn =>
      var used := Secrets.Used(e.secret, None, None, None, now);
      if used.Err? then Err(Denied(used.error)) else Ok(e.(secret := used.value))
    case CallBack(user, token) => Stepped(e, e.secret, SetAccountDrivenAuthenticated(Some(user), token))
    case Enroll => Stepped(e, e.secret, SetStarted)
    case VerifyScep(unit) =>
      if e.session.status != Started then Err(Denied(Secrets.UnknownSecret))
      else
        var used := Secrets.Used(e.secret, None, None, Some(unit), now);
        if used.Err? then Err(Denied(used.error)) else Stepped(e, used.value, SetScepVerified(Some(pk)))
    case Authenticate(device) => Stepped(e, e.secret, SetAuthenticated(Some(device)))
    case UpdateToken(device) => Stepped(e, e.secret, SetCompleted(Some(device)))
    case Revoke => Ok(e.(secret := e.secret.(revoked := true)))
  }

  datatype Timed = Timed(request: Request, pk: nat, now: int)

  /** A request that is denied is rolled back. */
  function After(e: Enrollment, t: Timed): Enrollment {
    var r := Handled(e, t.request, t.pk, t.now);
    if r.Ok? then r.value else e
  }

  function RunRequests(e: Enrollment, requests: seq<Timed>): Enrollment {
    if requests == [] then e else After(RunRequests(e, requests[..|requests| - 1]), requests[|requests| - 1])
  }

  /** The log ins that verified the secret. */
  function LogIns(e: Enrollment, requests: seq<Timed>): nat {
    if requests == [] then 0
    else
      var front, last := requests[..|requests| - 1], requests[|requests| - 1];
      LogIns(e, front)
      + if last.request.LogIn? && Handled(RunRequests(e, front), LogIn, last.pk, last.now).Ok? then 1 else 0
  }

  lemma {:induction false} RequestDetermined(e: Enrollment, managedAppleId: Option<string>, t: Timed)
    requires Determined(e.session, managedAppleId)
    ensures Determined(After(e, t).session, managedAppleId)
    ensures After(e, t).secret.quota == e.secret.quota
  {
  }

  /** `request_count` is the number of log ins and of SCEP requests, at most one. */
  lemma {:induction false} RequestsAccounted(parent: Secrets.Secret, managedAppleId: Option<string>,
      requests: seq<Timed>)
    ensures var e := FromUserEnrollment(parent, managedAppleId);
            var now := RunRequests(e, requests);
            && Determined(now.session, managedAppleId) && now.secret.quota == e.secret.quota
            && now.secret.requestCount == LogIns(e, requests) + (if now.session.scepRequest.Some? then 1 else 0)
            && now.secret.requestCount <= now.secret.quota.value
  {
    if requests != [] {
      var e := FromUserEnrollment(parent, managedAppleId);
      RequestsAccounted(parent, managedAppleId, requests[..|requests| - 1]);
      RequestDetermined(RunRequests(e, requests[..|requests| - 1]), managedAppleId, requests[|requests| - 1]);
    }
  }

  /** The SCEP request of a session that waits for it is refused because of the quota
      exactly when the secret is otherwise valid, and the log ins have used it up: 10 of
      them, or a single one if the session was not started from the account. */
  lemma {:induction false} RefusedAfterLogIns(parent: Secrets.Secret, managedAppleId: Option<string>,
      requests: seq<Timed>, businessUnit: nat, pk: nat, now: int)
    ensures var e := FromUserEnrollment(parent, managedAppleId);
            var before := RunRequests(e, requests);
            before.session.status == Started ==>
              (Handled(before, VerifyScep(businessUnit), pk, now) == Err(Denied(Secrets.QuotaUsedUp)) <==>
               && !before.secret.revoked && !Secrets.HasExpired(before.secret, now)
               && businessUnit == before.secret.businessUnit
               && LogIns(e, requests) >= if IsSet(managedAppleId) then 1 else 10)
  {
    RequestsAccounted(parent, managedAppleId, requests);
  }

  function TenLogIns(n: nat): seq<Timed> {
    if n == 0 then [] else TenLogIns(n - 1) + [Timed(LogIn, n, 0)]
  }

  const USER := RealmUser(1, "user@example.com")

  lemma {:induction false} AfterLogIns(parent: Secrets.Secret, n: nat)
    requires n <= 10 && parent.expiredAt == None
    ensures var e := FromUserEnrollment(parent, None);
            RunRequests(e, TenLogIns(n)) == e.(secret := e.secret.(requestCount := n))
  {
    if n > 0 {
      AfterLogIns(parent, n - 1);
      var requests := TenLogIns(n);
      assert requests[..|requests| - 1] == TenLogIns(n - 1);
    }
  }

  /** The page is loaded ten times before the user is authenticated: the session is
      started, and can never be verified. */
  lemma {:induction false} TenLogInsRefuse(parent: Secrets.Secret)
    requires parent.expiredAt == None
    ensures var e := FromUserEnrollment(parent, None);
            var requests := TenLogIns(10) + [Timed(CallBack(USER, "token"), 11, 0)] + [Timed(Enroll, 12, 0)];
            && RunRequests(e, requests).session.status == Started
            && Handled(RunRequests(e, requests), VerifyScep(parent.businessUnit), 13, 0) ==
                Err(Denied(Secrets.QuotaUsedUp))
  {
    var e, ten := FromUserEnrollment(parent, None), TenLogIns(10);
    AfterLogIns(parent, 10);
    var called := Timed(CallBack(USER, "token"), 11, 0);
    RunSnoc(e, ten, called);
    assert RunRequests(e, ten + [called]).session.status == AccountDrivenAuthenticated;
    RunSnoc(e, ten + [called], Timed(Enroll, 12, 0));
  }

  lemma {:induction false} RunSnoc(e: Enrollment, front: seq<Timed>, last: Timed)
    ensures RunRequests(e, front + [last]) == RunRequests(RunRequests(e, front), [last])
  {
    assert (front + [last])[..|front|] == front && [last][..0] == [];
  }

  // ----- what was set, and by which step -----

  /** The step was taken, and succeeded. */
  ghost predicate Took(s: Session, steps: seq<Step>, k: nat, step: Step) {
    k < |steps| && steps[k] == step && Test(Run(s, steps[..k]), step)
  }

  ghost predicate Did(s: Session, steps: seq<Step>, step: Step) {
    exists k: nat :: Took(s, steps, k, step)
  }

  lemma {:induction false} DidSnoc(s: Session, front: seq<Step>, last: Step, step: Step)
    ensures Did(s, front + [last], step) <==> Did(s, front, step) || (step == last && Test(Run(s, front), last))
  {
    var all := front + [last];
    assert all[..|front|] == front && all[|front|] == last;
    forall k: nat | k < |front| ensures Took(s, all, k, step) <==> Took(s, front, k, step) {
      assert all[..k] == front[..k];
    }
    if Did(s, front, step) {
      var k: nat :| Took(s, front, k, step);
      assert Took(s, all, k, step);
    }
    if step == last && Test(Run(s, front), last) {
      assert Took(s, all, |front|, step);
    }
  }

  /** What holds of the user, the request and the device, one step further. */
  lemma {:induction false} FieldsSnoc(s: Session, managedAppleId: Option<string>, front: seq<Step>, last: Step)
    requires Determined(Run(s, front), managedAppleId)
    ensures var now, next := Run(s, front), Run(s, front + [last]);
            var took := Test(now, last);
            && (forall user: RealmUser, token: Token :: LoggedIn(next, user, token) <==>
                  LoggedIn(now, user, token) || (took && last == SetAccountDrivenAuthenticated(Some(user), token)))
            && (forall r: nat :: next.scepRequest == Some(r) <==>
                  now.scepRequest == Some(r) || (took && last == SetScepVerified(Some(r))))
            && (forall d: nat :: next.enrolledDevice == Some(d) <==>
                  now.enrolledDevice == Some(d) || (took && last == SetAuthenticated(Some(d))))
  {
    assert (front + [last])[..|front|] == front;
  }

  predicate LoggedIn(s: Session, user: RealmUser, token: Token) {
    s.realmUser == Some(user) && s.accessToken == Some(token)
  }

  /** The user, the access token, the request and the device of a session are those of the
      steps that were taken. */
  lemma {:induction false} SetByHistory(managedAppleId: Option<string>, steps: seq<Step>)
    ensures var s := Start(managedAppleId);
            && (forall user: RealmUser, token: Token :: LoggedIn(Run(s, steps), user, token) <==>
                  Did(s, steps, SetAccountDrivenAuthenticated(Some(user), token)))
            && (forall r: nat :: Run(s, steps).scepRequest == Some(r) <==> Did(s, steps, SetScepVerified(Some(r))))
            && (forall d: nat :: Run(s, steps).enrolledDevice == Some(d) <==> Did(s, steps, SetAuthenticated(Some(d))))
  {
    if steps != [] {
      var s, front, last := Start(managedAppleId), steps[..|steps| - 1], steps[|steps| - 1];
      assert steps == front + [last];
      SetByHistory(managedAppleId, front);
      RunDetermined(managedAppleId, front);
      FieldsSnoc(s, managedAppleId, front, last);
      forall user: RealmUser, token: Token
        ensures LoggedIn(Run(s, steps), user, token) <==>
                Did(s, steps, SetAccountDrivenAuthenticated(Some(user), token))
      {
        DidSnoc(s, front, last, SetAccountDrivenAuthenticated(Some(user), token));
      }
      forall r: nat
        ensures Run(s, steps).scepRequest == Some(r) <==> Did(s, steps, SetScepVerified(Some(r)))
        ensures Run(s, steps).enrolledDevice == Some(r) <==> Did(s, steps, SetAuthenticated(Some(r)))
      {
        DidSnoc(s, front, last, SetScepVerified(Some(r)));
        DidSnoc(s, front, last, SetAuthenticated(Some(r)));
      }
    }
  }

  /** A log in is verified at any time, and the SCEP request of a started session with the
      business unit of the subject. */
  lemma {:induction false} VerifiedExactly(e: Enrollment, unit: nat, pk: nat, now: int)
    requires e.session.status == Started ==> e.session.scepRequest.None? && e.session.enrolledDevice.None?
    ensures var r := Handled(e, LogIn, pk, now);
            && (r.Ok? <==> Verifications.Admits(e.secret, None, None, None, now))
            && (r.Ok? ==> r.value == e.(secret := e.secret.(requestCount := e.secret.requestCount + 1)))
    ensures var r := Handled(e, VerifyScep(unit), pk, now);
            && (r.Ok? <==>
                  e.session.status == Started && Verifications.Admits(e.secret, None, None, Some(unit), now))
            && (r.Ok? ==>
                  && r.value.secret == e.secret.(requestCount := e.secret.requestCount + 1)
                  && r.value.session.scepRequest == Some(pk))
  {
    Verifications.RefusedExactly(e.secret, None, None, None, now);
    Verifications.RefusedExactly(e.secret, None, None, Some(unit), now);
  }

  lemma {:induction false} OthersDoNotVerify(e: Enrollment, r: Request, pk: nat, now: int)
    requires !r.LogIn? && !r.VerifyScep? && Handled(e, r, pk, now).Ok?
    ensures Handled(e, r, pk, now).value.secret == if r.Revoke? then e.secret.(revoked := true) else e.secret
    ensures r.Revoke? ==> Handled(e, r, pk, now).value.session == e.session
  {
  }

  /** The secret of a new session admits any device of its business unit, until the parent
      expires. */
  lemma {:induction false} CreatedAdmits(parent: Secrets.Secret, managedAppleId: Option<string>,
      serial: Option<string>, id: Option<string>, unit: Option<nat>, now: int)
    ensures Verifications.Admits(FromUserEnrollment(parent, managedAppleId).secret, serial, id, unit, now) <==>
            && (unit == None || unit == Some(parent.businessUnit))
            && !exists t | parent.expiredAt == Some(t) :: t <= now
  {
    Verifications.RefusedExactly(FromUserEnrollment(parent, managedAppleId).secret, serial, id, unit, now);
  }
}
