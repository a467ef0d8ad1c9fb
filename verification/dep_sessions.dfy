/** The enrollment session of a device enrolled with DEP, and the secret it is verified
    with. */
module DepSessions {
  import opened Wrappers
  import Secrets = EnrollmentSecrets
  import Verifications = SecretVerifications
  import EnrollmentSessions

  datatype Status = Started | ScepVerified | Authenticated | Completed

  datatype Session = Session(status: Status, scepRequest: Option<nat>, enrolledDevice: Option<nat>)

  const START := Session(Started, None, None)

  datatype Step =
    | SetScepVerified(request: Option<nat>)
    | SetAuthenticated(device: Option<nat>)
    | SetCompleted(device: Option<nat>)

  /** The tests of the `set_*_status` methods. */
  predicate Test(s: Session, step: Step) {
    match step
    case SetScepVerified(request) => request.Some? && s.status == Started && s.scepRequest.None? &&
        s.enrolledDevice.None?
    case SetAuthenticated(device) => device.Some? && s.status == ScepVerified && s.scepRequest.Some? &&
        s.enrolledDevice.None?
    case SetCompleted(device) =>
      device.Some? && s.status == Authenticated && s.scepRequest.Some? && s.enrolledDevice == device
  }

  /** What they set when the test holds. */
  function Set(s: Session, step: Step): Session {
    match step
    case SetScepVerified(request) => s.(status := ScepVerified, scepRequest := request)
    case SetAuthenticated(device) => s.(status := Authenticated, enrolledDevice := device)
    case SetCompleted(_) => s.(status := Completed)
  }

  function Next(s: Session, step: Step): Session {
    if Test(s, step) then Set(s, step) else s
  }

  method SetStatus(session: EnrollmentSessions.EnrollmentSession<Session>, step: Step) returns (ok: bool)
    modifies session
    ensures ok == Test(old(session.state), step) && session.state == Next(old(session.state), step)
  {
    ok := session.SetNextStatus(Set(session.state, step), Test(session.state, step));
  }

  // ----- runs -----

  function Rank(status: Status): nat {
    match status
    case Started => 0
    case ScepVerified => 1
    case Authenticated => 2
    case Completed => 3
  }

  function Run(steps: seq<Step>): Session {
    if steps == [] then START else Next(Run(steps[..|steps| - 1]), steps[|steps| - 1])
  }

  function Successes(steps: seq<Step>): nat {
    if steps == [] then 0
    else Successes(steps[..|steps| - 1]) + if Test(Run(steps[..|steps| - 1]), steps[|steps| - 1]) then 1 else 0
  }

  /** The status determines whether the SCEP request and the device are set. */
  predicate Determined(s: Session) {
    && (s.scepRequest.Some? <==> Rank(s.status) >= 1)
    && (s.enrolledDevice.Some? <==> s.status == Authenticated || s.status == Completed)
  }

  /** In every run each success takes the status one rank up. */
  lemma {:induction false} RunDetermined(steps: seq<Step>)
    ensures Determined(Run(steps)) && Rank(Run(steps).status) == Successes(steps)
  {
    if steps != [] {
      RunDetermined(steps[..|steps| - 1]);
    }
  }

  /** The request and the device are set only once. */
  lemma {:induction false} NeverRebound(steps: seq<Step>, i: nat)
    requires i <= |steps|
    ensures var a, b := Run(steps[..i]), Run(steps);
            && Rank(a.status) <= Rank(b.status)
            && (a.scepRequest.Some? ==> b.scepRequest == a.scepRequest)
            && (a.enrolledDevice.Some? ==> b.enrolledDevice == a.enrolledDevice)
  {
    if i < |steps| {
      assert steps[..|steps| - 1][..i] == steps[..i];
      NeverRebound(steps[..|steps| - 1], i);
      RunDetermined(steps[..|steps| - 1]);
    } else {
      assert steps[..i] == steps;
    }
  }

  /** Given its argument, a step succeeds in a run exactly when its status is the next one. */
  lemma {:induction false} NeverStuck(steps: seq<Step>, step: Step)
    ensures var now := Run(steps);
            Test(now, step) <==>
            match step
            case SetScepVerified(request) => now.status == Started && request.Some?
            case SetAuthenticated(device) => now.status == ScepVerified && device.Some?
            case SetCompleted(device) => now.status == Authenticated && device.Some? && device == now.enrolledDevice
  {
    RunDetermined(steps);
  }

  // ----- the session's secret -----

  datatype Enrollment = Enrollment(session: Session, secret: Secrets.Secret)

  /** `create_from_dep_enrollment`, with a quota for one SCEP request, for one hour */
  function FromDepEnrollment(parent: Secrets.Secret, serialNumber: string, udid: string, inOneHour: int): Enrollment {
    Enrollment(START, Secrets.Secret(Secrets.OtherModel, parent.businessUnit, Some([serialNumber]), Some([udid]),
        Some(1), 0, false, Some(inOneHour)))
  }

  datatype Denial = Denied(refusal: Secrets.Refusal) | StatusError

  datatype Request =
    | VerifyScep(serialNumber: Option<string>, businessUnit: nat)
    | Authenticate(device: nat)
    | UpdateToken(device: nat)

  function Stepped(e: Enrollment, secret: Secrets.Secret, step: Step): Result<Enrollment, Denial> {
    if Test(e.session, step) then Ok(Enrollment(Set(e.session, step), secret)) else Err(StatusError)
  }

  /** One request of a device; `pk` is the primary key of the secret request it creates. */
  function Handled(e: Enrollment, r: Request, pk: nat, now: int): Result<Enrollment, Denial> {
    match r
    case VerifyScep(serial, unit) =>
      if e.session.status != Started then Err(Denied(Secrets.UnknownSecret))
      else
        var used := Secrets.Used(e.secret, serial, None, Some(unit), now);
        if used.Err? then Err(Denied(used.error)) else Stepped(e, used.value, SetScepVerified(Some(pk)))
    case Authenticate(device) => Stepped(e, e.secret, SetAuthenticated(Some(device)))
    case UpdateToken(device) => Stepped(e, e.secret, SetCompleted(Some(device)))
  }

  datatype Timed = Timed(request: Request, pk: nat, now: int)

  /** A request that is denied is rolled back. */
  function RunRequests(e: Enrollment, requests: seq<Timed>): Enrollment {
    if requests == [] then e
    else
      var before, last := RunRequests(e, requests[..|requests| - 1]), requests[|requests| - 1];
      var r := Handled(before, last.request, last.pk, last.now);
      if r.Ok? then r.value else before
  }

  /** In every run the count of the secret is the one SCEP request of the session. */
  lemma {:induction false} RequestsAccounted(e: Enrollment, requests: seq<Timed>)
    requires e.session == START && e.secret.quota == Some(1) && e.secret.requestCount == 0
    ensures var now := RunRequests(e, requests);
            && Determined(now.session) && now.secret.quota == Some(1)
            && now.secret.requestCount == if now.session.scepRequest.Some? then 1 else 0
  {
    if requests != [] {
      RequestsAccounted(e, requests[..|requests| - 1]);
    }
  }

  /** A session that waits for its SCEP request is never refused for its quota, and the
      secret is used up when it was verified. */
  lemma {:induction false} QuotaIsEnough(parent: Secrets.Secret, serialNumber: string, udid: string, inOneHour: int,
                                         requests: seq<Timed>, next: Timed)
    ensures var now := RunRequests(FromDepEnrollment(parent, serialNumber, udid, inOneHour), requests);
            && (Secrets.UsedUp(now.secret) <==> now.session.status != Started)
            && Handled(now, next.request, next.pk, next.now) != Err(Denied(Secrets.QuotaUsedUp))
  {
    RequestsAccounted(FromDepEnrollment(parent, serialNumber, udid, inOneHour), requests);
  }

  // ----- what was set, and by which step -----

  /** The step was taken, and succeeded. */
  ghost predicate Took(steps: seq<Step>, k: nat, step: Step) {
    k < |steps| && steps[k] == step && Test(Run(steps[..k]), step)
  }

  ghost predicate Did(steps: seq<Step>, step: Step) {
    exists k: nat :: Took(steps, k, step)
  }

  lemma {:induction false} DidSnoc(front: seq<Step>, last: Step, step: Step)
    ensures Did(front + [last], step) <==> Did(front, step) || (step == last && Test(Run(front), last))
  {
    var all := front + [last];
    assert all[..|front|] == front && all[|front|] == last;
    forall k: nat | k < |front| ensures Took(all, k, step) <==> Took(front, k, step) {
      assert all[..k] == front[..k];
    }
    if Did(front, step) {
      var k: nat :| Took(front, k, step);
      assert Took(all, k, step);
    }
    if step == last && Test(Run(front), last) {
      assert Took(all, |front|, step);
    }
  }

  /** The request and the device of a session are those of the steps that were taken. */
  lemma {:induction false} SetByHistory(steps: seq<Step>)
    ensures forall r: nat :: Run(steps).scepRequest == Some(r) <==> Did(steps, SetScepVerified(Some(r)))
    ensures forall d: nat :: Run(steps).enrolledDevice == Some(d) <==> Did(steps, SetAuthenticated(Some(d)))
  {
    if steps != [] {
      var front, last := steps[..|steps| - 1], steps[|steps| - 1];
      assert steps == front + [last];
      SetByHistory(front);
      RunDetermined(front);
      forall step ensures Did(steps, step) <==> Did(front, step) || (step == last && Test(Run(front), last)) {
        DidSnoc(front, last, step);
      }
    }
  }

  /** The SCEP request is verified of a started session, with the serial number and the
      business unit of the subject. */
  lemma {:induction false} ScepExactly(e: Enrollment, serial: Option<string>, unit: nat, pk: nat, now: int)
    requires Determined(e.session)
    ensures var r := Handled(e, VerifyScep(serial, unit), pk, now);
            && (r.Ok? <==>
                  e.session.status == Started && Verifications.Admits(e.secret, serial, None, Some(unit), now))
            && (r.Ok? ==>
                  && r.value.secret == e.secret.(requestCount := e.secret.requestCount + 1)
                  && r.value.session.scepRequest == Some(pk))
  {
    Verifications.RefusedExactly(e.secret, serial, None, Some(unit), now);
  }

  lemma {:induction false} OthersDoNotVerify(e: Enrollment, r: Request, pk: nat, now: int)
    requires !r.VerifyScep? && Handled(e, r, pk, now).Ok?
    ensures Handled(e, r, pk, now).value.secret == e.secret
  {
  }

  /** The secret of a new session admits its device and its business unit, for an hour. */
  lemma {:induction false} CreatedAdmits(parent: Secrets.Secret, serialNumber: string, udid: string, inOneHour: int,
      serial: Option<string>, id: Option<string>, unit: Option<nat>, now: int)
    ensures Verifications.Admits(FromDepEnrollment(parent, serialNumber, udid, inOneHour).secret, serial, id, unit,
                                 now) <==>
            && (unit == None || unit == Some(parent.businessUnit)) && now < inOneHour
            && (serial == None || serial == Some("") || serial == Some(serialNumber))
            && (id == None || id == Some("") || id == Some(udid))
  {
    Verifications.RefusedExactly(FromDepEnrollment(parent, serialNumber, udid, inOneHour).secret, serial, id, unit,
      now);
  }
}
