/** The enrollment session of an over-the-air enrollment, and the secret it is verified
    with. */
module OtaSessions {
  import opened Wrappers
  import Secrets = EnrollmentSecrets
  import Verifications = SecretVerifications
  import EnrollmentSessions

  datatype Status = Phase1 | Phase2 | Phase2ScepVerified | Phase3 | Phase3ScepVerified | Authenticated | Completed

  /** Requests, users and devices by primary key. */
  datatype Session = Session(
    status: Status, realmUser: Option<nat>,
    phase2Request: Option<nat>, phase2ScepRequest: Option<nat>, phase3ScepRequest: Option<nat>,
    enrolledDevice: Option<nat>)

  function StartedIn(status: Status, realmUser: Option<nat>): Session {
    Session(status, realmUser, None, None, None, None)
  }

  datatype Step =
    | SetPhase2(request: Option<nat>, serialNumber: string, udid: string)
    | SetPhase2ScepVerified(request: Option<nat>)
    | SetPhase3
    | SetPhase3ScepVerified(request: Option<nat>)
    | SetAuthenticated(device: Option<nat>)
    | SetCompleted(device: Option<nat>)

  /** The tests of the `set_*_status` methods. */
  predicate Test(s: Session, step: Step) {
    match step
    case SetPhase2(_, serialNumber, udid) =>
      && serialNumber != "" && udid != "" && s.realmUser.Some? && s.status == Phase1
      && s.phase2Request.None? && s.phase2ScepRequest.None? && s.phase3ScepRequest.None? && s.enrolledDevice.None?
    case SetPhase2ScepVerified(request) =>
      && request.Some? && s.status == Phase2
      && s.phase2ScepRequest.None? && s.phase3ScepRequest.None? && s.enrolledDevice.None?
    case SetPhase3 =>
      s.status == Phase2ScepVerified && s.phase2ScepRequest.Some? && s.phase3ScepRequest.None? && s.enrolledDevice.None?
    case SetPhase3ScepVerified(request) =>
      && request.Some? && s.status == Phase3
      && s.phase2ScepRequest.Some? && s.phase3ScepRequest.None? && s.enrolledDevice.None?
    case SetAuthenticated(device) =>
      && device.Some? && s.status == Phase3ScepVerified
      && s.phase2ScepRequest.Some? && s.phase3ScepRequest.Some? && s.enrolledDevice.None?
    case SetCompleted(device) =>
      && device.Some? && s.status == Authenticated
      && s.phase2ScepRequest.Some? && s.phase3ScepRequest.Some? && s.enrolledDevice == device
  }

  /** What they set when the test holds. */
  function Set(s: Session, step: Step): Session {
    match step
    case SetPhase2(request, _, _) => s.(status := Phase2, phase2Request := request)
    case SetPhase2ScepVerified(request) => s.(status := Phase2ScepVerified, phase2ScepRequest := request)
    case SetPhase3 => s.(status := Phase3)
    case SetPhase3ScepVerified(request) => s.(status := Phase3ScepVerified, phase3ScepRequest := request)
    case SetAuthenticated(device) => s.(status := Authenticated, enrolledDevice := device)
    case SetCompleted(_) => s.(status := Completed)
  }

  function Next(s: Session, step: Step): Session {
    if Test(s, step) then Set(s, step) else s
  }

  method SetStatus(session: EnrollmentSessions.EnrollmentSession<Session>, step: Step) returns (ok: bool)
    modifies session
    ensures ok == Test(old(session.state), step) && session.state == Next(old(session.state), step)
  {
    ok := session.SetNextStatus(Set(session.state, step), Test(session.state, step));
  }

  // ----- runs -----

  function Rank(status: Status): nat {
    match status
    case Phase1 => 0
    case Phase2 => 1
    case Phase2ScepVerified => 2
    case Phase3 => 3
    case Phase3ScepVerified => 4
    case Authenticated => 5
    case Completed => 6
  }

  predicate IsStart(s: Session) {
    s == StartedIn(Phase1, s.realmUser) || s == StartedIn(Phase2, None)
  }

  function Run(s: Session, steps: seq<Step>): Session {
    if steps == [] then s else Next(Run(s, steps[..|steps| - 1]), steps[|steps| - 1])
  }

  /** The steps that succeed. */
  function Successes(s: Session, steps: seq<Step>): nat {
    if steps == [] then 0
    else Successes(s, steps[..|steps| - 1]) + if Test(Run(s, steps[..|steps| - 1]), steps[|steps| - 1]) then 1 else 0
  }

  /** The status determines which SCEP requests are set, and whether a device is. */
  predicate Determined(s: Session) {
    && (s.phase2ScepRequest.Some? <==> Rank(s.status) >= 2)
    && (s.phase3ScepRequest.Some? <==> Rank(s.status) >= 4)
    && (s.enrolledDevice.Some? <==> s.status == Authenticated || s.status == Completed)
    && (s.phase2Request.Some? ==> s.realmUser.Some? && Rank(s.status) >= 1)
  }

  lemma {:induction false} StepDetermined(s: Session, step: Step)
    requires Determined(s)
    ensures Determined(Next(s, step))
    ensures Rank(Next(s, step).status) == Rank(s.status) + if Test(s, step) then 1 else 0
  {
  }

  /** In every run each success takes the status one rank up. */
  lemma {:induction false} RunDetermined(s: Session, steps: seq<Step>)
    requires IsStart(s)
    ensures Determined(Run(s, steps))
    ensures Rank(Run(s, steps).status) == Rank(s.status) + Successes(s, steps)
  {
    if steps != [] {
      RunDetermined(s, steps[..|steps| - 1]);
      StepDetermined(Run(s, steps[..|steps| - 1]), steps[|steps| - 1]);
    }
  }

  predicate Kept<T(==)>(before: Option<T>, after: Option<T>) {
    before.Some? ==> after == before
  }

  /** Everything that was set is still the same. */
  predicate AllKept(a: Session, b: Session) {
    && Rank(a.status) <= Rank(b.status) && a.realmUser == b.realmUser
    && Kept(a.phase2Request, b.phase2Request) && Kept(a.phase2ScepRequest, b.phase2ScepRequest)
    && Kept(a.phase3ScepRequest, b.phase3ScepRequest) && Kept(a.enrolledDevice, b.enrolledDevice)
  }

  lemma {:induction false} StepKeeps(s: Session, step: Step)
    requires Determined(s)
    ensures AllKept(s, Next(s, step))
  {
  }

  /** Nothing that was set is ever set again: requests, device or user. */
  lemma {:induction false} NeverRebound(s: Session, steps: seq<Step>, i: nat)
    requires IsStart(s) && i <= |steps|
    ensures AllKept(Run(s, steps[..i]), Run(s, steps))
  {
    if i < |steps| {
      var front := steps[..|steps| - 1];
      assert front[..i] == steps[..i];
      NeverRebound(s, front, i);
      RunDetermined(s, front);
      StepKeeps(Run(s, front), steps[|steps| - 1]);
    } else {
      assert steps[..i] == steps;
    }
  }

  /** The status a step follows. */
  function Before(step: Step): Status {
    match step
    case SetPhase2(_, _, _) => Phase1
    case SetPhase2ScepVerified(_) => Phase2
    case SetPhase3 => Phase2ScepVerified
    case SetPhase3ScepVerified(_) => Phase3
    case SetAuthenticated(_) => Phase3ScepVerified
    case SetCompleted(_) => Authenticated
  }

  /** Given its arguments, a step succeeds in a run exactly when it follows the status; only
      a session without a user cannot leave the first phase. */
  lemma {:induction false} NeverStuck(s: Session, steps: seq<Step>, step: Step)
    requires IsStart(s)
    ensures var now := Run(s, steps);
            Test(now, step) <==>
            && now.status == Before(step)
            && (match step
                case SetPhase2(_, serialNumber, udid) => serialNumber != "" && udid != "" && now.realmUser.Some?
                case SetPhase2ScepVerified(request) => request.Some?
                case SetPhase3 => true
                case SetPhase3ScepVerified(request) => request.Some?
                case SetAuthenticated(device) => device.Some?
                case SetCompleted(device) => device.Some? && device == now.enrolledDevice)
  {
    RunDetermined(s, steps);
  }

  /** `get_prefix`: the prefix of the common name in a SCEP request */
  function Prefix(s: Session): Option<string> {
    match s.status
    case Phase2 => Some("OTA")
    case Phase3 => Some("MDM$OTA")
    case _ => None
  }

  /** There is a prefix exactly when a SCEP request can be verified next. */
  lemma {:induction false} PrefixForScep(s: Session, steps: seq<Step>, request: nat)
    requires IsStart(s)
    ensures var now := Run(s, steps);
            Prefix(now).Some? <==>
            Test(now, SetPhase2ScepVerified(Some(request))) || Test(now, SetPhase3ScepVerified(Some(request)))
  {
    NeverStuck(s, steps, SetPhase2ScepVerified(Some(request)));
    NeverStuck(s, steps, SetPhase3ScepVerified(Some(request)));
  }

  /** `get_enrollment_session_info`, for OTA sessions: the status and the step of a prefix */
  function SessionInfo(prefix: string, request: nat): Option<(Status, Step)> {
    if prefix == "OTA" then Some((Phase2, SetPhase2ScepVerified(Some(request))))
    else if prefix == "MDM$OTA" then Some((Phase3, SetPhase3ScepVerified(Some(request))))
    else None
  }

  /** The prefix in a SCEP request finds the session in its status, and the step it can take. */
  lemma {:induction false} PrefixIsRead(s: Session, steps: seq<Step>, request: nat)
    requires IsStart(s) && Prefix(Run(s, steps)).Some?
    ensures var now := Run(s, steps);
            var info := SessionInfo(Prefix(now).value, request);
            info.Some? && info.value.0 == now.status && Test(now, info.value.1)
  {
    NeverStuck(s, steps, SetPhase2ScepVerified(Some(request)));
    NeverStuck(s, steps, SetPhase3ScepVerified(Some(request)));
  }

  // ----- the session's secret -----

  datatype Enrollment = Enrollment(session: Session, secret: Secrets.Secret)

  /** `create_from_realm_user`, with a quota for the profile and two SCEP requests */
  function FromRealmUser(parent: Secrets.Secret, realmUser: Option<nat>): Enrollment {
    Enrollment(StartedIn(Phase1, realmUser),
               Secrets.Secret(Secrets.OtherModel, parent.businessUnit, None, None, Some(3), 0, false, parent.expiredAt))
  }

  /** `create_from_machine_info`, with a quota for two SCEP requests */
  function FromMachineInfo(parent: Secrets.Secret, serialNumber: string, udid: string): Enrollment {
    Enrollment(StartedIn(Phase2, None),
               Secrets.Secret(Secrets.OtherModel, parent.businessUnit, Some([serialNumber]), Some([udid]), Some(2), 0,
                   false, parent.expiredAt))
  }

  datatype Request =
    | DownloadProfile(serialNumber: string, udid: string)
    | VerifyScep(phase3: bool, subjectSerial: Option<string>, businessUnit: nat)
    | StartPhase3
    | Authenticate(device: nat)
    | UpdateToken(device: nat)
    | Revoke

  datatype Denial = Denied(refusal: Secrets.Refusal) | StatusError

  function Stepped(e: Enrollment, secret: Secrets.Secret, step: Step): Result<Enrollment, Denial> {
    if Test(e.session, step) then Ok(Enrollment(Set(e.session, step), secret)) else Err(StatusError)
  }

  /** One request of a device; `pk` is the primary key of the secret request it creates. */
  function Handled(e: Enrollment, r: Request, pk: nat, now: int): Result<Enrollment, Denial> {
    match r
    case DownloadProfile(serial, udid) =>
      var used := Secrets.Used(e.secret, Some(serial), Some(udid), None, now);
      if used.Err? then Err(Denied(used.error))
      else
        Stepped(e, used.value.(serialNumbers := Some([serial]), udids := Some([udid])),
            SetPhase2(Some(pk), serial, udid))
    case VerifyScep(phase3, serial, unit) =>
      if e.session.status != (if phase3 then Phase3 else Phase2) then Err(Denied(Secrets.UnknownSecret))
      else
        var used := Secrets.Used(e.secret, serial, None, Some(unit), now);
        if used.Err? then Err(Denied(used.error))
        else Stepped(e, used.value, if phase3 then SetPhase3ScepVerified(Some(pk)) else SetPhase2ScepVerified(Some(pk)))
    case StartPhase3 => Stepped(e, e.secret, SetPhase3)
    case Authenticate(device) => Stepped(e, e.secret, SetAuthenticated(Some(device)))
    case UpdateToken(device) => Stepped(e, e.secret, SetCompleted(Some(device)))
    case Revoke => Ok(e.(secret := e.secret.(revoked := true)))
  }

  datatype Timed = Timed(request: Request, pk: nat, now: int)

  /** A request that is denied is rolled back. */
  function RunRequests(e: Enrollment, requests: seq<Timed>): Enrollment {
    if requests == [] then e
    else
      var before, last := RunRequests(e, requests[..|requests| - 1]), requests[|requests| - 1];
      var r := Handled(before, last.request, last.pk, last.now);
      if r.Ok? then r.value else before
  }

  predicate IsFirst(e: Enrollment) {
    || (e.session == StartedIn(Phase1, e.session.realmUser) && e.secret.quota == Some(3) && e.secret.requestCount == 0)
    || (e.session == StartedIn(Phase2, None) && e.secret.quota == Some(2) && e.secret.requestCount == 0)
  }

  lemma {:induction false} CreatedFirst(parent: Secrets.Secret, realmUser: Option<nat>, serialNumber: string,
      udid: string)
    ensures IsFirst(FromRealmUser(parent, realmUser)) && IsFirst(FromMachineInfo(parent, serialNumber, udid))
  {
  }

  /** The verifications a session was taken forward by. */
  function Verified(s: Session): nat {
    (if s.phase2Request.Some? then 1 else 0) + (if s.phase2ScepRequest.Some? then 1 else 0)
    + (if s.phase3ScepRequest.Some? then 1 else 0)
  }

  /** The quota is what the session needs from where it started. */
  predicate Accounted(e: Enrollment) {
    && Determined(e.session)
    && e.secret.requestCount == Verified(e.session)
    && (e.secret.quota == Some(3) || e.secret.quota == Some(2))
    && (e.secret.quota == Some(2) ==> e.session.realmUser.None?)
    && (e.secret.quota == Some(3) ==> (e.session.phase2Request.Some? <==> Rank(e.session.status) >= 1))
  }

  lemma {:induction false} RequestAccounted(e: Enrollment, t: Timed)
    requires Accounted(e) && Handled(e, t.request, t.pk, t.now).Ok?
    ensures Accounted(Handled(e, t.request, t.pk, t.now).value)
  {
  }

  /** In every run of requests, `request_count` is the number of verifications the session
      was taken forward by, and never exceeds the quota. */
  lemma {:induction false} RequestsAccounted(e: Enrollment, requests: seq<Timed>)
    requires IsFirst(e)
    ensures var now := RunRequests(e, requests);
            && Accounted(now) && now.secret.quota == e.secret.quota
            && now.secret.requestCount == Verified(now.session) <= now.secret.quota.value
  {
    if requests != [] {
      var front, last := requests[..|requests| - 1], requests[|requests| - 1];
      RequestsAccounted(e, front);
      if Handled(RunRequests(e, front), last.request, last.pk, last.now).Ok? {
        RequestAccounted(RunRequests(e, front), last);
      }
    }
  }

  /** The quota never stands in the way of a session with a SCEP request still to come:
      only when both were verified it is used up. */
  lemma {:induction false} QuotaIsEnough(e: Enrollment, requests: seq<Timed>, next: Timed)
    requires IsFirst(e)
    ensures var now := RunRequests(e, requests);
            && (Secrets.UsedUp(now.secret) <==> Rank(now.session.status) >= Rank(Phase3ScepVerified))
            && (Rank(now.session.status) < Rank(Phase3ScepVerified) ==>
                  Handled(now, next.request, next.pk, next.now) != Err(Denied(Secrets.QuotaUsedUp)))
  {
    RequestsAccounted(e, requests);
  }

  // ----- what was set, and by which step -----

  /** The step was taken, and succeeded. */
  ghost predicate Took(s: Session, steps: seq<Step>, k: nat, step: Step) {
    k < |steps| && steps[k] == step && Test(Run(s, steps[..k]), step)
  }

  ghost predicate Did(s: Session, steps: seq<Step>, step: Step) {
    exists k: nat :: Took(s, steps, k, step)
  }

  lemma {:induction false} DidSnoc(s: Session, front: seq<Step>, last: Step, step: Step)
    ensures Did(s, front + [last], step) <==> Did(s, front, step) || (step == last && Test(Run(s, front), last))
  {
    var all := front + [last];
    assert all[..|front|] == front && all[|front|] == last;
    forall k: nat | k < |front| ensures Took(s, all, k, step) <==> Took(s, front, k, step) {
      assert all[..k] == front[..k];
    }
    if Did(s, front, step) {
      var k: nat :| Took(s, front, k, step);
      assert Took(s, all, k, step);
    }
    if step == last && Test(Run(s, front), last) {
      assert Took(s, all, |front|, step);
    }
  }

  /** What holds of the requests and the device, one step further. */
  lemma {:induction false} RequestsSnoc(s: Session, front: seq<Step>, last: Step)
    requires Determined(Run(s, front))
    ensures var now, next := Run(s, front), Run(s, front + [last]);
            var took := Test(now, last);
            && (forall r: nat :: next.phase2Request == Some(r) <==>
                  now.phase2Request == Some(r) || (took && last.SetPhase2? && last.request == Some(r)))
            && (forall r: nat :: next.phase2ScepRequest == Some(r) <==>
                  now.phase2ScepRequest == Some(r) || (took && last == SetPhase2ScepVerified(Some(r))))
            && (forall r: nat :: next.phase3ScepRequest == Some(r) <==>
                  now.phase3ScepRequest == Some(r) || (took && last == SetPhase3ScepVerified(Some(r))))
            && (forall d: nat :: next.enrolledDevice == Some(d) <==>
                  now.enrolledDevice == Some(d) || (took && last == SetAuthenticated(Some(d))))
  {
    assert (front + [last])[..|front|] == front;
  }

  ghost predicate DidPhase2(s: Session, steps: seq<Step>, request: nat) {
    exists serialNumber, udid :: Did(s, steps, SetPhase2(Some(request), serialNumber, udid))
  }

  lemma {:induction false} DidPhase2Snoc(s: Session, front: seq<Step>, last: Step, r: nat)
    ensures DidPhase2(s, front + [last], r) <==>
            DidPhase2(s, front, r) || (Test(Run(s, front), last) && last.SetPhase2? && last.request == Some(r))
  {
    if serial, udid :| Did(s, front + [last], SetPhase2(Some(r), serial, udid)) {
      DidSnoc(s, front, last, SetPhase2(Some(r), serial, udid));
    }
    if serial, udid :| Did(s, front, SetPhase2(Some(r), serial, udid)) {
      DidSnoc(s, front, last, SetPhase2(Some(r), serial, udid));
    }
    if Test(Run(s, front), last) && last.SetPhase2? && last.request == Some(r) {
      DidSnoc(s, front, last, last);
      assert Did(s, front + [last], SetPhase2(Some(r), last.serialNumber, last.udid));
    }
  }

  /** The requests and the device of a session are those of the steps that were taken. */
  lemma {:induction false} SetByHistory(s: Session, steps: seq<Step>)
    requires IsStart(s)
    ensures forall r: nat :: Run(s, steps).phase2Request == Some(r) <==> DidPhase2(s, steps, r)
    ensures forall r: nat :: Run(s, steps).phase2ScepRequest == Some(r) <==>
              Did(s, steps, SetPhase2ScepVerified(Some(r)))
    ensures forall r: nat :: Run(s, steps).phase3ScepRequest == Some(r) <==>
              Did(s, steps, SetPhase3ScepVerified(Some(r)))
    ensures forall d: nat :: Run(s, steps).enrolledDevice == Some(d) <==> Did(s, steps, SetAuthenticated(Some(d)))
  {
    if steps != [] {
      var front, last := steps[..|steps| - 1], steps[|steps| - 1];
      assert steps == front + [last];
      SetByHistory(s, front);
      RunDetermined(s, front);
      RequestsSnoc(s, front, last);
      forall r: nat
        ensures Run(s, steps).phase2Request == Some(r) <==> DidPhase2(s, steps, r)
        ensures Run(s, steps).phase2ScepRequest == Some(r) <==> Did(s, steps, SetPhase2ScepVerified(Some(r)))
        ensures Run(s, steps).phase3ScepRequest == Some(r) <==> Did(s, steps, SetPhase3ScepVerified(Some(r)))
        ensures Run(s, steps).enrolledDevice == Some(r) <==> Did(s, steps, SetAuthenticated(Some(r)))
      {
        DidPhase2Snoc(s, front, last, r);
        DidSnoc(s, front, last, SetPhase2ScepVerified(Some(r)));
        DidSnoc(s, front, last, SetPhase3ScepVerified(Some(r)));
        DidSnoc(s, front, last, SetAuthenticated(Some(r)));
      }
    }
  }

  // ----- what the requests verify -----

  /** One more request on the count. */
  function Counted(secret: Secrets.Secret): Secrets.Secret {
    secret.(requestCount := secret.requestCount + 1)
  }

  /** The profile is sent to a device of a session with a user, if its serial number and
      UDID are admitted, to which the secret is bound from then on. */
  lemma {:induction false} DownloadExactly(e: Enrollment, serial: string, udid: string, pk: nat, now: int)
    requires Determined(e.session)
    ensures var r := Handled(e, DownloadProfile(serial, udid), pk, now);
            && (r.Ok? <==>
                  && e.session.status == Phase1 && e.session.realmUser.Some? && serial != "" && udid != ""
                  && Verifications.Admits(e.secret, Some(serial), Some(udid), None, now))
            && (r.Ok? ==>
                  && r.value.secret == Counted(e.secret).(serialNumbers := Some([serial]), udids := Some([udid]))
                  && r.value.session.status == Phase2 && r.value.session.phase2Request == Some(pk))
  {
    Verifications.RefusedExactly(e.secret, Some(serial), Some(udid), None, now);
  }

  /** A SCEP request is verified in its phase, with the serial number and the business unit
      of the subject. */
  lemma {:induction false} ScepExactly(e: Enrollment, phase3: bool, serial: Option<string>, unit: nat, pk: nat,
      now: int)
    requires Determined(e.session)
    ensures var r := Handled(e, VerifyScep(phase3, serial, unit), pk, now);
            && (r.Ok? <==>
                  && e.session.status == (if phase3 then Phase3 else Phase2)
                  && Verifications.Admits(e.secret, serial, None, Some(unit), now))
            && (r.Ok? ==>
                  && r.value.secret == Counted(e.secret)
                  && (if phase3 then r.value.session.phase3ScepRequest else r.value.session.phase2ScepRequest) ==
                     Some(pk))
  {
    Verifications.RefusedExactly(e.secret, serial, None, Some(unit), now);
  }

  /** The other requests do not verify anything. */
  lemma {:induction false} OthersDoNotVerify(e: Enrollment, r: Request, pk: nat, now: int)
    requires !r.DownloadProfile? && !r.VerifyScep? && Handled(e, r, pk, now).Ok?
    ensures Handled(e, r, pk, now).value.secret == if r.Revoke? then e.secret.(revoked := true) else e.secret
    ensures r.Revoke? ==> Handled(e, r, pk, now).value.session == e.session
  {
  }

  /** The secret of a new session admits its business unit, until the parent expires, and
      if it was created for a device, no other device. */
  lemma {:induction false} CreatedAdmits(parent: Secrets.Secret, realmUser: Option<nat>, serialNumber: string,
      udid: string, serial: Option<string>, id: Option<string>, unit: Option<nat>, now: int)
    ensures var open := (unit == None || unit == Some(parent.businessUnit))
                        && !exists t | parent.expiredAt == Some(t) :: t <= now;
            && (Verifications.Admits(FromRealmUser(parent, realmUser).secret, serial, id, unit, now) <==> open)
            && (Verifications.Admits(FromMachineInfo(parent, serialNumber, udid).secret, serial, id, unit, now) <==>
                  && open
                  && (serial == None || serial == Some("") || serial == Some(serialNumber))
                  && (id == None || id == Some("") || id == Some(udid)))
  {
    Verifications.RefusedExactly(FromRealmUser(parent, realmUser).secret, serial, id, unit, now);
    Verifications.RefusedExactly(FromMachineInfo(parent, serialNumber, udid).secret, serial, id, unit, now);
  }
}
