/** What a verification refuses, and what each enrollment step needs and changes, said of
    the rows of the tables. */
module SecretVerifications {
  import opened Wrappers
  import opened EnrollmentSecrets

  // ----- reasons to refuse -----

  /** A value that is not in the list, if both are there and not empty. */
  ghost predicate Missing(value: Option<string>, values: Option<seq<string>>) {
    exists v, l | value == Some(v) && values == Some(l) :: v != "" && l != [] && forall i | 0 <= i < |l| :: l[i] != v
  }

  ghost predicate Reason(es: Secret, serialNumber: Option<string>, udid: Option<string>, businessUnit: Option<nat>,
      now: int, r: Refusal)
  {
    match r
    case UnknownSecret => false
    case Revoked => es.revoked
    case Expired => exists t | es.expiredAt == Some(t) :: t <= now
    case SerialNumberMismatch => Missing(serialNumber, es.serialNumbers)
    case UdidMismatch => Missing(udid, es.udids)
    case BusinessUnitMismatch => exists u | businessUnit == Some(u) :: u != es.businessUnit
    case QuotaUsedUp => exists n | es.quota == Some(n) :: n != 0 && n <= es.requestCount
  }

  /** The order in which the reasons are looked at. */
  function Place(r: Refusal): nat {
    match r
    case UnknownSecret => 0
    case Revoked => 1
    case Expired => 2
    case SerialNumberMismatch => 3
    case UdidMismatch => 4
    case BusinessUnitMismatch => 5
    case QuotaUsedUp => 6
  }

  lemma {:induction false} MissingIs(value: Option<string>, values: Option<seq<string>>)
    ensures NotListed(value, values) <==> Missing(value, values)
  {
  }

  /** A verification is refused for the first reason there is, and only if there is one. */
  lemma {:induction false} RefusedExactly(es: Secret, serialNumber: Option<string>, udid: Option<string>,
      businessUnit: Option<nat>, now: int)
    ensures var refusal := IsValid(es, serialNumber, udid, businessUnit, now);
            && (refusal == None <==> forall r :: !Reason(es, serialNumber, udid, businessUnit, now, r))
            && forall r :: refusal == Some(r) <==>
                 && Reason(es, serialNumber, udid, businessUnit, now, r)
                 && forall other | Place(other) < Place(r) :: !Reason(es, serialNumber, udid, businessUnit, now, other)
  {
    MissingIs(serialNumber, es.serialNumbers);
    MissingIs(udid, es.udids);
    var refusal := IsValid(es, serialNumber, udid, businessUnit, now);
    if refusal.Some? {
      assert Reason(es, serialNumber, udid, businessUnit, now, refusal.value);
    }
  }

  /** Nothing speaks against the secret. */
  ghost predicate Admits(es: Secret, serialNumber: Option<string>, udid: Option<string>, businessUnit: Option<nat>,
      now: int)
  {
    forall r :: !Reason(es, serialNumber, udid, businessUnit, now, r)
  }

  // ----- what a verification changes -----

  /** One request more, and one more on the count of the secret; sessions stay. */
  ghost predicate OneRequestMore(s: State, t: State, secret: string, serialNumber: Option<string>,
      udid: Option<string>)
    requires secret in s.secrets
  {
    && t.requests == s.requests + [Request(secret, serialNumber, udid)]
    && t.secrets == s.secrets[secret := s.secrets[secret].(requestCount := s.secrets[secret].requestCount + 1)]
    && t.sessions == s.sessions
  }

  lemma {:induction false} VerifiedExactly(s: State, q: Query, now: int)
    ensures Verified(s, q, now).Ok? <==>
            && q.secret in s.secrets && s.secrets[q.secret].owner == q.owner
            && (q.owner == FilebeatSession ==> q.secret in s.sessions && s.sessions[q.secret].status in q.statuses)
            && Admits(s.secrets[q.secret], q.serialNumber, q.udid, q.businessUnit, now)
    ensures Verified(s, q, now).Ok? ==>
              OneRequestMore(s, Verified(s, q, now).value, q.secret, q.serialNumber, q.udid)
  {
    if q.secret in s.secrets {
      RefusedExactly(s.secrets[q.secret], q.serialNumber, q.udid, q.businessUnit, now);
    }
  }

  // ----- the steps of a filebeat enrollment -----

  /** An enrollment is started with a secret that admits the serial number; the session gets
      a secret for this serial number, with a quota of 2. */
  lemma {:induction false} StartExactly(s: State, secret: string, serial: string, newSecret: string, now: int)
    ensures var r := Next(s, Start(secret, serial, newSecret), now);
            && (r.Ok? <==>
                  && secret in s.secrets && s.secrets[secret].owner == FilebeatEnrollment
                  && Admits(s.secrets[secret], Some(serial), None, None, now) && newSecret !in s.secrets)
            && (r.Ok? ==>
                  exists t ::
                    && OneRequestMore(s, t, secret, Some(serial), None)
                    && r.value.requests == t.requests
                    && r.value.sessions == t.sessions[newSecret := Session(Started, None, None)]
                    && r.value.secrets == t.secrets[newSecret :=
                         Secret(FilebeatSession, s.secrets[secret].businessUnit, Some([serial]), None, Some(2), 0,
                                false, s.secrets[secret].expiredAt)])
  {
    var q := Query(FilebeatEnrollment, {}, secret, Some(serial), None, None);
    VerifiedExactly(s, q, now);
    assert QueryOf(Start(secret, serial, newSecret)) == q;
    if Verified(s, q, now).Ok? {
      assert OneRequestMore(s, Verified(s, q, now).value, secret, Some(serial), None);
    }
  }

  /** The SCEP request is verified of a started session, with the serial number and the
      business unit of the subject; an empty serial number is none. */
  lemma {:induction false} ScepExactly(s: State, secret: string, serial: Option<string>, unit: nat, now: int)
    requires Inv(s)
    ensures var r := Next(s, VerifyScep(secret, serial, unit), now);
            var known := if serial == Some("") then None else serial;
            && (r.Ok? <==>
                  && secret in s.sessions && s.sessions[secret].status == Started
                  && Admits(s.secrets[secret], known, None, Some(unit), now))
            && (r.Ok? ==>
                  exists t ::
                    && OneRequestMore(s, t, secret, known, None)
                    && r.value == State(t.secrets, t.requests,
                         s.sessions[secret :=
                           Session(ScepVerified, Some(|s.requests|), s.sessions[secret].enrolledMachine)]))
  {
    var known := if serial == Some("") then None else serial;
    var q := Query(FilebeatSession, {Started}, secret, known, None, Some(unit));
    if secret in s.secrets {
      assert SecretOk(s, secret);
    }
    VerifiedExactly(s, q, now);
    assert QueryOf(VerifyScep(secret, serial, unit)) == q;
    if Verified(s, q, now).Ok? {
      assert OneRequestMore(s, Verified(s, q, now).value, secret, known, None);
    }
  }

  /** An enrollment is completed in a session that is not, for its serial number. */
  lemma {:induction false} CompleteExactly(s: State, secret: string, serial: string, allKeys: bool, now: int)
    requires Inv(s)
    ensures var r := Next(s, Complete(secret, serial, allKeys), now);
            && (r.Ok? <==>
                  && secret in s.sessions && s.sessions[secret].status != Completed
                  && Admits(s.secrets[secret], Some(serial), None, None, now) && allKeys)
            && (r.Ok? ==>
                  exists t ::
                    && OneRequestMore(s, t, secret, Some(serial), None)
                    && r.value == State(t.secrets, t.requests,
                         s.sessions[secret := Session(Completed, s.sessions[secret].scepRequest, Some(serial))]))
  {
    var q := Query(FilebeatSession, {Started, ScepVerified}, secret, Some(serial), None, None);
    if secret in s.secrets {
      assert SecretOk(s, secret);
    }
    VerifiedExactly(s, q, now);
    assert QueryOf(Complete(secret, serial, allKeys)) == q;
    if Verified(s, q, now).Ok? {
      assert OneRequestMore(s, Verified(s, q, now).value, secret, Some(serial), None);
    }
  }

  /** Any other model verifies its secrets with what it is given. */
  lemma {:induction false} OtherExactly(s: State, secret: string, serial: Option<string>, udid: Option<string>,
      unit: Option<nat>, now: int)
    ensures var r := Next(s, VerifyOther(secret, serial, udid, unit), now);
            && (r.Ok? <==>
                  && secret in s.secrets && s.secrets[secret].owner == OtherModel
                  && Admits(s.secrets[secret], serial, udid, unit, now))
            && (r.Ok? ==> OneRequestMore(s, r.value, secret, serial, udid))
  {
    var q := Query(OtherModel, {}, secret, serial, udid, unit);
    VerifiedExactly(s, q, now);
    assert QueryOf(VerifyOther(secret, serial, udid, unit)) == q;
  }

  /** A revoked secret is refused from then on; nothing else changes. */
  lemma {:induction false} RevokedForGood(s: State, secret: string, q: Query, now: int, later: int)
    requires secret in s.secrets
    ensures var r := Next(s, Revoke(secret), now);
            && r.Ok? && r.value.requests == s.requests && r.value.sessions == s.sessions
            && r.value.secrets == s.secrets[secret := s.secrets[secret].(revoked := true)]
            && (q.secret == secret ==> Verified(r.value, q, later).Err?)
  {
    var t := Next(s, Revoke(secret), now).value;
    VerifiedExactly(t, q, later);
    assert Reason(t.secrets[secret], q.serialNumber, q.udid, q.businessUnit, later, Revoked);
  }
}
