/**
 Which sign-in methods an account has, and the guarded revocation of its
 password, TOTP and recovery codes when any query may fail.
 */
module Flow {
  import opened Wrappers

  datatype Method = WebAuthn | PasswordTotp | FederationOidc

  /** One account's rows; `totp` holds whether the credential is confirmed. */
  datatype Factors = Factors(
    passkeys: nat,
    usableFederation: nat,
    password: bool,
    totp: Option<bool>,
    recoveryCodes: nat)

  datatype Query = ListPasskeys | GetPassword | GetTotp | CountFederation | DeleteRecovery | DeleteTotp | DeletePassword

  /** How each query behaves; one not mentioned works. */
  type Faults = map<Query, Fault>

  const CLEAN: Faults := map[]

  function FaultOf(faults: Faults, q: Query): Fault {
    if q in faults then faults[q] else NoFault
  }

  predicate Fails(faults: Faults, q: Query) {
    !FaultOf(faults, q).NoFault?
  }

  datatype FlowError = QueryFailed(query: Query) | NoUsableMethod | WouldRemoveLastFactor

  datatype AuditFactor = AuditRecoveryCode | AuditTotp | AuditPassword

  function Offered(f: Factors): seq<Method> {
    (if f.passkeys > 0 then [WebAuthn] else [])
    + (if f.password && f.totp == Some(true) then [PasswordTotp] else [])
    + (if f.usableFederation > 0 then [FederationOidc] else [])
  }

  /** The first read, in the order the methods are looked up, that faults. */
  function FirstFailedRead(faults: Faults): Option<Query> {
    if Fails(faults, ListPasskeys) then Some(ListPasskeys)
    else if Fails(faults, GetPassword) then Some(GetPassword)
    else if Fails(faults, GetTotp) then Some(GetTotp)
    else if Fails(faults, CountFederation) then Some(CountFederation)
    else None
  }

  /** Methods are listed once each, passkeys first and federation last. */
  ghost predicate InOrder(ms: seq<Method>) {
    forall i, j :: 0 <= i < j < |ms| ==> Rank(ms[i]) < Rank(ms[j])
  }

  function Rank(m: Method): nat {
    match m
    case WebAuthn => 0
    case PasswordTotp => 1
    case FederationOidc => 2
  }

  const READS := [ListPasskeys, GetPassword, GetTotp, CountFederation]
  const STEPS := [ListPasskeys, CountFederation, DeleteRecovery, DeleteTotp, DeletePassword]

  /** The query fails and none made before it does. */
  ghost predicate FirstToFail(q: Query, order: seq<Query>, faults: Faults) {
    exists i :: 0 <= i < |order| && order[i] == q && Fails(faults, q) && forall j :: 0 <= j < i ==> !Fails(faults, order[j])
  }

  lemma FailedReadIsFirst(faults: Faults)
    ensures FirstFailedRead(faults).Some? ==> FirstToFail(FirstFailedRead(faults).value, READS, faults)
  {
    assert READS[0] == ListPasskeys && READS[1] == GetPassword && READS[2] == GetTotp && READS[3] == CountFederation;
  }

  lemma FailedStepIsFirst(f: Factors, faults: Faults)
    ensures Outcome(f, faults).Err? && Outcome(f, faults).error.QueryFailed? ==>
            FirstToFail(Outcome(f, faults).error.query, STEPS, faults)
  {
    assert STEPS[0] == ListPasskeys && STEPS[1] == CountFederation && STEPS[2] == DeleteRecovery
           && STEPS[3] == DeleteTotp && STEPS[4] == DeletePassword;
  }

  /** Recovery codes only ever back a TOTP credential. */
  predicate CodesBacked(f: Factors) {
    f.recoveryCodes > 0 ==> f.totp.Some?
  }

  /** Something other than password and TOTP can still sign the account in. */
  predicate HasOtherFactor(f: Factors) {
    f.passkeys > 0 || f.usableFederation > 0
  }

  /** The deletes in the order they are made. */
  function Revoked(f: Factors, steps: nat): Factors {
    var f1 := if steps >= 1 then f.(recoveryCodes := 0) else f;
    var f2 := if steps >= 2 then f1.(totp := None) else f1;
    if steps >= 3 then f2.(password := false) else f2
  }

  class Account {
    var factors: Factors
    /** Every state a reader of the rows could have seen, oldest first. */
    ghost var seen: seq<Factors>
    var audit: seq<AuditFactor>

    ghost predicate Valid()
      reads this
    {
      seen != [] && seen[|seen| - 1] == factors
    }

    constructor (f: Factors)
      ensures Valid() && factors == f && seen == [f] && audit == []
    {
      factors, seen, audit := f, [f], [];
    }

    method AvailableMethods(faults: Faults) returns (r: Result<seq<Method>, FlowError>)
      ensures r == match FirstFailedRead(faults)
                   case Some(q) => Err(QueryFailed(q))
                   case None => if Offered(factors) == [] then Err(NoUsableMethod) else Ok(Offered(factors))
      ensures r.Ok? ==> InOrder(r.value)
      ensures r.Ok? ==>
                && (WebAuthn in r.value <==> factors.passkeys > 0)
                && (PasswordTotp in r.value <==> factors.password && factors.totp.Some? && factors.totp.value)
                && (FederationOidc in r.value <==> factors.usableFederation > 0)
      ensures r == Err(NoUsableMethod) ==>
                factors.passkeys == 0 == factors.usableFederation && !(factors.password && factors.totp == Some(true))
      ensures r.Err? && r.error.QueryFailed? ==> FirstToFail(r.error.query, READS, faults)
    {
      FailedReadIsFirst(faults);
      var methods: seq<Method> := [];
      if Fails(faults, ListPasskeys) {
        return Err(QueryFailed(ListPasskeys));
      }
      if factors.passkeys > 0 {
        methods := methods + [WebAuthn];
      }
      if Fails(faults, GetPassword) {
        return Err(QueryFailed(GetPassword));
      }
      var hasPassword := factors.password;
      if Fails(faults, GetTotp) {
        return Err(QueryFailed(GetTotp));
      }
      var hasConfirmedTotp := factors.totp.Some? && factors.totp.value;
      if hasPassword && hasConfirmedTotp {
        methods := methods + [PasswordTotp];
      }
      if Fails(faults, CountFederation) {
        return Err(QueryFailed(CountFederation));
      }
      if factors.usableFederation > 0 {
        methods := methods + [FederationOidc];
      }
      assert methods == Offered(factors);
      if |methods| == 0 {
        return Err(NoUsableMethod);
      }
      return Ok(methods);
    }

    /** One delete, which leaves the rows as `f` unless it fails before taking effect. */
    method Delete(q: Query, f: Factors, faults: Faults) returns (ok: bool)
      requires Valid()
      modifies this`factors, this`seen
      ensures Valid() && ok == !Fails(faults, q)
      ensures if FaultOf(faults, q).FailBefore? then factors == old(factors) && seen == old(seen)
              else factors == f && seen == old(seen) + [f]
    {
      if !FaultOf(faults, q).FailBefore? {
        factors := f;
        seen := seen + [f];
      }
      ok := !Fails(faults, q);
    }

    /** Deletes recovery codes, then TOTP, then the password, stopping at the first failure. */
    method DisableNonWebAuthnFallbacks(faults: Faults) returns (r: Result<(), FlowError>)
      requires Valid()
      modifies this
      ensures Valid() && old(seen) <= seen
      ensures r == Outcome(old(factors), faults)
      ensures seen[|old(seen)|..] == Trail(old(factors), faults)
      ensures factors == Left(old(factors), faults)
      ensures r.Ok? <==> HasOtherFactor(old(factors)) && forall q :: q in STEPS ==> !Fails(faults, q)
      ensures r.Err? && r.error.QueryFailed? ==> FirstToFail(r.error.query, STEPS, faults)
      ensures r.Err? && !r.error.QueryFailed? ==> r.error == WouldRemoveLastFactor && !HasOtherFactor(old(factors))
      ensures r.Ok? ==> factors == old(factors).(recoveryCodes := 0, totp := None, password := false)
      ensures r == Err(QueryFailed(DeleteRecovery)) ==>
                factors == old(factors).(recoveryCodes := if FaultOf(faults, DeleteRecovery).FailAfter? then 0 else old(factors).recoveryCodes)
      ensures r == Err(QueryFailed(DeleteTotp)) ==>
                factors == old(factors).(recoveryCodes := 0,
                                         totp := if FaultOf(faults, DeleteTotp).FailAfter? then None else old(factors).totp)
      ensures r == Err(QueryFailed(DeletePassword)) ==>
                factors == old(factors).(recoveryCodes := 0, totp := None,
                                         password := old(factors).password && FaultOf(faults, DeletePassword).FailBefore?)
      ensures r == Err(WouldRemoveLastFactor) || r == Err(QueryFailed(ListPasskeys)) || r == Err(QueryFailed(CountFederation)) ==>
                factors == old(factors) && seen == old(seen)
      ensures audit == old(audit) + if r.Ok? then [AuditRecoveryCode, AuditTotp, AuditPassword] else []
      ensures forall i :: |old(seen)| <= i < |seen| ==>
                Offered(seen[i]) != [] && (CodesBacked(old(factors)) ==> CodesBacked(seen[i]))
    {
      RevocationIsSafe(factors, faults);
      FailedStepIsFirst(factors, faults);
      if Fails(faults, ListPasskeys) {
        return Err(QueryFailed(ListPasskeys));
      }
      if Fails(faults, CountFederation) {
        return Err(QueryFailed(CountFederation));
      }
      if factors.passkeys == 0 && factors.usableFederation == 0 {
        return Err(WouldRemoveLastFactor);
      }
      var ok := Delete(DeleteRecovery, factors.(recoveryCodes := 0), faults);
      if !ok {
        return Err(QueryFailed(DeleteRecovery));
      }
      ok := Delete(DeleteTotp, factors.(totp := None), faults);
      if !ok {
        return Err(QueryFailed(DeleteTotp));
      }
      ok := Delete(DeletePassword, factors.(password := false), faults);
      if !ok {
        return Err(QueryFailed(DeletePassword));
      }
      var order := [AuditRecoveryCode, AuditTotp, AuditPassword];
      for i := 0 to |order|
        modifies this`audit
        invariant audit == old(audit) + order[..i]
      {
        audit := audit + [order[i]];
      }
      r := Ok(());
    }
  }

  /** What the attempt reports. */
  function Outcome(f: Factors, faults: Faults): Result<(), FlowError> {
    if Fails(faults, ListPasskeys) then Err(QueryFailed(ListPasskeys))
    else if Fails(faults, CountFederation) then Err(QueryFailed(CountFederation))
    else if !HasOtherFactor(f) then Err(WouldRemoveLastFactor)
    else if Fails(faults, DeleteRecovery) then Err(QueryFailed(DeleteRecovery))
    else if Fails(faults, DeleteTotp) then Err(QueryFailed(DeleteTotp))
    else if Fails(faults, DeletePassword) then Err(QueryFailed(DeletePassword))
    else Ok(())
  }

  /** How many of the deletes take effect; one may do so and still be reported as failed. */
  function Effective(f: Factors, faults: Faults): nat {
    match Outcome(f, faults)
    case Ok(_) => 3
    case Err(QueryFailed(DeleteRecovery)) => if FaultOf(faults, DeleteRecovery).FailAfter? then 1 else 0
    case Err(QueryFailed(DeleteTotp)) => if FaultOf(faults, DeleteTotp).FailAfter? then 2 else 1
    case Err(QueryFailed(DeletePassword)) => if FaultOf(faults, DeletePassword).FailAfter? then 3 else 2
    case _ => 0
  }

  /** The states the rows pass through after the start. */
  function Trail(f: Factors, faults: Faults): seq<Factors> {
    [Revoked(f, 1), Revoked(f, 2), Revoked(f, 3)][..Effective(f, faults)]
  }

  /** The state an attempt leaves behind. */
  function Left(f: Factors, faults: Faults): Factors {
    Revoked(f, Effective(f, faults))
  }

  /** At every failure point nobody is locked out, and recovery codes never outlive their TOTP. */
  lemma RevocationIsSafe(f: Factors, faults: Faults)
    ensures forall i :: 0 <= i < |Trail(f, faults)| ==>
              Offered(Trail(f, faults)[i]) != [] && (CodesBacked(f) ==> CodesBacked(Trail(f, faults)[i]))
    ensures Trail(f, faults) != [] ==> HasOtherFactor(f)
  {
  }

  /** Attempts made one after another, each with its own failures. */
  function LeftByAll(f: Factors, attempts: seq<Faults>): Factors {
    if attempts == [] then f else Left(LeftByAll(f, attempts[..|attempts| - 1]), attempts[|attempts| - 1])
  }

  /**
   However many attempts fail and wherever, the account stays usable if it was, and one clean
   attempt ends where a single clean attempt from the start would have.
   */
  lemma {:induction false} RetriesConverge(f: Factors, attempts: seq<Faults>)
    ensures var g := LeftByAll(f, attempts);
      && (!HasOtherFactor(f) ==> g == f && Outcome(g, CLEAN) == Err(WouldRemoveLastFactor))
      && (HasOtherFactor(f) ==> Outcome(g, CLEAN) == Ok(()) && Left(g, CLEAN) == Left(f, CLEAN))
      && (Offered(f) != [] ==> Offered(g) != [])
      && (CodesBacked(f) ==> CodesBacked(g))
  {
    if attempts != [] {
      RetriesConverge(f, attempts[..|attempts| - 1]);
      RevocationIsSafe(LeftByAll(f, attempts[..|attempts| - 1]), attempts[|attempts| - 1]);
    }
  }

  function Without(ms: seq<Method>, m: Method): seq<Method> {
    if ms == [] then [] else (if ms[0] == m then [] else [ms[0]]) + Without(ms[1..], m)
  }

  lemma CleanAttempt(f: Factors)
    requires HasOtherFactor(f)
    ensures Outcome(f, CLEAN) == Ok(())
    ensures Offered(Left(f, CLEAN)) ==
            (if f.passkeys > 0 then [WebAuthn] else []) + if f.usableFederation > 0 then [FederationOidc] else []
  {
  }

  lemma WithoutCons(x: Method, rest: seq<Method>, m: Method)
    ensures Without([x] + rest, m) == (if x == m then [] else [x]) + Without(rest, m)
  {
    assert ([x] + rest)[1..] == rest;
  }

  lemma WithoutFederation(rest: seq<Method>)
    requires rest == [] || rest == [FederationOidc]
    ensures Without(rest, PasswordTotp) == rest && Without([PasswordTotp] + rest, PasswordTotp) == rest
  {
    WithoutCons(FederationOidc, [], PasswordTotp);
    assert [FederationOidc] + [] == [FederationOidc];
    WithoutCons(PasswordTotp, rest, PasswordTotp);
  }

  lemma WithoutMiddle(a: seq<Method>, b: seq<Method>, c: seq<Method>)
    requires (a == [] || a == [WebAuthn]) && (b == [] || b == [PasswordTotp]) && (c == [] || c == [FederationOidc])
    ensures Without(a + b + c, PasswordTotp) == a + c
  {
    var rest := if b == [] then c else [PasswordTotp] + c;
    WithoutFederation(c);
    WithoutCons(WebAuthn, rest, PasswordTotp);
    assert a + b + c == if a == [] then rest else [WebAuthn] + rest;
  }

  /** A clean revocation offers the old methods minus password+TOTP, in the same order. */
  lemma SuccessOnlyDropsPasswordTotp(f: Factors)
    requires HasOtherFactor(f)
    ensures Outcome(f, CLEAN) == Ok(())
    ensures Offered(Left(f, CLEAN)) == Without(Offered(f), PasswordTotp) != []
  {
    CleanAttempt(f);
    WithoutMiddle(if f.passkeys > 0 then [WebAuthn] else [],
                  if f.password && f.totp == Some(true) then [PasswordTotp] else [],
                  if f.usableFederation > 0 then [FederationOidc] else []);
  }

  /** The order matters: deleting password and TOTP first leaves every account's codes without their TOTP. */
  lemma PasswordFirstLeavesOrphanCodes(f: Factors)
    requires f.recoveryCodes > 0
    ensures !CodesBacked(f.(password := false).(totp := None))
  {
  }
}
