/** One concrete input for each property that the code does not keep: runs from the empty store,
    and a walk over sessions. The exact conditions are proved where the properties are stated. */
module Counterexamples {
  import opened Prelude
  import opened Machine
  import Identity
  import IdentityInvariants
  import IdentityTheorems
  import IndexTheorems
  import Listings
  import Mfa
  import MfaInvariants
  import MfaTheorems
  import Pagination
  import Pats
  import PatInvariants
  import PatToken
  import Totp

  // ----- Following a run step by step -----

  ghost predicate Reached(env: Env, ops: seq<Op>, s: State)
    requires IsEnv(env)
  {
    IsFreshRun(env, EMPTY, ops) && Run(env, EMPTY, ops) == s
  }

  lemma {:induction false} RunAppends(env: Env, s: State, ops: seq<Op>, op: Op)
    requires IsEnv(env)
    ensures Run(env, s, ops + [op]) == Step(env, Run(env, s, ops), op).state
    ensures IsFreshRun(env, s, ops + [op]) <==> IsFreshRun(env, s, ops) && IsFresh(Run(env, s, ops), op)
    decreases |ops|
  {
    hide Step, IsEnv, IsFresh;
    if ops == [] {
      assert ops + [op] == [op] && [op][1..] == [];
    } else {
      RunAppends(env, Step(env, s, ops[0]).state, ops[1..], op);
      assert (ops + [op])[1..] == ops[1..] + [op];
    }
  }

  lemma Start(env: Env, ops: seq<Op>)
    requires IsEnv(env)
    ensures Reached(env, ops[..0], EMPTY)
  {
    hide IsEnv, Step, IsFresh;
  }

  lemma Next(env: Env, ops: seq<Op>, k: nat, s: State)
    requires IsEnv(env) && k < |ops| && Reached(env, ops[..k], s) && IsFresh(s, ops[k])
    ensures Reached(env, ops[..k + 1], Step(env, s, ops[k]).state)
  {
    hide IsEnv, Step, IsFresh, Run, IsFreshRun;
    RunAppends(env, EMPTY, ops[..k], ops[k]);
    assert ops[..k + 1] == ops[..k] + [ops[k]];
  }

  lemma Done(env: Env, ops: seq<Op>, k: nat, s: State)
    requires IsEnv(env) && k <= |ops| && Reached(env, ops[..k], s)
    ensures IsFreshRun(env, EMPTY, ops[..k]) && Run(env, EMPTY, ops[..k]) == s && Inv(s)
    ensures k == |ops| ==> ops[..k] == ops
  {
    hide IsEnv, Step, IsFresh, Run, IsFreshRun, Inv;
    ReachableStatesSatisfyInv(env, ops[..k]);
  }

  // ----- Steps on one user "u" with credentials under one identifier "a" -----

  const PASS: Identity.Material := Identity.NewOidc("issuer", "subject")

  const KEY := Identity.IdentifierKey(Identity.Oidc, "a")

  ghost predicate UserIs(s: State, status: Identity.Status) {
    "u" in s.core.users && s.core.users["u"].status == status
  }

  ghost predicate Holds(s: State, c: Id, status: Identity.Status) {
    && c in s.core.creds && s.core.creds[c].status == status && s.core.creds[c].usrId == "u"
    && s.core.creds[c].Type() == Identity.Oidc && s.core.creds[c].identifier == "a"
  }

  lemma UserCreated(env: Env, t: Time)
    requires IsEnv(env)
    ensures var s := Step(env, EMPTY, CreateUser(None, "u", t)).state;
      && UserIs(s, Identity.Active) && s.core.users.Keys == {"u"}
      && s == EMPTY.(core := EMPTY.core.(users := s.core.users))
  {
    hide IsEnv, CredentialStep, SessionStep, MfaStep, PatStep;
  }

  lemma CreatedUnderA(env: Env, s: State, c: Id)
    requires IsEnv(env) && UserIs(s, Identity.Active) && KEY !in s.core.activeCred
    ensures var t := Step(env, s, CreateCredential("u", "a", PASS, c, 0)).state;
      && UserIs(t, Identity.Active) && Holds(t, c, Identity.Active)
      && t.core.activeCred == s.core.activeCred[KEY := c] && t.core.creds == s.core.creds[c := t.core.creds[c]]
  {
    hide IsEnv, UserStep, SessionStep, MfaStep, PatStep, Identity.IdentifierKey;
  }

  lemma SuspendedUnderA(env: Env, s: State, c: Id)
    requires IsEnv(env) && UserIs(s, Identity.Active) && Holds(s, c, Identity.Active)
    ensures var t := Step(env, s, SuspendCredential(c, 0, 0)).state;
      && UserIs(t, Identity.Active) && Holds(t, c, Identity.Suspended)
      && t.core.activeCred == s.core.activeCred - {KEY} && t.core.creds.Keys == s.core.creds.Keys
  {
    hide IsEnv, UserStep, SessionStep, MfaStep, PatStep, Identity.IdentifierKey, Identity.RetireCredential;
    IndexTheorems.RetireFrame(s.core, c, Identity.Suspended, 0, 0);
    IndexTheorems.RetiredState(s.core, c, Identity.Suspended, 0, 0);
  }

  // ----- A lost index entry -----

  /** Create, suspend, create again under the same identifier, revoke the suspended one. */
  const LOSING_RUN: seq<Op> := [
    CreateUser(None, "u", 0),
    CreateCredential("u", "a", PASS, "c1", 0),
    SuspendCredential("c1", 0, 0),
    CreateCredential("u", "a", PASS, "c2", 0),
    RevokeCredential("c1", 0, 0)]

  lemma EntryDropped(env: Env, s: State)
    requires IsEnv(env) && IdentityInvariants.Inv(s.core) && Holds(s, "c1", Identity.Suspended)
    requires KEY in s.core.activeCred && s.core.activeCred[KEY] == "c2"
    ensures var t := Step(env, s, RevokeCredential("c1", 0, 0)).state.core;
      && IdentityTheorems.Selected(t, Identity.Oidc, "a", "c2")
      && Identity.FindCredential(t, Identity.Oidc, "a") == Ok(None)
  {
    hide IsEnv, UserStep, SessionStep, MfaStep, PatStep, IdentityInvariants.Inv, IdentityTheorems.Selected,
         IdentityTheorems.IndexComplete, Identity.FindCredential, Identity.RevokeCredential;
    IndexTheorems.ForeignEntryIsDropped(s.core, "c1", 0, 0);
  }

  /** After this run an ACTIVE credential is not found. */
  lemma EntryIsLostOnSomeRun(env: Env)
    requires IsEnv(env)
    ensures IsFreshRun(env, EMPTY, LOSING_RUN)
    ensures var core := Run(env, EMPTY, LOSING_RUN).core;
      && IdentityTheorems.Selected(core, Identity.Oidc, "a", "c2")
      && Identity.FindCredential(core, Identity.Oidc, "a") == Ok(None)
  {
    hide IsEnv, Step, Run, IsFreshRun, Reached, IdentityInvariants.Inv, MfaInvariants.Inv, PatInvariants.Inv,
         Identity.IdentifierKey, IdentityTheorems.Selected, Identity.FindCredential;
    var s1 := Step(env, EMPTY, LOSING_RUN[0]).state;
    var s2 := Step(env, s1, LOSING_RUN[1]).state;
    var s3 := Step(env, s2, LOSING_RUN[2]).state;
    var s4 := Step(env, s3, LOSING_RUN[3]).state;
    Start(env, LOSING_RUN);
    UserCreated(env, 0);
    Next(env, LOSING_RUN, 0, EMPTY);
    CreatedUnderA(env, s1, "c1");
    Next(env, LOSING_RUN, 1, s1);
    SuspendedUnderA(env, s2, "c1");
    Next(env, LOSING_RUN, 2, s2);
    CreatedUnderA(env, s3, "c2");
    Next(env, LOSING_RUN, 3, s3);
    Next(env, LOSING_RUN, 4, s4);
    Done(env, LOSING_RUN, 4, s4);
    EntryDropped(env, s4);
    Done(env, LOSING_RUN, 5, Step(env, s4, LOSING_RUN[4]).state);
  }

  // ----- A REVOKED user with an ACTIVE credential -----

  /** Suspend a credential, revoke its user, reinstate the credential. */
  const REVIVING_RUN: seq<Op> := [
    CreateUser(None, "u", 0),
    CreateCredential("u", "a", PASS, "c1", 0),
    SuspendCredential("c1", 0, 0),
    RevokeUser("u", 0, 0),
    ReinstateCredential("c1", 0)]

  lemma UserRevoked(env: Env, s: State)
    requires IsEnv(env) && UserIs(s, Identity.Active) && Holds(s, "c1", Identity.Suspended) && KEY !in s.core.activeCred
    ensures var t := Step(env, s, RevokeUser("u", 0, 0)).state;
      UserIs(t, Identity.Revoked) && Holds(t, "c1", Identity.Suspended) && KEY !in t.core.activeCred
  {
    hide IsEnv, CredentialStep, SessionStep, MfaStep, PatStep, Identity.IdentifierKey, Pats.RevokePatsOfUser;
    IndexTheorems.RevokedUserState(s.core, "u", 0, 0);
    hide Identity.RevokeUser;
  }

  lemma CredentialRevived(env: Env, s: State)
    requires IsEnv(env) && UserIs(s, Identity.Revoked) && Holds(s, "c1", Identity.Suspended)
      && KEY !in s.core.activeCred
    ensures var t := Step(env, s, ReinstateCredential("c1", 0)).state;
      UserIs(t, Identity.Revoked) && Holds(t, "c1", Identity.Active)
  {
    hide IsEnv, UserStep, SessionStep, MfaStep, PatStep, Identity.IdentifierKey;
  }

  lemma RevokedUserHasCredentialOnSomeRun(env: Env)
    requires IsEnv(env)
    ensures IsFreshRun(env, EMPTY, REVIVING_RUN)
    ensures var core := Run(env, EMPTY, REVIVING_RUN).core;
      && "u" in core.users && core.users["u"].status == Identity.Revoked
      && "c1" in core.creds && core.creds["c1"].usrId == "u" && core.creds["c1"].status == Identity.Active
  {
    hide IsEnv, Step, Run, IsFreshRun, Reached, IdentityInvariants.Inv, MfaInvariants.Inv, PatInvariants.Inv,
         Identity.IdentifierKey;
    var s1 := Step(env, EMPTY, REVIVING_RUN[0]).state;
    var s2 := Step(env, s1, REVIVING_RUN[1]).state;
    var s3 := Step(env, s2, REVIVING_RUN[2]).state;
    var s4 := Step(env, s3, REVIVING_RUN[3]).state;
    Start(env, REVIVING_RUN);
    UserCreated(env, 0);
    Next(env, REVIVING_RUN, 0, EMPTY);
    CreatedUnderA(env, s1, "c1");
    Next(env, REVIVING_RUN, 1, s1);
    SuspendedUnderA(env, s2, "c1");
    Next(env, REVIVING_RUN, 2, s2);
    UserRevoked(env, s3);
    Next(env, REVIVING_RUN, 3, s3);
    CredentialRevived(env, s4);
    Next(env, REVIVING_RUN, 4, s4);
    Done(env, REVIVING_RUN, 5, Step(env, s4, REVIVING_RUN[4]).state);
  }

  // ----- A REVOKED user with a live token -----

  const ZERO_ID: string := "pat_" + seq(32, _ => '0')

  const ZERO_BYTES: bytes := seq(32, _ => 0)

  /** Revoke a user, then create a token for it. */
  const MINTING_RUN: seq<Op> := [
    CreateUser(None, "u", 0),
    RevokeUser("u", 0, 0),
    CreatePat("u", "n", [], None, ZERO_ID, ZERO_BYTES, 0)]

  lemma OnlyUserRevoked(env: Env, s: State)
    requires IsEnv(env) && UserIs(s, Identity.Active) && s.pats == Pats.EMPTY
    ensures var t := Step(env, s, RevokeUser("u", 0, 0)).state;
      UserIs(t, Identity.Revoked) && t.pats.pats == map[]
  {
    hide IsEnv, CredentialStep, SessionStep, MfaStep, PatStep;
    IndexTheorems.RevokedUserState(s.core, "u", 0, 0);
    hide Identity.RevokeUser;
  }

  lemma FreshMint(s: State)
    requires s.pats.pats == map[]
    ensures IsFresh(s, MINTING_RUN[2])
  {
  }

  lemma TokenMinted(env: Env, s: State)
    requires IsEnv(env) && Inv(s) && UserIs(s, Identity.Revoked) && s.pats.pats == map[]
    ensures IsFresh(s, MINTING_RUN[2])
    ensures var t := Step(env, s, MINTING_RUN[2]).state;
      && UserIs(t, Identity.Revoked)
      && Pats.VerifyPatToken(t.pats, PatToken.Token(ZERO_ID, PatToken.Encode(ZERO_BYTES)), 0).result
         == Ok(Pats.VerifiedPat(ZERO_ID, "u", []))
  {
    var op := MINTING_RUN[2];
    FreshMint(s);
    PatKept(env, s);
    hide IsFresh, IsEnv, Step, IdentityInvariants.Inv, MfaInvariants.Inv, PatInvariants.Inv, PatInvariants.Evolves,
         Pats.VerifyPatToken, PatToken.Token, PatToken.Encode;
    PatStepKeeps(env, s, op);
    var t := Step(env, s, op).state;
    PatInvariants.TokenVerifiesWhileLive(t.pats, ZERO_ID, 0);
    TokenOwner(t.pats, PatToken.Token(ZERO_ID, PatToken.Encode(ZERO_BYTES)), ZERO_ID);
  }

  lemma PatKept(env: Env, s: State)
    requires IsEnv(env) && UserIs(s, Identity.Revoked)
    ensures UserIs(Step(env, s, MINTING_RUN[2]).state, Identity.Revoked)
    ensures var t := Step(env, s, MINTING_RUN[2]).state.pats;
      && ZERO_ID in t.pats && ZERO_ID in t.secretHashes
      && t.secretHashes[ZERO_ID].password == PatToken.Encode(ZERO_BYTES)
      && t.pats[ZERO_ID] == Pats.Pat(ZERO_ID, "u", "n", [], Pats.Active, None, None, None, 0, 0)
  {
    hide IsEnv, UserStep, CredentialStep, SessionStep, MfaStep, PatToken.Encode, PatToken.Token;
  }

  lemma TokenOwner(s: Pats.State, token: string, p: Id)
    requires PatInvariants.Inv(s) && p in s.pats && p in s.secretHashes
    requires token == PatToken.Token(p, s.secretHashes[p].password)
    requires Pats.VerifyPatToken(s, token, 0).result.Ok?
    ensures Pats.VerifyPatToken(s, token, 0).result == Ok(Pats.VerifiedPat(p, s.pats[p].usrId, s.pats[p].scope))
  {
    PatInvariants.KeyedPat(s, p);
    PatToken.TokenParts(p, s.secretHashes[p].password);
    hide PatInvariants.Inv, Identity.TooLong, PatToken.StructurallyValid, PatToken.Token, Pats.RecordUse,
         Pats.RecordsUse;
  }

  lemma RevokedUserHasTokenOnSomeRun(env: Env)
    requires IsEnv(env)
    ensures IsFreshRun(env, EMPTY, MINTING_RUN)
    ensures var t := Run(env, EMPTY, MINTING_RUN);
      && "u" in t.core.users && t.core.users["u"].status == Identity.Revoked
      && Pats.VerifyPatToken(t.pats, PatToken.Token(ZERO_ID, PatToken.Encode(ZERO_BYTES)), 0).result
         == Ok(Pats.VerifiedPat(ZERO_ID, "u", []))
  {
    hide IsEnv, Step, Run, IsFreshRun, Reached, Inv, Pats.VerifyPatToken, PatToken.Encode, PatToken.Token;
    var s1 := Step(env, EMPTY, MINTING_RUN[0]).state;
    var s2 := Step(env, s1, MINTING_RUN[1]).state;
    Start(env, MINTING_RUN);
    UserCreated(env, 0);
    Next(env, MINTING_RUN, 0, EMPTY);
    OnlyUserRevoked(env, s1);
    Next(env, MINTING_RUN, 1, s1);
    Done(env, MINTING_RUN, 2, s2);
    TokenMinted(env, s2);
    Next(env, MINTING_RUN, 2, s2);
    Done(env, MINTING_RUN, 3, Step(env, s2, MINTING_RUN[2]).state);
  }

  // ----- A rotation that fails halfway -----

  const OLD_PASSWORD: Identity.Material := Identity.NewPassword("old")

  const LONG_PASSWORD: Identity.Material := Identity.NewPassword(seq(1025, _ => 'x'))

  /** Rotate a password to one of 1025 bytes. */
  const ROTATING_RUN: seq<Op> := [
    CreateUser(None, "u", 0),
    CreateCredential("u", "a", OLD_PASSWORD, "c1", 0),
    RotateCredential("c1", LONG_PASSWORD, "c2", 0, 0)]

  lemma PasswordLengths()
    ensures !OLD_PASSWORD.IsTooLong() && LONG_PASSWORD.IsTooLong()
  {
    Utf8LengthOfAscii("old");
  }

  lemma PasswordCreated(env: Env, s: State)
    requires IsEnv(env) && UserIs(s, Identity.Active) && s.core.activeCred == map[]
    ensures var t := Step(env, s, ROTATING_RUN[1]).state.core;
      && t.creds == s.core.creds["c1" := t.creds["c1"]] && t.creds["c1"].status == Identity.Active
      && t.creds["c1"].Type() == Identity.Password && t.creds["c1"].identifier == "a"
  {
    hide IsEnv, UserStep, SessionStep, MfaStep, PatStep, Identity.IdentifierKey, Identity.Material.IsTooLong;
    PasswordLengths();
  }

  lemma PasswordLost(env: Env, s: State)
    requires IsEnv(env) && "c1" in s.core.creds && s.core.creds["c1"].status == Identity.Active
    requires s.core.creds["c1"].Type() == Identity.Password && s.core.creds["c1"].identifier == "a"
    ensures var r := Step(env, s, ROTATING_RUN[2]);
      && r.error == Some(ValueError)
      && "c1" in r.state.core.creds && r.state.core.creds["c1"].status == Identity.Revoked
      && Identity.FindCredential(r.state.core, Identity.Password, "a") == Ok(None)
  {
    hide IsEnv, UserStep, SessionStep, MfaStep, PatStep, Identity.IdentifierKey, Identity.Material.IsTooLong,
         Identity.RetireCredential;
    PasswordLengths();
    IndexTheorems.RetiredState(s.core, "c1", Identity.Revoked, 0, 0);
  }

  /** The last call raises, and the user is left without a password. */
  lemma RotationFailsHalfwayOnSomeRun(env: Env)
    requires IsEnv(env)
    ensures IsFreshRun(env, EMPTY, ROTATING_RUN)
    ensures Step(env, Run(env, EMPTY, ROTATING_RUN[..2]), ROTATING_RUN[2]).error == Some(ValueError)
    ensures var core := Run(env, EMPTY, ROTATING_RUN).core;
      && "c1" in core.creds && core.creds["c1"].status == Identity.Revoked
      && Identity.FindCredential(core, Identity.Password, "a") == Ok(None)
  {
    hide IsEnv, Step, Run, IsFreshRun, Reached, Inv, Identity.FindCredential;
    var s1 := Step(env, EMPTY, ROTATING_RUN[0]).state;
    var s2 := Step(env, s1, ROTATING_RUN[1]).state;
    Start(env, ROTATING_RUN);
    UserCreated(env, 0);
    Next(env, ROTATING_RUN, 0, EMPTY);
    PasswordCreated(env, s1);
    Next(env, ROTATING_RUN, 1, s1);
    Done(env, ROTATING_RUN, 2, s2);
    PasswordLost(env, s2);
    Next(env, ROTATING_RUN, 2, s2);
    Done(env, ROTATING_RUN, 3, Step(env, s2, ROTATING_RUN[2]).state);
  }

  // ----- TOTP slots -----

  const MINUTE: Time := 60 * Identity.SECOND

  const FIRST_SECRET: bytes := [1]

  const SECOND_SECRET: bytes := [2]

  /** The code for the window that begins a minute into the epoch. */
  function CodeNow(env: Env, secret: bytes): string
    requires IsEnv(env)
  {
    Totp.Code(env.hmac, secret, 2, 6).value
  }

  /** Begin two enrollments and confirm the first. */
  function TwoEnrollments(env: Env): (ops: seq<Op>)
    requires IsEnv(env)
    ensures |ops| == 4
  {
    [CreateUser(None, "u", MINUTE),
     EnrollTotp("u", "phone", FIRST_SECRET, "f1", MINUTE),
     EnrollTotp("u", "tablet", SECOND_SECRET, "f2", MINUTE),
     ConfirmTotp("f1", CodeNow(env, FIRST_SECRET), MINUTE, MINUTE, MINUTE)]
  }

  /** Then confirm the second as well. */
  function TwoActiveRun(env: Env): seq<Op>
    requires IsEnv(env)
  {
    TwoEnrollments(env) + [ConfirmTotp("f2", CodeNow(env, SECOND_SECRET), MINUTE, MINUTE, MINUTE)]
  }

  /** Or revoke the second. */
  function EmptiedSlotRun(env: Env): seq<Op>
    requires IsEnv(env)
  {
    TwoEnrollments(env) + [RevokeFactor("f2", MINUTE)]
  }

  lemma CodeNowPasses(env: Env, secret: bytes)
    requires IsEnv(env)
    ensures Mfa.CheckTotp(env.hmac, secret, CodeNow(env, secret), MINUTE).None?
  {
    var code := CodeNow(env, secret);
    Totp.MatchesExactlyTheCode(env.hmac, secret, code, 2, 6);
    Totp.CodeIsAcceptedThroughout(env.hmac, secret, code, 2, 6, 1, 30, 60);
    hide IsEnv, Totp.IsHmac, Totp.Verify, Totp.Code;
    assert Mfa.WholeSeconds(MINUTE) == 60;
  }

  function PendingTotp(id: Id, identifier: string): Mfa.Factor {
    Mfa.Factor(id, "u", Mfa.Pending, None, MINUTE, MINUTE, Mfa.TotpFactor(identifier))
  }

  lemma Enrolled(env: Env, s: State, id: Id, identifier: string, secret: bytes)
    requires IsEnv(env) && UserIs(s, Identity.Active) && Mfa.TotpKey("u") !in s.mfa.singleton
    ensures var t := Step(env, s, EnrollTotp("u", identifier, secret, id, MINUTE)).state;
      t == s.(mfa := s.mfa.(factors := s.mfa.factors[id := PendingTotp(id, identifier)],
                            totpSecrets := s.mfa.totpSecrets[id := secret]))
  {
    hide IsEnv, UserStep, CredentialStep, SessionStep, PatStep, Mfa.TotpKey;
  }

  lemma Confirmed(env: Env, s: State, id: Id, identifier: string, secret: bytes)
    requires IsEnv(env) && id in s.mfa.factors && s.mfa.factors[id] == PendingTotp(id, identifier)
    requires id in s.mfa.totpSecrets && s.mfa.totpSecrets[id] == secret
    ensures var t := Step(env, s, ConfirmTotp(id, CodeNow(env, secret), MINUTE, MINUTE, MINUTE)).state;
      t == s.(mfa := s.mfa.(
        factors := s.mfa.factors[id := PendingTotp(id, identifier).(status := Mfa.Active)],
        singleton := s.mfa.singleton[Mfa.TotpKey("u") := id]))
  {
    CodeNowPasses(env, secret);
    hide Totp.IsHmac, UserStep, CredentialStep, SessionStep, PatStep, Mfa.TotpKey, Mfa.CheckTotp, CodeNow;
  }

  lemma SecondRevoked(env: Env, s: State)
    requires IsEnv(env) && "f2" in s.mfa.factors && s.mfa.factors["f2"] == PendingTotp("f2", "tablet")
    ensures var t := Step(env, s, RevokeFactor("f2", MINUTE)).state;
      && t.mfa.factors == s.mfa.factors["f2" := PendingTotp("f2", "tablet").(status := Mfa.Revoked)]
      && t.mfa.singleton == s.mfa.singleton - {Mfa.TotpKey("u")}
  {
    hide IsEnv, UserStep, CredentialStep, SessionStep, PatStep, Mfa.TotpKey;
  }

  /** What both runs have in common: the first factor is ACTIVE in its slot, the second PENDING. */
  lemma FirstFour(env: Env) returns (s: State)
    requires IsEnv(env)
    ensures Reached(env, TwoEnrollments(env), s)
    ensures s.mfa.factors == map["f1" := PendingTotp("f1", "phone").(status := Mfa.Active),
      "f2" := PendingTotp("f2", "tablet")]
    ensures s.mfa.totpSecrets == map["f1" := FIRST_SECRET, "f2" := SECOND_SECRET]
    ensures s.mfa.singleton == map[Mfa.TotpKey("u") := "f1"]
  {
    hide IsEnv, Step, Run, IsFreshRun, Reached, Inv, Mfa.TotpKey, CodeNow;
    var ops := TwoEnrollments(env);
    var s1 := Step(env, EMPTY, ops[0]).state;
    var s2 := Step(env, s1, ops[1]).state;
    var s3 := Step(env, s2, ops[2]).state;
    s := Step(env, s3, ops[3]).state;
    Start(env, ops);
    UserCreated(env, MINUTE);
    Next(env, ops, 0, EMPTY);
    Enrolled(env, s1, "f1", "phone", FIRST_SECRET);
    Next(env, ops, 1, s1);
    Enrolled(env, s2, "f2", "tablet", SECOND_SECRET);
    Next(env, ops, 2, s2);
    Confirmed(env, s3, "f1", "phone", FIRST_SECRET);
    Next(env, ops, 3, s3);
    assert ops[..4] == ops;
  }

  lemma OneMore(env: Env, ops: seq<Op>, op: Op, s: State)
    requires IsEnv(env) && Reached(env, ops, s) && IsFresh(s, op)
    ensures IsFreshRun(env, EMPTY, ops + [op]) && Run(env, EMPTY, ops + [op]) == Step(env, s, op).state
  {
    hide IsEnv, Step, IsFresh, Run, IsFreshRun;
    RunAppends(env, EMPTY, ops, op);
  }

  /** Two TOTP factors of one user are ACTIVE. */
  lemma TwoTotpFactorsAreActiveOnSomeRun(env: Env)
    requires IsEnv(env)
    ensures IsFreshRun(env, EMPTY, TwoActiveRun(env))
    ensures var m := Run(env, EMPTY, TwoActiveRun(env)).mfa;
      && "f1" in m.factors && m.factors["f1"].usrId == "u" && MfaTheorems.IsActiveTotp(m.factors["f1"])
      && "f2" in m.factors && m.factors["f2"].usrId == "u" && MfaTheorems.IsActiveTotp(m.factors["f2"])
  {
    hide IsEnv, Step, Run, IsFreshRun, Reached, TwoEnrollments, Mfa.TotpKey, CodeNow;
    var s := FirstFour(env);
    OneMore(env, TwoEnrollments(env), ConfirmTotp("f2", CodeNow(env, SECOND_SECRET), MINUTE, MINUTE, MINUTE), s);
    Confirmed(env, s, "f2", "tablet", SECOND_SECRET);
  }

  /** A TOTP factor is ACTIVE, and its own code is refused. */
  lemma ActiveTotpFactorIsIgnoredOnSomeRun(env: Env)
    requires IsEnv(env)
    ensures IsFreshRun(env, EMPTY, EmptiedSlotRun(env))
    ensures var m := Run(env, EMPTY, EmptiedSlotRun(env)).mfa;
      && "f1" in m.factors && m.factors["f1"].usrId == "u" && MfaTheorems.IsActiveTotp(m.factors["f1"])
      && "f1" in m.totpSecrets && m.totpSecrets["f1"] == FIRST_SECRET
      && Mfa.CheckTotp(env.hmac, FIRST_SECRET, CodeNow(env, FIRST_SECRET), MINUTE).None?
      && Mfa.VerifyTotp(m, env.hmac, "u", CodeNow(env, FIRST_SECRET), MINUTE) == Raise(InvalidCredential)
  {
    CodeNowPasses(env, FIRST_SECRET);
    hide Totp.IsHmac, Step, Run, IsFreshRun, Reached, TwoEnrollments, Mfa.TotpKey, CodeNow, Mfa.CheckTotp;
    var s := FirstFour(env);
    OneMore(env, TwoEnrollments(env), RevokeFactor("f2", MINUTE), s);
    SecondRevoked(env, s);
    SecretsStay(env, s);
  }

  lemma SecretsStay(env: Env, s: State)
    requires IsEnv(env)
    ensures Step(env, s, RevokeFactor("f2", MINUTE)).state.mfa.totpSecrets == s.mfa.totpSecrets
  {
    hide IsEnv, UserStep, CredentialStep, SessionStep, PatStep, Mfa.TotpKey, Mfa.RecoveryKey;
  }

  // ----- Sessions that are never listed -----

  function HexDigit(n: nat): (c: char)
    requires n < 16
    ensures HexValue(c) == n
  {
    if n < 10 then '0' + n as char else 'a' + (n - 10) as char
  }

  /** A wire id: a version 7 UUID in hexadecimal that ends in the digits of `n`. */
  function WireId(prefix: string, n: nat): Id
    requires n < 4096
  {
    prefix + "_" + "01890000000070008000000000000" + [HexDigit(n / 256), HexDigit(n / 16 % 16), HexDigit(n % 16)]
  }

  function HexValue(c: char): int {
    if c <= '9' then c as int - '0' as int else c as int - 'a' as int + 10
  }

  /** The number in the last three digits. */
  function Number(id: Id): int {
    if |id| < 3 then 0
    else HexValue(id[|id| - 3]) * 256 + HexValue(id[|id| - 2]) * 16 + HexValue(id[|id| - 1])
  }

  lemma NumberOfWireId(prefix: string, n: nat)
    requires n < 4096
    ensures Number(WireId(prefix, n)) == n
  {
    hide HexDigit, HexValue;
    assert n / 256 < 16;
  }

  lemma OneMoreKey(ids: set<Id>, i: Id)
    requires i !in ids
    ensures |Listings.UserKeys(ids + {i})| == |Listings.UserKeys(ids)| + 1
  {
    assert Listings.UserKeys(ids + {i}) == Listings.UserKeys(ids) + {Pagination.Key(0, i)};
  }

  function SessionIds(n: nat): (ids: set<Id>)
    requires n <= 4096
    ensures forall i :: i in ids ==> Number(i) < n
    ensures |Listings.UserKeys(ids)| == n
  {
    if n == 0 then {} else
    var ids, newest := SessionIds(n - 1), WireId("ses", n - 1);
    NumberOfWireId("ses", n - 1);
    OneMoreKey(ids, newest);
    hide WireId, Number, Listings.UserKeys;
    ids + {newest}
  }

  /** A store in which the user has `n` sessions. */
  function WithSessions(n: nat): Identity.Core
    requires n <= 4096
  {
    Identity.EMPTY.(sessions := map i | i in SessionIds(n) ::
        Identity.Session(i, WireId("usr", 0), WireId("cred", 0), 0, MINUTE, None))
  }

  lemma SessionsOfThisUser(n: nat)
    requires n <= 4096
    ensures Listings.SessionsOfUser(WithSessions(n), WireId("usr", 0)) == SessionIds(n)
  {
    hide SessionIds, WireId;
  }

  /** With 202 sessions and a limit of 201 the walk of the in-memory store lists all of them; the
      walk of the Postgres store ends without the last one. */
  lemma SessionsAreCutOffInPostgres()
    ensures var stores := seq(203, _ => WithSessions(202)); var usrId := WireId("usr", 0);
      var memory, postgres := Listings.SessionPages(stores, usrId, None, 201),
                              Listings.PostgresSessionPages(stores, usrId, None, 201);
      && Pagination.IsComplete(memory) && |Pagination.Items(memory)| == 202
      && Pagination.IsComplete(postgres) && Pagination.Items(postgres) == Pagination.Items(memory)[..201]
  {
    hide WithSessions, WireId, Listings.SessionsOfUser, Listings.UserKeys, Listings.SessionPages,
         Listings.PostgresSessionPages, Pagination.Items, Pagination.IsComplete, Pagination.Sorted;
    var core, usrId := WithSessions(202), WireId("usr", 0);
    var stores := seq(203, _ => core);
    SessionsOfThisUser(202);
    var ids := SessionIds(202);
    assert |Listings.UserKeys(ids)| == 202;
    hide SessionIds;
    Listings.FixedSessionWalk(stores, core, usrId, 201);
    Listings.PostgresSessionPagesBeyond(stores, usrId, 201);
    Listings.OnePage(Listings.PostgresSessionPages(stores, usrId, None, 201));
  }
}
