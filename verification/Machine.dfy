/** The store as a state machine: one step per mutating operation, runs as sequences of steps. */
module Machine {
  import opened Prelude
  import Identity
  import IdentityInvariants
  import IdentityOperations
  import Mfa
  import MfaInvariants
  import MfaOperations
  import Pats
  import PatInvariants
  import PatToken
  import Recovery
  import Totp
  import WebAuthn

  type Id = Identity.Id

  type Time = Identity.Time

  datatype State = State(core: Identity.Core, mfa: Mfa.State, pats: Pats.State)

  const EMPTY := State(Identity.EMPTY, Mfa.EMPTY, Pats.EMPTY)

  /** The libraries a run is made against. */
  datatype Env = Env(hmac: (bytes, bytes) -> bytes, lib: WebAuthn.Library)

  ghost predicate IsEnv(env: Env) {
    Totp.IsHmac(env.hmac)
  }

  /** The mutating operations with their arguments, the identifiers, tokens and random values
      they draw, and their readings of the clock. */
  datatype Op =
    | CreateUser(displayName: Option<string>, newId: Id, now: Time)
    | UpdateUser(usrId: Id, name: Option<Option<string>>, now: Time)
    | SuspendUser(usrId: Id, now: Time, cascadeNow: Time)
    | ReinstateUser(usrId: Id, now: Time)
    | RevokeUser(usrId: Id, now: Time, cascadeNow: Time)
    | CreateCredential(usrId: Id, identifier: string, material: Identity.Material, newId: Id, now: Time)
    | RotateCredential(credId: Id, material: Identity.Material, newId: Id, now: Time, cascadeNow: Time)
    | SuspendCredential(credId: Id, now: Time, cascadeNow: Time)
    | ReinstateCredential(credId: Id, now: Time)
    | RevokeCredential(credId: Id, now: Time, cascadeNow: Time)
    | CreateSession(usrId: Id, credId: Id, ttlSeconds: int, newId: Id, token: string, now: Time)
    | RefreshSession(sesId: Id, newId: Id, token: string, checkNow: Time, now: Time)
    | RevokeSession(sesId: Id, now: Time)
    | EnrollTotp(usrId: Id, identifier: string, secret: bytes, newId: Id, now: Time)
    | EnrollWebAuthn(usrId: Id, identifier: string, registration: WebAuthn.Registration, newId: Id, now: Time)
    | EnrollRecovery(usrId: Id, codes: seq<string>, newId: Id, now: Time)
    | ConfirmTotp(mfaId: Id, code: string, ageNow: Time, codeNow: Time, now: Time)
    | ConfirmWebAuthn(mfaId: Id, assertion: WebAuthn.Assertion, ageNow: Time, now: Time)
    | RevokeFactor(mfaId: Id, now: Time)
    | VerifyMfa(usrId: Id, proof: Mfa.Proof, now: Time)
    | CreatePat(usrId: Id, patName: string, scope: seq<string>, expiresAt: Option<Time>, newId: Id, raw: bytes,
        now: Time)
    | VerifyPatToken(token: string, now: Time)
    | RevokePat(patId: Id, now: Time)

  /** The new state, and the error when the operation raises. */
  datatype Result = Result(state: State, error: Option<Error>)

  function OnCore<T>(s: State, o: Identity.Outcome<Identity.Core, T>): Result {
    Result(s.(core := o.state), if o.result.Ok? then None else Some(o.result.error))
  }

  function OnMfa<T>(s: State, o: Mfa.Outcome<T>): Result {
    Result(s.(mfa := o.state), if o.result.Ok? then None else Some(o.result.error))
  }

  function OnPats<T>(s: State, o: Pats.Outcome<T>): Result {
    Result(s.(pats := o.state), if o.result.Ok? then None else Some(o.result.error))
  }

  /** `revoke_user` is the one operation that reaches into two parts of the state. */
  function RevokeUserEverywhere(s: State, usrId: Id, now: Time, cascadeNow: Time): Result {
    var o := Identity.RevokeUser(s.core, usrId, now, cascadeNow);
    if o.result.Ok? then Result(s.(core := o.state, pats := Pats.RevokePatsOfUser(s.pats, usrId, now)), None)
    else Result(s.(core := o.state), Some(o.result.error))
  }

  predicate IsUserOp(op: Op) {
    op.CreateUser? || op.UpdateUser? || op.SuspendUser? || op.ReinstateUser? || op.RevokeUser?
  }

  predicate IsCredentialOp(op: Op) {
    || op.CreateCredential? || op.RotateCredential? || op.SuspendCredential? || op.ReinstateCredential?
    || op.RevokeCredential?
  }

  predicate IsSessionOp(op: Op) {
    op.CreateSession? || op.RefreshSession? || op.RevokeSession?
  }

  predicate IsMfaOp(op: Op) {
    || op.EnrollTotp? || op.EnrollWebAuthn? || op.EnrollRecovery? || op.ConfirmTotp? || op.ConfirmWebAuthn?
    || op.RevokeFactor? || op.VerifyMfa?
  }

  predicate IsPatOp(op: Op) {
    op.CreatePat? || op.VerifyPatToken? || op.RevokePat?
  }

  function UserStep(s: State, op: Op): (r: Result)
    requires IsUserOp(op)
    ensures r.state.mfa == s.mfa && (!op.RevokeUser? ==> r.state.pats == s.pats)
  {
    match op
    case CreateUser(displayName, newId, now) => OnCore(s, Identity.CreateUser(s.core, displayName, newId, now))
    case UpdateUser(u, name, now) => OnCore(s, Identity.UpdateUser(s.core, u, name, now))
    case SuspendUser(u, now, cn) => OnCore(s, Identity.SuspendUser(s.core, u, now, cn))
    case ReinstateUser(u, now) => OnCore(s, Identity.ReinstateUser(s.core, u, now))
    case RevokeUser(u, now, cn) => RevokeUserEverywhere(s, u, now, cn)
  }

  function CredentialStep(s: State, op: Op): (r: Result)
    requires IsCredentialOp(op)
    ensures r.state.mfa == s.mfa && r.state.pats == s.pats
  {
    match op
    case CreateCredential(u, identifier, m, newId, now) =>
      OnCore(s, Identity.CreateCredential(s.core, u, identifier, m, newId, now))
    case RotateCredential(c, m, newId, now, cn) => OnCore(s, Identity.RotateCredential(s.core, c, m, newId, now, cn))
    case SuspendCredential(c, now, cn) => OnCore(s, Identity.SuspendCredential(s.core, c, now, cn))
    case ReinstateCredential(c, now) => OnCore(s, Identity.ReinstateCredential(s.core, c, now))
    case RevokeCredential(c, now, cn) => OnCore(s, Identity.RevokeCredential(s.core, c, now, cn))
  }

  function SessionStep(s: State, op: Op): (r: Result)
    requires IsSessionOp(op)
    ensures r.state.mfa == s.mfa && r.state.pats == s.pats
  {
    match op
    case CreateSession(u, c, ttl, newId, token, now) =>
      OnCore(s, Identity.CreateSession(s.core, u, c, ttl, newId, token, now))
    case RefreshSession(i, newId, token, checkNow, now) =>
      OnCore(s, Identity.RefreshSession(s.core, i, newId, token, checkNow, now))
    case RevokeSession(i, now) => OnCore(s, Identity.RevokeSession(s.core, i, now))
  }

  function MfaStep(env: Env, s: State, op: Op): (r: Result)
    requires IsEnv(env) && IsMfaOp(op)
    ensures r.state.core == s.core && r.state.pats == s.pats
  {
    match op
    case EnrollTotp(u, identifier, secret, newId, now) =>
      OnMfa(s, Mfa.EnrollTotp(s.mfa, s.core.users, u, identifier, secret, newId, now))
    case EnrollWebAuthn(u, identifier, reg, newId, now) =>
      OnMfa(s, Mfa.EnrollWebAuthn(s.mfa, s.core.users, u, identifier, reg, newId, now))
    case EnrollRecovery(u, codes, newId, now) => OnMfa(s, Mfa.EnrollRecovery(s.mfa, s.core.users, u, codes, newId, now))
    case ConfirmTotp(f, code, ageNow, codeNow, now) =>
      OnMfa(s, Mfa.ConfirmTotp(s.mfa, env.hmac, f, code, ageNow, codeNow, now))
    case ConfirmWebAuthn(f, a, ageNow, now) => OnMfa(s, Mfa.ConfirmWebAuthn(s.mfa, env.lib, f, a, ageNow, now))
    case RevokeFactor(f, now) => OnMfa(s, Mfa.RevokeFactor(s.mfa, f, now))
    case VerifyMfa(u, proof, now) => OnMfa(s, Mfa.VerifyMfa(s.mfa, env.hmac, env.lib, u, proof, now))
  }

  function PatStep(s: State, op: Op): (r: Result)
    requires IsPatOp(op)
    ensures r.state.core == s.core && r.state.mfa == s.mfa
  {
    match op
    case CreatePat(u, name, scope, expiresAt, newId, raw, now) =>
      OnPats(s, Pats.CreatePat(s.pats, s.core.users, u, name, scope, expiresAt, newId, raw, now))
    case VerifyPatToken(token, now) => OnPats(s, Pats.VerifyPatToken(s.pats, token, now))
    case RevokePat(p, now) => OnPats(s, Pats.RevokePat(s.pats, p, now))
  }

  function Step(env: Env, s: State, op: Op): Result
    requires IsEnv(env)
  {
    if IsUserOp(op) then UserStep(s, op)
    else if IsCredentialOp(op) then CredentialStep(s, op)
    else if IsSessionOp(op) then SessionStep(s, op)
    else if IsMfaOp(op) then MfaStep(env, s, op)
    else PatStep(s, op)
  }

  lemma StepIsCoreStep(env: Env, s: State, op: Op)
    requires IsEnv(env)
    ensures IsUserOp(op) ==> Step(env, s, op) == UserStep(s, op)
    ensures IsCredentialOp(op) ==> Step(env, s, op) == CredentialStep(s, op)
    ensures IsSessionOp(op) ==> Step(env, s, op) == SessionStep(s, op)
  {
    hide IsEnv, UserStep, CredentialStep, SessionStep, MfaStep, PatStep;
  }

  lemma StepIsMfaStep(env: Env, s: State, op: Op)
    requires IsEnv(env) && IsMfaOp(op)
    ensures Step(env, s, op) == MfaStep(env, s, op)
  {
    hide IsEnv, UserStep, CredentialStep, SessionStep, MfaStep, PatStep;
  }

  lemma StepIsPatStep(env: Env, s: State, op: Op)
    requires IsEnv(env) && IsPatOp(op)
    ensures Step(env, s, op) == PatStep(s, op)
  {
    hide IsEnv, UserStep, CredentialStep, SessionStep, MfaStep, PatStep;
  }

  /** What the generators guarantee: identifiers and session tokens that were never used,
      well-formed token identifiers, 32 random bytes, ten recovery codes of the right form. */
  predicate IsFresh(s: State, op: Op) {
    match op
    case CreateUser(_, newId, _) => newId !in s.core.users
    case CreateCredential(_, _, _, newId, _) => newId !in s.core.creds
    case RotateCredential(_, _, newId, _, _) => newId !in s.core.creds
    case CreateSession(_, _, _, newId, token, _) => newId !in s.core.sessions && token !in s.core.issued
    case RefreshSession(_, newId, token, _, _) => newId !in s.core.sessions && token !in s.core.issued
    case EnrollTotp(_, _, _, newId, _) => newId !in s.mfa.factors
    case EnrollWebAuthn(_, _, _, newId, _) => newId !in s.mfa.factors
    case EnrollRecovery(_, codes, newId, _) =>
      newId !in s.mfa.factors && |codes| == Recovery.CODE_COUNT && forall c :: c in codes ==> Recovery.IsValidCode(c)
    case CreatePat(_, _, _, _, newId, raw, _) =>
      newId !in s.pats.pats && PatToken.IsPatId(newId) && |raw| == PatToken.SECRET_BYTES
    case _ => true
  }

  // ----- Runs -----

  function Run(env: Env, s: State, ops: seq<Op>): State
    requires IsEnv(env)
    decreases |ops|
  {
    if ops == [] then s else Run(env, Step(env, s, ops[0]).state, ops[1..])
  }

  predicate IsFreshRun(env: Env, s: State, ops: seq<Op>)
    requires IsEnv(env)
    decreases |ops|
  {
    ops != [] ==> IsFresh(s, ops[0]) && IsFreshRun(env, Step(env, s, ops[0]).state, ops[1..])
  }

  ghost predicate Inv(s: State) {
    IdentityInvariants.Inv(s.core) && MfaInvariants.Inv(s.mfa) && PatInvariants.Inv(s.pats)
  }

  ghost predicate Evolves(s: State, s': State) {
    && IdentityInvariants.Evolves(s.core, s'.core)
    && MfaInvariants.Evolves(s.mfa, s'.mfa)
    && PatInvariants.Evolves(s.pats, s'.pats)
  }

  lemma EvolvesIsReflexive(s: State)
    ensures Evolves(s, s)
  {
    hide IdentityInvariants.Evolves, MfaInvariants.Evolves, PatInvariants.Evolves;
    IdentityOperations.EvolvesIsReflexive(s.core);
    MfaInvariants.EvolvesIsReflexive(s.mfa);
    PatInvariants.EvolvesIsReflexive(s.pats);
  }

  lemma UserStepKeeps(s: State, op: Op)
    requires IdentityInvariants.Inv(s.core) && IsFresh(s, op) && IsUserOp(op)
    ensures var s' := UserStep(s, op).state;
      IdentityInvariants.Inv(s'.core) && IdentityInvariants.Evolves(s.core, s'.core)
  {
    hide IdentityInvariants.Inv, IdentityInvariants.Evolves, Identity.CreateUser, Identity.UpdateUser,
         Identity.SuspendUser, Identity.ReinstateUser, Identity.RevokeUser, Pats.RevokePatsOfUser;
    match op
    case CreateUser(displayName, newId, now) => IdentityOperations.CreateUserKeeps(s.core, displayName, newId, now);
    case UpdateUser(u, name, now) => IdentityOperations.UpdateUserKeeps(s.core, u, name, now);
    case SuspendUser(u, now, cn) => IdentityOperations.SuspendUserKeeps(s.core, u, now, cn);
    case ReinstateUser(u, now) => IdentityOperations.ReinstateUserKeeps(s.core, u, now);
    case RevokeUser(u, now, cn) => IdentityOperations.RevokeUserKeeps(s.core, u, now, cn);
  }

  lemma CredentialStepKeeps(s: State, op: Op)
    requires IdentityInvariants.Inv(s.core) && IsFresh(s, op) && IsCredentialOp(op)
    ensures var s' := CredentialStep(s, op).state;
      IdentityInvariants.Inv(s'.core) && IdentityInvariants.Evolves(s.core, s'.core)
  {
    hide IdentityInvariants.Inv, IdentityInvariants.Evolves, Identity.CreateCredential, Identity.RotateCredential,
         Identity.SuspendCredential, Identity.ReinstateCredential, Identity.RevokeCredential;
    match op
    case CreateCredential(u, identifier, m, newId, now) =>
      IdentityOperations.CreateCredentialKeeps(s.core, u, identifier, m, newId, now);
    case RotateCredential(c, m, newId, now, cn) =>
      IdentityOperations.RotateCredentialKeeps(s.core, c, m, newId, now, cn);
    case SuspendCredential(c, now, cn) => IdentityOperations.SuspendCredentialKeeps(s.core, c, now, cn);
    case ReinstateCredential(c, now) => IdentityOperations.ReinstateCredentialKeeps(s.core, c, now);
    case RevokeCredential(c, now, cn) => IdentityOperations.RevokeCredentialKeeps(s.core, c, now, cn);
  }

  lemma SessionStepKeeps(s: State, op: Op)
    requires IdentityInvariants.Inv(s.core) && IsFresh(s, op) && IsSessionOp(op)
    ensures var s' := SessionStep(s, op).state;
      IdentityInvariants.Inv(s'.core) && IdentityInvariants.Evolves(s.core, s'.core)
  {
    hide IdentityInvariants.Inv, IdentityInvariants.Evolves, Identity.CreateSession, Identity.RefreshSession,
         Identity.RevokeSession;
    match op
    case CreateSession(u, c, ttl, newId, token, now) =>
      IdentityOperations.CreateSessionKeeps(s.core, u, c, ttl, newId, token, now);
    case RefreshSession(i, newId, token, checkNow, now) =>
      IdentityOperations.RefreshSessionKeeps(s.core, i, newId, token, checkNow, now);
    case RevokeSession(i, now) => IdentityOperations.RevokeSessionKeeps(s.core, i, now);
  }

  lemma CoreStepKeeps(env: Env, s: State, op: Op)
    requires IsEnv(env) && IdentityInvariants.Inv(s.core) && IsFresh(s, op)
    ensures var s' := Step(env, s, op).state;
      IdentityInvariants.Inv(s'.core) && IdentityInvariants.Evolves(s.core, s'.core)
  {
    hide IdentityInvariants.Inv, IdentityInvariants.Evolves, IsEnv, IsFresh, UserStep, CredentialStep, SessionStep,
         MfaStep, PatStep;
    if IsUserOp(op) {
      UserStepKeeps(s, op);
    } else if IsCredentialOp(op) {
      CredentialStepKeeps(s, op);
    } else if IsSessionOp(op) {
      SessionStepKeeps(s, op);
    } else {
      IdentityOperations.EvolvesIsReflexive(s.core);
    }
  }

  lemma VerifyMfaKeeps(env: Env, s: Mfa.State, u: Id, proof: Mfa.Proof, now: Time)
    requires IsEnv(env) && MfaInvariants.Inv(s)
    ensures var s' := Mfa.VerifyMfa(s, env.hmac, env.lib, u, proof, now).state;
      MfaInvariants.Inv(s') && MfaInvariants.Evolves(s, s')
  {
    hide MfaInvariants.Inv, MfaInvariants.Evolves, Mfa.VerifyWebAuthn, Mfa.VerifyRecovery, Mfa.VerifyTotp, Totp.IsHmac;
    match proof
    case TotpProof(code) => MfaInvariants.EvolvesIsReflexive(s);
    case WebAuthnProof(credentialId, a) => MfaOperations.VerifyWebAuthnKeeps(s, env.lib, u, credentialId, a, now);
    case RecoveryProof(code) => MfaOperations.VerifyRecoveryKeeps(s, u, code, now);
  }

  lemma FactorStepKeeps(env: Env, s: State, op: Op)
    requires IsEnv(env) && MfaInvariants.Inv(s.mfa) && IsFresh(s, op) && IsMfaOp(op)
    ensures var s' := MfaStep(env, s, op).state;
      MfaInvariants.Inv(s'.mfa) && MfaInvariants.Evolves(s.mfa, s'.mfa)
  {
    hide MfaInvariants.Inv, MfaInvariants.Evolves, Mfa.EnrollTotp, Mfa.EnrollWebAuthn, Mfa.EnrollRecovery,
         Mfa.ConfirmTotp, Mfa.ConfirmWebAuthn, Mfa.RevokeFactor, Mfa.VerifyMfa, Totp.IsHmac, Recovery.IsValidCode;
    match op
    case EnrollTotp(u, identifier, secret, newId, now) =>
      MfaOperations.EnrollTotpKeeps(s.mfa, s.core.users, u, identifier, secret, newId, now);
    case EnrollWebAuthn(u, identifier, reg, newId, now) =>
      MfaOperations.EnrollWebAuthnKeeps(s.mfa, s.core.users, u, identifier, reg, newId, now);
    case EnrollRecovery(u, codes, newId, now) =>
      MfaOperations.EnrollRecoveryKeeps(s.mfa, s.core.users, u, codes, newId, now);
    case ConfirmTotp(f, code, ageNow, codeNow, now) =>
      MfaOperations.ConfirmTotpKeeps(s.mfa, env.hmac, f, code, ageNow, codeNow, now);
    case ConfirmWebAuthn(f, a, ageNow, now) => MfaOperations.ConfirmWebAuthnKeeps(s.mfa, env.lib, f, a, ageNow, now);
    case RevokeFactor(f, now) => MfaOperations.RevokeFactorKeeps(s.mfa, f, now);
    case VerifyMfa(u, proof, now) => VerifyMfaKeeps(env, s.mfa, u, proof, now);
  }

  lemma MfaStepKeeps(env: Env, s: State, op: Op)
    requires IsEnv(env) && MfaInvariants.Inv(s.mfa) && IsFresh(s, op)
    ensures var s' := Step(env, s, op).state;
      MfaInvariants.Inv(s'.mfa) && MfaInvariants.Evolves(s.mfa, s'.mfa)
  {
    hide MfaInvariants.Inv, MfaInvariants.Evolves, IsEnv, IsFresh, UserStep, CredentialStep, SessionStep, MfaStep,
         PatStep;
    if IsMfaOp(op) {
      FactorStepKeeps(env, s, op);
    } else {
      MfaInvariants.EvolvesIsReflexive(s.mfa);
    }
  }

  lemma TokenStepKeeps(s: State, op: Op)
    requires PatInvariants.Inv(s.pats) && IsFresh(s, op) && IsPatOp(op)
    ensures var s' := PatStep(s, op).state;
      PatInvariants.Inv(s'.pats) && PatInvariants.Evolves(s.pats, s'.pats)
  {
    hide PatInvariants.Inv, PatInvariants.Evolves, Pats.CreatePat, Pats.VerifyPatToken, Pats.RevokePat,
         PatToken.IsPatId;
    match op
    case CreatePat(u, name, scope, expiresAt, newId, raw, now) =>
      PatInvariants.CreatePatKeeps(s.pats, s.core.users, u, name, scope, expiresAt, newId, raw, now);
    case VerifyPatToken(token, now) => PatInvariants.VerifyPatTokenKeeps(s.pats, token, now);
    case RevokePat(p, now) => PatInvariants.RevokePatKeeps(s.pats, p, now);
  }

  lemma RevocationKeepsPats(s: State, op: Op)
    requires PatInvariants.Inv(s.pats) && op.RevokeUser?
    ensures var s' := UserStep(s, op).state;
      PatInvariants.Inv(s'.pats) && PatInvariants.Evolves(s.pats, s'.pats)
  {
    hide PatInvariants.Inv, PatInvariants.Evolves, Identity.RevokeUser, Pats.RevokePatsOfUser;
    PatInvariants.EvolvesIsReflexive(s.pats);
    PatInvariants.RevokePatsOfUserKeeps(s.pats, op.usrId, op.now);
  }

  lemma PatStepKeeps(env: Env, s: State, op: Op)
    requires IsEnv(env) && PatInvariants.Inv(s.pats) && IsFresh(s, op)
    ensures var s' := Step(env, s, op).state;
      PatInvariants.Inv(s'.pats) && PatInvariants.Evolves(s.pats, s'.pats)
  {
    hide PatInvariants.Inv, PatInvariants.Evolves, IsEnv, IsFresh, UserStep, CredentialStep, SessionStep, MfaStep,
         PatStep;
    if IsPatOp(op) {
      TokenStepKeeps(s, op);
    } else if op.RevokeUser? {
      RevocationKeepsPats(s, op);
    } else {
      PatInvariants.EvolvesIsReflexive(s.pats);
    }
  }

  /** Every step keeps the invariant and undoes nothing. */
  lemma StepKeeps(env: Env, s: State, op: Op)
    requires IsEnv(env) && Inv(s) && IsFresh(s, op)
    ensures Inv(Step(env, s, op).state) && Evolves(s, Step(env, s, op).state)
  {
    hide IdentityInvariants.Inv, IdentityInvariants.Evolves, MfaInvariants.Inv, MfaInvariants.Evolves,
         PatInvariants.Inv, PatInvariants.Evolves, Step, IsFresh, IsEnv;
    CoreStepKeeps(env, s, op);
    MfaStepKeeps(env, s, op);
    PatStepKeeps(env, s, op);
  }

  lemma EvolvesIsTransitive(s: State, t: State, u: State)
    requires Evolves(s, t) && Evolves(t, u)
    ensures Evolves(s, u)
  {
    hide IdentityInvariants.Evolves, MfaInvariants.Evolves, PatInvariants.Evolves;
    IdentityInvariants.EvolvesIsTransitive(s.core, t.core, u.core);
    MfaInvariants.EvolvesIsTransitive(s.mfa, t.mfa, u.mfa);
    PatInvariants.EvolvesIsTransitive(s.pats, t.pats, u.pats);
  }

  /** So does every run, from any state that satisfies the invariant. */
  lemma {:induction false} RunKeeps(env: Env, s: State, ops: seq<Op>)
    requires IsEnv(env) && Inv(s) && IsFreshRun(env, s, ops)
    ensures Inv(Run(env, s, ops)) && Evolves(s, Run(env, s, ops))
    decreases |ops|
  {
    hide Inv, Evolves, Step, IsFresh, IsEnv;
    if ops == [] {
      EvolvesIsReflexive(s);
    } else {
      var t := Step(env, s, ops[0]).state;
      StepKeeps(env, s, ops[0]);
      RunKeeps(env, t, ops[1..]);
      EvolvesIsTransitive(s, t, Run(env, t, ops[1..]));
    }
  }

  /** The invariant holds in every reachable state. */
  lemma ReachableStatesSatisfyInv(env: Env, ops: seq<Op>)
    requires IsEnv(env) && IsFreshRun(env, EMPTY, ops)
    ensures Inv(Run(env, EMPTY, ops))
  {
    hide Step, Run, IsFreshRun, IsEnv;
    IdentityInvariants.EmptyInv();
    MfaInvariants.EmptyInv();
    PatInvariants.EmptyInv();
    RunKeeps(env, EMPTY, ops);
  }

  // ----- Errors leave the state alone -----

  /** The one exception: rotating an ACTIVE password to one that is too long revokes the old
      credential before the new password is refused. */
  predicate LosesCredential(s: State, op: Op) {
    && op.RotateCredential? && op.material.IsTooLong()
    && op.credId in s.core.creds && s.core.creds[op.credId].status == Identity.Active
    && s.core.creds[op.credId].Type() == Identity.Password
  }

  lemma LongRotationChangesState(s: Identity.Core, c: Id, m: Identity.Material, newId: Id, now: Time, cn: Time)
    requires m.IsTooLong() && c in s.creds && s.creds[c].status == Identity.Active
      && s.creds[c].Type() == Identity.Password
    ensures var o := Identity.RotateCredential(s, c, m, newId, now, cn);
      o.result == Raise(ValueError) && c in o.state.creds && o.state.creds[c].status == Identity.Revoked
  {
    hide Identity.Stamped, Identity.HashesOf, Identity.LiveSessionsOfCredential, Identity.TooLong;
  }

  lemma UserErrorsAreClean(s: State, op: Op)
    requires IsUserOp(op) && UserStep(s, op).error.Some?
    ensures UserStep(s, op).state == s
  {
    hide Identity.RevokeSessions, Identity.RevokeCredentials, Identity.LiveSessionsOfUser,
         Identity.ActiveCredentialsOfUser, Pats.RevokePatsOfUser;
  }

  lemma CredentialErrorsAreClean(s: State, op: Op)
    requires IsCredentialOp(op) && !LosesCredential(s, op) && CredentialStep(s, op).error.Some?
    ensures CredentialStep(s, op).state == s
  {
    hide Identity.RetireCredential, Identity.RetireForRotation, Identity.InsertCredential, Identity.TooLong,
         Identity.IdentifierKey;
  }

  lemma SessionErrorsAreClean(s: State, op: Op)
    requires IsSessionOp(op) && SessionStep(s, op).error.Some?
    ensures SessionStep(s, op).state == s
  {
    hide Identity.RevokeSessions, Identity.InsertSession;
  }

  lemma MfaErrorsAreClean(env: Env, s: State, op: Op)
    requires IsEnv(env) && MfaInvariants.Inv(s.mfa) && IsMfaOp(op) && MfaStep(env, s, op).error.Some?
    ensures MfaStep(env, s, op).state == s
  {
    hide MfaInvariants.Inv, Totp.IsHmac, Mfa.CheckTotp, Mfa.CheckAssertion, Mfa.CheckUserActive, Mfa.VerifyRecovery,
         Mfa.TotpKey, Mfa.RecoveryKey, Recovery.IsValidCode, Mfa.HashAll, Mfa.AllFalse;
    if op.VerifyMfa? && op.proof.RecoveryProof? {
      MfaOperations.RecoveryFailsCleanly(s.mfa, op.usrId, op.proof.code, op.now);
    }
  }

  lemma PatErrorsAreClean(s: State, op: Op)
    requires IsPatOp(op) && PatStep(s, op).error.Some?
    ensures PatStep(s, op).state == s
  {
    hide PatToken.StructurallyValid, Pats.RecordsUse, Pats.RecordUse, Pats.CheckNewPat, PatToken.Encode;
  }

  /** An operation that raises leaves every dictionary unchanged, in exactly all cases but
      that one. */
  lemma ErrorsAreCleanExactly(env: Env, s: State, op: Op)
    requires IsEnv(env) && Inv(s) && Step(env, s, op).error.Some?
    ensures Step(env, s, op).state == s <==> !LosesCredential(s, op)
  {
    hide IdentityInvariants.Inv, MfaInvariants.Inv, PatInvariants.Inv, IsEnv, UserStep, SessionStep, MfaStep, PatStep,
         Identity.CreateCredential, Identity.RotateCredential, Identity.SuspendCredential, Identity.ReinstateCredential,
         Identity.RevokeCredential;
    if LosesCredential(s, op) {
      LongRotationChangesState(s.core, op.credId, op.material, op.newId, op.now, op.cascadeNow);
    } else if IsUserOp(op) {
      UserErrorsAreClean(s, op);
    } else if IsCredentialOp(op) {
      CredentialErrorsAreClean(s, op);
    } else if IsSessionOp(op) {
      SessionErrorsAreClean(s, op);
    } else if IsMfaOp(op) {
      MfaErrorsAreClean(env, s, op);
    } else {
      PatErrorsAreClean(s, op);
    }
  }
}
