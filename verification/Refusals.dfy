/** Which error each operation raises: the checks of every operation in their order, each a condition
    on the stored records that can be read on its own. */
module Refusals {
  import opened Prelude
  import opened Machine
  import Identity
  import Mfa
  import MfaInvariants
  import MfaOperations
  import MfaTheorems
  import PatInvariants
  import Pats
  import PatToken
  import Recovery
  import RunHistory
  import Totp
  import WebAuthn

  /** The first check that fails decides. */
  function If(fails: bool, error: Error, rest: Option<Error>): Option<Error> {
    if fails then Some(error) else rest
  }

  predicate UserIs(s: State, u: Id, status: Identity.Status) {
    u in s.core.users && s.core.users[u].status == status
  }

  predicate CredentialIs(s: State, c: Id, status: Identity.Status) {
    c in s.core.creds && s.core.creds[c].status == status
  }

  predicate KeyIsTaken(s: State, t: Identity.CredentialType, identifier: string) {
    Identity.IdentifierKey(t, identifier) in s.core.activeCred
  }

  predicate HasLongPassword(m: Identity.Material) {
    m.NewPassword? && Utf8Length(m.password) > 1024
  }

  // ----- Users, credentials and sessions -----

  function UserRefusal(s: State, op: Op): Option<Error>
    requires IsUserOp(op)
  {
    match op
    case CreateUser(_, _, _) => None
    case UpdateUser(u, _, _) =>
      If(u !in s.core.users, NotFound, If(UserIs(s, u, Identity.Revoked), AlreadyTerminal, None))
    case SuspendUser(u, _, _) =>
      If(u !in s.core.users, NotFound, If(UserIs(s, u, Identity.Revoked), AlreadyTerminal, None))
    case ReinstateUser(u, _) =>
      If(u !in s.core.users, NotFound,
      If(!UserIs(s, u, Identity.Suspended), Precondition("invalid_transition"), None))
    case RevokeUser(u, _, _) =>
      If(u !in s.core.users, NotFound, If(UserIs(s, u, Identity.Revoked), AlreadyTerminal, None))
  }

  function CredentialRefusal(s: State, op: Op): Option<Error>
    requires IsCredentialOp(op)
  {
    match op
    case CreateCredential(u, identifier, m, _, _) =>
      If(u !in s.core.users, NotFound,
      If(!UserIs(s, u, Identity.Active), Precondition("user_not_active"),
      If(KeyIsTaken(s, m.Type(), identifier), DuplicateCredential,
      If(HasLongPassword(m), ValueError, None))))
    case RotateCredential(c, m, _, _, _) =>
      If(c !in s.core.creds, NotFound,
      If(!CredentialIs(s, c, Identity.Active), CredentialNotActive,
      If(c in s.core.creds && s.core.creds[c].Type() != m.Type(), CredentialTypeMismatch,
      If(HasLongPassword(m), ValueError, None))))
    case SuspendCredential(c, _, _) =>
      If(c !in s.core.creds, NotFound,
      If(!CredentialIs(s, c, Identity.Active), Precondition("cred_not_active"), None))
    case ReinstateCredential(c, _) =>
      If(c !in s.core.creds, NotFound,
      If(!CredentialIs(s, c, Identity.Suspended), Precondition("invalid_transition"),
      If(c in s.core.creds && KeyIsTaken(s, s.core.creds[c].Type(), s.core.creds[c].identifier),
         DuplicateCredential, None)))
    case RevokeCredential(c, _, _) =>
      If(c !in s.core.creds, NotFound, If(CredentialIs(s, c, Identity.Revoked), AlreadyTerminal, None))
  }

  function SessionRefusal(s: State, op: Op): Option<Error>
    requires IsSessionOp(op)
  {
    match op
    case CreateSession(u, c, ttl, _, _, _) =>
      If(u !in s.core.users, NotFound,
      If(!UserIs(s, u, Identity.Active), Precondition("user_not_active"),
      If(c !in s.core.creds, NotFound,
      If(!CredentialIs(s, c, Identity.Active), CredentialNotActive,
      If(c in s.core.creds && s.core.creds[c].usrId != u, Precondition("cred_user_mismatch"),
      If(ttl < 60, Precondition("ttl_too_short"), None))))))
    case RefreshSession(i, _, _, checkNow, _) =>
      If(i !in s.core.sessions, NotFound,
      If(i in s.core.sessions && (s.core.sessions[i].revokedAt.Some? || checkNow > s.core.sessions[i].expiresAt),
         SessionExpired, None))
    case RevokeSession(i, _) => If(i !in s.core.sessions, NotFound, None)
  }

  lemma UserStepRefuses(s: State, op: Op)
    requires IsUserOp(op)
    ensures UserStep(s, op).error == UserRefusal(s, op)
  {
    hide Identity.RevokeSessions, Identity.RevokeCredentials, Identity.WithUserStatus, Identity.LiveSessionsOfUser,
         Identity.ActiveCredentialsOfUser, Pats.RevokePatsOfUser;
  }

  lemma CreationRefuses(s: State, u: Id, identifier: string, m: Identity.Material, newId: Id, now: Time)
    ensures var op := CreateCredential(u, identifier, m, newId, now);
      CredentialStep(s, op).error == CredentialRefusal(s, op)
  {
    hide Identity.InsertCredential, Identity.IdentifierKey;
  }

  lemma RotationRefuses(s: State, c: Id, m: Identity.Material, newId: Id, now: Time, cascadeNow: Time)
    ensures var op := RotateCredential(c, m, newId, now, cascadeNow);
      CredentialStep(s, op).error == CredentialRefusal(s, op)
  {
    hide Identity.InsertCredential, Identity.RetireForRotation;
  }

  lemma RetirementRefuses(s: State, op: Op)
    requires op.SuspendCredential? || op.RevokeCredential? || op.ReinstateCredential?
    ensures CredentialStep(s, op).error == CredentialRefusal(s, op)
  {
    hide Identity.RetireCredential, Identity.IdentifierKey, Identity.Credential.WithStatus;
  }

  lemma CredentialStepRefuses(s: State, op: Op)
    requires IsCredentialOp(op)
    ensures CredentialStep(s, op).error == CredentialRefusal(s, op)
  {
    hide CredentialStep, CredentialRefusal;
    match op
    case CreateCredential(u, identifier, m, newId, now) => CreationRefuses(s, u, identifier, m, newId, now);
    case RotateCredential(c, m, newId, now, cascadeNow) => RotationRefuses(s, c, m, newId, now, cascadeNow);
    case _ => RetirementRefuses(s, op);
  }

  lemma SessionStepRefuses(s: State, op: Op)
    requires IsSessionOp(op)
    ensures SessionStep(s, op).error == SessionRefusal(s, op)
  {
    hide Identity.InsertSession, Identity.RevokeSessions;
  }

  // ----- MFA -----

  predicate FactorIs(s: State, f: Id, status: Mfa.FactorStatus) {
    f in s.mfa.factors && s.mfa.factors[f].status == status
  }

  /** The user has an ACTIVE recovery factor. */
  ghost predicate HasRecovery(s: State, u: Id) {
    exists f :: f in s.mfa.factors && IsRecoveryOf(s.mfa.factors[f], u)
  }

  predicate IsRecoveryOf(f: Mfa.Factor, u: Id) {
    f.usrId == u && f.kind.RecoveryFactor? && f.status == Mfa.Active
  }

  /** Some WebAuthn factor that is not REVOKED has this credential id. */
  ghost predicate IsEnrolled(s: State, credentialId: string) {
    exists f :: f in s.mfa.factors && HasCredentialId(s.mfa.factors[f], credentialId)
  }

  predicate HasCredentialId(f: Mfa.Factor, credentialId: string) {
    f.kind.WebAuthnFactor? && f.status != Mfa.Revoked && f.kind.identifier == credentialId
  }

  predicate IsTooOld(s: State, f: Id, now: Time) {
    f in s.mfa.factors && now - s.mfa.factors[f].createdAt > 600_000_000
  }

  ghost function CodeRefusal(env: Env, s: State, f: Id, code: string, now: Time): Option<Error>
    requires IsEnv(env)
  {
    if f in s.mfa.totpSecrets && MfaTheorems.IsCurrentCode(env.hmac, s.mfa.totpSecrets[f], code, now) then None
    else if |code| == 6 && Totp.IsDigits(code)
            && (now < 30_000_000 || now / 30_000_000 + 1 >= 0x1_0000_0000_0000_0000) then Some(StructError)
    else Some(InvalidCredential)
  }

  function AssertionRefusal(env: Env, s: State, f: Id, a: WebAuthn.Assertion): Option<Error> {
    if f in s.mfa.factors && s.mfa.factors[f].kind.WebAuthnFactor? && f in s.mfa.webauthnKeys then
      var k := s.mfa.factors[f].kind;
      var r := WebAuthn.VerifyAssertion(env.lib, WebAuthn.Registration(s.mfa.webauthnKeys[f], k.signCount, k.rpId), a);
      if r.Ok? then None else Some(r.error)
    else None
  }

  ghost function EnrollmentRefusal(s: State, op: Op): Option<Error>
    requires op.EnrollTotp? || op.EnrollWebAuthn? || op.EnrollRecovery?
  {
    If(op.usrId !in s.core.users, NotFound,
    If(!UserIs(s, op.usrId, Identity.Active), Precondition("user_not_active"),
    If(op.EnrollTotp? && exists f :: MfaTheorems.IsTotpSlotOf(s.mfa, op.usrId, f),
       Precondition("active_singleton_exists"),
    If(op.EnrollRecovery? && HasRecovery(s, op.usrId), Precondition("active_singleton_exists"),
    If(op.EnrollWebAuthn? && IsEnrolled(s, op.identifier), Precondition("duplicate_webauthn_credential"),
       None)))))
  }

  /** The confirmation is of the type of the factor. */
  predicate KindFits(s: State, op: Op)
    requires op.ConfirmTotp? || op.ConfirmWebAuthn?
  {
    && op.mfaId in s.mfa.factors
    && if op.ConfirmTotp? then s.mfa.factors[op.mfaId].kind.TotpFactor?
       else s.mfa.factors[op.mfaId].kind.WebAuthnFactor?
  }

  ghost function ConfirmationRefusal(env: Env, s: State, op: Op): Option<Error>
    requires IsEnv(env) && (op.ConfirmTotp? || op.ConfirmWebAuthn?)
  {
    var f := op.mfaId;
    If(f !in s.mfa.factors, NotFound,
    If(!KindFits(s, op), CredentialTypeMismatch,
    If(!FactorIs(s, f, Mfa.Pending), Precondition("factor_not_pending"),
    If(IsTooOld(s, f, op.ageNow), Precondition("pending_factor_expired"),
       if op.ConfirmTotp? then CodeRefusal(env, s, f, op.code, op.codeNow)
       else AssertionRefusal(env, s, f, op.assertion)))))
  }

  lemma EnrollmentRefuses(env: Env, s: State, op: Op)
    requires IsEnv(env) && MfaInvariants.Inv(s.mfa) && (op.EnrollTotp? || op.EnrollWebAuthn? || op.EnrollRecovery?)
    ensures MfaStep(env, s, op).error == EnrollmentRefusal(s, op)
  {
    hide MfaInvariants.Inv, Totp.IsHmac, Mfa.TotpKey, Mfa.RecoveryKey, Mfa.HashAll, Mfa.AllFalse;
    match op
    case EnrollTotp(u, _, _, _, _) =>
      assert Mfa.TotpKey(u) in s.mfa.singleton <==> exists f :: MfaTheorems.IsTotpSlotOf(s.mfa, u, f) by {
        if Mfa.TotpKey(u) in s.mfa.singleton {
          assert MfaTheorems.IsTotpSlotOf(s.mfa, u, s.mfa.singleton[Mfa.TotpKey(u)]);
        }
      }
    case EnrollWebAuthn(_, identifier, _, _, _) => EnrolledIsListed(s, identifier);
    case EnrollRecovery(u, _, _, _) => RecoveryIsSlotted(s, u);
  }

  lemma EnrolledIsListed(s: State, credentialId: string)
    requires MfaInvariants.Inv(s.mfa)
    ensures credentialId in s.mfa.byCredentialId <==> IsEnrolled(s, credentialId)
  {
    hide MfaInvariants.Inv;
    if credentialId in s.mfa.byCredentialId {
      MfaTheorems.IndexedFactor(s.mfa, credentialId);
      assert HasCredentialId(s.mfa.factors[s.mfa.byCredentialId[credentialId]], credentialId);
    }
    forall f | f in s.mfa.factors && HasCredentialId(s.mfa.factors[f], credentialId)
      ensures credentialId in s.mfa.byCredentialId
    {
      MfaTheorems.ListedFactor(s.mfa, f);
    }
  }

  lemma RecoveryIsSlotted(s: State, u: Id)
    requires MfaInvariants.Inv(s.mfa)
    ensures Mfa.RecoveryKey(u) in s.mfa.singleton <==> HasRecovery(s, u)
  {
    hide MfaInvariants.Inv, Mfa.RecoveryKey;
    if Mfa.RecoveryKey(u) in s.mfa.singleton {
      MfaTheorems.RecoverySlotIsTheQuery(s.mfa, u, s.mfa.singleton[Mfa.RecoveryKey(u)]);
      assert IsRecoveryOf(s.mfa.factors[s.mfa.singleton[Mfa.RecoveryKey(u)]], u);
    }
    forall f | f in s.mfa.factors && IsRecoveryOf(s.mfa.factors[f], u)
      ensures Mfa.RecoveryKey(u) in s.mfa.singleton
    {
      MfaTheorems.RecoverySlotIsTheQuery(s.mfa, u, f);
    }
  }

  lemma CodeRefuses(env: Env, s: State, f: Id, code: string, now: Time)
    requires IsEnv(env) && f in s.mfa.totpSecrets
    ensures Mfa.CheckTotp(env.hmac, s.mfa.totpSecrets[f], code, now) == CodeRefusal(env, s, f, code, now)
  {
    MfaTheorems.CheckTotpExactly(env.hmac, s.mfa.totpSecrets[f], code, now);
    hide IsEnv, Totp.IsHmac, Mfa.CheckTotp, MfaTheorems.IsCurrentCode;
  }

  lemma ConfirmationRefuses(env: Env, s: State, op: Op)
    requires IsEnv(env) && MfaInvariants.Inv(s.mfa) && (op.ConfirmTotp? || op.ConfirmWebAuthn?)
    ensures MfaStep(env, s, op).error == ConfirmationRefusal(env, s, op)
  {
    hide MfaInvariants.Inv, Totp.IsHmac, Mfa.CheckTotp, Mfa.TotpKey, WebAuthn.VerifyAssertion, Mfa.AcceptCount,
         Mfa.WithCount, CodeRefusal;
    if op.mfaId in s.mfa.factors {
      MfaOperations.SecretOf(s.mfa, op.mfaId);
      if op.ConfirmTotp? && s.mfa.factors[op.mfaId].kind.TotpFactor? {
        CodeRefuses(env, s, op.mfaId, op.code, op.codeNow);
      }
    }
  }

  ghost function VerificationRefusal(env: Env, s: State, u: Id, proof: Mfa.Proof, now: Time): Option<Error>
    requires IsEnv(env)
  {
    match proof
    case TotpProof(code) =>
      if f :| MfaTheorems.IsTotpSlotOf(s.mfa, u, f) then CodeRefusal(env, s, f, code, now)
      else Some(InvalidCredential)
    case WebAuthnProof(c, a) =>
      if f :| MfaTheorems.Answers(s.mfa, u, c, f) then AssertionRefusal(env, s, f, a) else Some(InvalidCredential)
    case RecoveryProof(code) =>
      if f :| f in s.mfa.factors && IsRecoveryOf(s.mfa.factors[f], u) then
        If(!IsUnspent(s, f, Recovery.Normalize(code)), InvalidCredential, None)
      else Some(InvalidCredential)
  }

  /** The code was issued to the factor more often than it has been accepted. */
  predicate IsUnspent(s: State, f: Id, code: string) {
    multiset(Mfa.History(s.mfa.spent, f))[code] < multiset(RunHistory.StoredCodes(s.mfa, f))[code]
  }

  lemma TotpRefuses(env: Env, s: State, u: Id, code: string, now: Time)
    requires IsEnv(env) && MfaInvariants.Inv(s.mfa)
    ensures var r := Mfa.VerifyTotp(s.mfa, env.hmac, u, code, now);
      (if r.Ok? then None else Some(r.error)) == VerificationRefusal(env, s, u, Mfa.TotpProof(code), now)
  {
    hide MfaInvariants.Inv, Totp.IsHmac, Mfa.TotpKey, Mfa.CheckTotp, CodeRefusal;
    if Mfa.TotpKey(u) in s.mfa.singleton {
      var f := s.mfa.singleton[Mfa.TotpKey(u)];
      assert MfaTheorems.IsTotpSlotOf(s.mfa, u, f);
      MfaTheorems.TotpSlot(s.mfa, u);
      CodeRefuses(env, s, f, code, now);
    }
  }

  lemma AssertionRefuses(env: Env, s: State, u: Id, c: string, a: WebAuthn.Assertion, now: Time)
    requires IsEnv(env) && MfaInvariants.Inv(s.mfa)
    ensures var r := Mfa.VerifyWebAuthn(s.mfa, env.lib, u, c, a, now).result;
      (if r.Ok? then None else Some(r.error)) == VerificationRefusal(env, s, u, Mfa.WebAuthnProof(c, a), now)
  {
    hide IsEnv, MfaInvariants.Inv, Mfa.VerifyWebAuthn, WebAuthn.VerifyAssertion;
    if f :| MfaTheorems.Answers(s.mfa, u, c, f) {
      forall f
        ensures MfaTheorems.Answers(s.mfa, u, c, f) ==>
          && var r := Mfa.VerifyWebAuthn(s.mfa, env.lib, u, c, a, now).result;
             (if r.Ok? then None else Some(r.error)) == AssertionRefusal(env, s, f, a)
      {
        MfaTheorems.AssertionVerifiesExactly(s.mfa, env.lib, u, c, a, now, f);
      }
      hide MfaTheorems.Answers, AssertionRefusal;
    } else {
      MfaTheorems.AssertionVerifiesExactly(s.mfa, env.lib, u, c, a, now, "");
    }
  }

  lemma RecoveryRefuses(env: Env, s: State, u: Id, code: string, now: Time)
    requires IsEnv(env) && MfaInvariants.Inv(s.mfa)
    ensures var r := Mfa.VerifyRecovery(s.mfa, u, code, now).result;
      (if r.Ok? then None else Some(r.error)) == VerificationRefusal(env, s, u, Mfa.RecoveryProof(code), now)
  {
    hide IsEnv, MfaInvariants.Inv, Mfa.RecoveryKey, Mfa.FirstMatch, Mfa.CountFalse, Recovery.Normalize,
         Recovery.IsValidCode, MfaInvariants.Codes;
    RecoveryIsSlotted(s, u);
    if HasRecovery(s, u) {
      forall f | f in s.mfa.factors && IsRecoveryOf(s.mfa.factors[f], u)
        ensures var r := Mfa.VerifyRecovery(s.mfa, u, code, now).result;
          && (r.Ok? <==> IsUnspent(s, f, Recovery.Normalize(code)))
          && (r.Raise? ==> r.error == InvalidCredential)
      {
        MfaTheorems.RecoveryAcceptsExactlyTheUnspent(s.mfa, u, f, code, now);
      }
      hide Mfa.VerifyRecovery, IsUnspent, IsRecoveryOf;
    }
  }

  lemma VerificationRefuses(env: Env, s: State, op: Op)
    requires IsEnv(env) && MfaInvariants.Inv(s.mfa) && op.VerifyMfa?
    ensures MfaStep(env, s, op).error == VerificationRefusal(env, s, op.usrId, op.proof, op.now)
  {
    hide Totp.IsHmac, MfaInvariants.Inv, Mfa.VerifyTotp, Mfa.VerifyWebAuthn, Mfa.VerifyRecovery, VerificationRefusal;
    match op.proof
    case TotpProof(code) => TotpRefuses(env, s, op.usrId, code, op.now);
    case WebAuthnProof(c, a) => AssertionRefuses(env, s, op.usrId, c, a, op.now);
    case RecoveryProof(code) => RecoveryRefuses(env, s, op.usrId, code, op.now);
  }

  ghost function MfaRefusal(env: Env, s: State, op: Op): Option<Error>
    requires IsEnv(env) && IsMfaOp(op)
  {
    if op.EnrollTotp? || op.EnrollWebAuthn? || op.EnrollRecovery? then EnrollmentRefusal(s, op)
    else if op.ConfirmTotp? || op.ConfirmWebAuthn? then ConfirmationRefusal(env, s, op)
    else if op.VerifyMfa? then VerificationRefusal(env, s, op.usrId, op.proof, op.now)
    else If(op.mfaId !in s.mfa.factors, NotFound, None)
  }

  lemma RevocationRefuses(env: Env, s: State, op: Op)
    requires IsEnv(env) && op.RevokeFactor?
    ensures MfaStep(env, s, op).error == If(op.mfaId !in s.mfa.factors, NotFound, None)
  {
    hide IsEnv, Mfa.WithoutSlot, Mfa.WithoutListing;
  }

  lemma MfaStepRefuses(env: Env, s: State, op: Op)
    requires IsEnv(env) && MfaInvariants.Inv(s.mfa) && IsMfaOp(op)
    ensures MfaStep(env, s, op).error == MfaRefusal(env, s, op)
  {
    hide IsEnv, MfaInvariants.Inv, MfaStep, EnrollmentRefusal, ConfirmationRefusal, VerificationRefusal;
    if op.EnrollTotp? || op.EnrollWebAuthn? || op.EnrollRecovery? {
      EnrollmentRefuses(env, s, op);
    } else if op.ConfirmTotp? || op.ConfirmWebAuthn? {
      ConfirmationRefuses(env, s, op);
    } else if op.VerifyMfa? {
      VerificationRefuses(env, s, op);
    } else {
      RevocationRefuses(env, s, op);
    }
  }

  // ----- Personal access tokens -----

  function CreationRefusal(s: State, u: Id, name: string, expiresAt: Option<Time>, now: Time): Option<Error> {
    If(u !in s.core.users, NotFound,
    If(name == "" || |name| > 120, Precondition("invalid_name"),
    If(expiresAt.Some? && expiresAt.value <= now, Precondition("expires_in_past"),
    If(expiresAt.Some? && expiresAt.value > now + 365 * 24 * 60 * 60 * 1_000_000, Precondition("expires_too_late"),
       None))))
  }

  /** The record that the first 36 characters of a token name. */
  function Named(s: State, token: string): Option<Pats.Pat> {
    if |token| < 36 then None else Lookup(s.pats.pats, token[..36])
  }

  /** The token that was handed out for the record. */
  predicate IsTokenOf(s: State, token: string, p: Id) {
    p in s.pats.secretHashes && token == PatToken.Token(p, s.pats.secretHashes[p].password)
  }

  function TokenRefusal(s: State, token: string, now: Time): Option<Error> {
    If(!PatToken.StructurallyValid(token), if Utf8Length(token) > 1024 then ValueError else InvalidPatToken,
    If(|token| > 37 + 256 || Named(s, token).None?, InvalidPatToken,
    If(Named(s, token).Some? && Named(s, token).value.revokedAt.Some?, PatRevoked,
    If(Named(s, token).Some? && Named(s, token).value.expiresAt.Some? && now >= Named(s, token).value.expiresAt.value,
       PatExpired,
    If(|token| >= 36 && !IsTokenOf(s, token, token[..36]), InvalidPatToken, None)))))
  }

  function PatRefusal(s: State, op: Op): Option<Error>
    requires IsPatOp(op)
  {
    match op
    case CreatePat(u, name, _, expiresAt, _, _, now) => CreationRefusal(s, u, name, expiresAt, now)
    case VerifyPatToken(token, now) => TokenRefusal(s, token, now)
    case RevokePat(p, _) => If(p !in s.pats.pats, NotFound, None)
  }

  /** The rest of a structurally valid token is ASCII, so it is too long only in characters. */
  lemma RestIsShort(token: string)
    requires PatToken.StructurallyValid(token) && |token| <= 37 + 256
    ensures |token| >= 38 && !Identity.TooLong(token[37..])
  {
    PatToken.StructurallyValidExactly(token);
    var rest := token[37..];
    forall c | c in rest
      ensures c < '\U{80}'
    {
      var i :| 0 <= i < |rest| && rest[i] == c;
      assert token[37 + i] == c;
    }
    hide PatToken.StructurallyValid;
    Utf8LengthOfAscii(rest);
  }

  lemma TokenRefuses(s: State, token: string, now: Time)
    requires PatInvariants.Inv(s.pats)
    ensures var r := Pats.VerifyPatToken(s.pats, token, now).result;
      (if r.Ok? then None else Some(r.error)) == TokenRefusal(s, token, now)
  {
    hide PatToken.StructurallyValid, Pats.RecordUse, Pats.RecordsUse, PatToken.IsPatId, PatToken.IsSecret;
    if PatToken.StructurallyValid(token) {
      PatToken.StructurallyValidParts(token);
      if |token| <= 37 + 256 {
        RestIsShort(token);
        hide Identity.TooLong;
        if token[..36] in s.pats.pats {
          PatInvariants.KeyedPat(s.pats, token[..36]);
          PatToken.TokenParts(token[..36], s.pats.secretHashes[token[..36]].password);
        }
      }
    }
    hide PatInvariants.Inv;
  }

  lemma PatStepRefuses(s: State, op: Op)
    requires PatInvariants.Inv(s.pats) && IsPatOp(op)
    ensures PatStep(s, op).error == PatRefusal(s, op)
  {
    hide PatInvariants.Inv, Pats.VerifyPatToken, PatToken.Encode, PatToken.Token, TokenRefusal;
    if op.VerifyPatToken? {
      TokenRefuses(s, op.token, op.now);
    }
  }

  // ----- All operations -----

  ghost function Refusal(env: Env, s: State, op: Op): Option<Error>
    requires IsEnv(env)
  {
    if IsUserOp(op) then UserRefusal(s, op)
    else if IsCredentialOp(op) then CredentialRefusal(s, op)
    else if IsSessionOp(op) then SessionRefusal(s, op)
    else if IsMfaOp(op) then MfaRefusal(env, s, op)
    else PatRefusal(s, op)
  }

  /** Every operation raises exactly the error of its first check that fails, and succeeds when none
      does. */
  lemma StepRefusesExactly(env: Env, s: State, op: Op)
    requires IsEnv(env) && MfaInvariants.Inv(s.mfa) && PatInvariants.Inv(s.pats)
    ensures Step(env, s, op).error == Refusal(env, s, op)
  {
    hide IsEnv, MfaInvariants.Inv, PatInvariants.Inv, UserStep, CredentialStep, SessionStep, MfaStep, PatStep,
         UserRefusal, CredentialRefusal, SessionRefusal, MfaRefusal, PatRefusal;
    if IsUserOp(op) {
      UserStepRefuses(s, op);
    } else if IsCredentialOp(op) {
      CredentialStepRefuses(s, op);
    } else if IsSessionOp(op) {
      SessionStepRefuses(s, op);
    } else if IsMfaOp(op) {
      MfaStepRefuses(env, s, op);
    } else {
      PatStepRefuses(s, op);
    }
  }
}
