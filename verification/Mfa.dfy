/** The MFA factors of the store: what each operation does to the factor dictionaries. Whether
    a user may enroll is read from the user dictionary, which is an argument. */
module Mfa {
  import opened Prelude
  import Identity
  import Recovery
  import Totp
  import WebAuthn

  type Id = Identity.Id

  type Time = Identity.Time

  type Users = map<Id, Identity.User>

  type PasswordHash = Identity.PasswordHash

  const PENDING_TTL_SECONDS := 600

  // ----- Factors (mfa.py) -----

  datatype FactorStatus = Pending | Active | Suspended | Revoked

  datatype Kind =
    | TotpFactor(identifier: string)
    | WebAuthnFactor(identifier: string, rpId: string, signCount: int)
    | RecoveryFactor(remaining: nat)

  datatype Factor = Factor(
    id: Id,
    usrId: Id,
    status: FactorStatus,
    replacesId: Option<Id>,
    createdAt: Time,
    updatedAt: Time,
    kind: Kind)

  datatype Proof =
    | TotpProof(code: string)
    | WebAuthnProof(credentialId: string, assertion: WebAuthn.Assertion)
    | RecoveryProof(code: string)

  datatype Match = Match(mfaId: Id, newSignCount: Option<nat>)

  // ----- State -----

  /** The MFA dictionaries. The last two fields are history: the normalized recovery codes that
      verified against a factor and the sign counts accepted for it, oldest first. */
  datatype State = State(
    factors: map<Id, Factor>,
    totpSecrets: map<Id, bytes>,
    webauthnKeys: map<Id, bytes>,
    recoveryHashes: map<Id, seq<PasswordHash>>,
    recoveryConsumed: map<Id, seq<bool>>,
    singleton: map<string, Id>,
    byCredentialId: map<string, Id>,
    spent: map<Id, seq<string>>,
    accepted: map<Id, seq<nat>>)

  const EMPTY := State(map[], map[], map[], map[], map[], map[], map[], map[], map[])

  type Outcome<T> = Identity.Outcome<State, T>

  function Done<T>(s: State, r: T): Outcome<T> {
    Identity.Outcome(s, Ok(r))
  }

  function Refused<T>(s: State, e: Error): Outcome<T> {
    Identity.Outcome(s, Raise(e))
  }

  function TotpKey(usrId: Id): string {
    usrId + "|totp"
  }

  function RecoveryKey(usrId: Id): string {
    usrId + "|recovery"
  }

  /** The singleton keys of different users or types differ, whatever the user ids contain. */
  lemma SingletonKeysAreInjective(u: Id, v: Id)
    ensures TotpKey(u) == TotpKey(v) <==> u == v
    ensures RecoveryKey(u) == RecoveryKey(v) <==> u == v
    ensures TotpKey(u) != RecoveryKey(v)
  {
    assert TotpKey(u)[..|TotpKey(u)| - 5] == u && TotpKey(v)[..|TotpKey(v)| - 5] == v;
    assert RecoveryKey(u)[..|RecoveryKey(u)| - 9] == u && RecoveryKey(v)[..|RecoveryKey(v)| - 9] == v;
    assert Last(TotpKey(u)) == 'p' && Last(RecoveryKey(v)) == 'y';
  }

  function CheckUserActive(users: Users, usrId: Id): Option<Error> {
    if usrId !in users then Some(NotFound)
    else if users[usrId].status != Identity.Active then Some(Precondition("user_not_active"))
    else None
  }

  // ----- Enrollment -----

  function EnrollTotp(s: State, users: Users, usrId: Id, identifier: string, secret: bytes, newId: Id, now: Time)
    : Outcome<Factor>
  {
    match CheckUserActive(users, usrId)
    case Some(e) => Refused(s, e)
    case None =>
      if TotpKey(usrId) in s.singleton then Refused(s, Precondition("active_singleton_exists"))
      else
        var f := Factor(newId, usrId, Pending, None, now, now, TotpFactor(identifier));
        Done(s.(factors := s.factors[newId := f], totpSecrets := s.totpSecrets[newId := secret]), f)
  }

  function EnrollWebAuthn(s: State, users: Users, usrId: Id, identifier: string, reg: WebAuthn.Registration,
                          newId: Id, now: Time): Outcome<Factor>
  {
    match CheckUserActive(users, usrId)
    case Some(e) => Refused(s, e)
    case None =>
      if identifier in s.byCredentialId then Refused(s, Precondition("duplicate_webauthn_credential"))
      else
        var f := Factor(newId, usrId, Pending, None, now, now, WebAuthnFactor(identifier, reg.rpId, reg.signCount));
        Done(s.(factors := s.factors[newId := f],
                webauthnKeys := s.webauthnKeys[newId := reg.cosePublicKey],
                byCredentialId := s.byCredentialId[identifier := newId],
                accepted := s.accepted[newId := []]), f)
  }

  function HashAll(codes: seq<string>): (hashes: seq<PasswordHash>)
    ensures |hashes| == |codes| && forall i :: 0 <= i < |codes| ==> hashes[i] == Identity.Argon2id(codes[i])
  {
    seq(|codes|, i requires 0 <= i < |codes| => Identity.Argon2id(codes[i]))
  }

  function AllFalse(n: nat): (flags: seq<bool>)
    ensures |flags| == n && forall i :: 0 <= i < n ==> !flags[i]
  {
    seq(n, _ => false)
  }

  function EnrollRecovery(s: State, users: Users, usrId: Id, codes: seq<string>, newId: Id, now: Time)
    : Outcome<Factor>
  {
    match CheckUserActive(users, usrId)
    case Some(e) => Refused(s, e)
    case None =>
      if RecoveryKey(usrId) in s.singleton then Refused(s, Precondition("active_singleton_exists"))
      else
        var f := Factor(newId, usrId, Active, None, now, now, RecoveryFactor(|codes|));
        Done(s.(factors := s.factors[newId := f],
                recoveryHashes := s.recoveryHashes[newId := HashAll(codes)],
                recoveryConsumed := s.recoveryConsumed[newId := AllFalse(|codes|)],
                singleton := s.singleton[RecoveryKey(usrId) := newId],
                spent := s.spent[newId := []]), f)
  }

  // ----- Confirmation -----

  predicate IsExpiredPending(f: Factor, now: Time) {
    now - f.createdAt > PENDING_TTL_SECONDS * Identity.SECOND
  }

  /** `int(t.timestamp())` rounds towards zero. */
  function WholeSeconds(t: Time): int {
    if t >= 0 then t / Identity.SECOND else -(-t / Identity.SECOND)
  }

  /** The TOTP check with the default parameters: 6 digits, 30 seconds, one window of drift. */
  function CheckTotp(hmac: (bytes, bytes) -> bytes, secret: bytes, code: string, now: Time): Option<Error>
    requires Totp.IsHmac(hmac)
  {
    match Totp.Verify(hmac, secret, code, WholeSeconds(now), 30, 6, 1)
    case Raise(e) => Some(e)
    case Ok(matched) => if matched then None else Some(InvalidCredential)
  }

  function ConfirmTotp(s: State, hmac: (bytes, bytes) -> bytes, mfaId: Id, code: string,
                       ageNow: Time, codeNow: Time, now: Time): Outcome<Factor>
    requires Totp.IsHmac(hmac)
  {
    if mfaId !in s.factors then Refused(s, NotFound) else
    var f := s.factors[mfaId];
    if !f.kind.TotpFactor? then Refused(s, CredentialTypeMismatch)
    else if f.status != Pending then Refused(s, Precondition("factor_not_pending"))
    else if IsExpiredPending(f, ageNow) then Refused(s, Precondition("pending_factor_expired"))
    else if mfaId !in s.totpSecrets then Refused(s, KeyError)
    else match CheckTotp(hmac, s.totpSecrets[mfaId], code, codeNow)
      case Some(e) => Refused(s, e)
      case None =>
        var active := f.(status := Active, updatedAt := now);
        Done(s.(factors := s.factors[mfaId := active], singleton := s.singleton[TotpKey(f.usrId) := mfaId]), active)
  }

  /** The assertion check against a stored WebAuthn factor, and the factor with the new count. */
  function CheckAssertion(s: State, lib: WebAuthn.Library, mfaId: Id, f: Factor, a: WebAuthn.Assertion): Result<nat>
    requires f.kind.WebAuthnFactor?
  {
    if mfaId !in s.webauthnKeys then Raise(KeyError)
    else WebAuthn.VerifyAssertion(lib, WebAuthn.Registration(s.webauthnKeys[mfaId], f.kind.signCount, f.kind.rpId), a)
  }

  function WithCount(f: Factor, status: FactorStatus, n: nat, now: Time): Factor
    requires f.kind.WebAuthnFactor?
  {
    f.(status := status, updatedAt := now, kind := f.kind.(signCount := n))
  }

  function History<T>(m: map<Id, seq<T>>, id: Id): seq<T> {
    if id in m then m[id] else []
  }

  function AcceptCount(s: State, mfaId: Id, f: Factor, n: nat): State {
    s.(factors := s.factors[mfaId := f], accepted := s.accepted[mfaId := History(s.accepted, mfaId) + [n]])
  }

  function ConfirmWebAuthn(s: State, lib: WebAuthn.Library, mfaId: Id, a: WebAuthn.Assertion, ageNow: Time, now: Time)
    : Outcome<Factor>
  {
    if mfaId !in s.factors then Refused(s, NotFound) else
    var f := s.factors[mfaId];
    if !f.kind.WebAuthnFactor? then Refused(s, CredentialTypeMismatch)
    else if f.status != Pending then Refused(s, Precondition("factor_not_pending"))
    else if IsExpiredPending(f, ageNow) then Refused(s, Precondition("pending_factor_expired"))
    else match CheckAssertion(s, lib, mfaId, f, a)
      case Raise(e) => Refused(s, e)
      case Ok(n) =>
        var active := WithCount(f, Active, n, now);
        Done(AcceptCount(s, mfaId, active, n), active)
  }

  // ----- Revocation -----

  /** The singleton slots without the one under the factor's key, whichever factor holds it. */
  function WithoutSlot(singleton: map<string, Id>, f: Factor): map<string, Id> {
    match f.kind
    case TotpFactor(_) => singleton - {TotpKey(f.usrId)}
    case RecoveryFactor(_) => singleton - {RecoveryKey(f.usrId)}
    case WebAuthnFactor(_, _, _) => singleton
  }

  function WithoutListing(index: map<string, Id>, f: Factor): map<string, Id> {
    if f.kind.WebAuthnFactor? then index - {f.kind.identifier} else index
  }

  function RevokeFactor(s: State, mfaId: Id, now: Time): Outcome<Factor> {
    if mfaId !in s.factors then Refused(s, NotFound) else
    var f := s.factors[mfaId];
    if f.status == Revoked then Done(s, f) else
    var revoked := f.(status := Revoked, updatedAt := now);
    Done(s.(factors := s.factors[mfaId := revoked],
            singleton := WithoutSlot(s.singleton, f),
            byCredentialId := WithoutListing(s.byCredentialId, f)), revoked)
  }

  // ----- Verification -----

  function VerifyTotp(s: State, hmac: (bytes, bytes) -> bytes, usrId: Id, code: string, now: Time): Result<Match>
    requires Totp.IsHmac(hmac)
  {
    if TotpKey(usrId) !in s.singleton then Raise(InvalidCredential) else
    var mfaId := s.singleton[TotpKey(usrId)];
    if mfaId !in s.totpSecrets then Raise(KeyError)
    else match CheckTotp(hmac, s.totpSecrets[mfaId], code, now)
      case Some(e) => Raise(e)
      case None => Ok(Match(mfaId, None))
  }

  function VerifyWebAuthn(s: State, lib: WebAuthn.Library, usrId: Id, credentialId: string, a: WebAuthn.Assertion,
                          now: Time)
    : Outcome<Match>
  {
    if credentialId !in s.byCredentialId then Refused(s, InvalidCredential) else
    var mfaId := s.byCredentialId[credentialId];
    if mfaId !in s.factors then Refused(s, KeyError) else
    var f := s.factors[mfaId];
    if !f.kind.WebAuthnFactor? || f.usrId != usrId || f.status != Active then Refused(s, InvalidCredential)
    else match CheckAssertion(s, lib, mfaId, f, a)
      case Raise(e) => Refused(s, e)
      case Ok(n) => Done(AcceptCount(s, mfaId, WithCount(f, f.status, n, now), n), Match(mfaId, Some(n)))
  }

  /** First slot from `i` on that is not consumed and whose hash verifies the code. */
  function FirstMatch(hashes: seq<PasswordHash>, consumed: seq<bool>, code: string, i: nat): (slot: Option<nat>)
    requires |hashes| == |consumed|
    ensures slot.Some? ==> i <= slot.value < |hashes| && Opens(hashes, consumed, code, slot.value)
    ensures forall j :: i <= j < |hashes| && (slot.None? || j < slot.value) ==> !Opens(hashes, consumed, code, j)
    decreases |hashes| - i
  {
    if i >= |hashes| then None
    else if Opens(hashes, consumed, code, i) then Some(i)
    else FirstMatch(hashes, consumed, code, i + 1)
  }

  predicate Opens(hashes: seq<PasswordHash>, consumed: seq<bool>, code: string, i: nat)
    requires i < |hashes| == |consumed|
  {
    !consumed[i] && hashes[i] == Identity.Argon2id(code)
  }

  function CountFalse(flags: seq<bool>): nat {
    if flags == [] then 0 else (if flags[0] then 0 else 1) + CountFalse(flags[1..])
  }

  function VerifyRecovery(s: State, usrId: Id, code: string, now: Time): Outcome<Match> {
    if RecoveryKey(usrId) !in s.singleton then Refused(s, InvalidCredential) else
    var mfaId := s.singleton[RecoveryKey(usrId)];
    var normalized := Recovery.Normalize(code);
    if !Recovery.IsValidCode(normalized) then Refused(s, InvalidCredential)
    else if mfaId !in s.recoveryHashes || mfaId !in s.recoveryConsumed then Refused(s, KeyError)
    else
      var hashes, consumed := s.recoveryHashes[mfaId], s.recoveryConsumed[mfaId];
      var n := Min(|hashes|, |consumed|);
      match FirstMatch(hashes[..n], consumed[..n], normalized, 0)
      case None => Refused(s, InvalidCredential)
      case Some(slot) =>
        var consumed' := consumed[slot := true];
        var s1 := s.(recoveryConsumed := s.recoveryConsumed[mfaId := consumed'],
                     spent := s.spent[mfaId := History(s.spent, mfaId) + [normalized]]);
        if mfaId !in s.factors then Refused(s1, KeyError) else
        var f := s.factors[mfaId];
        Done(if f.kind.RecoveryFactor?
             then s1.(factors := s.factors[mfaId := f.(updatedAt := now,
                 kind := RecoveryFactor(CountFalse(consumed')))])
             else s1,
             Match(mfaId, None))
  }

  function VerifyMfa(s: State, hmac: (bytes, bytes) -> bytes, lib: WebAuthn.Library, usrId: Id, proof: Proof, now: Time)
    : Outcome<Match>
    requires Totp.IsHmac(hmac)
  {
    match proof
    case TotpProof(code) => Identity.Outcome(s, VerifyTotp(s, hmac, usrId, code, now))
    case WebAuthnProof(credentialId, assertion) => VerifyWebAuthn(s, lib, usrId, credentialId, assertion, now)
    case RecoveryProof(code) => VerifyRecovery(s, usrId, code, now)
  }
}
