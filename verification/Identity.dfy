/** Users, credentials and sessions: the part of the store's state that its cascades tie
    together, and what each operation does to it. Every operation is a function from the state
    and its arguments to an outcome. Fresh identifiers and tokens are arguments, and so is each
    reading of the clock. Times are microseconds. */
module Identity {
  import opened Prelude

  type Id = string

  type Time = int

  const SECOND: Time := 1_000_000

  const MIN_TTL_SECONDS := 60

  const MAX_PASSWORD_BYTES := 1024

  datatype Outcome<+S, +T> = Outcome(state: S, result: Result<T>)

  // ----- Entities (types.py) -----

  datatype Status = Active | Suspended | Revoked

  datatype User = User(id: Id, status: Status, createdAt: Time, updatedAt: Time, displayName: Option<string>)

  datatype CredentialType = Password | Passkey | Oidc

  datatype Details =
    | PasswordDetails
    | PasskeyDetails(signCount: int, rpId: string)
    | OidcDetails(issuer: string, subject: string)

  datatype Credential = Credential(
    id: Id,
    usrId: Id,
    identifier: string,
    status: Status,
    replacesId: Option<Id>,
    details: Details,
    createdAt: Time,
    updatedAt: Time)
  {
    function Type(): CredentialType {
      match details
      case PasswordDetails => Password
      case PasskeyDetails(_, _) => Passkey
      case OidcDetails(_, _) => Oidc
    }

    function Key(): string {
      IdentifierKey(Type(), identifier)
    }

    function WithStatus(s: Status, now: Time): Credential {
      this.(status := s, updatedAt := now)
    }
  }

  datatype Session = Session(
    id: Id,
    usrId: Id,
    credId: Id,
    createdAt: Time,
    expiresAt: Time,
    revokedAt: Option<Time>)
  {
    predicate IsLive() {
      revokedAt.None?
    }

    function Ttl(): Time {
      expiresAt - createdAt
    }
  }

  /** Hashes are free constructors: equal hashes come from equal plaintexts, and a password
      verifies against a hash iff it is the one that was hashed. */
  datatype PasswordHash = Argon2id(password: string)

  datatype TokenHash = Sha256(token: string)

  /** What the three `create_*` and the three `rotate_*` operations are given. */
  datatype Material =
    | NewPassword(password: string)
    | NewPasskey(publicKey: bytes, signCount: int, rpId: string)
    | NewOidc(issuer: string, subject: string)
  {
    function Details(): Details {
      match this
      case NewPassword(_) => PasswordDetails
      case NewPasskey(_, signCount, rpId) => PasskeyDetails(signCount, rpId)
      case NewOidc(issuer, subject) => OidcDetails(issuer, subject)
    }

    function Type(): CredentialType {
      match this case NewPassword(_) => Password case NewPasskey(_, _, _) => Passkey case NewOidc(_, _) => Oidc
    }

    /** `hash_password` raises ValueError on these. */
    predicate IsTooLong() {
      NewPassword? && TooLong(password)
    }
  }

  predicate TooLong(password: string) {
    Utf8Length(password) > MAX_PASSWORD_BYTES
  }

  datatype TokenResult = TokenResult(session: Session, token: string)

  datatype Verified = Verified(usrId: Id, credId: Id)

  // ----- The natural key of a credential -----

  function TypeName(t: CredentialType): string {
    match t case Password => "password" case Passkey => "passkey" case Oidc => "oidc"
  }

  function IdentifierKey(t: CredentialType, identifier: string): string {
    TypeName(t) + "|" + identifier
  }

  /** Joining with '|' is injective: no type name contains it, whatever the identifier does. */
  lemma IdentifierKeyIsInjective(t: CredentialType, i: string, t': CredentialType, i': string)
    ensures IdentifierKey(t, i) == IdentifierKey(t', i') <==> t == t' && i == i'
  {
    var k, k' := IdentifierKey(t, i), IdentifierKey(t', i');
    assert k[|TypeName(t)|] == '|' && k'[|TypeName(t')|] == '|';
    if k == k' {
      assert |TypeName(t)| == |TypeName(t')|;
      assert k[|TypeName(t)| + 1..] == i && k'[|TypeName(t)| + 1..] == i';
      assert k[0] == TypeName(t)[0] && k'[0] == TypeName(t')[0];
    }
  }

  // ----- State -----

  /** The dictionaries of `InMemoryIdentityStore` for users, credentials and sessions. The last
      four fields are history: the position at which a credential or session was inserted,
      which session each token was issued for, and which session each session refreshed. */
  datatype Core = Core(
    users: map<Id, User>,
    creds: map<Id, Credential>,
    passwordHashes: map<Id, PasswordHash>,
    passkeyKeys: map<Id, bytes>,
    activeCred: map<string, Id>,
    sessions: map<Id, Session>,
    tokenHashes: map<Id, TokenHash>,
    sessionByHash: map<TokenHash, Id>,
    credBirth: map<Id, nat>,
    sesBirth: map<Id, nat>,
    issued: map<string, Id>,
    refreshOf: map<Id, Id>)

  const EMPTY := Core(map[], map[], map[], map[], map[], map[], map[], map[], map[], map[], map[], map[])

  // ----- Cascades -----

  function LiveSessionsOfCredential(s: Core, credId: Id): set<Id> {
    set i | i in s.sessions && s.sessions[i].credId == credId && s.sessions[i].IsLive()
  }

  function LiveSessionsOfUser(s: Core, usrId: Id): set<Id> {
    set i | i in s.sessions && s.sessions[i].usrId == usrId && s.sessions[i].IsLive()
  }

  function HashesOf(s: Core, ids: set<Id>): set<TokenHash> {
    set i | i in ids && i in s.tokenHashes :: s.tokenHashes[i]
  }

  function Stamped(sessions: map<Id, Session>, ids: set<Id>, now: Time): map<Id, Session> {
    map i | i in sessions :: if i in ids then sessions[i].(revokedAt := Some(now)) else sessions[i]
  }

  /** Stamp the given sessions revoked and forget their token hashes. */
  function RevokeSessions(s: Core, ids: set<Id>, now: Time): Core {
    s.(sessions := Stamped(s.sessions, ids, now),
       tokenHashes := s.tokenHashes - ids,
       sessionByHash := s.sessionByHash - HashesOf(s, ids))
  }

  function InsertSession(s: Core, ses: Session, token: string): Core {
    s.(sessions := s.sessions[ses.id := ses],
       tokenHashes := s.tokenHashes[ses.id := Sha256(token)],
       sessionByHash := s.sessionByHash[Sha256(token) := ses.id],
       sesBirth := s.sesBirth[ses.id := |s.sesBirth|],
       issued := s.issued[token := ses.id])
  }

  function InsertCredential(s: Core, c: Credential, m: Material): Core {
    s.(creds := s.creds[c.id := c],
       passwordHashes := if m.NewPassword? then s.passwordHashes[c.id := Argon2id(m.password)] else s.passwordHashes,
       passkeyKeys := if m.NewPasskey? then s.passkeyKeys[c.id := m.publicKey] else s.passkeyKeys,
       activeCred := s.activeCred[c.Key() := c.id],
       credBirth := s.credBirth[c.id := |s.credBirth|])
  }

  // ----- Users -----

  function CreateUser(s: Core, displayName: Option<string>, newId: Id, now: Time): Outcome<Core, User> {
    var u := User(newId, Active, now, now, displayName);
    Outcome(s.(users := s.users[newId := u]), Ok(u))
  }

  /** The name argument is None when omitted, Some(None) to clear the name. */
  function UpdateUser(s: Core, usrId: Id, name: Option<Option<string>>, now: Time): Outcome<Core, User> {
    if usrId !in s.users then Outcome(s, Raise(NotFound)) else
    var u := s.users[usrId];
    if u.status == Revoked then Outcome(s, Raise(AlreadyTerminal))
    else if name.None? || name.value == u.displayName then Outcome(s, Ok(u))
    else
      var updated := u.(displayName := name.value, updatedAt := now);
      Outcome(s.(users := s.users[usrId := updated]), Ok(updated))
  }

  function WithUserStatus(s: Core, usrId: Id, status: Status, now: Time): Core
    requires usrId in s.users
  {
    s.(users := s.users[usrId := s.users[usrId].(status := status, updatedAt := now)])
  }

  function SuspendUser(s: Core, usrId: Id, now: Time, cascadeNow: Time): Outcome<Core, User> {
    if usrId !in s.users then Outcome(s, Raise(NotFound)) else
    var u := s.users[usrId];
    if u.status == Revoked then Outcome(s, Raise(AlreadyTerminal))
    else if u.status == Suspended then Outcome(s, Ok(u))
    else
      var s' := RevokeSessions(WithUserStatus(s, usrId, Suspended, now), LiveSessionsOfUser(s, usrId), cascadeNow);
      Outcome(s', Ok(s'.users[usrId]))
  }

  function ReinstateUser(s: Core, usrId: Id, now: Time): Outcome<Core, User> {
    if usrId !in s.users then Outcome(s, Raise(NotFound))
    else if s.users[usrId].status != Suspended then Outcome(s, Raise(Precondition("invalid_transition")))
    else
      var s' := WithUserStatus(s, usrId, Active, now);
      Outcome(s', Ok(s'.users[usrId]))
  }

  function ActiveCredentialsOfUser(s: Core, usrId: Id): set<Id> {
    set c | c in s.creds && s.creds[c].usrId == usrId && s.creds[c].status == Active
  }

  /** Revoke the given credentials and drop their keys from the index. */
  function RevokeCredentials(s: Core, ids: set<Id>, now: Time): Core {
    s.(creds := map c | c in s.creds :: if c in ids then s.creds[c].WithStatus(Revoked, now) else s.creds[c],
       activeCred := s.activeCred - (set c | c in ids && c in s.creds :: s.creds[c].Key()))
  }

  function RevokeUser(s: Core, usrId: Id, now: Time, cascadeNow: Time): Outcome<Core, User> {
    if usrId !in s.users then Outcome(s, Raise(NotFound))
    else if s.users[usrId].status == Revoked then Outcome(s, Raise(AlreadyTerminal))
    else
      var s1 := RevokeCredentials(s, ActiveCredentialsOfUser(s, usrId), now);
      var s2 := RevokeSessions(s1, LiveSessionsOfUser(s, usrId), cascadeNow);
      var s3 := WithUserStatus(s2, usrId, Revoked, now);
      Outcome(s3, Ok(s3.users[usrId]))
  }

  // ----- Credentials -----

  function CreateCredential(s: Core, usrId: Id, identifier: string, m: Material, newId: Id, now: Time)
    : Outcome<Core, Credential>
  {
    if usrId !in s.users then Outcome(s, Raise(NotFound))
    else if s.users[usrId].status != Active then Outcome(s, Raise(Precondition("user_not_active")))
    else if IdentifierKey(m.Type(), identifier) in s.activeCred then Outcome(s, Raise(DuplicateCredential))
    else if m.IsTooLong() then Outcome(s, Raise(ValueError))
    else
      var c := Credential(newId, usrId, identifier, Active, None, m.Details(), now, now);
      Outcome(InsertCredential(s, c, m), Ok(c))
  }

  /** The status change, the index entry that goes with it and the session cascade that
      suspending, revoking and rotating a credential have in common. */
  function RetireCredential(s: Core, credId: Id, status: Status, now: Time, cascadeNow: Time): Core
    requires credId in s.creds
  {
    var c := s.creds[credId];
    RevokeSessions(
      s.(creds := s.creds[credId := c.WithStatus(status, now)], activeCred := s.activeCred - {c.Key()}),
      LiveSessionsOfCredential(s, credId), cascadeNow)
  }

  /** The first half of a rotation: the old credential is revoked and its secret dropped. */
  function RetireForRotation(s: Core, credId: Id, now: Time, cascadeNow: Time): Core
    requires credId in s.creds
  {
    var t := s.creds[credId].Type();
    RetireCredential(s, credId, Revoked, now, cascadeNow).(
      passwordHashes := if t == Password then s.passwordHashes - {credId} else s.passwordHashes,
      passkeyKeys := if t == Passkey then s.passkeyKeys - {credId} else s.passkeyKeys)
  }

  /** A password that is too long is refused only after the old credential is gone. */
  function RotateCredential(s: Core, credId: Id, m: Material, newId: Id, now: Time, cascadeNow: Time)
    : Outcome<Core, Credential>
  {
    if credId !in s.creds then Outcome(s, Raise(NotFound)) else
    var prev := s.creds[credId];
    if prev.status != Active then Outcome(s, Raise(CredentialNotActive))
    else if prev.Type() != m.Type() then Outcome(s, Raise(CredentialTypeMismatch))
    else
      var s1 := RetireForRotation(s, credId, now, cascadeNow);
      if m.IsTooLong() then Outcome(s1, Raise(ValueError)) else
      var c := Credential(newId, prev.usrId, prev.identifier, Active, Some(credId), m.Details(), now, now);
      Outcome(InsertCredential(s1, c, m), Ok(c))
  }

  function SuspendCredential(s: Core, credId: Id, now: Time, cascadeNow: Time): Outcome<Core, Credential> {
    if credId !in s.creds then Outcome(s, Raise(NotFound))
    else if s.creds[credId].status != Active then Outcome(s, Raise(Precondition("cred_not_active")))
    else
      var s' := RetireCredential(s, credId, Suspended, now, cascadeNow);
      Outcome(s', Ok(s'.creds[credId]))
  }

  function ReinstateCredential(s: Core, credId: Id, now: Time): Outcome<Core, Credential> {
    if credId !in s.creds then Outcome(s, Raise(NotFound)) else
    var c := s.creds[credId];
    if c.status != Suspended then Outcome(s, Raise(Precondition("invalid_transition")))
    else if c.Key() in s.activeCred then Outcome(s, Raise(DuplicateCredential))
    else
      var updated := c.WithStatus(Active, now);
      Outcome(s.(creds := s.creds[credId := updated], activeCred := s.activeCred[c.Key() := credId]), Ok(updated))
  }

  /** The index entry under the credential's key goes, whichever credential holds it. */
  function RevokeCredential(s: Core, credId: Id, now: Time, cascadeNow: Time): Outcome<Core, Credential> {
    if credId !in s.creds then Outcome(s, Raise(NotFound))
    else if s.creds[credId].status == Revoked then Outcome(s, Raise(AlreadyTerminal))
    else
      var s' := RetireCredential(s, credId, Revoked, now, cascadeNow);
      Outcome(s', Ok(s'.creds[credId]))
  }

  function FindCredential(s: Core, t: CredentialType, identifier: string): Result<Option<Credential>> {
    var key := IdentifierKey(t, identifier);
    if key !in s.activeCred then Ok(None)
    else if s.activeCred[key] !in s.creds then Raise(NotFound)
    else Ok(Some(s.creds[s.activeCred[key]]))
  }

  function VerifyPassword(s: Core, identifier: string, password: string): Result<Verified> {
    match FindCredential(s, Password, identifier)
    case Raise(e) => Raise(e)
    case Ok(None) => Raise(if TooLong(password) then ValueError else InvalidCredential)
    case Ok(Some(c)) =>
      if c.Type() != Password then Raise(InvalidCredential)
      else if s.activeCred[IdentifierKey(Password, identifier)] !in s.passwordHashes then Raise(InvalidCredential)
      else if TooLong(password) then Raise(ValueError)
      else if s.passwordHashes[s.activeCred[IdentifierKey(Password, identifier)]] != Argon2id(password) then
        Raise(InvalidCredential)
      else Ok(Verified(c.usrId, c.id))
  }

  // ----- Sessions -----

  function CreateSession(s: Core, usrId: Id, credId: Id, ttlSeconds: int, newId: Id, token: string, now: Time)
    : Outcome<Core, TokenResult>
  {
    if usrId !in s.users then Outcome(s, Raise(NotFound))
    else if s.users[usrId].status != Active then Outcome(s, Raise(Precondition("user_not_active")))
    else if credId !in s.creds then Outcome(s, Raise(NotFound))
    else if s.creds[credId].status != Active then Outcome(s, Raise(CredentialNotActive))
    else if s.creds[credId].usrId != usrId then Outcome(s, Raise(Precondition("cred_user_mismatch")))
    else if ttlSeconds < MIN_TTL_SECONDS then Outcome(s, Raise(Precondition("ttl_too_short")))
    else
      var ses := Session(newId, usrId, credId, now, now + ttlSeconds * SECOND, None);
      Outcome(InsertSession(s, ses, token), Ok(TokenResult(ses, token)))
  }

  /** Neither the user nor the credential is consulted. */
  function RefreshSession(s: Core, sesId: Id, newId: Id, token: string, checkNow: Time, now: Time)
    : Outcome<Core, TokenResult>
  {
    if sesId !in s.sessions then Outcome(s, Raise(NotFound)) else
    var prev := s.sessions[sesId];
    if !prev.IsLive() || checkNow > prev.expiresAt then Outcome(s, Raise(SessionExpired))
    else
      var ses := Session(newId, prev.usrId, prev.credId, now, now + prev.Ttl(), None);
      var s1 := InsertSession(RevokeSessions(s, {sesId}, now), ses, token);
      Outcome(s1.(refreshOf := s1.refreshOf[newId := sesId]), Ok(TokenResult(ses, token)))
  }

  function RevokeSession(s: Core, sesId: Id, now: Time): Outcome<Core, Session> {
    if sesId !in s.sessions then Outcome(s, Raise(NotFound))
    else if !s.sessions[sesId].IsLive() then Outcome(s, Ok(s.sessions[sesId]))
    else
      var s' := RevokeSessions(s, {sesId}, now);
      Outcome(s', Ok(s'.sessions[sesId]))
  }

  function VerifySessionToken(s: Core, token: string, now: Time): Result<Session> {
    var hash := Sha256(token);
    if hash !in s.sessionByHash then Raise(InvalidToken) else
    var sesId := s.sessionByHash[hash];
    if sesId !in s.sessions then Raise(NotFound)
    else if sesId !in s.tokenHashes || s.tokenHashes[sesId] != hash then Raise(InvalidToken)
    else if !s.sessions[sesId].IsLive() then Raise(SessionExpired)
    else if now > s.sessions[sesId].expiresAt then Raise(SessionExpired)
    else Ok(s.sessions[sesId])
  }
}
