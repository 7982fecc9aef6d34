/** Personal access tokens: the dictionaries of the store and what each operation does to them. */
module Pats {
  import opened Prelude
  import Identity
  import PatToken

  type Id = Identity.Id

  type Time = Identity.Time

  type Users = map<Id, Identity.User>

  type PasswordHash = Identity.PasswordHash

  const MAX_LIFETIME_SECONDS := 365 * 24 * 60 * 60

  const COALESCE_SECONDS := 60

  const MAX_NAME_LENGTH := 120

  datatype PatStatus = Active | Expired | Revoked

  datatype Pat = Pat(
    id: Id,
    usrId: Id,
    name: string,
    scope: seq<string>,
    status: PatStatus,
    expiresAt: Option<Time>,
    lastUsedAt: Option<Time>,
    revokedAt: Option<Time>,
    createdAt: Time,
    updatedAt: Time)
  {
    function WithRevocation(now: Time): Pat {
      this.(status := Revoked, revokedAt := Some(now), updatedAt := now)
    }

    predicate IsExpired(now: Time) {
      expiresAt.Some? && now >= expiresAt.value
    }
  }

  datatype Created = Created(pat: Pat, token: string)

  datatype VerifiedPat = VerifiedPat(patId: Id, usrId: Id, scope: seq<string>)

  /** The PAT dictionaries; `recorded` is history: the values `last_used_at` has had. */
  datatype State = State(
    pats: map<Id, Pat>,
    secretHashes: map<Id, PasswordHash>,
    lastUsedPersist: map<Id, Time>,
    recorded: map<Id, seq<Time>>)

  const EMPTY := State(map[], map[], map[], map[])

  type Outcome<T> = Identity.Outcome<State, T>

  function Done<T>(s: State, r: T): Outcome<T> {
    Identity.Outcome(s, Ok(r))
  }

  function Refused<T>(s: State, e: Error): Outcome<T> {
    Identity.Outcome(s, Raise(e))
  }

  function CheckNewPat(users: Users, usrId: Id, name: string, expiresAt: Option<Time>, now: Time): Option<Error> {
    if usrId !in users then Some(NotFound)
    else if |name| < 1 || |name| > MAX_NAME_LENGTH then Some(Precondition("invalid_name"))
    else if expiresAt.Some? && expiresAt.value <= now then Some(Precondition("expires_in_past"))
    else if expiresAt.Some? && expiresAt.value > now + MAX_LIFETIME_SECONDS * Identity.SECOND then
      Some(Precondition("expires_too_late"))
    else None
  }

  function CreatePat(s: State, users: Users, usrId: Id, name: string, scope: seq<string>, expiresAt: Option<Time>,
                     newId: Id, raw: bytes, now: Time): Outcome<Created>
  {
    match CheckNewPat(users, usrId, name, expiresAt, now)
    case Some(e) => Refused(s, e)
    case None =>
      var secret := PatToken.Encode(raw);
      var pat := Pat(newId, usrId, name, scope, Active, expiresAt, None, None, now, now);
      Done(s.(pats := s.pats[newId := pat],
              secretHashes := s.secretHashes[newId := Identity.Argon2id(secret)],
              recorded := s.recorded[newId := []]),
           Created(pat, PatToken.Token(newId, secret)))
  }

  /** `last_used_at` moves only when the recorded value is missing or a minute old. */
  predicate RecordsUse(s: State, patId: Id, now: Time) {
    patId in s.lastUsedPersist ==> now - s.lastUsedPersist[patId] >= COALESCE_SECONDS * Identity.SECOND
  }

  function RecordUse(s: State, patId: Id, now: Time): State
    requires patId in s.pats
  {
    s.(pats := s.pats[patId := s.pats[patId].(lastUsedAt := Some(now), updatedAt := now)],
       lastUsedPersist := s.lastUsedPersist[patId := now],
       recorded := s.recorded[patId := (if patId in s.recorded then s.recorded[patId] else []) + [now]])
  }

  function VerifyPatToken(s: State, token: string, now: Time): Outcome<VerifiedPat> {
    if !PatToken.StructurallyValid(token) then
      Refused(s, if Identity.TooLong(token) then ValueError else InvalidPatToken)
    else
      PatToken.StructurallyValidParts(token);
      var patId, secret := token[..36], token[37..];
      if |secret| > PatToken.MAX_SECRET_LENGTH then Refused(s, InvalidPatToken)
      else if patId !in s.pats then Refused(s, if Identity.TooLong(secret) then ValueError else InvalidPatToken)
      else
        var pat := s.pats[patId];
        if pat.revokedAt.Some? then Refused(s, PatRevoked)
        else if pat.IsExpired(now) then Refused(s, PatExpired)
        else if patId !in s.secretHashes then Refused(s, KeyError)
        else if Identity.TooLong(secret) then Refused(s, ValueError)
        else if s.secretHashes[patId] != Identity.Argon2id(secret) then Refused(s, InvalidPatToken)
        else
          Done(if RecordsUse(s, patId, now) then RecordUse(s, patId, now) else s,
               VerifiedPat(patId, pat.usrId, pat.scope))
  }

  function RevokePat(s: State, patId: Id, now: Time): Outcome<Pat> {
    if patId !in s.pats then Refused(s, NotFound)
    else if s.pats[patId].revokedAt.Some? then Done(s, s.pats[patId])
    else
      var revoked := s.pats[patId].WithRevocation(now);
      Done(s.(pats := s.pats[patId := revoked]), revoked)
  }

  function Cascaded(pats: map<Id, Pat>, usrId: Id, now: Time): map<Id, Pat> {
    map p | p in pats ::
      if pats[p].usrId == usrId && pats[p].revokedAt.None? then pats[p].WithRevocation(now) else pats[p]
  }

  /** The cascade of `revoke_user`. */
  function RevokePatsOfUser(s: State, usrId: Id, now: Time): State {
    s.(pats := Cascaded(s.pats, usrId, now))
  }
}
