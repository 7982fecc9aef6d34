/** `InMemoryIdentityStore`: the dictionaries as fields that the operations update in place.
    Each method is proved to do what the specification function of the same name says, so that
    everything proved about those functions and their runs holds of the class. The arguments
    `now`, `cascadeNow` and so on are the method's successive readings of the clock; `newId`,
    `token`, `raw`, `secret` and `codes` are what its generators draw. */
module Store {
  import opened Prelude
  import opened Identity
  import opened Pagination
  import IdentityInvariants
  import IdentityOperations
  import Listings
  import Machine
  import Mfa
  import MfaInvariants
  import IdentityTheorems
  import MfaOperations
  import MfaTheorems
  import PatInvariants
  import Pats
  import PatToken
  import Recovery
  import Totp
  import WebAuthn

  function ErrorOf<T>(r: Result<T>): Option<Error> {
    if r.Ok? then None else Some(r.error)
  }

  /** A page of records and the cursor to the next one. */
  datatype Listing<+T> = Listing(data: seq<T>, next: Option<Id>)

  function UserKey(u: User): Key {
    Key(0, u.id)
  }

  function SessionKey(ses: Session): Key {
    Key(0, ses.id)
  }

  function PatKey(p: Pats.Pat): Key {
    Key(p.createdAt, p.id)
  }

  function CursorId(next: Option<Key>): Option<Id> {
    if next.None? then None else Some(next.value.id)
  }

  /** The listing holds the records of the page, in its order, and its cursor. */
  ghost predicate Shows<T(!new)>(l: Listing<T>, page: Page, stored: set<T>, key: T -> Key) {
    && |l.data| == |page.data| && l.next == CursorId(page.next)
    && forall i :: 0 <= i < |l.data| ==> l.data[i] in stored && key(l.data[i]) == page.data[i]
  }

  /** The stored records of a page. */
  function Fetch<T>(stored: map<Id, T>, page: Page): (l: Listing<T>)
    requires forall k :: k in page.data ==> k.id in stored
    ensures |l.data| == |page.data| && l.next == CursorId(page.next)
    ensures forall i :: 0 <= i < |l.data| ==> l.data[i] == stored[page.data[i].id]
  {
    Listing(seq(|page.data|, i requires 0 <= i < |page.data| => stored[page.data[i].id]), CursorId(page.next))
  }

  lemma PageIsWithin(sorted: seq<Key>, start: nat, limit: int)
    ensures forall k :: k in SlicePage(sorted, start, limit).data ==> k in sorted
  {
  }

  lemma FetchShows<T(!new)>(stored: map<Id, T>, page: Page, key: T -> Key)
    requires forall k :: k in page.data ==> k.id in stored && key(stored[k.id]) == k
    ensures Shows(Fetch(stored, page), page, stored.Values, key)
  {
    hide PatKey, UserKey, SessionKey;
    forall i | 0 <= i < |page.data|
      ensures stored[page.data[i].id] in stored.Values && key(stored[page.data[i].id]) == page.data[i]
    {
      assert page.data[i] in page.data;
    }
  }

  lemma SessionsListed(creds: map<Id, Credential>, sessions: map<Id, Session>, usrId: Id)
    requires IdentityInvariants.SessionsKeyed(creds, sessions)
    ensures forall k :: k in Listings.UserKeys(set i | i in sessions && sessions[i].usrId == usrId) ==>
              k.id in sessions && SessionKey(sessions[k.id]) == k
  {
    forall i | i in sessions
      ensures sessions[i].id == i
    {
      assert IdentityInvariants.SessionKeyed(creds, i, sessions[i]);
    }
  }

  lemma PatsListed(pats: map<Id, Pats.Pat>, usrId: Id)
    requires PatInvariants.PatsKeyed(pats)
    ensures forall k :: k in (set p | p in pats && pats[p].usrId == usrId :: Key(pats[p].createdAt, p)) ==>
              k.id in pats && PatKey(pats[k.id]) == k
  {
    forall p | p in pats
      ensures pats[p].id == p
    {
      assert PatInvariants.PatKeyed(p, pats[p]);
    }
  }

  // ----- What one round of a cascade adds -----

  lemma RevokeOneMoreSession(s: Core, ids: set<Id>, i: Id, now: Time)
    requires i in s.sessions && i !in ids
    ensures RevokeSessions(RevokeSessions(s, ids, now), {i}, now) == RevokeSessions(s, ids + {i}, now)
  {
    var once, both := RevokeSessions(s, ids, now), RevokeSessions(s, ids + {i}, now);
    assert Stamped(once.sessions, {i}, now) == both.sessions;
    assert once.tokenHashes - {i} == both.tokenHashes;
    assert HashesOf(s, ids) + HashesOf(once, {i}) == HashesOf(s, ids + {i});
    assert once.sessionByHash - HashesOf(once, {i}) == both.sessionByHash;
  }

  lemma RevokeNoSession(s: Core, now: Time)
    ensures RevokeSessions(s, {}, now) == s
  {
    assert HashesOf(s, {}) == {};
    assert Stamped(s.sessions, {}, now) == s.sessions;
  }

  lemma RevokeOneSession(s: Core, i: Id, now: Time)
    requires i in s.sessions
    ensures RevokeSessions(s, {i}, now) ==
      s.(sessions := s.sessions[i := s.sessions[i].(revokedAt := Some(now))],
         tokenHashes := s.tokenHashes - {i},
         sessionByHash := if i in s.tokenHashes then s.sessionByHash - {s.tokenHashes[i]} else s.sessionByHash)
  {
    hide Stamped;
    IdentityOperations.StampedOne(s.sessions, i, now);
    assert HashesOf(s, {i}) == if i in s.tokenHashes then {s.tokenHashes[i]} else {};
  }

  lemma KeysOfOneMore(creds: map<Id, Credential>, ids: set<Id>, c: Id)
    requires c in creds
    ensures (set d | d in ids + {c} && d in creds :: creds[d].Key()) ==
            (set d | d in ids && d in creds :: creds[d].Key()) + {creds[c].Key()}
  {
    hide Credential.Key;
  }

  lemma RevokeOneMoreCredential(s: Core, ids: set<Id>, c: Id, now: Time)
    requires c in s.creds && c !in ids
    ensures var once := RevokeCredentials(s, ids, now);
      RevokeCredentials(s, ids + {c}, now) ==
      once.(creds := once.creds[c := s.creds[c].WithStatus(Revoked, now)],
            activeCred := once.activeCred - {s.creds[c].Key()})
  {
    hide Credential.Key;
    KeysOfOneMore(s.creds, ids, c);
    var once, both := RevokeCredentials(s, ids, now), RevokeCredentials(s, ids + {c}, now);
    assert both.creds == once.creds[c := s.creds[c].WithStatus(Revoked, now)];
    assert both.activeCred == once.activeCred - {s.creds[c].Key()};
  }

  lemma RevokeNoCredential(s: Core, now: Time)
    ensures RevokeCredentials(s, {}, now) == s
  {
    assert RevokeCredentials(s, {}, now).creds == s.creds;
    assert RevokeCredentials(s, {}, now).activeCred == s.activeCred;
  }

  lemma SameSessions(s: Core, t: Core, usrId: Id)
    requires s.sessions == t.sessions
    ensures LiveSessionsOfUser(s, usrId) == LiveSessionsOfUser(t, usrId)
  {
  }

  lemma RevokingTouchesSessionsOnly(s: Core, ids: set<Id>, now: Time)
    ensures var s' := RevokeSessions(s, ids, now);
      s' == s.(sessions := s'.sessions, tokenHashes := s'.tokenHashes, sessionByHash := s'.sessionByHash)
  {
    hide Stamped, HashesOf;
  }

  lemma RevokingTouchesCredentialsOnly(s: Core, ids: set<Id>, now: Time)
    ensures var s' := RevokeCredentials(s, ids, now);
      s' == s.(creds := s'.creds, activeCred := s'.activeCred)
  {
    hide Credential.Key, Credential.WithStatus;
  }

  lemma SameSessionsOfCredential(s: Core, t: Core, credId: Id)
    requires s.sessions == t.sessions
    ensures LiveSessionsOfCredential(s, credId) == LiveSessionsOfCredential(t, credId)
  {
  }

  /** Dropping the secret before the cascade is dropping it after. */
  lemma SecretsThenSessions(s: Core, passwords: map<Id, PasswordHash>, keys: map<Id, bytes>, ids: set<Id>, now: Time)
    ensures RevokeSessions(s.(passwordHashes := passwords, passkeyKeys := keys), ids, now) ==
            RevokeSessions(s, ids, now).(passwordHashes := passwords, passkeyKeys := keys)
  {
    hide Stamped;
    assert HashesOf(s.(passwordHashes := passwords, passkeyKeys := keys), ids) == HashesOf(s, ids);
  }

  class InMemoryIdentityStore {
    const env: Machine.Env

    var users: map<Id, User>
    var creds: map<Id, Credential>
    var passwordHashes: map<Id, PasswordHash>
    var passkeyKeys: map<Id, bytes>
    var activeCred: map<string, Id>
    var sessions: map<Id, Session>
    var tokenHashes: map<Id, TokenHash>
    var sessionByHash: map<TokenHash, Id>
    ghost var credBirth: map<Id, nat>
    ghost var sesBirth: map<Id, nat>
    ghost var issued: map<string, Id>
    ghost var refreshOf: map<Id, Id>

    var factors: map<Id, Mfa.Factor>
    var totpSecrets: map<Id, bytes>
    var webauthnKeys: map<Id, bytes>
    var recoveryHashes: map<Id, seq<PasswordHash>>
    var recoveryConsumed: map<Id, seq<bool>>
    var singleton: map<string, Id>
    var byCredentialId: map<string, Id>
    ghost var spent: map<Id, seq<string>>
    ghost var accepted: map<Id, seq<nat>>

    var pats: map<Id, Pats.Pat>
    var secretHashes: map<Id, PasswordHash>
    var lastUsedPersist: map<Id, Time>
    ghost var recorded: map<Id, seq<Time>>

    ghost function CoreView(): Core
      reads `users, `creds, `passwordHashes, `passkeyKeys, `activeCred, `sessions, `tokenHashes, `sessionByHash,
            `credBirth, `sesBirth, `issued, `refreshOf
    {
      Core(users, creds, passwordHashes, passkeyKeys, activeCred, sessions, tokenHashes, sessionByHash,
           credBirth, sesBirth, issued, refreshOf)
    }

    ghost function MfaView(): Mfa.State
      reads `factors, `totpSecrets, `webauthnKeys, `recoveryHashes, `recoveryConsumed, `singleton, `byCredentialId,
            `spent, `accepted
    {
      Mfa.State(factors, totpSecrets, webauthnKeys, recoveryHashes, recoveryConsumed, singleton, byCredentialId,
                spent, accepted)
    }

    ghost function PatView(): Pats.State
      reads `pats, `secretHashes, `lastUsedPersist, `recorded
    {
      Pats.State(pats, secretHashes, lastUsedPersist, recorded)
    }

    ghost function View(): Machine.State
      reads this
    {
      Machine.State(CoreView(), MfaView(), PatView())
    }

    // Each operation keeps the invariant of the dictionaries it writes; its `modifies` clause
    // leaves the others alone.

    ghost predicate CoreValid()
      reads `users, `creds, `passwordHashes, `passkeyKeys, `activeCred, `sessions, `tokenHashes, `sessionByHash,
            `credBirth, `sesBirth, `issued, `refreshOf
    {
      IdentityInvariants.Inv(CoreView())
    }

    ghost predicate MfaValid()
      reads `factors, `totpSecrets, `webauthnKeys, `recoveryHashes, `recoveryConsumed, `singleton, `byCredentialId,
            `spent, `accepted
    {
      Totp.IsHmac(env.hmac) && MfaInvariants.Inv(MfaView())
    }

    ghost predicate PatsValid()
      reads `pats, `secretHashes, `lastUsedPersist, `recorded
    {
      PatInvariants.Inv(PatView())
    }

    ghost predicate Valid()
      reads this
    {
      CoreValid() && MfaValid() && PatsValid()
    }

    constructor (env: Machine.Env)
      requires Machine.IsEnv(env)
      ensures Valid() && this.env == env && View() == Machine.EMPTY
    {
      this.env := env;
      users, creds, passwordHashes, passkeyKeys, activeCred := map[], map[], map[], map[], map[];
      sessions, tokenHashes, sessionByHash := map[], map[], map[];
      credBirth, sesBirth, issued, refreshOf := map[], map[], map[], map[];
      factors, totpSecrets, webauthnKeys, recoveryHashes, recoveryConsumed := map[], map[], map[], map[], map[];
      singleton, byCredentialId, spent, accepted := map[], map[], map[], map[];
      pats, secretHashes, lastUsedPersist, recorded := map[], map[], map[], map[];
      new;
      hide Totp.IsHmac, IdentityInvariants.Inv, MfaInvariants.Inv, PatInvariants.Inv;
      IdentityInvariants.EmptyInv();
      MfaInvariants.EmptyInv();
      PatInvariants.EmptyInv();
    }

    // ----- Session cascades -----

    /** Stamp one session and forget its token hash. */
    method RevokeStored(sesId: Id, now: Time)
      requires sesId in sessions
      modifies `sessions, `tokenHashes, `sessionByHash
      ensures CoreView() == RevokeSessions(old(CoreView()), {sesId}, now)
      ensures sessions.Keys == old(sessions.Keys)
    {
      hide RevokeSessions;
      RevokeOneSession(CoreView(), sesId, now);
      sessions := sessions[sesId := sessions[sesId].(revokedAt := Some(now))];
      if sesId in tokenHashes {
        var hash := tokenHashes[sesId];
        tokenHashes := tokenHashes - {sesId};
        sessionByHash := sessionByHash - {hash};
      } else {
        assert tokenHashes - {sesId} == tokenHashes;
      }
    }

    method CascadeRevokeSessionsForCredential(credId: Id, now: Time)
      modifies `sessions, `tokenHashes, `sessionByHash
      ensures CoreView() == RevokeSessions(old(CoreView()), LiveSessionsOfCredential(old(CoreView()), credId), now)
    {
      hide RevokeSessions;
      ghost var s, live := CoreView(), LiveSessionsOfCredential(CoreView(), credId);
      var snapshot := sessions;
      var todo := snapshot.Keys;
      RevokeNoSession(s, now);
      assert live - todo == {};
      while todo != {}
        invariant todo <= snapshot.Keys == sessions.Keys
        invariant CoreView() == RevokeSessions(s, live - todo, now)
        decreases |todo|
      {
        var sesId :| sesId in todo;
        if snapshot[sesId].credId == credId && snapshot[sesId].IsLive() {
          RevokeOneMoreSession(s, live - todo, sesId, now);
          assert live - (todo - {sesId}) == live - todo + {sesId};
          RevokeStored(sesId, now);
        } else {
          assert live - (todo - {sesId}) == live - todo;
        }
        todo := todo - {sesId};
      }
      assert live - todo == live;
    }

    method CascadeRevokeSessionsForUser(usrId: Id, now: Time)
      modifies `sessions, `tokenHashes, `sessionByHash
      ensures CoreView() == RevokeSessions(old(CoreView()), LiveSessionsOfUser(old(CoreView()), usrId), now)
    {
      hide RevokeSessions;
      ghost var s, live := CoreView(), LiveSessionsOfUser(CoreView(), usrId);
      var snapshot := sessions;
      var todo := snapshot.Keys;
      RevokeNoSession(s, now);
      assert live - todo == {};
      while todo != {}
        invariant todo <= snapshot.Keys == sessions.Keys
        invariant CoreView() == RevokeSessions(s, live - todo, now)
        decreases |todo|
      {
        var sesId :| sesId in todo;
        if snapshot[sesId].usrId == usrId && snapshot[sesId].IsLive() {
          RevokeOneMoreSession(s, live - todo, sesId, now);
          assert live - (todo - {sesId}) == live - todo + {sesId};
          RevokeStored(sesId, now);
        } else {
          assert live - (todo - {sesId}) == live - todo;
        }
        todo := todo - {sesId};
      }
      assert live - todo == live;
    }

    // ----- Users -----

    method CreateUser(displayName: Option<string>, newId: Id, now: Time) returns (r: Result<User>)
      requires CoreValid() && newId !in users
      modifies `users
      ensures CoreValid()
      ensures Outcome(CoreView(), r) == Identity.CreateUser(old(CoreView()), displayName, newId, now)
    {
      hide IdentityInvariants.Inv;
      IdentityOperations.CreateUserKeeps(CoreView(), displayName, newId, now);
      var u := User(newId, Active, now, now, displayName);
      users := users[u.id := u];
      return Ok(u);
    }

    method UpdateUser(usrId: Id, name: Option<Option<string>>, now: Time) returns (r: Result<User>)
      requires CoreValid()
      modifies `users
      ensures CoreValid()
      ensures Outcome(CoreView(), r) == Identity.UpdateUser(old(CoreView()), usrId, name, now)
    {
      hide IdentityInvariants.Inv;
      IdentityOperations.UpdateUserKeeps(CoreView(), usrId, name, now);
      if usrId !in users {
        return Raise(NotFound);
      }
      var u := users[usrId];
      if u.status == Revoked {
        return Raise(AlreadyTerminal);
      }
      var newName := if name.None? then u.displayName else name.value;
      if newName == u.displayName {
        return Ok(u);
      }
      var updated := u.(displayName := newName, updatedAt := now);
      users := users[usrId := updated];
      return Ok(updated);
    }

    method SuspendUser(usrId: Id, now: Time, cascadeNow: Time) returns (r: Result<User>)
      requires CoreValid()
      modifies `users, `sessions, `tokenHashes, `sessionByHash
      ensures CoreValid()
      ensures Outcome(CoreView(), r) == Identity.SuspendUser(old(CoreView()), usrId, now, cascadeNow)
    {
      hide IdentityInvariants.Inv, RevokeSessions, LiveSessionsOfUser, LiveSessionsOfCredential;
      IdentityOperations.SuspendUserKeeps(CoreView(), usrId, now, cascadeNow);
      if usrId !in users {
        return Raise(NotFound);
      }
      var u := users[usrId];
      if u.status == Revoked {
        return Raise(AlreadyTerminal);
      }
      if u.status == Suspended {
        return Ok(u);
      }
      ghost var s := CoreView();
      var updated := u.(status := Suspended, updatedAt := now);
      users := users[usrId := updated];
      SameSessions(s, CoreView(), usrId);
      CascadeRevokeSessionsForUser(usrId, cascadeNow);
      RevokingTouchesSessionsOnly(WithUserStatus(s, usrId, Suspended, now), LiveSessionsOfUser(s, usrId), cascadeNow);
      return Ok(updated);
    }

    method ReinstateUser(usrId: Id, now: Time) returns (r: Result<User>)
      requires CoreValid()
      modifies `users
      ensures CoreValid()
      ensures Outcome(CoreView(), r) == Identity.ReinstateUser(old(CoreView()), usrId, now)
    {
      hide IdentityInvariants.Inv;
      IdentityOperations.ReinstateUserKeeps(CoreView(), usrId, now);
      if usrId !in users {
        return Raise(NotFound);
      }
      var u := users[usrId];
      if u.status != Suspended {
        return Raise(Precondition("invalid_transition"));
      }
      var updated := u.(status := Active, updatedAt := now);
      users := users[usrId := updated];
      return Ok(updated);
    }

    /** Store a credential as revoked and drop its key from the index. */
    method RevokeListed(credId: Id, c: Credential, now: Time)
      modifies `creds, `activeCred
      ensures CoreView() == old(CoreView()).(
        creds := old(creds)[credId := c.WithStatus(Revoked, now)], activeCred := old(activeCred) - {c.Key()})
    {
      hide Credential.Key, Credential.WithStatus;
      creds := creds[credId := c.WithStatus(Revoked, now)];
      activeCred := activeCred - {c.Key()};
    }

    /** Revoke every ACTIVE credential of the user and drop its key from the index. */
    method CascadeRevokeCredentials(usrId: Id, now: Time)
      modifies `creds, `activeCred
      ensures CoreView() == RevokeCredentials(old(CoreView()), ActiveCredentialsOfUser(old(CoreView()), usrId), now)
    {
      hide RevokeCredentials, Credential.Key, Credential.WithStatus;
      ghost var s, active := CoreView(), ActiveCredentialsOfUser(CoreView(), usrId);
      var snapshot := creds;
      var todo := snapshot.Keys;
      RevokeNoCredential(s, now);
      assert active - todo == {};
      while todo != {}
        invariant todo <= snapshot.Keys
        invariant CoreView() == RevokeCredentials(s, active - todo, now)
        decreases |todo|
      {
        var credId :| credId in todo;
        var c := snapshot[credId];
        if c.usrId == usrId && c.status == Active {
          RevokeOneMoreCredential(s, active - todo, credId, now);
          assert active - (todo - {credId}) == active - todo + {credId};
          RevokeListed(credId, c, now);
        } else {
          assert active - (todo - {credId}) == active - todo;
        }
        todo := todo - {credId};
      }
      assert active - todo == active;
    }

    method CascadeRevokePats(usrId: Id, now: Time)
      modifies `pats
      ensures PatView() == Pats.RevokePatsOfUser(old(PatView()), usrId, now)
    {
      var snapshot := pats;
      ghost var revoked := Pats.Cascaded(snapshot, usrId, now);
      var todo := snapshot.Keys;
      while todo != {}
        invariant todo <= snapshot.Keys == pats.Keys
        invariant forall p :: p in pats ==> pats[p] == if p in todo then snapshot[p] else revoked[p]
        decreases |todo|
      {
        var patId :| patId in todo;
        var pat := snapshot[patId];
        if pat.usrId == usrId && pat.revokedAt.None? {
          pats := pats[patId := pat.WithRevocation(now)];
        }
        todo := todo - {patId};
      }
      assert pats == revoked;
    }

    method RevokeUser(usrId: Id, now: Time, cascadeNow: Time) returns (r: Result<User>)
      requires CoreValid() && PatsValid()
      modifies `users, `creds, `activeCred, `sessions, `tokenHashes, `sessionByHash, `pats
      ensures CoreValid() && PatsValid()
      ensures Outcome(CoreView(), r) == Identity.RevokeUser(old(CoreView()), usrId, now, cascadeNow)
      ensures PatView() == if r.Ok? then Pats.RevokePatsOfUser(old(PatView()), usrId, now) else old(PatView())
    {
      hide IdentityInvariants.Inv, PatInvariants.Inv, RevokeSessions, LiveSessionsOfUser, RevokeCredentials,
           ActiveCredentialsOfUser, Pats.RevokePatsOfUser;
      PatInvariants.RevokePatsOfUserKeeps(PatView(), usrId, now);
      IdentityOperations.RevokeUserKeeps(CoreView(), usrId, now, cascadeNow);
      if usrId !in users {
        return Raise(NotFound);
      }
      var u := users[usrId];
      if u.status == Revoked {
        return Raise(AlreadyTerminal);
      }
      ghost var s := CoreView();
      ghost var s1 := RevokeCredentials(s, ActiveCredentialsOfUser(s, usrId), now);
      CascadeRevokeCredentials(usrId, now);
      RevokingTouchesCredentialsOnly(s, ActiveCredentialsOfUser(s, usrId), now);
      SameSessions(s, s1, usrId);
      CascadeRevokeSessionsForUser(usrId, cascadeNow);
      RevokingTouchesSessionsOnly(s1, LiveSessionsOfUser(s, usrId), cascadeNow);
      CascadeRevokePats(usrId, now);
      var updated := u.(status := Revoked, updatedAt := now);
      users := users[usrId := updated];
      assert CoreView() == Identity.RevokeUser(s, usrId, now, cascadeNow).state;
      return Ok(updated);
    }

    // ----- Credentials -----

    method EnsureUserActiveAndUniqueIdentifier(usrId: Id, t: CredentialType, identifier: string)
      returns (refused: Option<Error>)
      ensures refused == if usrId !in users then Some(NotFound)
        else if users[usrId].status != Active then Some(Precondition("user_not_active"))
        else if IdentifierKey(t, identifier) in activeCred then Some(DuplicateCredential)
        else None
    {
      if usrId !in users {
        return Some(NotFound);
      }
      if users[usrId].status != Active {
        return Some(Precondition("user_not_active"));
      }
      if IdentifierKey(t, identifier) in activeCred {
        return Some(DuplicateCredential);
      }
      return None;
    }

    /** A password is stored hashed, a passkey as its public key; OIDC has no secret. */
    method StoreSecret(credId: Id, m: Material)
      modifies `passwordHashes, `passkeyKeys
      ensures passwordHashes == if m.NewPassword? then old(passwordHashes)[credId := Argon2id(m.password)]
        else old(passwordHashes)
      ensures passkeyKeys == if m.NewPasskey? then old(passkeyKeys)[credId := m.publicKey] else old(passkeyKeys)
    {
      match m {
        case NewPassword(password) => passwordHashes := passwordHashes[credId := Argon2id(password)];
        case NewPasskey(publicKey, _, _) => passkeyKeys := passkeyKeys[credId := publicKey];
        case NewOidc(_, _) =>
      }
    }

    /** Store a credential with its secret and list it under its key. */
    method StoreCredential(c: Credential, m: Material)
      modifies `creds, `passwordHashes, `passkeyKeys, `activeCred, `credBirth
      ensures CoreView() == InsertCredential(old(CoreView()), c, m)
    {
      hide Credential.Key;
      creds := creds[c.id := c];
      StoreSecret(c.id, m);
      ghost var s := CoreView();
      activeCred := activeCred[c.Key() := c.id];
      credBirth := credBirth[c.id := |credBirth|];
      assert CoreView() == s.(activeCred := activeCred, credBirth := credBirth);
    }

    method CreateCredential(usrId: Id, identifier: string, m: Material, newId: Id, now: Time)
      returns (r: Result<Credential>)
      requires CoreValid() && newId !in creds
      modifies `creds, `passwordHashes, `passkeyKeys, `activeCred, `credBirth
      ensures CoreValid()
      ensures Outcome(CoreView(), r) == Identity.CreateCredential(old(CoreView()), usrId, identifier, m, newId, now)
    {
      hide IdentityInvariants.Inv, InsertCredential, IdentifierKey;
      IdentityOperations.CreateCredentialKeeps(CoreView(), usrId, identifier, m, newId, now);
      var refused := EnsureUserActiveAndUniqueIdentifier(usrId, m.Type(), identifier);
      if refused.Some? {
        return Raise(refused.value);
      }
      if m.IsTooLong() {
        return Raise(ValueError);
      }
      var c := Credential(newId, usrId, identifier, Active, None, m.Details(), now, now);
      StoreCredential(c, m);
      return Ok(c);
    }

    method RotateCredential(credId: Id, m: Material, newId: Id, now: Time, cascadeNow: Time)
      returns (r: Result<Credential>)
      requires CoreValid() && newId !in creds
      modifies `creds, `passwordHashes, `passkeyKeys, `activeCred, `credBirth, `sessions, `tokenHashes, `sessionByHash
      ensures CoreValid()
      ensures Outcome(CoreView(), r) == Identity.RotateCredential(old(CoreView()), credId, m, newId, now, cascadeNow)
    {
      hide IdentityInvariants.Inv, InsertCredential, RetireForRotation, Credential.Key;
      IdentityOperations.RotateCredentialKeeps(CoreView(), credId, m, newId, now, cascadeNow);
      if credId !in creds {
        return Raise(NotFound);
      }
      var previous := creds[credId];
      if previous.status != Active {
        return Raise(CredentialNotActive);
      }
      if previous.Type() != m.Type() {
        return Raise(CredentialTypeMismatch);
      }
      RetireRotated(credId, m, now, cascadeNow);
      if m.IsTooLong() {
        return Raise(ValueError);
      }
      var c := Credential(newId, previous.usrId, previous.identifier, Active, Some(credId), m.Details(), now, now);
      StoreCredential(c, m);
      return Ok(c);
    }

    /** The part of a rotation before the new secret is hashed. */
    method RetireRotated(credId: Id, m: Material, now: Time, cascadeNow: Time)
      requires credId in creds && creds[credId].Type() == m.Type()
      modifies `creds, `passwordHashes, `passkeyKeys, `activeCred, `sessions, `tokenHashes, `sessionByHash
      ensures CoreView() == RetireForRotation(old(CoreView()), credId, now, cascadeNow)
    {
      hide RevokeSessions, LiveSessionsOfCredential, Credential.Key;
      ghost var s := CoreView();
      var previous := creds[credId];
      creds := creds[credId := previous.WithStatus(Revoked, now)];
      activeCred := activeCred - {previous.Key()};
      ghost var s1 := CoreView();
      match m {
        case NewPassword(_) => passwordHashes := passwordHashes - {credId};
        case NewPasskey(_, _, _) => passkeyKeys := passkeyKeys - {credId};
        case NewOidc(_, _) =>
      }
      SameSessionsOfCredential(s, CoreView(), credId);
      SecretsThenSessions(s1, passwordHashes, passkeyKeys, LiveSessionsOfCredential(s, credId), cascadeNow);
      CascadeRevokeSessionsForCredential(credId, cascadeNow);
    }

    method SuspendCredential(credId: Id, now: Time, cascadeNow: Time) returns (r: Result<Credential>)
      requires CoreValid()
      modifies `creds, `activeCred, `sessions, `tokenHashes, `sessionByHash
      ensures CoreValid()
      ensures Outcome(CoreView(), r) == Identity.SuspendCredential(old(CoreView()), credId, now, cascadeNow)
    {
      hide IdentityInvariants.Inv, RevokeSessions, LiveSessionsOfCredential, Credential.Key;
      IdentityOperations.SuspendCredentialKeeps(CoreView(), credId, now, cascadeNow);
      if credId !in creds {
        return Raise(NotFound);
      }
      var c := creds[credId];
      if c.status != Active {
        return Raise(Precondition("cred_not_active"));
      }
      ghost var s := CoreView();
      var updated := c.WithStatus(Suspended, now);
      creds := creds[credId := updated];
      activeCred := activeCred - {c.Key()};
      SameSessionsOfCredential(s, CoreView(), credId);
      RevokingTouchesSessionsOnly(CoreView(), LiveSessionsOfCredential(s, credId), cascadeNow);
      CascadeRevokeSessionsForCredential(credId, cascadeNow);
      return Ok(updated);
    }

    method ReinstateCredential(credId: Id, now: Time) returns (r: Result<Credential>)
      requires CoreValid()
      modifies `creds, `activeCred
      ensures CoreValid()
      ensures Outcome(CoreView(), r) == Identity.ReinstateCredential(old(CoreView()), credId, now)
    {
      hide IdentityInvariants.Inv, Credential.Key;
      IdentityOperations.ReinstateCredentialKeeps(CoreView(), credId, now);
      if credId !in creds {
        return Raise(NotFound);
      }
      var c := creds[credId];
      if c.status != Suspended {
        return Raise(Precondition("invalid_transition"));
      }
      if c.Key() in activeCred {
        return Raise(DuplicateCredential);
      }
      var updated := c.WithStatus(Active, now);
      creds := creds[credId := updated];
      activeCred := activeCred[c.Key() := credId];
      return Ok(updated);
    }

    method RevokeCredential(credId: Id, now: Time, cascadeNow: Time) returns (r: Result<Credential>)
      requires CoreValid()
      modifies `creds, `activeCred, `sessions, `tokenHashes, `sessionByHash
      ensures CoreValid()
      ensures Outcome(CoreView(), r) == Identity.RevokeCredential(old(CoreView()), credId, now, cascadeNow)
    {
      hide IdentityInvariants.Inv, RevokeSessions, LiveSessionsOfCredential, Credential.Key;
      IdentityOperations.RevokeCredentialKeeps(CoreView(), credId, now, cascadeNow);
      if credId !in creds {
        return Raise(NotFound);
      }
      var c := creds[credId];
      if c.status == Revoked {
        return Raise(AlreadyTerminal);
      }
      ghost var s := CoreView();
      var updated := c.WithStatus(Revoked, now);
      creds := creds[credId := updated];
      activeCred := activeCred - {c.Key()};
      SameSessionsOfCredential(s, CoreView(), credId);
      RevokingTouchesSessionsOnly(CoreView(), LiveSessionsOfCredential(s, credId), cascadeNow);
      CascadeRevokeSessionsForCredential(credId, cascadeNow);
      return Ok(updated);
    }

    method FindCredential(t: CredentialType, identifier: string) returns (r: Result<Option<Credential>>)
      requires CoreValid()
      ensures r == Identity.FindCredential(CoreView(), t, identifier)
      ensures r.Ok?
      ensures r.value.Some? ==>
        var c := r.value.value;
        IdentityTheorems.Selected(CoreView(), t, identifier, c.id) && creds[c.id] == c
      ensures r.value.None? && IdentityTheorems.IndexComplete(CoreView()) ==>
        forall c :: !IdentityTheorems.Selected(CoreView(), t, identifier, c)
    {
      hide IdentityInvariants.Inv, IdentityTheorems.IndexComplete, IdentifierKey;
      IdentityTheorems.FoundIsSelected(CoreView(), t, identifier);
      IdentityTheorems.FindIsTheQueryExactlyWhenComplete(CoreView());
      var key := IdentifierKey(t, identifier);
      if key !in activeCred {
        return Ok(None);
      }
      var credId := activeCred[key];
      if credId !in creds {
        return Raise(NotFound);
      }
      return Ok(Some(creds[credId]));
    }

    method VerifyPassword(identifier: string, password: string) returns (r: Result<Verified>)
      requires CoreValid()
      ensures r == Identity.VerifyPassword(CoreView(), identifier, password)
      ensures r.Ok? ==>
        && IdentityTheorems.Opens(CoreView(), identifier, password, r.value.credId)
        && creds[r.value.credId].usrId == r.value.usrId
      ensures IdentityTheorems.IndexComplete(CoreView()) ==>
        (r.Ok? <==> exists c :: IdentityTheorems.Opens(CoreView(), identifier, password, c))
    {
      hide IdentityInvariants.Inv, IdentityTheorems.IndexComplete, IdentityTheorems.Opens, IdentifierKey, TooLong;
      IdentityTheorems.PasswordOpens(CoreView(), identifier, password);
      var key := IdentifierKey(Password, identifier);
      if key !in activeCred {
        // The dummy hash is verified too, and refuses a password that is too long.
        return Raise(if TooLong(password) then ValueError else InvalidCredential);
      }
      var credId := activeCred[key];
      if credId !in creds {
        return Raise(NotFound);
      }
      var c := creds[credId];
      if c.Type() != Password || credId !in passwordHashes {
        return Raise(InvalidCredential);
      }
      if TooLong(password) {
        return Raise(ValueError);
      }
      if passwordHashes[credId] != Argon2id(password) {
        return Raise(InvalidCredential);
      }
      return Ok(Verified(c.usrId, c.id));
    }

    // ----- Sessions -----

    method StoreSession(session: Session, token: string)
      modifies `sessions, `tokenHashes, `sessionByHash, `sesBirth, `issued
      ensures CoreView() == InsertSession(old(CoreView()), session, token)
    {
      var hash := Sha256(token);
      sessions := sessions[session.id := session];
      tokenHashes := tokenHashes[session.id := hash];
      sessionByHash := sessionByHash[hash := session.id];
      ghost var s := CoreView();
      sesBirth, issued := sesBirth[session.id := |sesBirth|], issued[token := session.id];
      assert CoreView() == s.(sesBirth := sesBirth, issued := issued);
    }

    method CreateSession(usrId: Id, credId: Id, ttlSeconds: int, newId: Id, token: string, now: Time)
      returns (r: Result<TokenResult>)
      requires CoreValid() && newId !in sessions && token !in issued
      modifies `sessions, `tokenHashes, `sessionByHash, `sesBirth, `issued
      ensures CoreValid()
      ensures Outcome(CoreView(), r) == Identity.CreateSession(old(CoreView()), usrId, credId, ttlSeconds, newId,
        token, now)
    {
      hide IdentityInvariants.Inv, InsertSession;
      IdentityOperations.CreateSessionKeeps(CoreView(), usrId, credId, ttlSeconds, newId, token, now);
      if usrId !in users {
        return Raise(NotFound);
      }
      if users[usrId].status != Active {
        return Raise(Precondition("user_not_active"));
      }
      if credId !in creds {
        return Raise(NotFound);
      }
      var c := creds[credId];
      if c.status != Active {
        return Raise(CredentialNotActive);
      }
      if c.usrId != usrId {
        return Raise(Precondition("cred_user_mismatch"));
      }
      if ttlSeconds < MIN_TTL_SECONDS {
        return Raise(Precondition("ttl_too_short"));
      }
      var session := Session(newId, usrId, credId, now, now + ttlSeconds * SECOND, None);
      StoreSession(session, token);
      return Ok(TokenResult(session, token));
    }

    method RefreshSession(sesId: Id, newId: Id, token: string, checkNow: Time,
                          now: Time) returns (r: Result<TokenResult>)
      requires CoreValid() && newId !in sessions && token !in issued
      modifies `sessions, `tokenHashes, `sessionByHash, `sesBirth, `issued, `refreshOf
      ensures CoreValid()
      ensures Outcome(CoreView(), r) == Identity.RefreshSession(old(CoreView()), sesId, newId, token, checkNow, now)
    {
      hide IdentityInvariants.Inv, InsertSession, RevokeSessions;
      IdentityOperations.RefreshSessionKeeps(CoreView(), sesId, newId, token, checkNow, now);
      if sesId !in sessions {
        return Raise(NotFound);
      }
      var session := sessions[sesId];
      if !session.IsLive() {
        return Raise(SessionExpired);
      }
      if checkNow > session.expiresAt {
        return Raise(SessionExpired);
      }
      RevokeStored(sesId, now);
      var renewed := Session(newId, session.usrId, session.credId, now, now + session.Ttl(), None);
      StoreSession(renewed, token);
      refreshOf := refreshOf[newId := sesId];
      assert CoreView() == Identity.RefreshSession(old(CoreView()), sesId, newId, token, checkNow, now).state;
      return Ok(TokenResult(renewed, token));
    }

    method RevokeSession(sesId: Id, now: Time) returns (r: Result<Session>)
      requires CoreValid()
      modifies `sessions, `tokenHashes, `sessionByHash
      ensures CoreValid()
      ensures Outcome(CoreView(), r) == Identity.RevokeSession(old(CoreView()), sesId, now)
      ensures r.Ok? ==>
        && sesId in old(sessions) && sesId in sessions && r.value == sessions[sesId]
        && sessions[sesId] == if old(sessions)[sesId].IsLive() then old(sessions)[sesId].(revokedAt := Some(now))
                              else old(sessions)[sesId]
    {
      hide IdentityInvariants.Inv, RevokeSessions;
      IdentityOperations.RevokeSessionKeeps(CoreView(), sesId, now);
      if sesId !in sessions {
        return Raise(NotFound);
      }
      var session := sessions[sesId];
      if !session.IsLive() {
        return Ok(session);
      }
      RevokeOneSession(CoreView(), sesId, now);
      RevokeStored(sesId, now);
      return Ok(session.(revokedAt := Some(now)));
    }

    method VerifySessionToken(token: string, now: Time) returns (r: Result<Session>)
      requires CoreValid()
      ensures r == Identity.VerifySessionToken(CoreView(), token, now)
      ensures r.Ok? <==>
        && token in issued && issued[token] in sessions
        && sessions[issued[token]].IsLive() && now <= sessions[issued[token]].expiresAt
      ensures r.Ok? ==> r.value == sessions[issued[token]]
      ensures r.Raise? ==>
        r.error == if token in issued && issued[token] in sessions
            && sessions[issued[token]].IsLive() then SessionExpired
                   else InvalidToken
    {
      IdentityTheorems.TokenListed(CoreView(), token);
      hide IdentityInvariants.Inv;
      var hash := Sha256(token);
      if hash !in sessionByHash {
        return Raise(InvalidToken);
      }
      var sesId := sessionByHash[hash];
      if sesId !in sessions {
        return Raise(NotFound);
      }
      var session := sessions[sesId];
      if sesId !in tokenHashes || tokenHashes[sesId] != hash {
        return Raise(InvalidToken);
      }
      if !session.IsLive() {
        return Raise(SessionExpired);
      }
      if now > session.expiresAt {
        return Raise(SessionExpired);
      }
      return Ok(session);
    }

    // ----- MFA factors -----

    method CheckUserActive(usrId: Id) returns (refused: Option<Error>)
      ensures refused == Mfa.CheckUserActive(users, usrId)
    {
      if usrId !in users {
        return Some(NotFound);
      }
      if users[usrId].status != Active {
        return Some(Precondition("user_not_active"));
      }
      return None;
    }

    method EnrollTotp(usrId: Id, identifier: string, secret: bytes, newId: Id,
                      now: Time) returns (r: Result<Mfa.Factor>)
      requires MfaValid() && newId !in factors
      modifies `factors, `totpSecrets
      ensures MfaValid()
      ensures Outcome(MfaView(), r) == Mfa.EnrollTotp(old(MfaView()), users, usrId, identifier, secret, newId, now)
    {
      hide MfaInvariants.Inv, Mfa.CheckUserActive, Mfa.TotpKey;
      MfaOperations.EnrollTotpKeeps(MfaView(), users, usrId, identifier, secret, newId, now);
      var refused := CheckUserActive(usrId);
      if refused.Some? {
        return Raise(refused.value);
      }
      if Mfa.TotpKey(usrId) in singleton {
        return Raise(Precondition("active_singleton_exists"));
      }
      var factor := Mfa.Factor(newId, usrId, Mfa.Pending, None, now, now, Mfa.TotpFactor(identifier));
      factors := factors[newId := factor];
      totpSecrets := totpSecrets[newId := secret];
      return Ok(factor);
    }

    /** The credential id is listed while the factor is still PENDING. */
    method EnrollWebAuthn(usrId: Id, identifier: string, registration: WebAuthn.Registration, newId: Id, now: Time)
      returns (r: Result<Mfa.Factor>)
      requires MfaValid() && newId !in factors
      modifies `factors, `webauthnKeys, `byCredentialId, `accepted
      ensures MfaValid()
      ensures Outcome(MfaView(), r) == Mfa.EnrollWebAuthn(old(MfaView()), users, usrId, identifier, registration,
        newId, now)
    {
      hide Totp.IsHmac, MfaInvariants.Inv, Mfa.CheckUserActive;
      MfaOperations.EnrollWebAuthnKeeps(MfaView(), users, usrId, identifier, registration, newId, now);
      var refused := CheckUserActive(usrId);
      if refused.Some? {
        return Raise(refused.value);
      }
      if identifier in byCredentialId {
        return Raise(Precondition("duplicate_webauthn_credential"));
      }
      var kind := Mfa.WebAuthnFactor(identifier, registration.rpId, registration.signCount);
      var factor := Mfa.Factor(newId, usrId, Mfa.Pending, None, now, now, kind);
      factors := factors[newId := factor];
      webauthnKeys := webauthnKeys[newId := registration.cosePublicKey];
      byCredentialId := byCredentialId[identifier := newId];
      accepted := accepted[newId := []];
      assert MfaView() == Mfa.EnrollWebAuthn(old(MfaView()), users, usrId, identifier, registration, newId, now).state;
      return Ok(factor);
    }

    method EnrollRecovery(usrId: Id, codes: seq<string>, newId: Id, now: Time) returns (r: Result<Mfa.Factor>)
      requires MfaValid() && newId !in factors
      requires |codes| == Recovery.CODE_COUNT && forall c :: c in codes ==> Recovery.IsValidCode(c)
      modifies `factors, `recoveryHashes, `recoveryConsumed, `singleton, `spent
      ensures MfaValid()
      ensures Outcome(MfaView(), r) == Mfa.EnrollRecovery(old(MfaView()), users, usrId, codes, newId, now)
    {
      hide Totp.IsHmac, MfaInvariants.Inv, Mfa.CheckUserActive, Mfa.RecoveryKey, Mfa.HashAll, Mfa.AllFalse;
      MfaOperations.EnrollRecoveryKeeps(MfaView(), users, usrId, codes, newId, now);
      var refused := CheckUserActive(usrId);
      if refused.Some? {
        return Raise(refused.value);
      }
      if Mfa.RecoveryKey(usrId) in singleton {
        return Raise(Precondition("active_singleton_exists"));
      }
      var factor := Mfa.Factor(newId, usrId, Mfa.Active, None, now, now, Mfa.RecoveryFactor(|codes|));
      factors := factors[newId := factor];
      recoveryHashes := recoveryHashes[newId := Mfa.HashAll(codes)];
      recoveryConsumed := recoveryConsumed[newId := Mfa.AllFalse(|codes|)];
      singleton := singleton[Mfa.RecoveryKey(usrId) := newId];
      spent := spent[newId := []];
      assert MfaView() == Mfa.EnrollRecovery(old(MfaView()), users, usrId, codes, newId, now).state;
      return Ok(factor);
    }

    /** The slot is taken over without asking who holds it. */
    method ConfirmTotp(mfaId: Id, code: string, ageNow: Time, codeNow: Time, now: Time) returns (r: Result<Mfa.Factor>)
      requires MfaValid()
      modifies `factors, `singleton
      ensures MfaValid()
      ensures Outcome(MfaView(), r) == Mfa.ConfirmTotp(old(MfaView()), env.hmac, mfaId, code, ageNow, codeNow, now)
    {
      hide MfaInvariants.Inv, Totp.IsHmac, Mfa.CheckTotp, Mfa.TotpKey, Mfa.IsExpiredPending;
      MfaOperations.ConfirmTotpKeeps(MfaView(), env.hmac, mfaId, code, ageNow, codeNow, now);
      if mfaId !in factors {
        return Raise(NotFound);
      }
      var factor := factors[mfaId];
      if !factor.kind.TotpFactor? {
        return Raise(CredentialTypeMismatch);
      }
      if factor.status != Mfa.Pending {
        return Raise(Precondition("factor_not_pending"));
      }
      if Mfa.IsExpiredPending(factor, ageNow) {
        return Raise(Precondition("pending_factor_expired"));
      }
      if mfaId !in totpSecrets {
        return Raise(KeyError);
      }
      var refused := Mfa.CheckTotp(env.hmac, totpSecrets[mfaId], code, codeNow);
      if refused.Some? {
        return Raise(refused.value);
      }
      var active := factor.(status := Mfa.Active, updatedAt := now);
      factors := factors[mfaId := active];
      singleton := singleton[Mfa.TotpKey(factor.usrId) := mfaId];
      return Ok(active);
    }

    method ConfirmWebAuthn(mfaId: Id, a: WebAuthn.Assertion, ageNow: Time, now: Time) returns (r: Result<Mfa.Factor>)
      requires MfaValid()
      modifies `factors, `accepted
      ensures MfaValid()
      ensures Outcome(MfaView(), r) == Mfa.ConfirmWebAuthn(old(MfaView()), env.lib, mfaId, a, ageNow, now)
      ensures r.Ok? ==>
        && mfaId in old(factors) && old(factors)[mfaId].kind.WebAuthnFactor? && r.value.kind.WebAuthnFactor?
        && var stored, n := old(factors)[mfaId].kind.signCount, r.value.kind.signCount;
           ((n == 0 && stored == 0) || n > stored)
    {
      hide MfaInvariants.Inv, WebAuthn.VerifyAssertion, Mfa.IsExpiredPending, Mfa.History;
      MfaOperations.ConfirmWebAuthnKeeps(MfaView(), env.lib, mfaId, a, ageNow, now);
      if mfaId !in factors {
        return Raise(NotFound);
      }
      var factor := factors[mfaId];
      if !factor.kind.WebAuthnFactor? {
        return Raise(CredentialTypeMismatch);
      }
      if factor.status != Mfa.Pending {
        return Raise(Precondition("factor_not_pending"));
      }
      if Mfa.IsExpiredPending(factor, ageNow) {
        return Raise(Precondition("pending_factor_expired"));
      }
      if mfaId !in webauthnKeys {
        return Raise(KeyError);
      }
      var registration := WebAuthn.Registration(webauthnKeys[mfaId], factor.kind.signCount, factor.kind.rpId);
      var count := WebAuthn.VerifyAssertion(env.lib, registration, a);
      if count.Raise? {
        return Raise(count.error);
      }
      WebAuthn.AcceptedCount(env.lib, registration, a);
      var active := factor.(status := Mfa.Active, updatedAt := now, kind := factor.kind.(signCount := count.value));
      factors := factors[mfaId := active];
      accepted := accepted[mfaId := Mfa.History(accepted, mfaId) + [count.value]];
      return Ok(active);
    }

    method DropFromIndexes(factor: Mfa.Factor)
      modifies `singleton, `byCredentialId
      ensures singleton == Mfa.WithoutSlot(old(singleton), factor)
      ensures byCredentialId == Mfa.WithoutListing(old(byCredentialId), factor)
    {
      hide Mfa.TotpKey, Mfa.RecoveryKey;
      match factor.kind {
        case TotpFactor(_) => singleton := singleton - {Mfa.TotpKey(factor.usrId)};
        case RecoveryFactor(_) => singleton := singleton - {Mfa.RecoveryKey(factor.usrId)};
        case WebAuthnFactor(identifier, _, _) => byCredentialId := byCredentialId - {identifier};
      }
    }

    method RevokeFactor(mfaId: Id, now: Time) returns (r: Result<Mfa.Factor>)
      requires MfaValid()
      modifies `factors, `singleton, `byCredentialId
      ensures MfaValid()
      ensures Outcome(MfaView(), r) == Mfa.RevokeFactor(old(MfaView()), mfaId, now)
    {
      hide Totp.IsHmac, MfaInvariants.Inv, Mfa.WithoutSlot, Mfa.WithoutListing;
      MfaOperations.RevokeFactorKeeps(MfaView(), mfaId, now);
      if mfaId !in factors {
        return Raise(NotFound);
      }
      var factor := factors[mfaId];
      if factor.status == Mfa.Revoked {
        return Ok(factor);
      }
      var revoked := factor.(status := Mfa.Revoked, updatedAt := now);
      factors := factors[mfaId := revoked];
      DropFromIndexes(factor);
      assert MfaView() == Mfa.RevokeFactor(old(MfaView()), mfaId, now).state;
      return Ok(revoked);
    }

    lemma AcceptedCodes(usrId: Id, code: string, now: Time)
      requires MfaValid()
      ensures forall f :: Mfa.VerifyTotp(MfaView(), env.hmac, usrId, code, now) == Ok(Mfa.Match(f, None)) <==>
        && MfaTheorems.IsTotpSlotOf(MfaView(), usrId, f)
        && f in totpSecrets && MfaTheorems.IsCurrentCode(env.hmac, totpSecrets[f], code, now)
    {
      hide MfaInvariants.Inv, Totp.IsHmac, Mfa.VerifyTotp, MfaTheorems.IsTotpSlotOf, MfaTheorems.IsCurrentCode;
      forall f
        ensures Mfa.VerifyTotp(MfaView(), env.hmac, usrId, code, now) == Ok(Mfa.Match(f, None)) <==>
          && MfaTheorems.IsTotpSlotOf(MfaView(), usrId, f)
          && f in totpSecrets && MfaTheorems.IsCurrentCode(env.hmac, totpSecrets[f], code, now)
      {
        MfaTheorems.TotpVerifiesExactly(MfaView(), env.hmac, usrId, code, now, Mfa.Match(f, None));
      }
    }

    /** Neither the factor nor its status is looked up. */
    method VerifyTotp(usrId: Id, code: string, now: Time) returns (r: Result<Mfa.Match>)
      requires MfaValid()
      ensures r == Mfa.VerifyTotp(MfaView(), env.hmac, usrId, code, now)
      ensures forall f :: r == Ok(Mfa.Match(f, None)) <==>
        && MfaTheorems.IsTotpSlotOf(MfaView(), usrId, f)
        && f in totpSecrets && MfaTheorems.IsCurrentCode(env.hmac, totpSecrets[f], code, now)
      ensures r.Ok? ==>
        var id := r.value.mfaId;
        id in factors && factors[id].kind.TotpFactor? && factors[id].status == Mfa.Active && factors[id].usrId == usrId
      ensures r != Raise(KeyError)
    {
      hide MfaInvariants.Inv, Totp.IsHmac, Mfa.CheckTotp, Mfa.TotpKey, MfaTheorems.IsCurrentCode;
      AcceptedCodes(usrId, code, now);
      MfaTheorems.VerifiedFactorIsActive(MfaView(), env.hmac, env.lib, usrId, Mfa.TotpProof(code), now);
      if Mfa.TotpKey(usrId) !in singleton {
        return Raise(InvalidCredential);
      }
      var mfaId := singleton[Mfa.TotpKey(usrId)];
      if mfaId !in totpSecrets {
        return Raise(KeyError);
      }
      var refused := Mfa.CheckTotp(env.hmac, totpSecrets[mfaId], code, now);
      if refused.Some? {
        return Raise(refused.value);
      }
      return Ok(Mfa.Match(mfaId, None));
    }

    method VerifyWebAuthn(usrId: Id, credentialId: string, a: WebAuthn.Assertion,
                          now: Time) returns (r: Result<Mfa.Match>)
      requires MfaValid()
      modifies `factors, `accepted
      ensures MfaValid()
      ensures Outcome(MfaView(), r) == Mfa.VerifyWebAuthn(old(MfaView()), env.lib, usrId, credentialId, a, now)
      ensures r != Raise(KeyError)
      ensures r.Ok? ==>
        && r.value.newSignCount.Some? && r.value.mfaId in old(factors) && r.value.mfaId in factors
        && var n, before, after := r.value.newSignCount.value, old(factors)[r.value.mfaId], factors[r.value.mfaId];
           && before.kind.WebAuthnFactor? && before.status == Mfa.Active && before.usrId == usrId
           && ((n == 0 && before.kind.signCount == 0) || n > before.kind.signCount)
           && after == before.(updatedAt := now, kind := before.kind.(signCount := n))
    {
      hide MfaInvariants.Inv, Totp.IsHmac, WebAuthn.VerifyAssertion, Mfa.History;
      MfaTheorems.VerifiedFactorIsActive(MfaView(), env.hmac, env.lib, usrId, Mfa.WebAuthnProof(credentialId, a), now);
      MfaOperations.VerifyWebAuthnKeeps(MfaView(), env.lib, usrId, credentialId, a, now);
      if credentialId !in byCredentialId {
        return Raise(InvalidCredential);
      }
      var mfaId := byCredentialId[credentialId];
      if mfaId !in factors {
        return Raise(KeyError);
      }
      var factor := factors[mfaId];
      if !factor.kind.WebAuthnFactor? || factor.usrId != usrId || factor.status != Mfa.Active {
        return Raise(InvalidCredential);
      }
      if mfaId !in webauthnKeys {
        return Raise(KeyError);
      }
      var registration := WebAuthn.Registration(webauthnKeys[mfaId], factor.kind.signCount, factor.kind.rpId);
      var count := WebAuthn.VerifyAssertion(env.lib, registration, a);
      if count.Raise? {
        return Raise(count.error);
      }
      WebAuthn.AcceptedCount(env.lib, registration, a);
      factors := factors[mfaId := factor.(updatedAt := now, kind := factor.kind.(signCount := count.value))];
      accepted := accepted[mfaId := Mfa.History(accepted, mfaId) + [count.value]];
      return Ok(Mfa.Match(mfaId, Some(count.value)));
    }

    /** Every slot is visited, whether or not an earlier one matched; the first match counts. */
    method MatchSlot(hashes: seq<PasswordHash>, consumed: seq<bool>, code: string) returns (matchedSlot: int)
      ensures var n := Min(|hashes|, |consumed|);
        matchedSlot == match Mfa.FirstMatch(hashes[..n], consumed[..n], code, 0) case None => -1 case Some(slot) => slot
    {
      var n := Min(|hashes|, |consumed|);
      matchedSlot := -1;
      for i := 0 to n
        invariant -1 <= matchedSlot < i
        invariant matchedSlot >= 0 ==> Mfa.Opens(hashes[..n], consumed[..n], code, matchedSlot)
        invariant forall j :: 0 <= j < i && (matchedSlot == -1 || j < matchedSlot) ==>
                    !Mfa.Opens(hashes[..n], consumed[..n], code, j)
      {
        if !consumed[i] && hashes[i] == Argon2id(code) && matchedSlot == -1 {
          matchedSlot := i;
        }
      }
    }

    method VerifyRecovery(usrId: Id, code: string, now: Time) returns (r: Result<Mfa.Match>)
      modifies `factors, `recoveryConsumed, `spent
      ensures Outcome(MfaView(), r) == Mfa.VerifyRecovery(old(MfaView()), usrId, code, now)
    {
      hide Recovery.Normalize, Recovery.IsValidCode, Mfa.RecoveryKey, Mfa.History, Mfa.CountFalse;
      if Mfa.RecoveryKey(usrId) !in singleton {
        return Raise(InvalidCredential);
      }
      var mfaId := singleton[Mfa.RecoveryKey(usrId)];
      var normalized := Recovery.Normalize(code);
      if !Recovery.IsValidCode(normalized) {
        return Raise(InvalidCredential);
      }
      if mfaId !in recoveryHashes || mfaId !in recoveryConsumed {
        return Raise(KeyError);
      }
      var consumed := recoveryConsumed[mfaId];
      var matchedSlot := MatchSlot(recoveryHashes[mfaId], consumed, normalized);
      if matchedSlot == -1 {
        return Raise(InvalidCredential);
      }
      consumed := consumed[matchedSlot := true];
      recoveryConsumed := recoveryConsumed[mfaId := consumed];
      spent := spent[mfaId := Mfa.History(spent, mfaId) + [normalized]];
      if mfaId !in factors {
        return Raise(KeyError);
      }
      var factor := factors[mfaId];
      if factor.kind.RecoveryFactor? {
        factors := factors[mfaId := factor.(updatedAt := now, kind := Mfa.RecoveryFactor(Mfa.CountFalse(consumed)))];
      }
      return Ok(Mfa.Match(mfaId, None));
    }

    method VerifyMfa(usrId: Id, proof: Mfa.Proof, now: Time) returns (r: Result<Mfa.Match>)
      requires MfaValid()
      modifies `factors, `recoveryConsumed, `spent, `accepted
      ensures MfaValid()
      ensures Outcome(MfaView(), r) == Mfa.VerifyMfa(old(MfaView()), env.hmac, env.lib, usrId, proof, now)
    {
      hide Totp.IsHmac, MfaInvariants.Inv, Mfa.VerifyTotp, Mfa.VerifyWebAuthn, Mfa.VerifyRecovery;
      Machine.VerifyMfaKeeps(env, MfaView(), usrId, proof, now);
      match proof {
        case TotpProof(code) => r := VerifyTotp(usrId, code, now);
        case WebAuthnProof(credentialId, a) => r := VerifyWebAuthn(usrId, credentialId, a, now);
        case RecoveryProof(code) => r := VerifyRecovery(usrId, code, now);
      }
    }

    // ----- Personal access tokens -----

    method CreatePat(usrId: Id, name: string, scope: seq<string>, expiresAt: Option<Time>, newId: Id, raw: bytes,
                     now: Time)
      returns (r: Result<Pats.Created>)
      requires PatsValid() && newId !in pats && PatToken.IsPatId(newId) && |raw| == PatToken.SECRET_BYTES
      modifies `pats, `secretHashes, `recorded
      ensures PatsValid()
      ensures Outcome(PatView(), r) == Pats.CreatePat(old(PatView()), users, usrId, name, scope, expiresAt, newId, raw,
        now)
    {
      hide PatInvariants.Inv, PatToken.Encode;
      PatInvariants.CreatePatKeeps(PatView(), users, usrId, name, scope, expiresAt, newId, raw, now);
      if usrId !in users {
        return Raise(NotFound);
      }
      if |name| < 1 || |name| > Pats.MAX_NAME_LENGTH {
        return Raise(Precondition("invalid_name"));
      }
      if expiresAt.Some? {
        if expiresAt.value <= now {
          return Raise(Precondition("expires_in_past"));
        }
        if expiresAt.value > now + Pats.MAX_LIFETIME_SECONDS * SECOND {
          return Raise(Precondition("expires_too_late"));
        }
      }
      var secret := PatToken.Encode(raw);
      var pat := Pats.Pat(newId, usrId, name, scope, Pats.Active, expiresAt, None, None, now, now);
      pats := pats[newId := pat];
      secretHashes := secretHashes[newId := Argon2id(secret)];
      recorded := recorded[newId := []];
      return Ok(Pats.Created(pat, PatToken.Token(newId, secret)));
    }

    method VerifyPatToken(token: string, now: Time) returns (r: Result<Pats.VerifiedPat>)
      requires PatsValid()
      modifies `pats, `lastUsedPersist, `recorded
      ensures PatsValid()
      ensures Outcome(PatView(), r) == Pats.VerifyPatToken(old(PatView()), token, now)
    {
      hide PatInvariants.Inv, PatToken.StructurallyValid, TooLong;
      PatInvariants.VerifyPatTokenKeeps(PatView(), token, now);
      if !PatToken.StructurallyValid(token) {
        return Raise(if TooLong(token) then ValueError else InvalidPatToken);
      }
      PatToken.StructurallyValidParts(token);
      var patId, secret := token[..36], token[37..];
      if |secret| > PatToken.MAX_SECRET_LENGTH {
        return Raise(InvalidPatToken);
      }
      if patId !in pats {
        return Raise(if TooLong(secret) then ValueError else InvalidPatToken);
      }
      var pat := pats[patId];
      if pat.revokedAt.Some? {
        return Raise(PatRevoked);
      }
      if pat.IsExpired(now) {
        return Raise(PatExpired);
      }
      if patId !in secretHashes {
        return Raise(KeyError);
      }
      if TooLong(secret) {
        return Raise(ValueError);
      }
      if secretHashes[patId] != Argon2id(secret) {
        return Raise(InvalidPatToken);
      }
      if patId !in lastUsedPersist || now - lastUsedPersist[patId] >= Pats.COALESCE_SECONDS * SECOND {
        pats := pats[patId := pat.(lastUsedAt := Some(now), updatedAt := now)];
        lastUsedPersist := lastUsedPersist[patId := now];
        recorded := recorded[patId := (if patId in recorded then recorded[patId] else []) + [now]];
      }
      return Ok(Pats.VerifiedPat(patId, pat.usrId, pat.scope));
    }

    method RevokePat(patId: Id, now: Time) returns (r: Result<Pats.Pat>)
      requires PatsValid()
      modifies `pats
      ensures PatsValid()
      ensures Outcome(PatView(), r) == Pats.RevokePat(old(PatView()), patId, now)
    {
      hide PatInvariants.Inv;
      PatInvariants.RevokePatKeeps(PatView(), patId, now);
      if patId !in pats {
        return Raise(NotFound);
      }
      var pat := pats[patId];
      if pat.revokedAt.Some? {
        return Ok(pat);
      }
      var revoked := pat.WithRevocation(now);
      pats := pats[patId := revoked];
      return Ok(revoked);
    }

    // ----- Listings -----

    /** Does some ACTIVE credential of the user contain the needle? */
    method FindHit(usrId: Id, needle: string) returns (hit: bool)
      ensures hit == Listings.HasHit(CoreView(), usrId, needle)
    {
      hide Listings.IsHit;
      hit := false;
      var todo := creds.Keys;
      while todo != {}
        invariant todo <= creds.Keys && !hit
        invariant forall c :: c in creds && c !in todo ==> !Listings.IsHit(creds[c], usrId, needle)
        decreases |todo|
      {
        var credId :| credId in todo;
        if Listings.IsHit(creds[credId], usrId, needle) {
          return true;
        }
        todo := todo - {credId};
      }
    }

    /** Index of the first item after the cursor. */
    method StartAfter(sorted: seq<Key>, cursor: Option<Id>) returns (start: nat)
      ensures start == FirstAfter(sorted, Listings.CursorKey(cursor), 0)
    {
      start := 0;
      if cursor.Some? {
        while start < |sorted| && !Less(Key(0, cursor.value), sorted[start])
          invariant start <= |sorted|
          invariant FirstAfter(sorted, Listings.CursorKey(cursor), start)
            == FirstAfter(sorted, Listings.CursorKey(cursor), 0)
        {
          start := start + 1;
        }
      }
    }

    method SelectUsers(query: Option<string>, status: Option<Status>) returns (matching: set<Id>)
      ensures matching == Listings.MatchingUsers(CoreView(), query, status)
    {
      hide Listings.HasHit;
      matching := {};
      var todo := users.Keys;
      while todo != {}
        invariant todo <= users.Keys
        invariant matching == Listings.MatchingUsers(CoreView(), query, status) - todo
        decreases |todo|
      {
        var usrId :| usrId in todo;
        todo := todo - {usrId};
        if status.Some? && users[usrId].status != status.value {
          continue;
        }
        if query.Some? {
          var hit := FindHit(usrId, Recovery.MapChars(Recovery.Lower, query.value));
          if !hit {
            continue;
          }
        }
        matching := matching + {usrId};
      }
    }

    method ListUsers(cursor: Option<Id>, limit: int, query: Option<string>, status: Option<Status>)
      returns (r: Listing<User>)
      requires IdentityInvariants.UsersKeyed(users)
      ensures Shows(r, Listings.ListUsers(CoreView(), cursor, limit, query, status), users.Values, UserKey)
    {
      hide Listings.MatchesUser, FirstAfter, Less, SlicePage, IsSorted;
      var matching := SelectUsers(query, status);
      var sorted := Sorted(Listings.UserKeys(matching));
      var start := StartAfter(sorted, cursor);
      var page := SlicePage(sorted, start, Listings.ClampLimit(limit));
      PageIsWithin(sorted, start, Listings.ClampLimit(limit));
      FetchShows(users, page, UserKey);
      r := Fetch(users, page);
    }

    method ListSessions(usrId: Id, cursor: Option<Id>, limit: int) returns (r: Listing<Session>)
      requires IdentityInvariants.SessionsKeyed(creds, sessions)
      ensures Shows(r, Listings.ListSessions(CoreView(), usrId, cursor, limit), sessions.Values, SessionKey)
    {
      hide FirstAfter, Less, SlicePage, IsSorted, Shows, Fetch, SessionKey, IdentityInvariants.SessionsKeyed;
      var matching := set i | i in sessions && sessions[i].usrId == usrId;
      assert matching == Listings.SessionsOfUser(CoreView(), usrId);
      SessionsListed(creds, sessions, usrId);
      var sorted := Sorted(Listings.UserKeys(matching));
      var start := StartAfter(sorted, cursor);
      var page := SlicePage(sorted, start, limit);
      PageIsWithin(sorted, start, limit);
      FetchShows(sessions, page, SessionKey);
      r := Fetch(sessions, page);
    }

    /** Index after the item with the cursor's id; an id that is not listed starts over. */
    method StartAfterEqual(sorted: seq<Key>, cursor: Id) returns (start: nat)
      ensures start == if cursor == "" then 0 else IndexAfterId(sorted, cursor, 0)
    {
      start := 0;
      if cursor != "" {
        var i := 0;
        while i < |sorted|
          invariant i <= |sorted|
          invariant IndexAfterId(sorted, cursor, i) == IndexAfterId(sorted, cursor, 0)
        {
          if sorted[i].id == cursor {
            return i + 1;
          }
          i := i + 1;
        }
      }
    }

    method ListPats(usrId: Id, cursor: Option<Id>, limit: int) returns (r: Result<Listing<Pats.Pat>>)
      requires PatInvariants.PatsKeyed(pats)
      ensures r.Raise? <==> usrId !in users
      ensures r.Raise? ==> r.error == NotFound
      ensures r.Ok? ==> Shows(r.value, Listings.ListPats(PatView(), usrId, cursor, limit), pats.Values, PatKey)
    {
      hide Less, SlicePage, IsSorted, IndexAfterId, Shows, Fetch, PatKey, PatInvariants.PatsKeyed;
      if usrId !in users {
        return Raise(NotFound);
      }
      var size := if limit <= 0 then 50 else limit;
      var matched := set p | p in pats && pats[p].usrId == usrId :: Key(pats[p].createdAt, p);
      assert matched == Listings.PatKeys(PatView(), usrId);
      PatsListed(pats, usrId);
      var sorted := Sorted(matched);
      var start := StartAfterEqual(sorted, if cursor.Some? then cursor.value else "");
      var page := SlicePage(sorted, start, size);
      PageIsWithin(sorted, start, size);
      FetchShows(pats, page, PatKey);
      return Ok(Fetch(pats, page));
    }

    // ----- Every operation is a step of the machine -----

    method PerformOnUser(op: Machine.Op, ghost s: Machine.State) returns (error: Option<Error>)
      requires s == View() && CoreValid() && PatsValid() && Machine.IsUserOp(op) && Machine.IsFresh(s, op)
      modifies `users, `creds, `passwordHashes, `passkeyKeys, `activeCred, `sessions, `tokenHashes, `sessionByHash,
               `credBirth, `sesBirth, `issued, `refreshOf, `pats
      ensures var r := Machine.UserStep(s, op);
        CoreView() == r.state.core && PatView() == r.state.pats && error == r.error
    {
      hide IdentityInvariants.Inv, PatInvariants.Inv, Identity.CreateUser, Identity.UpdateUser, Identity.SuspendUser,
           Identity.ReinstateUser, Identity.RevokeUser, Pats.RevokePatsOfUser;
      match op
      case CreateUser(displayName, newId, now) =>
        var r := CreateUser(displayName, newId, now);
        return ErrorOf(r);
      case UpdateUser(u, name, now) =>
        var r := UpdateUser(u, name, now);
        return ErrorOf(r);
      case SuspendUser(u, now, cascadeNow) =>
        var r := SuspendUser(u, now, cascadeNow);
        return ErrorOf(r);
      case ReinstateUser(u, now) =>
        var r := ReinstateUser(u, now);
        return ErrorOf(r);
      case RevokeUser(u, now, cascadeNow) =>
        var r := RevokeUser(u, now, cascadeNow);
        return ErrorOf(r);
    }

    method PerformOnCredential(op: Machine.Op, ghost s: Machine.State) returns (error: Option<Error>)
      requires s == View() && CoreValid() && Machine.IsCredentialOp(op) && Machine.IsFresh(s, op)
      modifies `users, `creds, `passwordHashes, `passkeyKeys, `activeCred, `sessions, `tokenHashes, `sessionByHash,
               `credBirth, `sesBirth, `issued, `refreshOf
      ensures var r := Machine.CredentialStep(s, op); CoreView() == r.state.core && error == r.error
    {
      hide IdentityInvariants.Inv, Identity.CreateCredential, Identity.RotateCredential, Identity.SuspendCredential,
           Identity.ReinstateCredential, Identity.RevokeCredential;
      match op
      case CreateCredential(u, identifier, m, newId, now) =>
        var r := CreateCredential(u, identifier, m, newId, now);
        return ErrorOf(r);
      case RotateCredential(c, m, newId, now, cascadeNow) =>
        var r := RotateCredential(c, m, newId, now, cascadeNow);
        return ErrorOf(r);
      case SuspendCredential(c, now, cascadeNow) =>
        var r := SuspendCredential(c, now, cascadeNow);
        return ErrorOf(r);
      case ReinstateCredential(c, now) =>
        var r := ReinstateCredential(c, now);
        return ErrorOf(r);
      case RevokeCredential(c, now, cascadeNow) =>
        var r := RevokeCredential(c, now, cascadeNow);
        return ErrorOf(r);
    }

    method PerformOnSession(op: Machine.Op, ghost s: Machine.State) returns (error: Option<Error>)
      requires s == View() && CoreValid() && Machine.IsSessionOp(op) && Machine.IsFresh(s, op)
      modifies `users, `creds, `passwordHashes, `passkeyKeys, `activeCred, `sessions, `tokenHashes, `sessionByHash,
               `credBirth, `sesBirth, `issued, `refreshOf
      ensures var r := Machine.SessionStep(s, op); CoreView() == r.state.core && error == r.error
    {
      hide IdentityInvariants.Inv, Identity.CreateSession, Identity.RefreshSession, Identity.RevokeSession;
      match op
      case CreateSession(u, c, ttlSeconds, newId, token, now) =>
        var r := CreateSession(u, c, ttlSeconds, newId, token, now);
        return ErrorOf(r);
      case RefreshSession(i, newId, token, checkNow, now) =>
        var r := RefreshSession(i, newId, token, checkNow, now);
        return ErrorOf(r);
      case RevokeSession(i, now) =>
        var r := RevokeSession(i, now);
        return ErrorOf(r);
    }

    method PerformEnrollment(op: Machine.Op, ghost s: Machine.State) returns (error: Option<Error>)
      requires s == View() && MfaValid() && Machine.IsFresh(s, op)
      requires op.EnrollTotp? || op.EnrollWebAuthn? || op.EnrollRecovery?
      modifies `factors, `totpSecrets, `webauthnKeys, `recoveryHashes, `recoveryConsumed, `singleton, `byCredentialId,
               `spent, `accepted
      ensures var r := Machine.MfaStep(env, s, op); MfaView() == r.state.mfa && error == r.error
    {
      hide MfaInvariants.Inv, Totp.IsHmac, Mfa.EnrollTotp, Mfa.EnrollWebAuthn, Mfa.EnrollRecovery, Mfa.ConfirmTotp,
           Mfa.ConfirmWebAuthn, Mfa.RevokeFactor, Mfa.VerifyMfa, Recovery.IsValidCode;
      match op
      case EnrollTotp(u, identifier, secret, newId, now) =>
        var r := EnrollTotp(u, identifier, secret, newId, now);
        return ErrorOf(r);
      case EnrollWebAuthn(u, identifier, registration, newId, now) =>
        var r := EnrollWebAuthn(u, identifier, registration, newId, now);
        return ErrorOf(r);
      case EnrollRecovery(u, codes, newId, now) =>
        var r := EnrollRecovery(u, codes, newId, now);
        return ErrorOf(r);
    }

    method PerformOnFactor(op: Machine.Op, ghost s: Machine.State) returns (error: Option<Error>)
      requires s == View() && MfaValid() && (op.ConfirmTotp? || op.ConfirmWebAuthn? || op.RevokeFactor?
        || op.VerifyMfa?)
      modifies `factors, `totpSecrets, `webauthnKeys, `recoveryHashes, `recoveryConsumed, `singleton, `byCredentialId,
               `spent, `accepted
      ensures var r := Machine.MfaStep(env, s, op); MfaView() == r.state.mfa && error == r.error
    {
      hide MfaInvariants.Inv, Totp.IsHmac, Mfa.EnrollTotp, Mfa.EnrollWebAuthn, Mfa.EnrollRecovery, Mfa.ConfirmTotp,
           Mfa.ConfirmWebAuthn, Mfa.RevokeFactor, Mfa.VerifyMfa;
      match op
      case ConfirmTotp(f, code, ageNow, codeNow, now) =>
        var r := ConfirmTotp(f, code, ageNow, codeNow, now);
        return ErrorOf(r);
      case ConfirmWebAuthn(f, a, ageNow, now) =>
        var r := ConfirmWebAuthn(f, a, ageNow, now);
        return ErrorOf(r);
      case RevokeFactor(f, now) =>
        var r := RevokeFactor(f, now);
        return ErrorOf(r);
      case VerifyMfa(u, proof, now) =>
        var r := VerifyMfa(u, proof, now);
        return ErrorOf(r);
    }

    method PerformOnPat(op: Machine.Op, ghost s: Machine.State) returns (error: Option<Error>)
      requires s == View() && PatsValid() && Machine.IsPatOp(op) && Machine.IsFresh(s, op)
      modifies `pats, `secretHashes, `lastUsedPersist, `recorded
      ensures var r := Machine.PatStep(s, op); PatView() == r.state.pats && error == r.error
    {
      hide PatInvariants.Inv, Pats.CreatePat, Pats.VerifyPatToken, Pats.RevokePat, PatToken.IsPatId;
      match op
      case CreatePat(u, name, scope, expiresAt, newId, raw, now) =>
        var r := CreatePat(u, name, scope, expiresAt, newId, raw, now);
        return ErrorOf(r);
      case VerifyPatToken(token, now) =>
        var r := VerifyPatToken(token, now);
        return ErrorOf(r);
      case RevokePat(p, now) =>
        var r := RevokePat(p, now);
        return ErrorOf(r);
    }

    method PerformOnCore(op: Machine.Op, ghost s: Machine.State) returns (error: Option<Error>)
      requires s == View() && CoreValid() && PatsValid() && Machine.IsEnv(env) && Machine.IsFresh(s, op)
      requires Machine.IsUserOp(op) || Machine.IsCredentialOp(op) || Machine.IsSessionOp(op)
      modifies `users, `creds, `passwordHashes, `passkeyKeys, `activeCred, `sessions, `tokenHashes, `sessionByHash,
               `credBirth, `sesBirth, `issued, `refreshOf, `pats
      ensures var r := Machine.Step(env, s, op);
        CoreView() == r.state.core && PatView() == r.state.pats && error == r.error
    {
      hide Machine.IsFresh, Machine.Step, Machine.UserStep, Machine.CredentialStep, Machine.SessionStep,
           Machine.MfaStep, Machine.PatStep, IdentityInvariants.Inv, MfaInvariants.Inv, PatInvariants.Inv, Totp.IsHmac;
      Machine.StepIsCoreStep(env, s, op);
      if Machine.IsUserOp(op) {
        error := PerformOnUser(op, s);
      } else if Machine.IsCredentialOp(op) {
        error := PerformOnCredential(op, s);
      } else {
        error := PerformOnSession(op, s);
      }
    }

    method PerformOnMfa(op: Machine.Op, ghost s: Machine.State) returns (error: Option<Error>)
      requires s == View() && MfaValid() && Machine.IsMfaOp(op) && Machine.IsFresh(s, op)
      modifies `factors, `totpSecrets, `webauthnKeys, `recoveryHashes, `recoveryConsumed, `singleton, `byCredentialId,
               `spent, `accepted
      ensures var r := Machine.Step(env, s, op); MfaView() == r.state.mfa && error == r.error
    {
      hide Machine.IsFresh, Machine.Step, Machine.UserStep, Machine.CredentialStep, Machine.SessionStep,
           Machine.MfaStep, Machine.PatStep, IdentityInvariants.Inv, MfaInvariants.Inv, PatInvariants.Inv, Totp.IsHmac;
      Machine.StepIsMfaStep(env, s, op);
      if op.EnrollTotp? || op.EnrollWebAuthn? || op.EnrollRecovery? {
        error := PerformEnrollment(op, s);
      } else {
        error := PerformOnFactor(op, s);
      }
    }

    // The same with what stays as it was.

    method StepCore(op: Machine.Op, ghost s: Machine.State) returns (error: Option<Error>)
      requires s == View() && CoreValid() && PatsValid() && Machine.IsEnv(env) && Machine.IsFresh(s, op)
      requires Machine.IsUserOp(op) || Machine.IsCredentialOp(op) || Machine.IsSessionOp(op)
      modifies this
      ensures var r := Machine.Step(env, s, op);
        CoreView() == r.state.core && MfaView() == r.state.mfa && PatView() == r.state.pats && error == r.error
    {
      hide Machine.IsFresh, Machine.Step, Machine.UserStep, Machine.CredentialStep, Machine.SessionStep,
           Machine.MfaStep, Machine.PatStep, IdentityInvariants.Inv, MfaInvariants.Inv, PatInvariants.Inv, Totp.IsHmac;
      Machine.StepIsCoreStep(env, s, op);
      error := PerformOnCore(op, s);
      assert unchanged(`factors, `totpSecrets, `webauthnKeys, `recoveryHashes, `recoveryConsumed, `singleton,
                       `byCredentialId, `spent, `accepted);
    }

    method StepMfa(op: Machine.Op, ghost s: Machine.State) returns (error: Option<Error>)
      requires s == View() && MfaValid() && Machine.IsMfaOp(op) && Machine.IsFresh(s, op)
      modifies this
      ensures var r := Machine.Step(env, s, op);
        CoreView() == r.state.core && MfaView() == r.state.mfa && PatView() == r.state.pats && error == r.error
    {
      hide Machine.IsFresh, Machine.Step, Machine.UserStep, Machine.CredentialStep, Machine.SessionStep,
           Machine.MfaStep, Machine.PatStep, IdentityInvariants.Inv, MfaInvariants.Inv, PatInvariants.Inv, Totp.IsHmac;
      Machine.StepIsMfaStep(env, s, op);
      error := PerformOnMfa(op, s);
      assert unchanged(`users, `creds, `passwordHashes, `passkeyKeys, `activeCred, `sessions, `tokenHashes,
                       `sessionByHash, `credBirth, `sesBirth, `issued, `refreshOf);
      assert unchanged(`pats, `secretHashes, `lastUsedPersist, `recorded);
    }

    method StepPats(op: Machine.Op, ghost s: Machine.State) returns (error: Option<Error>)
      requires s == View() && PatsValid() && Machine.IsEnv(env) && Machine.IsPatOp(op) && Machine.IsFresh(s, op)
      modifies this
      ensures var r := Machine.Step(env, s, op);
        CoreView() == r.state.core && MfaView() == r.state.mfa && PatView() == r.state.pats && error == r.error
    {
      hide Machine.IsFresh, Machine.Step, Machine.UserStep, Machine.CredentialStep, Machine.SessionStep,
           Machine.MfaStep, Machine.PatStep, IdentityInvariants.Inv, MfaInvariants.Inv, PatInvariants.Inv, Totp.IsHmac;
      Machine.StepIsPatStep(env, s, op);
      error := PerformOnPat(op, s);
      assert CoreView() == s.core && MfaView() == s.mfa;
    }

    method Dispatch(op: Machine.Op, ghost s: Machine.State) returns (error: Option<Error>)
      requires s == View() && CoreValid() && MfaValid() && PatsValid() && Machine.IsEnv(env) && Machine.IsFresh(s, op)
      modifies this
      ensures var r := Machine.Step(env, s, op);
        CoreView() == r.state.core && MfaView() == r.state.mfa && PatView() == r.state.pats && error == r.error
    {
      hide Machine.IsFresh, Machine.Step, IdentityInvariants.Inv, MfaInvariants.Inv, PatInvariants.Inv, Totp.IsHmac;
      if Machine.IsMfaOp(op) {
        error := StepMfa(op, s);
      } else if Machine.IsPatOp(op) {
        error := StepPats(op, s);
      } else {
        error := StepCore(op, s);
      }
    }

    /** Whatever operation a caller performs, the store takes the step of the machine. */
    method Perform(op: Machine.Op) returns (error: Option<Error>)
      requires Valid() && Machine.IsFresh(View(), op)
      modifies this
      ensures Valid()
      ensures Machine.Result(View(), error) == Machine.Step(env, old(View()), op)
    {
      hide Machine.IsFresh, Machine.Step, IdentityInvariants.Inv, MfaInvariants.Inv, PatInvariants.Inv, Totp.IsHmac;
      ghost var s := View();
      Machine.StepKeeps(env, s, op);
      error := Dispatch(op, s);
    }

    /** And whatever sequence of operations, a run of it. */
    method PerformAll(ops: seq<Machine.Op>)
      requires Valid() && Machine.IsFreshRun(env, View(), ops)
      modifies this
      ensures Valid()
      ensures View() == Machine.Run(env, old(View()), ops)
    {
      hide Machine.IsFresh, Machine.Step, IdentityInvariants.Inv, MfaInvariants.Inv, PatInvariants.Inv, Totp.IsHmac;
      var i := 0;
      while i < |ops|
        invariant i <= |ops| && Valid()
        invariant Machine.IsFreshRun(env, View(), ops[i..])
        invariant Machine.Run(env, View(), ops[i..]) == Machine.Run(env, old(View()), ops)
      {
        assert ops[i..][1..] == ops[i + 1..];
        var _ := Perform(ops[i]);
        i := i + 1;
      }
      assert ops[i..] == [];
    }
  }
}
