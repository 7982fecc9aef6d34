/** Every operation on users, credentials and sessions keeps the invariant and undoes nothing. */
module IdentityOperations {
  import opened Prelude
  import opened Identity
  import opened IdentityInvariants

  // ----- Users -----

  lemma CreateUserKeeps(s: Core, displayName: Option<string>, newId: Id, now: Time)
    requires Inv(s) && newId !in s.users
    ensures var s' := CreateUser(s, displayName, newId, now).state;
      Inv(s') && Evolves(s, s')
  {
    hide Inv, Evolves;
    UserChangeKeeps(s, User(newId, Active, now, now, displayName));
  }

  lemma UsersWithLiveSessionsAreActive(s: Core, u: Id)
    requires Inv(s) && u in s.users && s.users[u].status != Active
    ensures s.users[u].id == u
    ensures forall i :: i in s.sessions && s.sessions[i].usrId == u ==> !s.sessions[i].IsLive()
  {
    forall i | i in s.sessions && s.sessions[i].usrId == u
      ensures !s.sessions[i].IsLive()
    {
      assert s.sessions[i].IsLive() ==> Backed(s.users, s.creds, s.sessions[i]);
    }
  }

  lemma UserKeyed(s: Core, u: Id)
    requires Inv(s) && u in s.users
    ensures s.users[u].id == u
  {
  }

  lemma EvolvesIsReflexive(s: Core)
    ensures Evolves(s, s)
  {
  }

  lemma UpdateUserKeeps(s: Core, u: Id, name: Option<Option<string>>, now: Time)
    requires Inv(s)
    ensures var s' := UpdateUser(s, u, name, now).state;
      Inv(s') && Evolves(s, s')
  {
    hide Inv, Evolves;
    EvolvesIsReflexive(s);
    if u in s.users && s.users[u].status != Revoked && name.Some? {
      UserKeyed(s, u);
      if s.users[u].status != Active {
        UsersWithLiveSessionsAreActive(s, u);
      }
      UserChangeKeeps(s, s.users[u].(displayName := name.value, updatedAt := now));
    }
  }

  /** Revoking the sessions first and changing the status second is the same change. */
  lemma CascadeThenStatusKeeps(s: Core, u: Id, status: Status, now: Time, cascadeNow: Time)
    requires Inv(s) && u in s.users && s.users[u].status != Revoked
    ensures var s1 := RevokeSessions(s, LiveSessionsOfUser(s, u), cascadeNow);
      Inv(WithUserStatus(s1, u, status, now)) && Evolves(s, WithUserStatus(s1, u, status, now))
  {
    hide Inv, Evolves, LiveSessionsOfUser, Stamped, AreLive;
    var ids := LiveSessionsOfUser(s, u);
    var s1 := RevokeSessions(s, ids, cascadeNow);
    SessionsOfUserRevoked(s, u, cascadeNow);
    RevokeSessionsKeeps(s, ids, cascadeNow);
    UserKeyed(s, u);
    UserChangeKeeps(s1, s1.users[u].(status := status, updatedAt := now));
    EvolvesIsTransitive(s, s1, WithUserStatus(s1, u, status, now));
  }

  lemma SuspendUserKeeps(s: Core, u: Id, now: Time, cascadeNow: Time)
    requires Inv(s)
    ensures var s' := SuspendUser(s, u, now, cascadeNow).state;
      Inv(s') && Evolves(s, s')
  {
    hide Inv, Evolves, LiveSessionsOfUser;
    EvolvesIsReflexive(s);
    if u in s.users && s.users[u].status == Active {
      CascadeThenStatusKeeps(s, u, Suspended, now, cascadeNow);
    }
  }

  lemma ReinstateUserKeeps(s: Core, u: Id, now: Time)
    requires Inv(s)
    ensures var s' := ReinstateUser(s, u, now).state;
      Inv(s') && Evolves(s, s')
  {
    hide Inv, Evolves;
    EvolvesIsReflexive(s);
    if u in s.users && s.users[u].status == Suspended {
      UserKeyed(s, u);
      UserChangeKeeps(s, s.users[u].(status := Active, updatedAt := now));
    }
  }

  ghost predicate ActiveAndUnused(s: Core, ids: set<Id>) {
    forall c :: c in ids ==> c in s.creds && s.creds[c].status == Active && NoLiveSessions(s.sessions, c)
  }

  lemma RevokedCredsEvolve(s: Core, ids: set<Id>, now: Time)
    requires ActiveAndUnused(s, ids)
    ensures var creds' := RevokeCredentials(s, ids, now).creds;
      creds'.Keys == s.creds.Keys && CredsEvolve(s.creds, creds')
  {
  }

  lemma IndexAfterRevokingMany(s: Core, ids: set<Id>, now: Time)
    requires IndexSound(s.creds, s.activeCred)
    ensures var s' := RevokeCredentials(s, ids, now);
      IndexSound(s'.creds, s'.activeCred)
  {
    var s' := RevokeCredentials(s, ids, now);
    forall k | k in s'.activeCred
      ensures Indexed(s'.creds, k, s'.activeCred[k])
    {
      assert Indexed(s.creds, k, s.activeCred[k]);
    }
  }

  lemma BackedAfterRevokingMany(s: Core, ids: set<Id>, now: Time)
    requires LiveSessionsBacked(s.users, s.creds, s.sessions) && ActiveAndUnused(s, ids)
    ensures LiveSessionsBacked(s.users, RevokeCredentials(s, ids, now).creds, s.sessions)
  {
    var creds' := RevokeCredentials(s, ids, now).creds;
    forall i | i in s.sessions && s.sessions[i].IsLive()
      ensures Backed(s.users, creds', s.sessions[i])
    {
      assert Backed(s.users, s.creds, s.sessions[i]);
    }
  }

  lemma RevokeCredentialsKeeps(s: Core, ids: set<Id>, now: Time)
    requires Inv(s) && ActiveAndUnused(s, ids)
    ensures Inv(RevokeCredentials(s, ids, now)) && Evolves(s, RevokeCredentials(s, ids, now))
  {
    hide UsersKeyed, CredsKeyed, SessionsKeyed, LiveSessionsBacked, TokenMaps, TokensIssued, IndexSound, SecretsPresent,
         ReplacesLinks, RefreshLinks, CredsEvolve, ActiveAndUnused;
    var s' := RevokeCredentials(s, ids, now);
    RevokedCredsEvolve(s, ids, now);
    RestatusKeeps(s.users, s.creds, s'.creds, s.sessions, s.credBirth);
    SecretsAfterRestatus(s.creds, s'.creds, s.passwordHashes, s.passkeyKeys);
    IndexAfterRevokingMany(s, ids, now);
    BackedAfterRevokingMany(s, ids, now);
  }

  lemma CredentialsOfUserUnused(s: Core, u: Id, now: Time)
    requires Inv(s)
    ensures ActiveAndUnused(RevokeSessions(s, LiveSessionsOfUser(s, u), now), ActiveCredentialsOfUser(s, u))
  {
    var s1 := RevokeSessions(s, LiveSessionsOfUser(s, u), now);
    forall c, i | c in ActiveCredentialsOfUser(s, u) && i in s1.sessions && s1.sessions[i].credId == c
      ensures !s1.sessions[i].IsLive()
    {
      assert SessionKeyed(s.creds, i, s.sessions[i]);
    }
  }

  lemma RevokeUserKeeps(s: Core, u: Id, now: Time, cascadeNow: Time)
    requires Inv(s)
    ensures var s' := RevokeUser(s, u, now, cascadeNow).state;
      Inv(s') && Evolves(s, s')
  {
    hide Inv, Evolves, LiveSessionsOfUser, ActiveCredentialsOfUser, ActiveAndUnused, AreLive, Stamped;
    EvolvesIsReflexive(s);
    if u in s.users && s.users[u].status != Revoked {
      var ids, creds := LiveSessionsOfUser(s, u), ActiveCredentialsOfUser(s, u);
      var s1 := RevokeSessions(s, ids, cascadeNow);
      var s2 := RevokeCredentials(s1, creds, now);
      var s3 := WithUserStatus(s2, u, Revoked, now);
      SessionsOfUserRevoked(s, u, cascadeNow);
      RevokeSessionsKeeps(s, ids, cascadeNow);
      CredentialsOfUserUnused(s, u, cascadeNow);
      RevokeCredentialsKeeps(s1, creds, now);
      UserKeyed(s, u);
      UserChangeKeeps(s2, s3.users[u]);
      EvolvesIsTransitive(s, s1, s2);
      EvolvesIsTransitive(s, s2, s3);
    }
  }

  // ----- Credentials -----

  lemma CreateCredentialKeeps(s: Core, u: Id, identifier: string, m: Material, newId: Id, now: Time)
    requires Inv(s) && newId !in s.creds
    ensures var s' := CreateCredential(s, u, identifier, m, newId, now).state;
      Inv(s') && Evolves(s, s')
  {
    hide Inv, Evolves;
    EvolvesIsReflexive(s);
    if CreateCredential(s, u, identifier, m, newId, now).result.Ok? {
      InsertCredentialKeeps(s, Credential(newId, u, identifier, Active, None, m.Details(), now, now), m);
    }
  }

  lemma SuspendCredentialKeeps(s: Core, c: Id, now: Time, cascadeNow: Time)
    requires Inv(s)
    ensures var s' := SuspendCredential(s, c, now, cascadeNow).state;
      Inv(s') && Evolves(s, s')
  {
    hide Inv, Evolves, RetireCredential;
    EvolvesIsReflexive(s);
    if c in s.creds && s.creds[c].status == Active {
      RetireCredentialKeeps(s, c, Suspended, now, cascadeNow);
    }
  }

  lemma RevokeCredentialKeeps(s: Core, c: Id, now: Time, cascadeNow: Time)
    requires Inv(s)
    ensures var s' := RevokeCredential(s, c, now, cascadeNow).state;
      Inv(s') && Evolves(s, s')
  {
    hide Inv, Evolves, RetireCredential;
    EvolvesIsReflexive(s);
    if c in s.creds && s.creds[c].status != Revoked {
      RetireCredentialKeeps(s, c, Revoked, now, cascadeNow);
    }
  }

  lemma InactiveCredentialUnused(s: Core, c: Id)
    requires Inv(s) && c in s.creds && s.creds[c].status != Active
    ensures NoLiveSessions(s.sessions, c)
  {
    forall i | i in s.sessions && s.sessions[i].credId == c
      ensures !s.sessions[i].IsLive()
    {
      assert s.sessions[i].IsLive() ==> Backed(s.users, s.creds, s.sessions[i]);
    }
  }

  lemma IndexEntryAddedKeeps(s: Core, k: string, c: Id)
    requires Inv(s) && Indexed(s.creds, k, c)
    ensures Inv(s.(activeCred := s.activeCred[k := c])) && Evolves(s, s.(activeCred := s.activeCred[k := c]))
  {
    hide UsersKeyed, CredsKeyed, SessionsKeyed, LiveSessionsBacked, TokenMaps, TokensIssued, SecretsPresent,
         ReplacesLinks, RefreshLinks, Indexed;
  }

  lemma ReinstateCredentialKeeps(s: Core, c: Id, now: Time)
    requires Inv(s)
    ensures var s' := ReinstateCredential(s, c, now).state;
      Inv(s') && Evolves(s, s')
  {
    hide Inv, Evolves, NoLiveSessions;
    EvolvesIsReflexive(s);
    if ReinstateCredential(s, c, now).result.Ok? {
      var k := s.creds[c].Key();
      InactiveCredentialUnused(s, c);
      RestatusUnusedKeeps(s, c, Active, now);
      assert s.activeCred - {k} == s.activeCred;
      var s1 := s.(creds := s.creds[c := s.creds[c].WithStatus(Active, now)]);
      IndexEntryAddedKeeps(s1, k, c);
      EvolvesIsTransitive(s, s1, ReinstateCredential(s, c, now).state);
    }
  }

  lemma SecretsDropped(s: Core, c: Id, passwords: map<Id, PasswordHash>, keys: map<Id, bytes>)
    requires Inv(s) && c in s.creds && s.creds[c].status == Revoked
    requires passwords == s.passwordHashes || passwords == s.passwordHashes - {c}
    requires keys == s.passkeyKeys || keys == s.passkeyKeys - {c}
    ensures var s' := s.(passwordHashes := passwords, passkeyKeys := keys);
      Inv(s') && Evolves(s, s')
  {
    hide UsersKeyed, CredsKeyed, SessionsKeyed, LiveSessionsBacked, TokenMaps, TokensIssued, IndexSound, ReplacesLinks,
         RefreshLinks;
  }

  lemma RetireForRotationKeeps(s: Core, c: Id, now: Time, cascadeNow: Time)
    requires Inv(s) && c in s.creds && s.creds[c].status == Active
    ensures var s' := RetireForRotation(s, c, now, cascadeNow);
      Inv(s') && Evolves(s, s')
  {
    hide Inv, Evolves;
    RetireCredentialKeeps(s, c, Revoked, now, cascadeNow);
    var s1, s2 := RetireCredential(s, c, Revoked, now, cascadeNow), RetireForRotation(s, c, now, cascadeNow);
    SecretsDropped(s1, c, s2.passwordHashes, s2.passkeyKeys);
    EvolvesIsTransitive(s, s1, s2);
  }

  /** What is ACTIVE has not been replaced. */
  lemma ActiveIsUnreplaced(s: Core, c: Id)
    requires Inv(s) && c in s.creds && s.creds[c].status != Revoked
    ensures s.creds[c].usrId in s.users && s.creds[c].id == c
    ensures forall d :: d in s.creds ==> s.creds[d].replacesId != Some(c)
  {
    forall d | d in s.creds
      ensures s.creds[d].replacesId != Some(c)
    {
      assert s.creds[d].replacesId.Some? ==> LinkKeeps(s.creds, s.creds[d], s.creds[d].replacesId.value);
    }
  }

  lemma RotatedMayReplace(s: Core, c: Id, successor: Credential, now: Time, cascadeNow: Time)
    requires Inv(s) && c in s.creds && s.creds[c].status == Active
    requires successor.replacesId == Some(c) && successor.usrId == s.creds[c].usrId
    requires successor.Type() == s.creds[c].Type() && successor.identifier == s.creds[c].identifier
    ensures MayReplace(RetireForRotation(s, c, now, cascadeNow).creds, successor)
  {
    hide Inv, RetireForRotation;
    RetiredCreds(s, c, now, cascadeNow);
    ActiveIsUnreplaced(s, c);
  }

  lemma RetiredCreds(s: Core, c: Id, now: Time, cascadeNow: Time)
    requires c in s.creds
    ensures RetireForRotation(s, c, now, cascadeNow).creds == s.creds[c := s.creds[c].WithStatus(Revoked, now)]
  {
  }

  lemma RotateCredentialKeeps(s: Core, c: Id, m: Material, newId: Id, now: Time, cascadeNow: Time)
    requires Inv(s) && newId !in s.creds
    ensures var s' := RotateCredential(s, c, m, newId, now, cascadeNow).state;
      Inv(s') && Evolves(s, s')
  {
    hide Inv, Evolves, MayReplace;
    EvolvesIsReflexive(s);
    if c in s.creds && s.creds[c].status == Active && s.creds[c].Type() == m.Type() {
      RetireForRotationKeeps(s, c, now, cascadeNow);
      if !m.IsTooLong() {
        var s1 := RetireForRotation(s, c, now, cascadeNow);
        var successor := Credential(newId, s.creds[c].usrId, s.creds[c].identifier, Active, Some(c), m.Details(), now,
            now);
        RotatedMayReplace(s, c, successor, now, cascadeNow);
        ActiveIsUnreplaced(s, c);
        InsertCredentialKeeps(s1, successor, m);
        EvolvesIsTransitive(s, s1, InsertCredential(s1, successor, m));
      }
    }
  }

  // ----- Sessions -----

  lemma CreateSessionKeeps(s: Core, u: Id, c: Id, ttl: int, newId: Id, token: string, now: Time)
    requires Inv(s) && newId !in s.sessions && token !in s.issued
    ensures var s' := CreateSession(s, u, c, ttl, newId, token, now).state;
      Inv(s') && Evolves(s, s')
  {
    hide Inv, Evolves;
    EvolvesIsReflexive(s);
    if CreateSession(s, u, c, ttl, newId, token, now).result.Ok? {
      InsertSessionKeeps(s, Session(newId, u, c, now, now + ttl * SECOND, None), token);
    }
  }

  lemma RevokeSessionKeeps(s: Core, i: Id, now: Time)
    requires Inv(s)
    ensures var s' := RevokeSession(s, i, now).state;
      Inv(s') && Evolves(s, s')
  {
    hide Inv, Evolves, Stamped;
    EvolvesIsReflexive(s);
    if i in s.sessions && s.sessions[i].IsLive() {
      RevokeSessionsKeeps(s, {i}, now);
    }
  }

  lemma LiveSession(s: Core, i: Id)
    requires Inv(s) && i in s.sessions && s.sessions[i].IsLive()
    ensures SessionKeyed(s.creds, i, s.sessions[i]) && Backed(s.users, s.creds, s.sessions[i])
    ensures forall j :: j in s.refreshOf ==> s.refreshOf[j] != i
  {
    forall j | j in s.refreshOf
      ensures s.refreshOf[j] != i
    {
      assert RefreshKeeps(s.sessions, s.sessions[j], s.refreshOf[j]);
    }
  }

  lemma RefreshLinkAddedKeeps(s: Core, newId: Id, p: Id)
    requires Inv(s) && newId in s.sessions && p in s.sessions && newId !in s.refreshOf
    requires s.sesBirth.Keys == s.sessions.Keys && s.sesBirth[p] < s.sesBirth[newId]
    requires RefreshKeeps(s.sessions, s.sessions[newId], p)
    requires forall j :: j in s.refreshOf ==> s.refreshOf[j] != p
    ensures Inv(s.(refreshOf := s.refreshOf[newId := p]))
  {
    hide UsersKeyed, CredsKeyed, SessionsKeyed, LiveSessionsBacked, TokenMaps, TokensIssued, IndexSound, SecretsPresent,
         ReplacesLinks, RefreshLinks, RefreshKeeps;
    RefreshLinked(s.sessions, s.sesBirth, s.refreshOf, newId, p);
  }

  lemma SessionsAreBorn(s: Core)
    requires Inv(s)
    ensures BornInOrder(s.sessions.Keys, s.sesBirth)
    ensures forall i :: i in s.refreshOf ==> i in s.sessions
  {
  }

  lemma RefreshSessionKeeps(s: Core, i: Id, newId: Id, token: string, checkNow: Time, now: Time)
    requires Inv(s) && newId !in s.sessions && token !in s.issued
    ensures var s' := RefreshSession(s, i, newId, token, checkNow, now).state;
      Inv(s') && Evolves(s, s')
  {
    hide Inv, Evolves, Stamped, HashesOf, RevokeSessions, InsertSession;
    EvolvesIsReflexive(s);
    if RefreshSession(s, i, newId, token, checkNow, now).result.Ok? {
      RefreshedKeeps(s, i, newId, token, now);
    }
  }

  function Refreshed(s: Core, i: Id, newId: Id, now: Time): Session
    requires i in s.sessions
  {
    Session(newId, s.sessions[i].usrId, s.sessions[i].credId, now, now + s.sessions[i].Ttl(), None)
  }

  lemma RefreshedIsBacked(s: Core, i: Id, newId: Id, now: Time)
    requires Inv(s) && i in s.sessions && s.sessions[i].IsLive()
    ensures var ses := Refreshed(s, i, newId, now);
      SessionKeyed(s.creds, newId, ses) && Backed(s.users, s.creds, ses)
  {
    hide Inv;
    LiveSession(s, i);
  }

  lemma RefreshedIssued(s: Core, i: Id, newId: Id, token: string, now: Time)
    requires Inv(s) && newId !in s.sessions && token !in s.issued
    requires i in s.sessions && s.sessions[i].IsLive()
    ensures var s1 := RevokeSessions(s, {i}, now);
      var s2 := InsertSession(s1, Refreshed(s, i, newId, now), token);
      && Inv(s1) && Inv(s2) && Evolves(s, s2)
      && s1.sessions == s.sessions[i := s.sessions[i].(revokedAt := Some(now))]
  {
    hide Inv, Evolves, Stamped, SessionKeyed, Backed, HashesOf;
    var s1 := RevokeSessions(s, {i}, now);
    RefreshedIsBacked(s, i, newId, now);
    RevokeSessionsKeeps(s, {i}, now);
    StampedOne(s.sessions, i, now);
    InsertSessionKeeps(s1, Refreshed(s, i, newId, now), token);
    EvolvesIsTransitive(s, s1, InsertSession(s1, Refreshed(s, i, newId, now), token));
  }

  lemma RefreshedKeeps(s: Core, i: Id, newId: Id, token: string, now: Time)
    requires Inv(s) && newId !in s.sessions && token !in s.issued
    requires i in s.sessions && s.sessions[i].IsLive()
    ensures var s2 := InsertSession(RevokeSessions(s, {i}, now), Refreshed(s, i, newId, now), token);
      var s' := s2.(refreshOf := s2.refreshOf[newId := i]);
      Inv(s') && Evolves(s, s')
  {
    hide Inv, Evolves, Stamped;
    var s1 := RevokeSessions(s, {i}, now);
    var s2 := InsertSession(s1, Refreshed(s, i, newId, now), token);
    LiveSession(s, i);
    RefreshedIssued(s, i, newId, token, now);
    SessionsAreBorn(s1);
    SessionsAreBorn(s2);
    SessionsAreBorn(s);
    RefreshLinkAddedKeeps(s2, newId, i);
    RefreshLinkEvolves(s, s2, newId, i);
  }

  lemma StampedOne(sessions: Sessions, i: Id, now: Time)
    requires i in sessions
    ensures Stamped(sessions, {i}, now) == sessions[i := sessions[i].(revokedAt := Some(now))]
  {
  }

  lemma RefreshLinkEvolves(s: Core, s2: Core, newId: Id, p: Id)
    requires Evolves(s, s2) && newId !in s.sessions && newId !in s.refreshOf
    ensures Evolves(s, s2.(refreshOf := s2.refreshOf[newId := p]))
  {
    hide UsersEvolve, CredsEvolve, SessionsEvolve;
  }
}
