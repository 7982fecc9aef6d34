/** When the identifier index stays complete: operation by operation, and the one that breaks it
    with the exact condition. */
module IndexTheorems {
  import opened Prelude
  import opened Identity
  import opened IdentityInvariants
  import opened IdentityTheorems

  // ----- Completeness of the index, operation by operation -----

  /** Taking the key of a credential out of the index with the credential itself. */
  lemma RetireKeepsComplete(s: Core, s': Core, c: Id, status: Status, now: Time)
    requires IndexComplete(s) && c in s.creds && status != Active
    requires s'.creds == s.creds[c := s.creds[c].WithStatus(status, now)]
    requires s'.activeCred == s.activeCred - {s.creds[c].Key()}
    requires s.creds[c].status == Active || s.creds[c].Key() !in s.activeCred
    ensures IndexComplete(s')
  {
    forall d | d in s'.creds && s'.creds[d].status == Active
      ensures InIndex(s', d)
    {
      assert d != c && InIndex(s, d);
      assert s.creds[c].status == Active ==> InIndex(s, c);
    }
  }

  /** Revoking a SUSPENDED credential whose key is in the index drops the entry of another,
      ACTIVE, credential: it stays ACTIVE, but the index no longer finds it. */
  lemma ForeignEntryIsDropped(s: Core, c: Id, now: Time, cascadeNow: Time)
    requires Inv(s) && c in s.creds && s.creds[c].status == Suspended && s.creds[c].Key() in s.activeCred
    ensures var s' := RevokeCredential(s, c, now, cascadeNow).state;
      var d := s.activeCred[s.creds[c].Key()];
      && !IndexComplete(s')
      && Selected(s', s.creds[c].Type(), s.creds[c].identifier, d)
      && FindCredential(s', s.creds[c].Type(), s.creds[c].identifier) == Ok(None)
  {
    var key := s.creds[c].Key();
    var d := s.activeCred[key];
    assert Indexed(s.creds, key, d);
    IdentifierKeyIsInjective(s.creds[c].Type(), s.creds[c].identifier, s.creds[d].Type(), s.creds[d].identifier);
    hide Inv, IdentifierKey, Stamped, HashesOf, LiveSessionsOfCredential;
    var s' := RevokeCredential(s, c, now, cascadeNow).state;
    assert s'.creds[d] == s.creds[d] && key !in s'.activeCred;
    assert !InIndex(s', d);
  }

  lemma RetiredState(s: Core, c: Id, status: Status, now: Time, cascadeNow: Time)
    requires c in s.creds
    ensures var s' := RetireCredential(s, c, status, now, cascadeNow);
      && s'.creds == s.creds[c := s.creds[c].WithStatus(status, now)]
      && s'.activeCred == s.activeCred - {s.creds[c].Key()}
  {
  }

  lemma SuspendKeepsComplete(s: Core, c: Id, now: Time, cascadeNow: Time)
    requires IndexComplete(s)
    ensures IndexComplete(SuspendCredential(s, c, now, cascadeNow).state)
  {
    hide IndexComplete, RetireCredential;
    if c in s.creds && s.creds[c].status == Active {
      RetiredState(s, c, Suspended, now, cascadeNow);
      RetireKeepsComplete(s, RetireCredential(s, c, Suspended, now, cascadeNow), c, Suspended, now);
    }
  }

  /** `revoke_credential` keeps the index complete exactly when it does not hit a SUSPENDED
      credential whose key another credential holds. */
  lemma RevokeKeepsCompleteExactly(s: Core, c: Id, now: Time, cascadeNow: Time)
    requires Inv(s) && IndexComplete(s)
    ensures IndexComplete(RevokeCredential(s, c, now, cascadeNow).state)
       <==> !(c in s.creds && s.creds[c].status == Suspended && s.creds[c].Key() in s.activeCred)
  {
    hide Inv, IndexComplete, RetireCredential;
    if c in s.creds && s.creds[c].status != Revoked {
      if s.creds[c].status == Suspended && s.creds[c].Key() in s.activeCred {
        ForeignEntryIsDropped(s, c, now, cascadeNow);
      } else {
        RetiredState(s, c, Revoked, now, cascadeNow);
        RetireKeepsComplete(s, RetireCredential(s, c, Revoked, now, cascadeNow), c, Revoked, now);
      }
    }
  }

  /** Adding an ACTIVE credential under a key no ACTIVE credential has. */
  lemma InsertKeepsComplete(s: Core, s': Core, c: Credential)
    requires IndexComplete(s) && c.Key() !in s.activeCred && c.status == Active
    requires s'.creds == s.creds[c.id := c] && s'.activeCred == s.activeCred[c.Key() := c.id]
    ensures IndexComplete(s')
  {
    forall d | d in s'.creds && s'.creds[d].status == Active
      ensures InIndex(s', d)
    {
      assert d != c.id ==> InIndex(s, d);
    }
  }

  lemma CreateKeepsComplete(s: Core, u: Id, identifier: string, m: Material, newId: Id, now: Time)
    requires IndexComplete(s)
    ensures IndexComplete(CreateCredential(s, u, identifier, m, newId, now).state)
  {
    hide IndexComplete, IdentifierKey, TooLong;
    var o := CreateCredential(s, u, identifier, m, newId, now);
    if o.result.Ok? {
      InsertKeepsComplete(s, o.state, o.result.value);
    }
  }

  lemma ReinstateKeepsComplete(s: Core, c: Id, now: Time)
    requires Inv(s) && IndexComplete(s)
    ensures IndexComplete(ReinstateCredential(s, c, now).state)
  {
    CredentialsKeyed(s);
    hide Inv, IndexComplete, IdentifierKey;
    var o := ReinstateCredential(s, c, now);
    if o.result.Ok? {
      InsertKeepsComplete(s, o.state, o.result.value);
    }
  }

  lemma RotateKeepsComplete(s: Core, c: Id, m: Material, newId: Id, now: Time, cascadeNow: Time)
    requires IndexComplete(s) && newId !in s.creds
    ensures IndexComplete(RotateCredential(s, c, m, newId, now, cascadeNow).state)
  {
    hide IndexComplete, IdentifierKey, TooLong, RetireCredential;
    if c in s.creds && s.creds[c].status == Active && s.creds[c].Type() == m.Type() {
      var s1 := RetireForRotation(s, c, now, cascadeNow);
      RetiredState(s, c, Revoked, now, cascadeNow);
      RetireKeepsComplete(s, s1, c, Revoked, now);
      if !m.IsTooLong() {
        var d := Credential(newId, s.creds[c].usrId, s.creds[c].identifier, Active, Some(c), m.Details(), now, now);
        InsertKeepsComplete(s1, InsertCredential(s1, d, m), d);
      }
    }
  }

  lemma RevokeUserKeepsComplete(s: Core, u: Id, now: Time, cascadeNow: Time)
    requires IndexComplete(s)
    ensures IndexComplete(RevokeUser(s, u, now, cascadeNow).state)
  {
    if u in s.users && s.users[u].status != Revoked {
      var ids := ActiveCredentialsOfUser(s, u);
      RevokedUserState(s, u, now, cascadeNow);
      hide ActiveCredentialsOfUser, RevokeUser;
      var s1, s' := RevokeCredentials(s, ids, now), RevokeUser(s, u, now, cascadeNow).state;
      forall c | c in s'.creds && s'.creds[c].status == Active
        ensures InIndex(s', c)
      {
        ManyRevokedKeepEntry(s, ids, c, now);
      }
    }
  }

  lemma RevokedUserState(s: Core, u: Id, now: Time, cascadeNow: Time)
    requires u in s.users && s.users[u].status != Revoked
    ensures var s', s1 := RevokeUser(s, u, now, cascadeNow).state,
      RevokeCredentials(s, ActiveCredentialsOfUser(s, u), now);
      && s'.creds == s1.creds && s'.activeCred == s1.activeCred
      && s'.users == s.users[u := s.users[u].(status := Revoked, updatedAt := now)]
    ensures forall c :: c in ActiveCredentialsOfUser(s, u) ==> c in s.creds && s.creds[c].status == Active
  {
    hide Stamped, HashesOf, LiveSessionsOfUser;
  }

  lemma ManyRevokedKeepEntry(s: Core, ids: set<Id>, c: Id, now: Time)
    requires IndexComplete(s) && forall d :: d in ids ==> d in s.creds && s.creds[d].status == Active
    requires c in s.creds && RevokeCredentials(s, ids, now).creds[c].status == Active
    ensures InIndex(RevokeCredentials(s, ids, now), c)
  {
    assert c !in ids && InIndex(s, c);
    forall d | d in ids
      ensures s.creds[d].Key() != s.creds[c].Key()
    {
      assert InIndex(s, d);
    }
  }

  // ----- What session cascades leave alone -----

  lemma SuspendUserFrame(s: Core, u: Id, now: Time, cascadeNow: Time)
    ensures var t := SuspendUser(s, u, now, cascadeNow).state;
      && t.creds == s.creds && t.activeCred == s.activeCred
      && (t.users == s.users || (u in s.users && s.users[u].status == Active
            && t.users == s.users[u := s.users[u].(status := Suspended, updatedAt := now)]))
  {
    hide RevokeSessions, LiveSessionsOfUser;
    if u in s.users && s.users[u].status == Active {
      RevokeSessionsFrame(WithUserStatus(s, u, Suspended, now), LiveSessionsOfUser(s, u), cascadeNow);
    }
  }

  lemma RevokeSessionsFrame(s: Core, ids: set<Id>, now: Time)
    ensures var t := RevokeSessions(s, ids, now);
      t.creds == s.creds && t.activeCred == s.activeCred && t.users == s.users
  {
    hide Stamped, HashesOf;
  }

  lemma CreateSessionFrame(s: Core, u: Id, c: Id, ttl: int, newId: Id, token: string, now: Time)
    ensures var t := CreateSession(s, u, c, ttl, newId, token, now).state;
      t.creds == s.creds && t.activeCred == s.activeCred && t.users == s.users
  {
    hide InsertSession;
    var o := CreateSession(s, u, c, ttl, newId, token, now);
    if o.result.Ok? {
      InsertSessionFrame(s, o.result.value.session, token);
    }
  }

  lemma InsertSessionFrame(s: Core, ses: Session, token: string)
    ensures var t := InsertSession(s, ses, token);
      t.creds == s.creds && t.activeCred == s.activeCred && t.users == s.users
  {
  }

  lemma RefreshSessionFrame(s: Core, i: Id, newId: Id, token: string, checkNow: Time, now: Time)
    ensures var t := RefreshSession(s, i, newId, token, checkNow, now).state;
      t.creds == s.creds && t.activeCred == s.activeCred && t.users == s.users
  {
    hide RevokeSessions;
    if i in s.sessions {
      RevokeSessionsFrame(s, {i}, now);
    }
  }

  lemma RevokeSessionFrame(s: Core, i: Id, now: Time)
    ensures var t := RevokeSession(s, i, now).state;
      t.creds == s.creds && t.activeCred == s.activeCred && t.users == s.users
  {
    hide RevokeSessions;
    if i in s.sessions {
      RevokeSessionsFrame(s, {i}, now);
    }
  }

  lemma RetireFrame(s: Core, c: Id, status: Status, now: Time, cascadeNow: Time)
    requires c in s.creds
    ensures var t := RetireCredential(s, c, status, now, cascadeNow);
      t.creds == s.creds[c := s.creds[c].WithStatus(status, now)] && t.users == s.users
  {
    hide Stamped, HashesOf, LiveSessionsOfCredential;
  }
}
