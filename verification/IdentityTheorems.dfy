/** What the invariant buys: which tokens and passwords verify, that refresh chains and
    `replaces` lineages are linear, and when the identifier index is a scan. */
module IdentityTheorems {
  import opened Prelude
  import opened Identity
  import opened IdentityInvariants
  import IdentityOperations
  import Lineage

  // ----- Session tokens -----

  /** A token is accepted exactly for the session it was issued for, while that session is
      unrevoked and not past its expiry. */
  lemma TokenVerifiesExactly(s: Core, token: string, now: Time, ses: Session)
    requires Inv(s)
    ensures VerifySessionToken(s, token, now) == Ok(ses)
       <==> token in s.issued && s.issued[token] in s.sessions && s.sessions[s.issued[token]] == ses
            && ses.IsLive() && now <= ses.expiresAt
  {
    TokenListed(s, token);
    hide Inv;
  }

  /** What `verify_session_token` does with any string: it depends on whether it is the token of an
      unrevoked session, and then on the expiry of that session. */
  lemma TokenOutcome(s: Core, token: string, now: Time)
    requires Inv(s)
    ensures VerifySessionToken(s, token, now)
         == if !(token in s.issued && s.issued[token] in s.sessions && s.sessions[s.issued[token]].revokedAt.None?)
            then Raise(InvalidToken)
            else if now > s.sessions[s.issued[token]].expiresAt then Raise(SessionExpired)
            else Ok(s.sessions[s.issued[token]])
  {
    hide Inv;
    TokenListed(s, token);
  }

  /** `revoke_session` stamps the session, kills its token at every time and leaves every other token
      as it was. */
  lemma RevocationKillsTheToken(s: Core, i: Id, token: string, now: Time, other: string, later: Time)
    requires Inv(s) && i in s.sessions && token in s.issued && s.issued[token] == i && other != token
    ensures var s', ses := RevokeSession(s, i, now).state, s.sessions[i];
      && i in s'.sessions
      && s'.sessions[i] == (if ses.revokedAt.None? then ses.(revokedAt := Some(now)) else ses)
      && VerifySessionToken(s', token, later) == Raise(InvalidToken)
      && VerifySessionToken(s', other, later) == VerifySessionToken(s, other, later)
  {
    hide Inv, VerifySessionToken;
    if other in s.issued {
      OneTokenPerSession(s, token, other);
    }
    IdentityOperations.RevokeSessionKeeps(s, i, now);
    RevokedSession(s, i, now);
    var s' := RevokeSession(s, i, now).state;
    TokenOutcome(s', token, later);
    TokenOutcome(s', other, later);
    TokenOutcome(s, other, later);
  }

  lemma OneTokenPerSession(s: Core, token: string, other: string)
    requires Inv(s) && token in s.issued && other in s.issued && token != other
    ensures s.issued[token] != s.issued[other]
  {
    hide UsersKeyed, CredsKeyed, SessionsKeyed, LiveSessionsBacked, TokenMaps, IndexSound, SecretsPresent,
         ReplacesLinks, RefreshLinks;
  }

  lemma RevokedSession(s: Core, i: Id, now: Time)
    requires i in s.sessions
    ensures var s', ses := RevokeSession(s, i, now).state, s.sessions[i];
      && s'.sessions == (if ses.revokedAt.None? then s.sessions[i := ses.(revokedAt := Some(now))] else s.sessions)
      && s'.issued == s.issued
  {
    hide HashesOf;
    assert s.sessions[i].IsLive() ==>
      Stamped(s.sessions, {i}, now) == s.sessions[i := s.sessions[i].(revokedAt := Some(now))];
  }

  /** A token is listed exactly while its session is unrevoked; so the lookups after the first
      one never fail, and the "revoked" branch of the verification is never taken. */
  lemma TokenListed(s: Core, token: string)
    requires Inv(s)
    ensures Sha256(token) in s.sessionByHash
       <==> token in s.issued && s.issued[token] in s.sessions && s.sessions[s.issued[token]].IsLive()
    ensures Sha256(token) in s.sessionByHash ==>
      && s.sessionByHash[Sha256(token)] == s.issued[token]
      && s.issued[token] in s.tokenHashes && s.tokenHashes[s.issued[token]] == Sha256(token)
      && s.sessions[s.issued[token]].IsLive()
  {
    hide UsersKeyed, CredsKeyed, SessionsKeyed, LiveSessionsBacked, IndexSound, SecretsPresent, ReplacesLinks,
         RefreshLinks;
    if Sha256(token) in s.sessionByHash {
      assert s.tokenHashes[s.sessionByHash[Sha256(token)]] == Sha256(token);
    }
    if token in s.issued && s.issued[token] in s.sessions && s.sessions[s.issued[token]].IsLive() {
      var i := s.issued[token];
      assert s.tokenHashes[i].token == token;
      assert s.tokenHashes[i] == Sha256(token);
    }
  }

  /** The Postgres store finds the row by its token hash, whether or not it is revoked. */
  function VerifyTokenByScan(s: Core, token: string, now: Time): Result<Session> {
    if token !in s.issued || s.issued[token] !in s.sessions then Raise(InvalidToken)
    else if !s.sessions[s.issued[token]].IsLive() then Raise(SessionExpired)
    else if now > s.sessions[s.issued[token]].expiresAt then Raise(SessionExpired)
    else Ok(s.sessions[s.issued[token]])
  }

  /** Both stores accept the same tokens for the same sessions; what they raise differs for
      exactly the tokens of revoked sessions. */
  lemma BothStoresVerifyAlikeExactly(s: Core, token: string, now: Time)
    requires Inv(s)
    ensures var memory, scan := VerifySessionToken(s, token, now), VerifyTokenByScan(s, token, now);
      && (memory.Ok? <==> scan.Ok?)
      && (memory == scan
          <==> !(token in s.issued && s.issued[token] in s.sessions && !s.sessions[s.issued[token]].IsLive()))
  {
    hide Inv;
    TokenListed(s, token);
    if Sha256(token) in s.sessionByHash {
      assert VerifyTokenByScan(s, token, now) == VerifySessionToken(s, token, now);
    } else {
      assert VerifySessionToken(s, token, now) == Raise(InvalidToken);
    }
  }

  /** Once its session is revoked a token is dead in every later state, at every time. */
  lemma DeadTokensStayDead(s: Core, later: Core, token: string, now: Time)
    requires Inv(s) && Inv(later) && Evolves(s, later)
    requires token in s.issued && s.issued[token] in s.sessions && !s.sessions[s.issued[token]].IsLive()
    ensures VerifySessionToken(later, token, now) == Raise(InvalidToken)
  {
    hide Inv;
    TokenListed(later, token);
  }

  /** In no state does a session of a REVOKED user or credential verify, and both are REVOKED
      forever: the cascades leave nothing behind and nothing can bring it back. */
  lemma RevokedOwnersHaveNoLiveSessions(s: Core, later: Core, i: Id)
    requires Inv(s) && Inv(later) && Evolves(s, later) && i in later.sessions
    requires (later.sessions[i].usrId in s.users && s.users[later.sessions[i].usrId].status == Revoked)
          || (later.sessions[i].credId in s.creds && s.creds[later.sessions[i].credId].status == Revoked)
    ensures !later.sessions[i].IsLive()
  {
    hide UsersKeyed, CredsKeyed, SessionsKeyed, TokenMaps, TokensIssued, IndexSound, SecretsPresent, ReplacesLinks,
         RefreshLinks;
    assert later.sessions[i].IsLive() ==> Backed(later.users, later.creds, later.sessions[i]);
  }

  // ----- Refresh chains -----

  /** Along a chain user, credential and time to live are those of its first session. */
  lemma {:induction false} ChainIsConstant(s: Core, i: Id)
    requires Inv(s) && i in s.sessions
    ensures Lineage.Forest(s.refreshOf, s.sesBirth) && i in s.sesBirth
    ensures var r := Lineage.Root(s.refreshOf, s.sesBirth, i);
      && r in s.sessions
      && s.sessions[r].usrId == s.sessions[i].usrId && s.sessions[r].credId == s.sessions[i].credId
      && s.sessions[r].Ttl() == s.sessions[i].Ttl() >= MIN_TTL_SECONDS * SECOND
    decreases if i in s.sesBirth then s.sesBirth[i] else 0
  {
    ChainLink(s, i);
    hide Inv, RefreshLinks;
    if i in s.refreshOf {
      ChainIsConstant(s, s.refreshOf[i]);
    }
  }

  lemma ChainLink(s: Core, i: Id)
    requires Inv(s) && i in s.sessions
    ensures Lineage.Forest(s.refreshOf, s.sesBirth) && s.sesBirth.Keys == s.sessions.Keys
    ensures s.sessions[i].Ttl() >= MIN_TTL_SECONDS * SECOND
    ensures i in s.refreshOf ==> RefreshKeeps(s.sessions, s.sessions[i], s.refreshOf[i])
  {
    hide RefreshKeeps, UsersKeyed, CredsKeyed, LiveSessionsBacked, TokenMaps, TokensIssued, IndexSound, SecretsPresent,
         ReplacesLinks;
    assert SessionKeyed(s.creds, i, s.sessions[i]);
  }

  /** A chain has one unrevoked session at most. */
  lemma OneLiveSessionPerChain(s: Core, i: Id, j: Id)
    requires Inv(s) && i in s.sessions && j in s.sessions && s.sessions[i].IsLive() && s.sessions[j].IsLive()
    ensures Lineage.Forest(s.refreshOf, s.sesBirth) && i in s.sesBirth && j in s.sesBirth
    ensures Lineage.Root(s.refreshOf, s.sesBirth, i) == Lineage.Root(s.refreshOf, s.sesBirth, j) ==> i == j
  {
    ChainLink(s, i);
    ChainLink(s, j);
    LiveIsUnrefreshed(s, i);
    LiveIsUnrefreshed(s, j);
    hide Inv, Lineage.Forest;
    if Lineage.Root(s.refreshOf, s.sesBirth, i) == Lineage.Root(s.refreshOf, s.sesBirth, j) {
      Lineage.OneUnreplacedRecord(s.refreshOf, s.sesBirth, i, j);
    }
  }

  lemma LiveIsUnrefreshed(s: Core, i: Id)
    requires Inv(s) && i in s.sessions && s.sessions[i].IsLive()
    ensures i !in s.refreshOf.Values
  {
    hide UsersKeyed, CredsKeyed, SessionsKeyed, LiveSessionsBacked, TokenMaps, TokensIssued, IndexSound, SecretsPresent,
         ReplacesLinks;
    forall j | j in s.refreshOf
      ensures s.refreshOf[j] != i
    {
      assert RefreshKeeps(s.sessions, s.sessions[j], s.refreshOf[j]);
    }
  }

  /** A session is refreshed at most once: afterwards, in every later state, refreshing it
      raises SessionExpired and issues nothing. */
  lemma RefreshedOnce(s: Core, later: Core, i: Id, newId: Id, token: string, checkNow: Time, now: Time)
    requires Inv(s) && Evolves(s, later) && i in s.refreshOf.Values
    ensures RefreshSession(later, i, newId, token, checkNow, now) == Outcome(later, Raise(SessionExpired))
  {
    hide UsersKeyed, CredsKeyed, SessionsKeyed, LiveSessionsBacked, TokenMaps, TokensIssued, IndexSound, SecretsPresent,
         ReplacesLinks, Lineage.Forest;
    var j :| j in s.refreshOf && s.refreshOf[j] == i;
    assert RefreshKeeps(s.sessions, s.sessions[j], i);
  }

  /** Why `refresh_session` may ignore user and credential: those of a session it accepts are
      ACTIVE, so what it issues `create_session` would have issued too. */
  lemma RefreshIsAsCautiousAsCreate(s: Core, i: Id, newId: Id, token: string, checkNow: Time, now: Time)
    requires Inv(s) && RefreshSession(s, i, newId, token, checkNow, now).result.Ok?
    ensures i in s.sessions
    ensures var ses := s.sessions[i];
      forall ttl: int :: ttl >= MIN_TTL_SECONDS ==>
        CreateSession(s, ses.usrId, ses.credId, ttl, newId, token, now).result.Ok?
  {
    hide UsersKeyed, CredsKeyed, TokenMaps, TokensIssued, IndexSound, SecretsPresent, ReplacesLinks, RefreshLinks;
    assert Backed(s.users, s.creds, s.sessions[i]) && SessionKeyed(s.creds, i, s.sessions[i]);
  }

  // ----- Rotation lineages -----

  /** Along a lineage user, type and identifier are those of its first credential. */
  lemma {:induction false} LineageIsConstant(s: Core, c: Id)
    requires Inv(s) && c in s.creds
    ensures Lineage.Forest(Predecessors(s.creds), s.credBirth) && c in s.credBirth
    ensures var r := Lineage.Root(Predecessors(s.creds), s.credBirth, c);
      && r in s.creds && s.creds[r].replacesId == None
      && s.creds[r].usrId == s.creds[c].usrId && s.creds[r].Type() == s.creds[c].Type()
      && s.creds[r].identifier == s.creds[c].identifier
    decreases if c in s.credBirth then s.credBirth[c] else 0
  {
    LineageLink(s, c);
    hide Inv;
    if s.creds[c].replacesId.Some? {
      assert c in Predecessors(s.creds) && Predecessors(s.creds)[c] == s.creds[c].replacesId.value;
      LineageIsConstant(s, s.creds[c].replacesId.value);
    }
  }

  lemma LineageLink(s: Core, c: Id)
    requires Inv(s) && c in s.creds
    ensures Lineage.Forest(Predecessors(s.creds), s.credBirth) && s.credBirth.Keys == s.creds.Keys
    ensures s.creds[c].replacesId.Some? ==> LinkKeeps(s.creds, s.creds[c], s.creds[c].replacesId.value)
  {
    hide LinkKeeps, UsersKeyed, CredsKeyed, SessionsKeyed, LiveSessionsBacked, TokenMaps, TokensIssued, IndexSound,
         SecretsPresent, RefreshLinks;
  }

  /** A lineage has one member at most that is not REVOKED. */
  lemma OneUnrevokedCredentialPerLineage(s: Core, c: Id, d: Id)
    requires Inv(s) && c in s.creds && d in s.creds && s.creds[c].status != Revoked && s.creds[d].status != Revoked
    ensures Lineage.Forest(Predecessors(s.creds), s.credBirth) && c in s.credBirth && d in s.credBirth
    ensures Lineage.Root(Predecessors(s.creds), s.credBirth, c) == Lineage.Root(Predecessors(s.creds), s.credBirth, d)
        ==> c == d
  {
    LineageLink(s, c);
    LineageLink(s, d);
    UnrevokedIsUnreplaced(s, c);
    UnrevokedIsUnreplaced(s, d);
    hide Inv, Lineage.Forest;
    if Lineage.Root(Predecessors(s.creds), s.credBirth, c) == Lineage.Root(Predecessors(s.creds), s.credBirth, d) {
      Lineage.OneUnreplacedRecord(Predecessors(s.creds), s.credBirth, c, d);
    }
  }

  lemma UnrevokedIsUnreplaced(s: Core, c: Id)
    requires Inv(s) && c in s.creds && s.creds[c].status != Revoked
    ensures c !in Predecessors(s.creds).Values
  {
    hide UsersKeyed, CredsKeyed, SessionsKeyed, LiveSessionsBacked, TokenMaps, TokensIssued, IndexSound, SecretsPresent,
         RefreshLinks, Lineage.Forest;
    forall d | d in Predecessors(s.creds)
      ensures Predecessors(s.creds)[d] != c
    {
      assert LinkKeeps(s.creds, s.creds[d], s.creds[d].replacesId.value);
    }
  }

  // ----- The identifier index -----

  /** What the SQL query of the Postgres store selects. */
  ghost predicate Selected(s: Core, t: CredentialType, identifier: string, c: Id) {
    c in s.creds && s.creds[c].Type() == t && s.creds[c].identifier == identifier && s.creds[c].status == Active
  }

  /** Every ACTIVE credential is in the index under its key. */
  ghost predicate IndexComplete(s: Core) {
    forall c :: c in s.creds && s.creds[c].status == Active ==> InIndex(s, c)
  }

  predicate InIndex(s: Core, c: Id)
    requires c in s.creds
  {
    s.creds[c].Key() in s.activeCred && s.activeCred[s.creds[c].Key()] == c
  }

  /** What the index finds is always a row the query selects. */
  lemma FoundIsSelected(s: Core, t: CredentialType, identifier: string)
    requires Inv(s)
    ensures var r := FindCredential(s, t, identifier);
      && r.Ok?
      && (r.value.Some? ==> Selected(s, t, identifier, r.value.value.id) && s.creds[r.value.value.id] == r.value.value)
  {
    var key := IdentifierKey(t, identifier);
    hide SessionsKeyed, LiveSessionsBacked, TokenMaps, TokensIssued, SecretsPresent, ReplacesLinks, RefreshLinks,
         IdentifierKey;
    if key in s.activeCred {
      var c := s.creds[s.activeCred[key]];
      assert Indexed(s.creds, key, s.activeCred[key]);
      IdentifierKeyIsInjective(c.Type(), c.identifier, t, identifier);
    }
  }

  /** Index and query agree on every type and identifier exactly when the index is complete;
      and then at most one row is selected. */
  lemma FindIsTheQueryExactlyWhenComplete(s: Core)
    requires Inv(s)
    ensures IndexComplete(s)
       <==> forall t, i, c :: Selected(s, t, i, c) ==> FindCredential(s, t, i) == Ok(Some(s.creds[c]))
    ensures IndexComplete(s) ==> forall t, i, c, d :: Selected(s, t, i, c) && Selected(s, t, i, d) ==> c == d
  {
    CredentialsKeyed(s);
    if IndexComplete(s) {
      forall t, i, c | Selected(s, t, i, c)
        ensures FindCredential(s, t, i) == Ok(Some(s.creds[c]))
      {
        assert InIndex(s, c);
      }
    }
    if forall t, i, c :: Selected(s, t, i, c) ==> FindCredential(s, t, i) == Ok(Some(s.creds[c])) {
      forall c | c in s.creds && s.creds[c].status == Active
        ensures InIndex(s, c)
      {
        assert Selected(s, s.creds[c].Type(), s.creds[c].identifier, c);
        assert FindCredential(s, s.creds[c].Type(), s.creds[c].identifier) == Ok(Some(s.creds[c]));
      }
    }
  }

  /** The key test of `create_*` and `reinstate_credential` finds only keys of ACTIVE credentials;
      with a complete index it finds all of them, as the unique index of the Postgres store does. */
  lemma KeyIsTakenExactlyWhenSelected(s: Core, t: CredentialType, identifier: string)
    requires Inv(s)
    ensures IdentifierKey(t, identifier) in s.activeCred ==> exists c :: Selected(s, t, identifier, c)
    ensures IndexComplete(s) ==>
      (IdentifierKey(t, identifier) in s.activeCred <==> exists c :: Selected(s, t, identifier, c))
  {
    FoundIsSelected(s, t, identifier);
    CredentialsKeyed(s);
    hide Inv, IdentifierKey;
    if IndexComplete(s) {
      forall c | Selected(s, t, identifier, c)
        ensures IdentifierKey(t, identifier) in s.activeCred
      {
        assert InIndex(s, c);
      }
    }
  }

  lemma CredentialsKeyed(s: Core)
    requires Inv(s)
    ensures forall c :: c in s.creds ==> s.creds[c].id == c
    ensures forall k :: k in s.activeCred ==> s.activeCred[k] in s.creds
  {
    hide SessionsKeyed, LiveSessionsBacked, TokenMaps, TokensIssued, SecretsPresent, ReplacesLinks, RefreshLinks;
  }

  // ----- Passwords -----

  /** With a complete index, a password verifies exactly for an ACTIVE password credential with
      that identifier whose hash was made from it. */
  lemma PasswordVerifiesExactly(s: Core, identifier: string, password: string, v: Verified)
    requires Inv(s) && IndexComplete(s)
    ensures VerifyPassword(s, identifier, password) == Ok(v)
       <==> Selected(s, Password, identifier, v.credId) && v.usrId == s.creds[v.credId].usrId && !TooLong(password)
            && v.credId in s.passwordHashes && s.passwordHashes[v.credId] == Argon2id(password)
  {
    FoundIsSelected(s, Password, identifier);
    FindIsTheQueryExactlyWhenComplete(s);
    CredentialsKeyed(s);
    IndexedPassword(s, identifier);
    hide Inv, IndexComplete, TooLong, IdentifierKey;
    if Selected(s, Password, identifier, v.credId) {
      assert FindCredential(s, Password, identifier) == Ok(Some(s.creds[v.credId]));
    }
  }

  /** The credential is an ACTIVE password credential with that identifier, and its hash was made
      from that password. */
  ghost predicate Opens(s: Core, identifier: string, password: string, c: Id) {
    && Selected(s, Password, identifier, c) && !TooLong(password)
    && c in s.passwordHashes && s.passwordHashes[c] == Argon2id(password)
  }

  /** An accepted password names a credential that it opens; with a complete index it is accepted
      exactly when there is one. */
  lemma PasswordOpens(s: Core, identifier: string, password: string)
    requires Inv(s)
    ensures var r := VerifyPassword(s, identifier, password);
      && (r.Ok? ==> Opens(s, identifier, password, r.value.credId) && s.creds[r.value.credId].usrId == r.value.usrId)
      && (IndexComplete(s) ==> (r.Ok? <==> exists c :: Opens(s, identifier, password, c)))
  {
    FoundIsSelected(s, Password, identifier);
    IndexedPassword(s, identifier);
    CredentialsKeyed(s);
    hide Inv, TooLong, IdentifierKey;
    if IndexComplete(s) {
      forall c | Opens(s, identifier, password, c)
        ensures VerifyPassword(s, identifier, password) == Ok(Verified(s.creds[c].usrId, c))
      {
        PasswordVerifiesExactly(s, identifier, password, Verified(s.creds[c].usrId, c));
      }
    }
  }

  /** The hash behind an indexed password credential is there. */
  lemma IndexedPassword(s: Core, identifier: string)
    requires Inv(s)
    ensures var key := IdentifierKey(Password, identifier);
      key in s.activeCred ==> s.activeCred[key] in s.passwordHashes
  {
    var key := IdentifierKey(Password, identifier);
    hide SessionsKeyed, LiveSessionsBacked, TokenMaps, TokensIssued, ReplacesLinks, RefreshLinks, IdentifierKey;
    if key in s.activeCred {
      var c := s.creds[s.activeCred[key]];
      assert Indexed(s.creds, key, s.activeCred[key]);
      IdentifierKeyIsInjective(c.Type(), c.identifier, Password, identifier);
    }
  }

  /** What is raised for a password that is not accepted. */
  lemma PasswordRefused(s: Core, identifier: string, password: string)
    requires Inv(s)
    ensures var r := VerifyPassword(s, identifier, password);
      r.Raise? ==> r.error == if Utf8Length(password) > 1024 then ValueError else InvalidCredential
  {
    FoundIsSelected(s, Password, identifier);
    IndexedPassword(s, identifier);
    hide Inv, IdentifierKey;
  }

  /** Right after its creation exactly the password given verifies, for the new credential; any other
      attempt is refused, and what verifies under other identifiers is as before. */
  lemma CreatedPasswordVerifies(s: Core, u: Id, identifier: string, password: string, newId: Id, now: Time,
                                attempt: string, other: string)
    requires Inv(s) && newId !in s.creds && other != identifier
    requires CreateCredential(s, u, identifier, NewPassword(password), newId, now).result.Ok?
    ensures var s' := CreateCredential(s, u, identifier, NewPassword(password), newId, now).state;
      && VerifyPassword(s', identifier, attempt)
         == (if attempt == password then Ok(Verified(u, newId))
             else Raise(if Utf8Length(attempt) > 1024 then ValueError else InvalidCredential))
      && VerifyPassword(s', other, attempt) == VerifyPassword(s, other, attempt)
  {
    hide Inv, IdentifierKey;
    CreatedState(s, u, identifier, password, newId, now);
    IdentifierKeyIsInjective(Password, identifier, Password, other);
    IndexEntriesExist(s);
    hide CreateCredential;
  }

  lemma CreatedState(s: Core, u: Id, identifier: string, password: string, newId: Id, now: Time)
    requires CreateCredential(s, u, identifier, NewPassword(password), newId, now).result.Ok?
    ensures var s' := CreateCredential(s, u, identifier, NewPassword(password), newId, now).state;
      && !TooLong(password)
      && s'.creds == s.creds[newId := Credential(newId, u, identifier, Active, None, PasswordDetails, now, now)]
      && s'.activeCred == s.activeCred[IdentifierKey(Password, identifier) := newId]
      && s'.passwordHashes == s.passwordHashes[newId := Argon2id(password)]
  {
    hide IdentifierKey, TooLong;
  }

  lemma IndexEntriesExist(s: Core)
    requires Inv(s)
    ensures forall k :: k in s.activeCred ==> s.activeCred[k] in s.creds
  {
    CredentialsKeyed(s);
  }

  /** A rotation hands the identifier over: from then on exactly the new password verifies, for
      the new credential, and the old credential is REVOKED. */
  lemma RotationHandsOver(s: Core, c: Id, password: string, newId: Id, now: Time, cascadeNow: Time, attempt: string)
    requires Inv(s) && newId !in s.creds
    requires RotateCredential(s, c, NewPassword(password), newId, now, cascadeNow).result.Ok?
    ensures c in s.creds
    ensures var s' := RotateCredential(s, c, NewPassword(password), newId, now, cascadeNow).state;
      && s'.creds[c].status == Revoked && newId in s'.creds && s'.creds[newId].replacesId == Some(c)
      && (VerifyPassword(s', s.creds[c].identifier, attempt).Ok? <==> attempt == password)
      && (VerifyPassword(s', s.creds[c].identifier, password) == Ok(Verified(s.creds[c].usrId, newId)))
  {
    hide Inv, TooLong, IdentifierKey, RotateCredential;
    RotatedState(s, c, password, newId, now, cascadeNow);
  }

  lemma RotatedState(s: Core, c: Id, password: string, newId: Id, now: Time, cascadeNow: Time)
    requires newId !in s.creds
    requires RotateCredential(s, c, NewPassword(password), newId, now, cascadeNow).result.Ok?
    ensures c in s.creds && !TooLong(password)
    ensures var s' := RotateCredential(s, c, NewPassword(password), newId, now, cascadeNow).state;
      var key := IdentifierKey(Password, s.creds[c].identifier);
      && c in s'.creds && s'.creds[c].status == Revoked
      && newId in s'.creds && s'.creds[newId].replacesId == Some(c) && s'.creds[newId].id == newId
      && s'.creds[newId].usrId == s.creds[c].usrId && s'.creds[newId].Type() == Password
      && key in s'.activeCred && s'.activeCred[key] == newId
      && newId in s'.passwordHashes && s'.passwordHashes[newId] == Argon2id(password)
  {
    hide TooLong, Stamped, HashesOf, LiveSessionsOfCredential, IdentifierKey;
  }
}
