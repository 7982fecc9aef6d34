/** What holds of users, credentials and sessions in every reachable state, and what no
    operation ever undoes. The predicates are stated on single dictionaries, so that an
    operation has to answer only for those it writes. */
module IdentityInvariants {
  import opened Prelude
  import opened Identity
  import Lineage

  type Users = map<Id, User>
  type Creds = map<Id, Credential>
  type Sessions = map<Id, Session>

  // ----- The invariant -----

  ghost predicate UsersKeyed(users: Users) {
    forall u :: u in users ==> users[u].id == u
  }

  /** Every credential is stored under its own id and belongs to a user. */
  ghost predicate CredsKeyed(users: Users, creds: Creds) {
    forall c :: c in creds ==> creds[c].id == c && creds[c].usrId in users
  }

  /** Every session is stored under its own id, belongs to the user of its credential and was
      given at least a minute. */
  ghost predicate SessionsKeyed(creds: Creds, sessions: Sessions) {
    forall i :: i in sessions ==> SessionKeyed(creds, i, sessions[i])
  }

  ghost predicate SessionKeyed(creds: Creds, i: Id, ses: Session) {
    && ses.id == i
    && ses.credId in creds && ses.usrId == creds[ses.credId].usrId
    && ses.Ttl() >= MIN_TTL_SECONDS * SECOND
  }

  /** A session that is not revoked has an ACTIVE credential and an ACTIVE user. */
  ghost predicate LiveSessionsBacked(users: Users, creds: Creds, sessions: Sessions) {
    forall i :: i in sessions && sessions[i].IsLive() ==> Backed(users, creds, sessions[i])
  }

  ghost predicate Backed(users: Users, creds: Creds, ses: Session) {
    && ses.credId in creds && creds[ses.credId].status == Active
    && ses.usrId in users && users[ses.usrId].status == Active
  }

  /** The two token maps are inverse to each other and list exactly the unrevoked sessions. */
  ghost predicate TokenMaps(sessions: Sessions, hashes: map<Id, TokenHash>, byHash: map<TokenHash, Id>) {
    && (forall i :: i in hashes <==> i in sessions && sessions[i].IsLive())
    && (forall i :: i in hashes ==> hashes[i] in byHash && byHash[hashes[i]] == i)
    && (forall h :: h in byHash ==> byHash[h] in hashes && hashes[byHash[h]] == h)
  }

  /** Every session was issued one token, and while it is listed it is listed under that one. */
  ghost predicate TokensIssued(sessions: Sessions, hashes: map<Id, TokenHash>, issued: map<string, Id>) {
    && (forall t :: t in issued ==> issued[t] in sessions)
    && (forall t, t' :: t in issued && t' in issued && issued[t] == issued[t'] ==> t == t')
    && (forall i :: i in hashes ==> hashes[i].token in issued && issued[hashes[i].token] == i)
  }

  /** Every index entry names an ACTIVE credential with that key. */
  ghost predicate IndexSound(creds: Creds, index: map<string, Id>) {
    forall k :: k in index ==> Indexed(creds, k, index[k])
  }

  ghost predicate Indexed(creds: Creds, k: string, c: Id) {
    c in creds && creds[c].status == Active && creds[c].Key() == k
  }

  /** A password or passkey that is not revoked has its secret. */
  ghost predicate SecretsPresent(creds: Creds, passwords: map<Id, PasswordHash>, keys: map<Id, bytes>) {
    forall c :: c in creds && creds[c].status != Revoked ==>
      && (creds[c].Type() == Password ==> c in passwords)
      && (creds[c].Type() == Passkey ==> c in keys)
  }

  function Predecessors(creds: Creds): map<Id, Id> {
    map c | c in creds && creds[c].replacesId.Some? :: creds[c].replacesId.value
  }

  ghost predicate BornInOrder(keys: set<Id>, birth: map<Id, nat>) {
    birth.Keys == keys && forall c :: c in birth ==> birth[c] < |birth|
  }

  /** `replaces` links form a forest; a link keeps user, type and identifier, and what has
      been replaced is REVOKED. */
  ghost predicate ReplacesLinks(creds: Creds, birth: map<Id, nat>) {
    && BornInOrder(creds.Keys, birth)
    && Lineage.Forest(Predecessors(creds), birth)
    && forall c :: c in creds && creds[c].replacesId.Some? ==> LinkKeeps(creds, creds[c], creds[c].replacesId.value)
  }

  ghost predicate LinkKeeps(creds: Creds, c: Credential, p: Id) {
    && p in creds && creds[p].status == Revoked
    && creds[p].usrId == c.usrId && creds[p].Type() == c.Type() && creds[p].identifier == c.identifier
  }

  /** Refreshing forms chains; a refreshed session is revoked and hands user, credential and
      time to live on. */
  ghost predicate RefreshLinks(sessions: Sessions, birth: map<Id, nat>, refreshOf: map<Id, Id>) {
    && BornInOrder(sessions.Keys, birth)
    && Lineage.Forest(refreshOf, birth)
    && forall i :: i in refreshOf ==> i in sessions && RefreshKeeps(sessions, sessions[i], refreshOf[i])
  }

  ghost predicate RefreshKeeps(sessions: Sessions, ses: Session, p: Id) {
    && p in sessions && !sessions[p].IsLive()
    && sessions[p].usrId == ses.usrId && sessions[p].credId == ses.credId && sessions[p].Ttl() == ses.Ttl()
  }

  ghost predicate Inv(s: Core) {
    && UsersKeyed(s.users)
    && CredsKeyed(s.users, s.creds)
    && SessionsKeyed(s.creds, s.sessions)
    && LiveSessionsBacked(s.users, s.creds, s.sessions)
    && TokenMaps(s.sessions, s.tokenHashes, s.sessionByHash)
    && TokensIssued(s.sessions, s.tokenHashes, s.issued)
    && IndexSound(s.creds, s.activeCred)
    && SecretsPresent(s.creds, s.passwordHashes, s.passkeyKeys)
    && ReplacesLinks(s.creds, s.credBirth)
    && RefreshLinks(s.sessions, s.sesBirth, s.refreshOf)
  }

  lemma EmptyInv()
    ensures Inv(EMPTY)
  {
  }

  // ----- What no operation undoes -----

  /** Users stay; a REVOKED user stays exactly as it is. */
  ghost predicate UsersEvolve(users: Users, users': Users) {
    forall u :: u in users ==>
      && u in users' && users'[u].id == users[u].id && users'[u].createdAt == users[u].createdAt
      && (users[u].status == Revoked ==> users'[u] == users[u])
  }

  /** Credentials stay; only status and time of update ever change, and not once REVOKED. */
  ghost predicate CredsEvolve(creds: Creds, creds': Creds) {
    forall c :: c in creds ==>
      && c in creds' && creds'[c] == creds[c].(status := creds'[c].status, updatedAt := creds'[c].updatedAt)
      && (creds[c].status == Revoked ==> creds'[c] == creds[c])
  }

  /** Sessions stay; `revoked_at` is written at most once and nothing else ever changes. */
  ghost predicate SessionsEvolve(sessions: Sessions, sessions': Sessions) {
    forall i :: i in sessions ==>
      && i in sessions' && sessions'[i] == sessions[i].(revokedAt := sessions'[i].revokedAt)
      && (!sessions[i].IsLive() ==> sessions'[i] == sessions[i])
  }

  ghost predicate Grows<K, V>(m: map<K, V>, m': map<K, V>) {
    forall k :: k in m ==> k in m' && m'[k] == m[k]
  }

  ghost predicate Evolves(s: Core, s': Core) {
    && UsersEvolve(s.users, s'.users)
    && CredsEvolve(s.creds, s'.creds)
    && SessionsEvolve(s.sessions, s'.sessions)
    && Grows(s.issued, s'.issued)
    && Grows(s.credBirth, s'.credBirth)
    && Grows(s.sesBirth, s'.sesBirth)
    && Grows(s.refreshOf, s'.refreshOf)
    && (forall i :: i in s.sessions && i !in s.refreshOf ==> i !in s'.refreshOf)
  }

  lemma EvolvesIsTransitive(s: Core, t: Core, u: Core)
    requires Evolves(s, t) && Evolves(t, u)
    ensures Evolves(s, u)
  {
  }

  // ----- Effects on the sessions -----

  ghost predicate AreLive(sessions: Sessions, ids: set<Id>) {
    forall i :: i in ids ==> i in sessions && sessions[i].IsLive()
  }

  lemma StampedEvolve(users: Users, creds: Creds, sessions: Sessions, ids: set<Id>, now: Time)
    requires AreLive(sessions, ids)
    requires SessionsKeyed(creds, sessions) && LiveSessionsBacked(users, creds, sessions)
    ensures var sessions' := Stamped(sessions, ids, now);
      && sessions'.Keys == sessions.Keys && SessionsEvolve(sessions, sessions')
      && SessionsKeyed(creds, sessions') && LiveSessionsBacked(users, creds, sessions')
  {
    var sessions' := Stamped(sessions, ids, now);
    forall i | i in sessions'
      ensures SessionKeyed(creds, i, sessions'[i])
    {
      assert SessionKeyed(creds, i, sessions[i]);
    }
    hide SessionKeyed, Backed;
  }

  lemma RefreshLinksEvolve(sessions: Sessions, sessions': Sessions, birth: map<Id, nat>, refreshOf: map<Id, Id>)
    requires RefreshLinks(sessions, birth, refreshOf)
    requires sessions'.Keys == sessions.Keys && SessionsEvolve(sessions, sessions')
    ensures RefreshLinks(sessions', birth, refreshOf)
  {
    forall i | i in refreshOf
      ensures i in sessions' && RefreshKeeps(sessions', sessions'[i], refreshOf[i])
    {
      assert RefreshKeeps(sessions, sessions[i], refreshOf[i]);
    }
  }

  /** Forgetting the hashes of the sessions revoked keeps the two token maps inverse. */
  lemma TokenMapsAfterRevoking(s: Core, ids: set<Id>, now: Time)
    requires TokenMaps(s.sessions, s.tokenHashes, s.sessionByHash) && AreLive(s.sessions, ids)
    ensures var s' := RevokeSessions(s, ids, now);
      TokenMaps(s'.sessions, s'.tokenHashes, s'.sessionByHash)
  {
    var s' := RevokeSessions(s, ids, now);
    forall h | h in s.sessionByHash && h !in s'.sessionByHash
      ensures s.sessionByHash[h] in ids
    {
      var i :| i in ids && i in s.tokenHashes && s.tokenHashes[i] == h;
    }
    forall h | h in s'.sessionByHash
      ensures s.sessionByHash[h] !in ids
    {
      assert s.tokenHashes[s.sessionByHash[h]] == h;
    }
  }

  lemma TokensIssuedAfterRevoking(s: Core, ids: set<Id>, now: Time)
    requires TokensIssued(s.sessions, s.tokenHashes, s.issued)
    ensures TokensIssued(Stamped(s.sessions, ids, now), s.tokenHashes - ids, s.issued)
  {
  }

  /** Revoking any live sessions keeps the invariant. */
  lemma RevokeSessionsKeeps(s: Core, ids: set<Id>, now: Time)
    requires Inv(s) && AreLive(s.sessions, ids)
    ensures Inv(RevokeSessions(s, ids, now)) && Evolves(s, RevokeSessions(s, ids, now))
  {
    hide UsersKeyed, CredsKeyed, SessionsKeyed, LiveSessionsBacked, TokenMaps, TokensIssued, IndexSound, SecretsPresent,
         ReplacesLinks, RefreshLinks, SessionsEvolve, Stamped, AreLive;
    TokensIssuedAfterRevoking(s, ids, now);
    StampedEvolve(s.users, s.creds, s.sessions, ids, now);
    RefreshLinksEvolve(s.sessions, Stamped(s.sessions, ids, now), s.sesBirth, s.refreshOf);
    TokenMapsAfterRevoking(s, ids, now);
  }

  lemma TokenMapsAfterInsert(sessions: Sessions, hashes: map<Id, TokenHash>, byHash: map<TokenHash, Id>, ses: Session,
                             h: TokenHash)
    requires TokenMaps(sessions, hashes, byHash) && ses.id !in sessions && ses.IsLive() && h !in byHash
    ensures TokenMaps(sessions[ses.id := ses], hashes[ses.id := h], byHash[h := ses.id])
  {
  }

  lemma TokensIssuedAfterInsert(sessions: Sessions, hashes: map<Id, TokenHash>, issued: map<string, Id>, ses: Session,
                                token: string)
    requires TokensIssued(sessions, hashes, issued) && ses.id !in sessions && token !in issued
    requires forall i :: i in hashes ==> i in sessions
    ensures TokensIssued(sessions[ses.id := ses], hashes[ses.id := Sha256(token)], issued[token := ses.id])
  {
  }

  lemma SessionsAfterInsert(users: Users, creds: Creds, sessions: Sessions, ses: Session)
    requires ses.id !in sessions && SessionKeyed(creds, ses.id, ses) && Backed(users, creds, ses)
    requires SessionsKeyed(creds, sessions) && LiveSessionsBacked(users, creds, sessions)
    ensures var sessions' := sessions[ses.id := ses];
      SessionsEvolve(sessions, sessions') && SessionsKeyed(creds, sessions')
          && LiveSessionsBacked(users, creds, sessions')
  {
    hide SessionKeyed, Backed;
  }

  lemma GrowsByOne<K, V>(m: map<K, V>, k: K, v: V)
    requires k !in m
    ensures Grows(m, m[k := v])
  {
  }

  lemma FreshTokenHash(s: Core, token: string)
    requires TokenMaps(s.sessions, s.tokenHashes, s.sessionByHash) && TokensIssued(s.sessions, s.tokenHashes, s.issued)
    requires token !in s.issued
    ensures Sha256(token) !in s.sessionByHash
  {
    assert forall h :: h in s.sessionByHash ==> s.tokenHashes[s.sessionByHash[h]].token in s.issued;
  }

  lemma Born(keys: set<Id>, birth: map<Id, nat>, newId: Id)
    requires BornInOrder(keys, birth) && newId !in keys
    ensures BornInOrder(keys + {newId}, birth[newId := |birth|]) && Grows(birth, birth[newId := |birth|])
  {
    var birth' := birth[newId := |birth|];
    assert birth'.Keys == keys + {newId};
    assert |birth'| == |birth| + 1;
  }

  lemma RefreshLinksAfterInsert(s: Core, ses: Session, token: string)
    requires ses.id !in s.sessions && RefreshLinks(s.sessions, s.sesBirth, s.refreshOf)
    ensures var s' := InsertSession(s, ses, token);
      && RefreshLinks(s'.sessions, s'.sesBirth, s'.refreshOf) && Grows(s.sesBirth, s'.sesBirth)
      && ses.id !in s.refreshOf
      && forall i :: i in s.refreshOf ==> s.refreshOf[i] != ses.id
  {
    Born(s.sessions.Keys, s.sesBirth, ses.id);
    var s' := InsertSession(s, ses, token);
    assert s'.sessions.Keys == s.sessions.Keys + {ses.id};
    forall i | i in s.refreshOf
      ensures s.refreshOf[i] != ses.id && RefreshKeeps(s'.sessions, s'.sessions[i], s.refreshOf[i])
    {
      assert RefreshKeeps(s.sessions, s.sessions[i], s.refreshOf[i]);
    }
  }

  /** Issuing a session to a backed owner keeps the invariant. */
  lemma InsertSessionKeeps(s: Core, ses: Session, token: string)
    requires Inv(s) && ses.id !in s.sessions && token !in s.issued && ses.IsLive()
    requires SessionKeyed(s.creds, ses.id, ses) && Backed(s.users, s.creds, ses)
    ensures Inv(InsertSession(s, ses, token)) && Evolves(s, InsertSession(s, ses, token))
  {
    hide UsersKeyed, CredsKeyed, SessionsKeyed, LiveSessionsBacked, TokenMaps, TokensIssued, IndexSound, SecretsPresent,
         ReplacesLinks, RefreshLinks, SessionsEvolve, SessionKeyed, Backed;
    FreshTokenHash(s, token);
    SessionsAfterInsert(s.users, s.creds, s.sessions, ses);
    TokenMapsAfterInsert(s.sessions, s.tokenHashes, s.sessionByHash, ses, Sha256(token));
    ListedSessionsExist(s);
    TokensIssuedAfterInsert(s.sessions, s.tokenHashes, s.issued, ses, token);
    RefreshLinksAfterInsert(s, ses, token);
    GrowsByOne(s.issued, token, ses.id);
  }

  lemma ListedSessionsExist(s: Core)
    requires TokenMaps(s.sessions, s.tokenHashes, s.sessionByHash)
    ensures forall i :: i in s.tokenHashes ==> i in s.sessions
  {
  }

  /** A session that is live is the last of its chain, so refreshing it never branches. */
  lemma RefreshLinked(sessions: Sessions, birth: map<Id, nat>, refreshOf: map<Id, Id>, newId: Id, p: Id)
    requires RefreshLinks(sessions, birth, refreshOf)
    requires newId in sessions && newId !in refreshOf && p in sessions && birth[p] < birth[newId]
    requires RefreshKeeps(sessions, sessions[newId], p)
    requires forall i :: i in refreshOf ==> refreshOf[i] != p
    ensures RefreshLinks(sessions, birth, refreshOf[newId := p])
  {
    hide RefreshKeeps;
    assert p in birth && newId in birth;
  }

  // ----- Effects on the credentials -----

  /** Changing statuses, never from REVOKED, keeps everything said about credentials but
      their backing of sessions and of the index. */
  lemma RestatusKeeps(users: Users, creds: Creds, creds': Creds, sessions: Sessions, birth: map<Id, nat>)
    requires creds'.Keys == creds.Keys && CredsEvolve(creds, creds')
    requires CredsKeyed(users, creds) && SessionsKeyed(creds, sessions) && ReplacesLinks(creds, birth)
    ensures CredsKeyed(users, creds') && SessionsKeyed(creds', sessions) && ReplacesLinks(creds', birth)
  {
    forall i | i in sessions
      ensures SessionKeyed(creds', i, sessions[i])
    {
      assert SessionKeyed(creds, i, sessions[i]);
    }
    assert Predecessors(creds') == Predecessors(creds);
    forall c | c in creds' && creds'[c].replacesId.Some?
      ensures LinkKeeps(creds', creds'[c], creds'[c].replacesId.value)
    {
      assert LinkKeeps(creds, creds[c], creds[c].replacesId.value);
    }
  }

  lemma SecretsAfterRestatus(creds: Creds, creds': Creds, passwords: map<Id, PasswordHash>, keys: map<Id, bytes>)
    requires SecretsPresent(creds, passwords, keys)
    requires creds'.Keys == creds.Keys && CredsEvolve(creds, creds')
    ensures SecretsPresent(creds', passwords, keys)
  {
    forall c | c in creds' && creds'[c].status != Revoked
      ensures creds[c].status != Revoked && creds'[c].Type() == creds[c].Type()
    {
    }
  }

  lemma RestatusOne(creds: Creds, c: Id, status: Status, now: Time)
    requires c in creds && creds[c].status != Revoked
    ensures var creds' := creds[c := creds[c].WithStatus(status, now)];
      creds'.Keys == creds.Keys && CredsEvolve(creds, creds')
  {
  }

  /** Dropping the key of a credential that leaves ACTIVE keeps the index sound. */
  lemma IndexAfterRetiring(creds: Creds, index: map<string, Id>, c: Id, status: Status, now: Time)
    requires IndexSound(creds, index) && c in creds
    ensures IndexSound(creds[c := creds[c].WithStatus(status, now)], index - {creds[c].Key()})
  {
    var creds' := creds[c := creds[c].WithStatus(status, now)];
    forall k | k in index - {creds[c].Key()}
      ensures Indexed(creds', k, index[k])
    {
      assert Indexed(creds, k, index[k]);
    }
  }

  ghost predicate NoLiveSessions(sessions: Sessions, c: Id) {
    forall i :: i in sessions && sessions[i].credId == c ==> !sessions[i].IsLive()
  }

  lemma BackedAfterRestatus(users: Users, creds: Creds, sessions: Sessions, c: Id, cred': Credential)
    requires LiveSessionsBacked(users, creds, sessions) && NoLiveSessions(sessions, c)
    ensures LiveSessionsBacked(users, creds[c := cred'], sessions)
  {
    forall i | i in sessions && sessions[i].IsLive()
      ensures Backed(users, creds[c := cred'], sessions[i])
    {
      assert Backed(users, creds, sessions[i]);
    }
  }

  /** A credential no live session rests on may change status once its key is dropped. */
  lemma RestatusUnusedKeeps(s: Core, c: Id, status: Status, now: Time)
    requires Inv(s) && c in s.creds && s.creds[c].status != Revoked && NoLiveSessions(s.sessions, c)
    ensures var s' := s.(creds := s.creds[c := s.creds[c].WithStatus(status, now)],
                         activeCred := s.activeCred - {s.creds[c].Key()});
      Inv(s') && Evolves(s, s')
  {
    hide UsersKeyed, CredsKeyed, SessionsKeyed, LiveSessionsBacked, TokenMaps, TokensIssued, IndexSound, SecretsPresent,
         ReplacesLinks, RefreshLinks, CredsEvolve;
    var creds' := s.creds[c := s.creds[c].WithStatus(status, now)];
    RestatusOne(s.creds, c, status, now);
    RestatusKeeps(s.users, s.creds, creds', s.sessions, s.credBirth);
    SecretsAfterRestatus(s.creds, creds', s.passwordHashes, s.passkeyKeys);
    IndexAfterRetiring(s.creds, s.activeCred, c, status, now);
    BackedAfterRestatus(s.users, s.creds, s.sessions, c, creds'[c]);
  }

  lemma SessionsOfCredentialRevoked(s: Core, c: Id, now: Time)
    ensures var ids := LiveSessionsOfCredential(s, c);
      AreLive(s.sessions, ids) && NoLiveSessions(RevokeSessions(s, ids, now).sessions, c)
  {
  }

  /** What suspending, revoking and rotating a credential have in common keeps the invariant. */
  lemma RetireCredentialKeeps(s: Core, c: Id, status: Status, now: Time, cascadeNow: Time)
    requires Inv(s) && c in s.creds && s.creds[c].status != Revoked
    ensures var s' := RetireCredential(s, c, status, now, cascadeNow);
      Inv(s') && Evolves(s, s')
  {
    hide Inv, Evolves, LiveSessionsOfCredential, AreLive, NoLiveSessions;
    var ids := LiveSessionsOfCredential(s, c);
    var s1 := RevokeSessions(s, ids, cascadeNow);
    SessionsOfCredentialRevoked(s, c, cascadeNow);
    RevokeSessionsKeeps(s, ids, cascadeNow);
    RestatusUnusedKeeps(s1, c, status, now);
    EvolvesIsTransitive(s, s1, RetireCredential(s, c, status, now, cascadeNow));
  }

  // ----- New credentials -----

  lemma CredsAfterInsert(users: Users, creds: Creds, sessions: Sessions, c: Credential)
    requires c.id !in creds && c.usrId in users
    requires CredsKeyed(users, creds) && SessionsKeyed(creds, sessions) && LiveSessionsBacked(users, creds, sessions)
    ensures var creds' := creds[c.id := c];
      && CredsEvolve(creds, creds')
      && CredsKeyed(users, creds') && SessionsKeyed(creds', sessions) && LiveSessionsBacked(users, creds', sessions)
  {
    forall i | i in sessions
      ensures SessionKeyed(creds[c.id := c], i, sessions[i])
      ensures sessions[i].IsLive() ==> Backed(users, creds[c.id := c], sessions[i])
    {
      assert SessionKeyed(creds, i, sessions[i]);
      assert sessions[i].IsLive() ==> Backed(users, creds, sessions[i]);
    }
  }

  lemma IndexAfterInsert(creds: Creds, index: map<string, Id>, c: Credential)
    requires IndexSound(creds, index) && c.id !in creds && c.status == Active
    ensures IndexSound(creds[c.id := c], index[c.Key() := c.id])
  {
    var creds', index' := creds[c.id := c], index[c.Key() := c.id];
    forall k | k in index'
      ensures Indexed(creds', k, index'[k])
    {
      assert k in index ==> Indexed(creds, k, index[k]);
    }
  }

  /** A new credential may replace one that is REVOKED and that nothing has replaced yet. */
  ghost predicate MayReplace(creds: Creds, c: Credential) {
    c.replacesId.Some? ==>
      && LinkKeeps(creds, c, c.replacesId.value)
      && forall d :: d in creds ==> creds[d].replacesId != c.replacesId
  }

  lemma PredecessorsAfterInsert(creds: Creds, c: Credential)
    requires c.id !in creds
    ensures Predecessors(creds[c.id := c])
         == if c.replacesId.Some? then Predecessors(creds)[c.id := c.replacesId.value] else Predecessors(creds)
    ensures c.id !in Predecessors(creds)
    ensures MayReplace(creds, c) && c.replacesId.Some? ==>
      && c.replacesId.value in creds
      && forall d :: d in Predecessors(creds) ==> Predecessors(creds)[d] != c.replacesId.value
  {
  }

  lemma ForestAfterInsert(creds: Creds, birth: map<Id, nat>, c: Credential)
    requires BornInOrder(creds.Keys, birth) && Lineage.Forest(Predecessors(creds), birth)
    requires c.id !in creds && MayReplace(creds, c)
    ensures Lineage.Forest(Predecessors(creds[c.id := c]), birth[c.id := |birth|])
  {
    hide Predecessors, MayReplace, Lineage.Forest;
    PredecessorsAfterInsert(creds, c);
    Lineage.ForestGrows(Predecessors(creds), birth, c.id, |birth|);
    if c.replacesId.Some? {
      Lineage.LinkGrows(Predecessors(creds), birth[c.id := |birth|], c.id, c.replacesId.value);
    }
  }

  lemma ReplacesLinksAfterInsert(creds: Creds, birth: map<Id, nat>, c: Credential)
    requires ReplacesLinks(creds, birth) && c.id !in creds && MayReplace(creds, c)
    ensures ReplacesLinks(creds[c.id := c], birth[c.id := |birth|])
  {
    hide Predecessors, Lineage.Forest;
    var creds' := creds[c.id := c];
    Born(creds.Keys, birth, c.id);
    ForestAfterInsert(creds, birth, c);
    assert creds'.Keys == creds.Keys + {c.id};
    forall d | d in creds' && creds'[d].replacesId.Some?
      ensures LinkKeeps(creds', creds'[d], creds'[d].replacesId.value)
    {
      assert d in creds ==> LinkKeeps(creds, creds[d], creds[d].replacesId.value);
    }
  }

  lemma SecretsAfterInsert(s: Core, c: Credential, m: Material)
    requires SecretsPresent(s.creds, s.passwordHashes, s.passkeyKeys) && c.Type() == m.Type()
    ensures var s' := InsertCredential(s, c, m);
      SecretsPresent(s'.creds, s'.passwordHashes, s'.passkeyKeys)
  {
  }

  lemma InsertCredentialKeeps(s: Core, c: Credential, m: Material)
    requires Inv(s) && c.id !in s.creds && c.usrId in s.users && c.status == Active && c.Type() == m.Type()
    requires MayReplace(s.creds, c)
    ensures Inv(InsertCredential(s, c, m)) && Evolves(s, InsertCredential(s, c, m))
  {
    hide UsersKeyed, CredsKeyed, SessionsKeyed, LiveSessionsBacked, TokenMaps, TokensIssued, IndexSound, SecretsPresent,
         ReplacesLinks, RefreshLinks, CredsEvolve, MayReplace;
    CredsAfterInsert(s.users, s.creds, s.sessions, c);
    IndexAfterInsert(s.creds, s.activeCred, c);
    ReplacesLinksAfterInsert(s.creds, s.credBirth, c);
    SecretsAfterInsert(s, c, m);
    CredentialsAreBorn(s);
    Born(s.creds.Keys, s.credBirth, c.id);
  }

  lemma CredentialsAreBorn(s: Core)
    requires ReplacesLinks(s.creds, s.credBirth)
    ensures BornInOrder(s.creds.Keys, s.credBirth)
  {
  }

  // ----- Users -----

  lemma UserChangeKeeps(s: Core, u: User)
    requires Inv(s)
    requires u.id in s.users ==> s.users[u.id].status != Revoked && u.createdAt == s.users[u.id].createdAt
    requires
      || u.status == Active
      || forall i :: i in s.sessions && s.sessions[i].usrId == u.id ==> !s.sessions[i].IsLive()
    ensures var s' := s.(users := s.users[u.id := u]);
      Inv(s') && Evolves(s, s')
  {
    hide TokenMaps, TokensIssued, IndexSound, SecretsPresent, ReplacesLinks, RefreshLinks, SessionsKeyed;
    var users' := s.users[u.id := u];
    forall i | i in s.sessions && s.sessions[i].IsLive()
      ensures Backed(users', s.creds, s.sessions[i])
    {
      assert Backed(s.users, s.creds, s.sessions[i]);
    }
  }

  lemma SessionsOfUserRevoked(s: Core, u: Id, now: Time)
    ensures var ids := LiveSessionsOfUser(s, u);
      && AreLive(s.sessions, ids)
      && forall i :: i in Stamped(s.sessions, ids, now) && Stamped(s.sessions, ids, now)[i].usrId == u ==>
           !Stamped(s.sessions, ids, now)[i].IsLive()
  {
  }
}
