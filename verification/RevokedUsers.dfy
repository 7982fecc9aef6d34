/** What a REVOKED user may still have: when no ACTIVE credential, when no unrevoked token, and
    what the ones that slip through are good for. */
module RevokedUsers {
  import opened Prelude
  import opened Identity
  import opened IdentityInvariants
  import opened IndexTheorems
  import Machine
  import MfaInvariants
  import PatInvariants
  import Pats
  import RunTheorems

  // ----- What `revoke_user` leaves behind -----

  lemma RevokedUserSessions(s: Core, u: Id, now: Time, cascadeNow: Time)
    requires u in s.users && s.users[u].status != Revoked
    ensures var s' := RevokeUser(s, u, now, cascadeNow).state;
      s'.sessions == Stamped(s.sessions, LiveSessionsOfUser(s, u), cascadeNow)
  {
    hide Stamped, HashesOf, LiveSessionsOfUser, RevokeCredentials;
    SessionsUntouched(s, ActiveCredentialsOfUser(s, u), now);
  }

  lemma SessionsUntouched(s: Core, ids: set<Id>, now: Time)
    ensures RevokeCredentials(s, ids, now).sessions == s.sessions
  {
  }

  /** After a successful `revoke_user` the user is REVOKED and has no ACTIVE credential and no live
      session, whatever the state was before. */
  lemma RevokeUserLeavesNothing(s: Core, u: Id, now: Time, cascadeNow: Time)
    requires RevokeUser(s, u, now, cascadeNow).result.Ok?
    ensures var s' := RevokeUser(s, u, now, cascadeNow).state;
      && u in s'.users && s'.users[u].status == Revoked
      && (forall c :: c in s'.creds && s'.creds[c].usrId == u ==> s'.creds[c].status != Active)
      && (forall i :: i in s'.sessions && s'.sessions[i].usrId == u ==> !s'.sessions[i].IsLive())
  {
    RevokedUserState(s, u, now, cascadeNow);
    RevokedUserSessions(s, u, now, cascadeNow);
    hide RevokeUser;
  }

  /** Nor an unrevoked token. */
  lemma RevokeUserLeavesNoToken(s: Machine.State, op: Machine.Op)
    requires op.RevokeUser? && Machine.UserStep(s, op).error.None?
    ensures var t := Machine.UserStep(s, op).state.pats;
      forall p :: p in t.pats && t.pats[p].usrId == op.usrId ==> t.pats[p].revokedAt.Some?
  {
    hide RevokeUser;
  }

  // ----- ACTIVE credentials of REVOKED users -----

  /** No ACTIVE credential belongs to a REVOKED user. */
  ghost predicate RevokedUsersBare(s: Core) {
    forall c :: c in s.creds && s.creds[c].status == Active ==> OwnerNotRevoked(s, c)
  }

  predicate OwnerNotRevoked(s: Core, c: Id)
    requires c in s.creds
  {
    s.creds[c].usrId in s.users && s.users[s.creds[c].usrId].status != Revoked
  }

  /** No credential becomes ACTIVE and no user becomes REVOKED. */
  ghost predicate OwnersKept(s: Core, t: Core) {
    && (forall c :: c in t.creds && t.creds[c].status == Active ==>
          c in s.creds && s.creds[c].status == Active && s.creds[c].usrId == t.creds[c].usrId)
    && (forall u :: u in s.users && s.users[u].status != Revoked ==> u in t.users && t.users[u].status != Revoked)
  }

  lemma OwnersKeptKeepsBare(s: Core, t: Core)
    requires RevokedUsersBare(s) && OwnersKept(s, t)
    ensures RevokedUsersBare(t)
  {
    forall c | c in t.creds && t.creds[c].status == Active
      ensures OwnerNotRevoked(t, c)
    {
      assert OwnerNotRevoked(s, c);
    }
  }

  lemma SameCredsKeepOwners(s: Core, t: Core)
    requires t.creds == s.creds
    requires forall u :: u in s.users && s.users[u].status != Revoked ==> u in t.users && t.users[u].status != Revoked
    ensures OwnersKept(s, t)
  {
  }

  lemma RetiredOwners(s: Core, t: Core, c: Id, status: Status, now: Time)
    requires c in s.creds && status != Active && t.users == s.users
    requires t.creds == s.creds[c := s.creds[c].WithStatus(status, now)]
    ensures OwnersKept(s, t)
  {
  }

  lemma SuspendKeepsBare(s: Core, c: Id, now: Time, cascadeNow: Time)
    requires RevokedUsersBare(s)
    ensures RevokedUsersBare(SuspendCredential(s, c, now, cascadeNow).state)
  {
    hide RevokedUsersBare, RetireCredential, OwnersKept;
    if c in s.creds && s.creds[c].status == Active {
      var t := RetireCredential(s, c, Suspended, now, cascadeNow);
      RetireFrame(s, c, Suspended, now, cascadeNow);
      RetiredOwners(s, t, c, Suspended, now);
      OwnersKeptKeepsBare(s, t);
    }
  }

  lemma RevokeKeepsBare(s: Core, c: Id, now: Time, cascadeNow: Time)
    requires RevokedUsersBare(s)
    ensures RevokedUsersBare(RevokeCredential(s, c, now, cascadeNow).state)
  {
    hide RevokedUsersBare, RetireCredential, OwnersKept;
    if c in s.creds && s.creds[c].status != Revoked {
      var t := RetireCredential(s, c, Revoked, now, cascadeNow);
      RetireFrame(s, c, Revoked, now, cascadeNow);
      RetiredOwners(s, t, c, Revoked, now);
      OwnersKeptKeepsBare(s, t);
    }
  }

  lemma InsertKeepsBare(s: Core, s': Core, c: Credential)
    requires RevokedUsersBare(s) && s'.users == s.users && s'.creds == s.creds[c.id := c]
    requires c.usrId in s.users && s.users[c.usrId].status != Revoked
    ensures RevokedUsersBare(s')
  {
    forall d | d in s'.creds && s'.creds[d].status == Active
      ensures OwnerNotRevoked(s', d)
    {
      assert d != c.id ==> OwnerNotRevoked(s, d);
    }
  }

  lemma CreateKeepsBare(s: Core, u: Id, identifier: string, m: Material, newId: Id, now: Time)
    requires RevokedUsersBare(s)
    ensures RevokedUsersBare(CreateCredential(s, u, identifier, m, newId, now).state)
  {
    hide RevokedUsersBare, IdentifierKey, TooLong;
    var o := CreateCredential(s, u, identifier, m, newId, now);
    if o.result.Ok? {
      InsertKeepsBare(s, o.state, o.result.value);
    }
  }

  lemma RotateKeepsBare(s: Core, c: Id, m: Material, newId: Id, now: Time, cascadeNow: Time)
    requires RevokedUsersBare(s) && newId !in s.creds
    ensures RevokedUsersBare(RotateCredential(s, c, m, newId, now, cascadeNow).state)
  {
    if c in s.creds && s.creds[c].status == Active && s.creds[c].Type() == m.Type() {
      assert OwnerNotRevoked(s, c);
      hide RevokedUsersBare, OwnersKept, IdentifierKey, TooLong, RetireCredential;
      var s1 := RetireForRotation(s, c, now, cascadeNow);
      RetireFrame(s, c, Revoked, now, cascadeNow);
      RetiredOwners(s, s1, c, Revoked, now);
      OwnersKeptKeepsBare(s, s1);
      if !m.IsTooLong() {
        var d := Credential(newId, s.creds[c].usrId, s.creds[c].identifier, Active, Some(c), m.Details(), now, now);
        InsertKeepsBare(s1, InsertCredential(s1, d, m), d);
      }
    }
  }

  /** `revoke_user` keeps the property for the other users too. */
  lemma RevokeUserKeepsBare(s: Core, u: Id, now: Time, cascadeNow: Time)
    requires RevokedUsersBare(s)
    ensures RevokedUsersBare(RevokeUser(s, u, now, cascadeNow).state)
  {
    if u in s.users && s.users[u].status != Revoked {
      RevokedUserState(s, u, now, cascadeNow);
      hide RevokeUser;
      var s' := RevokeUser(s, u, now, cascadeNow).state;
      forall c | c in s'.creds && s'.creds[c].status == Active
        ensures OwnerNotRevoked(s', c)
      {
        assert c !in ActiveCredentialsOfUser(s, u) && OwnerNotRevoked(s, c);
      }
    }
  }

  /** `reinstate_credential` goes through although the user is REVOKED: it asks only that the
      credential be SUSPENDED and its key free. */
  predicate Revives(s: Core, c: Id) {
    && c in s.creds && s.creds[c].status == Suspended && s.creds[c].Key() !in s.activeCred
    && s.creds[c].usrId in s.users && s.users[s.creds[c].usrId].status == Revoked
  }

  lemma Reinstated(s: Core, c: Id, now: Time)
    requires c in s.creds && s.creds[c].status == Suspended && s.creds[c].Key() !in s.activeCred
    ensures var s', restored := ReinstateCredential(s, c, now).state, s.creds[c].WithStatus(Active, now);
      s' == s.(creds := s.creds[c := restored], activeCred := s.activeCred[s.creds[c].Key() := c])
  {
    hide IdentifierKey;
  }

  /** `reinstate_credential` breaks the property exactly when it revives a credential. */
  lemma ReinstateKeepsBareExactly(s: Core, c: Id, now: Time)
    requires Inv(s) && RevokedUsersBare(s)
    ensures RevokedUsersBare(ReinstateCredential(s, c, now).state) <==> !Revives(s, c)
  {
    OwnersExist(s);
    hide Inv, IdentifierKey;
    var s' := ReinstateCredential(s, c, now).state;
    if ReinstateCredential(s, c, now).result.Ok? {
      assert s'.creds[c].status == Active;
      assert OwnerNotRevoked(s', c) <==> OwnerNotRevoked(s, c);
      forall d | d in s'.creds && s'.creds[d].status == Active && d != c
        ensures OwnerNotRevoked(s', d)
      {
        assert OwnerNotRevoked(s, d);
      }
    }
  }

  lemma OwnersExist(s: Core)
    requires Inv(s)
    ensures forall c :: c in s.creds ==> s.creds[c].usrId in s.users
  {
    hide SessionsKeyed, LiveSessionsBacked, TokenMaps, TokensIssued, IndexSound, SecretsPresent, ReplacesLinks,
         RefreshLinks;
  }

  predicate RevivesCredential(s: Machine.State, op: Machine.Op) {
    op.ReinstateCredential? && Revives(s.core, op.credId)
  }

  lemma CredentialStepKeepsBareExactly(s: Machine.State, op: Machine.Op)
    requires Inv(s.core) && Machine.IsFresh(s, op) && RevokedUsersBare(s.core) && Machine.IsCredentialOp(op)
    ensures RevokedUsersBare(Machine.CredentialStep(s, op).state.core) <==> !RevivesCredential(s, op)
  {
    hide Inv, RevokedUsersBare, OwnersKept, OwnerNotRevoked, Revives, CreateCredential, RotateCredential,
         SuspendCredential, ReinstateCredential, RevokeCredential;
    match op
    case CreateCredential(u, identifier, m, newId, now) => CreateKeepsBare(s.core, u, identifier, m, newId, now);
    case RotateCredential(c, m, newId, now, cn) => RotateKeepsBare(s.core, c, m, newId, now, cn);
    case SuspendCredential(c, now, cn) => SuspendKeepsBare(s.core, c, now, cn);
    case ReinstateCredential(c, now) => ReinstateKeepsBareExactly(s.core, c, now);
    case RevokeCredential(c, now, cn) => RevokeKeepsBare(s.core, c, now, cn);
  }

  lemma RevocationKeepsBare(s: Machine.State, op: Machine.Op)
    requires RevokedUsersBare(s.core) && op.RevokeUser?
    ensures RevokedUsersBare(Machine.UserStep(s, op).state.core)
  {
    hide RevokedUsersBare, RevokeUser, Pats.RevokePatsOfUser;
    RevokeUserKeepsBare(s.core, op.usrId, op.now, op.cascadeNow);
  }

  /** Every step keeps REVOKED users without ACTIVE credentials, except exactly such a
      reinstatement. */
  lemma StepKeepsRevokedUsersBareExactly(env: Machine.Env, s: Machine.State, op: Machine.Op)
    requires Machine.IsEnv(env) && Machine.Inv(s) && Machine.IsFresh(s, op) && RevokedUsersBare(s.core)
    ensures RevokedUsersBare(Machine.Step(env, s, op).state.core) <==> !RevivesCredential(s, op)
  {
    hide Inv, MfaInvariants.Inv, PatInvariants.Inv, Machine.IsEnv, Machine.IsFresh, RevokedUsersBare, OwnersKept,
         Revives, Machine.UserStep, Machine.CredentialStep, Machine.SessionStep, Machine.MfaStep, Machine.PatStep;
    if Machine.IsCredentialOp(op) {
      CredentialStepKeepsBareExactly(s, op);
    } else if op.RevokeUser? {
      RevocationKeepsBare(s, op);
    } else {
      RunTheorems.OtherStepsLeaveIndex(env, s, op);
      SameCredsKeepOwners(s.core, Machine.Step(env, s, op).state.core);
      OwnersKeptKeepsBare(s.core, Machine.Step(env, s, op).state.core);
    }
  }

  predicate NeverRevives(env: Machine.Env, s: Machine.State, ops: seq<Machine.Op>)
    requires Machine.IsEnv(env)
    decreases |ops|
  {
    ops != [] ==> !RevivesCredential(s, ops[0]) && NeverRevives(env, Machine.Step(env, s, ops[0]).state, ops[1..])
  }

  /** On runs without such a step no REVOKED user has an ACTIVE credential. */
  lemma {:induction false} RunKeepsRevokedUsersBare(env: Machine.Env, s: Machine.State, ops: seq<Machine.Op>)
    requires Machine.IsEnv(env) && Machine.Inv(s) && Machine.IsFreshRun(env, s, ops) && NeverRevives(env, s, ops)
    requires RevokedUsersBare(s.core)
    ensures RevokedUsersBare(Machine.Run(env, s, ops).core)
    decreases |ops|
  {
    hide Machine.Inv, Machine.Step, Machine.IsFresh, Machine.IsEnv, RevivesCredential, RevokedUsersBare;
    if ops != [] {
      Machine.StepKeeps(env, s, ops[0]);
      StepKeepsRevokedUsersBareExactly(env, s, ops[0]);
      RunKeepsRevokedUsersBare(env, Machine.Step(env, s, ops[0]).state, ops[1..]);
    }
  }

  // ----- What a revived credential is good for -----

  /** It opens no session, for any user named in the call. */
  lemma OpensNoSession(s: Core, c: Id, usrId: Id, ttl: int, newId: Id, token: string, now: Time)
    requires Inv(s) && c in s.creds && s.creds[c].usrId in s.users && s.users[s.creds[c].usrId].status != Active
    ensures var o := CreateSession(s, usrId, c, ttl, newId, token, now);
      o.result.Raise? && o.state == s
  {
    hide Inv, InsertSession;
  }

  /** But its password verifies again. */
  lemma RevivedPasswordVerifies(s: Core, c: Id, now: Time, password: string)
    requires Inv(s) && Revives(s, c) && s.creds[c].Type() == Password && !TooLong(password)
    ensures c in s.passwordHashes
    ensures var s' := ReinstateCredential(s, c, now).state;
      VerifyPassword(s', s.creds[c].identifier, password)
        == if s.passwordHashes[c] == Argon2id(password) then Ok(Verified(s.creds[c].usrId, c))
            else Raise(InvalidCredential)
  {
    SecretOf(s, c);
    Reinstated(s, c, now);
    hide Inv, ReinstateCredential, TooLong, IdentifierKey;
  }

  lemma SecretOf(s: Core, c: Id)
    requires Inv(s) && c in s.creds && s.creds[c].status != Revoked
    ensures s.creds[c].id == c
    ensures s.creds[c].Type() == Password ==> c in s.passwordHashes
  {
  }

  /** And it keeps its identifier from everybody: creating a credential under it raises
      DuplicateCredential for every ACTIVE user. */
  lemma RevivedCredentialBlocks(s: Core, c: Id, now: Time, usrId: Id, m: Material, newId: Id, later: Time)
    requires Revives(s, c) && m.Type() == s.creds[c].Type()
    requires usrId in s.users && s.users[usrId].status == Active
    ensures var s' := ReinstateCredential(s, c, now).state;
      CreateCredential(s', usrId, s.creds[c].identifier, m, newId, later) == Outcome(s', Raise(DuplicateCredential))
  {
    Reinstated(s, c, now);
    hide ReinstateCredential, IdentifierKey, InsertCredential;
  }

  // ----- Unrevoked tokens of REVOKED users -----

  predicate IsRevokedUser(users: map<Id, User>, u: Id) {
    u in users && users[u].status == Revoked
  }

  /** No unrevoked personal access token belongs to a REVOKED user. */
  ghost predicate Tokenless(users: map<Id, User>, pats: map<Id, Pats.Pat>) {
    forall p :: p in pats && pats[p].revokedAt.None? ==> !IsRevokedUser(users, pats[p].usrId)
  }

  /** `create_pat` for a REVOKED user with a valid name and expiry: it asks only that the user
      exist. */
  predicate MintsForRevoked(s: Machine.State, op: Machine.Op) {
    && op.CreatePat? && IsRevokedUser(s.core.users, op.usrId)
    && 1 <= |op.patName| <= Pats.MAX_NAME_LENGTH
    && (op.expiresAt.Some? ==> op.now < op.expiresAt.value <= op.now + Pats.MAX_LIFETIME_SECONDS * SECOND)
  }

  lemma CreationKeepsTokenlessExactly(s: Machine.State, op: Machine.Op)
    requires Tokenless(s.core.users, s.pats.pats) && op.CreatePat?
    ensures Tokenless(s.core.users, Machine.PatStep(s, op).state.pats.pats) <==> !MintsForRevoked(s, op)
  {
    var t := Machine.PatStep(s, op).state.pats.pats;
    if Pats.CheckNewPat(s.core.users, op.usrId, op.patName, op.expiresAt, op.now).None? {
      assert op.newId in t && t[op.newId].revokedAt.None? && t[op.newId].usrId == op.usrId;
    }
  }

  lemma TokenUseKeepsTokenless(s: Machine.State, op: Machine.Op)
    requires Tokenless(s.core.users, s.pats.pats) && (op.VerifyPatToken? || op.RevokePat?)
    ensures Tokenless(s.core.users, Machine.PatStep(s, op).state.pats.pats)
  {
  }

  lemma RetiredForRotation(s: Core, c: Id, now: Time, cascadeNow: Time)
    requires c in s.creds
    ensures RetireForRotation(s, c, now, cascadeNow).users == s.users
  {
    hide RetireCredential;
    RetireFrame(s, c, Revoked, now, cascadeNow);
  }

  lemma RotationLeavesUsers(s: Core, c: Id, m: Material, newId: Id, now: Time, cascadeNow: Time)
    ensures RotateCredential(s, c, m, newId, now, cascadeNow).state.users == s.users
  {
    hide RetireForRotation, TooLong, Credential.Key;
    if c in s.creds {
      RetiredForRotation(s, c, now, cascadeNow);
    }
  }

  lemma RetirementLeavesUsers(s: Core, c: Id, now: Time, cascadeNow: Time)
    ensures SuspendCredential(s, c, now, cascadeNow).state.users == s.users
    ensures RevokeCredential(s, c, now, cascadeNow).state.users == s.users
  {
    hide RetireCredential;
    if c in s.creds {
      RetireFrame(s, c, Suspended, now, cascadeNow);
      RetireFrame(s, c, Revoked, now, cascadeNow);
    }
  }

  lemma CreationLeavesUsers(s: Core, u: Id, identifier: string, m: Material, newId: Id, now: Time)
    ensures CreateCredential(s, u, identifier, m, newId, now).state.users == s.users
  {
    hide TooLong, IdentifierKey, Credential.Key;
  }

  lemma ReinstatementLeavesUsers(s: Core, c: Id, now: Time)
    ensures ReinstateCredential(s, c, now).state.users == s.users
  {
    hide IdentifierKey, Credential.Key, Credential.WithStatus;
  }

  lemma CredentialStepsLeaveUsers(s: Machine.State, op: Machine.Op)
    requires Machine.IsCredentialOp(op)
    ensures Machine.CredentialStep(s, op).state.core.users == s.core.users
  {
    hide CreateCredential, RotateCredential, SuspendCredential, ReinstateCredential, RevokeCredential;
    match op
    case CreateCredential(u, identifier, m, newId, now) =>
      CreationLeavesUsers(s.core, u, identifier, m, newId, now);
    case RotateCredential(c, m, newId, now, cn) => RotationLeavesUsers(s.core, c, m, newId, now, cn);
    case SuspendCredential(c, now, cn) => RetirementLeavesUsers(s.core, c, now, cn);
    case ReinstateCredential(c, now) => ReinstatementLeavesUsers(s.core, c, now);
    case RevokeCredential(c, now, cn) => RetirementLeavesUsers(s.core, c, now, cn);
  }

  lemma RevocationKeepsTokenless(s: Machine.State, op: Machine.Op)
    requires Tokenless(s.core.users, s.pats.pats) && op.RevokeUser?
    ensures var t := Machine.UserStep(s, op).state;
      Tokenless(t.core.users, t.pats.pats)
  {
    var t := Machine.UserStep(s, op).state;
    if op.usrId in s.core.users && s.core.users[op.usrId].status != Revoked {
      RevokedUserState(s.core, op.usrId, op.now, op.cascadeNow);
      hide RevokeUser;
      forall p | p in t.pats.pats && t.pats.pats[p].revokedAt.None?
        ensures !IsRevokedUser(t.core.users, t.pats.pats[p].usrId)
      {
        assert s.pats.pats[p] == t.pats.pats[p] && !IsRevokedUser(s.core.users, s.pats.pats[p].usrId);
      }
    }
  }

  lemma NoneRevokedKeepsTokenless(users: map<Id, User>, users': map<Id, User>, pats: map<Id, Pats.Pat>)
    requires Tokenless(users, pats) && RunTheorems.NoneRevoked(users, users')
    ensures Tokenless(users', pats)
  {
  }

  lemma OtherStepsKeepTokenless(env: Machine.Env, s: Machine.State, op: Machine.Op)
    requires Machine.IsEnv(env) && Machine.IsFresh(s, op) && Tokenless(s.core.users, s.pats.pats)
    requires !Machine.IsPatOp(op) && !op.RevokeUser?
    ensures var t := Machine.Step(env, s, op).state;
      Tokenless(t.core.users, t.pats.pats)
  {
    hide Machine.IsEnv, Machine.IsFresh, Tokenless, RunTheorems.NoneRevoked, Machine.UserStep, Machine.CredentialStep,
         Machine.SessionStep, Machine.MfaStep, Machine.PatStep;
    if Machine.IsCredentialOp(op) {
      CredentialStepsLeaveUsers(s, op);
    } else {
      RunTheorems.OtherStepsLeaveIndex(env, s, op);
      NoneRevokedKeepsTokenless(s.core.users, Machine.Step(env, s, op).state.core.users, s.pats.pats);
    }
  }

  /** Every step keeps REVOKED users without unrevoked tokens, except exactly such a creation. */
  lemma StepKeepsTokenlessExactly(env: Machine.Env, s: Machine.State, op: Machine.Op)
    requires Machine.IsEnv(env) && Machine.IsFresh(s, op) && Tokenless(s.core.users, s.pats.pats)
    ensures var t := Machine.Step(env, s, op).state;
      Tokenless(t.core.users, t.pats.pats) <==> !MintsForRevoked(s, op)
  {
    hide Machine.IsEnv, Machine.IsFresh, Tokenless, IsRevokedUser, Machine.UserStep, Machine.CredentialStep,
         Machine.SessionStep, Machine.MfaStep, Machine.PatStep;
    if op.CreatePat? {
      CreationKeepsTokenlessExactly(s, op);
    } else if op.VerifyPatToken? || op.RevokePat? {
      TokenUseKeepsTokenless(s, op);
    } else if op.RevokeUser? {
      RevocationKeepsTokenless(s, op);
    } else {
      OtherStepsKeepTokenless(env, s, op);
    }
  }

  predicate NeverMints(env: Machine.Env, s: Machine.State, ops: seq<Machine.Op>)
    requires Machine.IsEnv(env)
    decreases |ops|
  {
    ops != [] ==> !MintsForRevoked(s, ops[0]) && NeverMints(env, Machine.Step(env, s, ops[0]).state, ops[1..])
  }

  /** On runs without such a step no REVOKED user has an unrevoked token. */
  lemma {:induction false} RunKeepsTokenless(env: Machine.Env, s: Machine.State, ops: seq<Machine.Op>)
    requires Machine.IsEnv(env) && Machine.IsFreshRun(env, s, ops) && NeverMints(env, s, ops)
    requires Tokenless(s.core.users, s.pats.pats)
    ensures var t := Machine.Run(env, s, ops);
      Tokenless(t.core.users, t.pats.pats)
    decreases |ops|
  {
    hide Machine.Step, Machine.IsFresh, Machine.IsEnv, MintsForRevoked, Tokenless;
    if ops != [] {
      StepKeepsTokenlessExactly(env, s, ops[0]);
      RunKeepsTokenless(env, Machine.Step(env, s, ops[0]).state, ops[1..]);
    }
  }

  /** And so no token of a REVOKED user verifies there. */
  lemma NoTokenOfRevokedUserVerifies(env: Machine.Env, ops: seq<Machine.Op>, token: string, now: Time)
    requires Machine.IsEnv(env) && Machine.IsFreshRun(env, Machine.EMPTY, ops) && NeverMints(env, Machine.EMPTY, ops)
    ensures var t := Machine.Run(env, Machine.EMPTY, ops); var r := Pats.VerifyPatToken(t.pats, token, now).result;
      r.Ok? ==> !IsRevokedUser(t.core.users, r.value.usrId)
  {
    hide Machine.Step, Machine.Run, Machine.IsFreshRun, Machine.IsEnv, NeverMints, Inv, MfaInvariants.Inv;
    assert Tokenless(Machine.EMPTY.core.users, Machine.EMPTY.pats.pats);
    RunKeepsTokenless(env, Machine.EMPTY, ops);
    Machine.ReachableStatesSatisfyInv(env, ops);
    VerifiedOwner(Machine.Run(env, Machine.EMPTY, ops).pats, token, now);
    hide PatInvariants.Inv, Pats.VerifyPatToken;
  }

  lemma VerifiedOwner(s: Pats.State, token: string, now: Time)
    requires PatInvariants.Inv(s)
    ensures var r := Pats.VerifyPatToken(s, token, now).result;
      r.Ok? ==>
        && r.value.patId in s.pats && s.pats[r.value.patId].usrId == r.value.usrId
        && s.pats[r.value.patId].revokedAt.None?
  {
    hide PatInvariants.Inv, TooLong, Pats.RecordUse, Pats.RecordsUse;
  }
}
