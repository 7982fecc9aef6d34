/** What becomes of one record: a user, a session, a credential and its secret, followed through an
    operation and through a run by looking at the record and the operation alone. */
module Fates {
  import opened Prelude
  import opened Identity
  import opened IdentityInvariants
  import IndexTheorems
  import Machine
  import MfaInvariants
  import PatInvariants
  import Pats
  import PatToken
  import RevokedUsers

  type Env = Machine.Env

  type Op = Machine.Op

  // ----- Users -----

  /** The record of user `u`, if any, after an operation. */
  function UserFate(user: Option<User>, op: Op, u: Id): Option<User> {
    match op
    case CreateUser(displayName, newId, now) =>
      if newId == u then Some(User(u, Active, now, now, displayName)) else user
    case UpdateUser(v, name, now) =>
      if v == u && user.Some? && user.value.status != Revoked && name.Some? && name.value != user.value.displayName
      then Some(user.value.(displayName := name.value, updatedAt := now)) else user
    case SuspendUser(v, now, _) =>
      if v == u && user.Some? && user.value.status == Active
      then Some(user.value.(status := Suspended, updatedAt := now)) else user
    case ReinstateUser(v, now) =>
      if v == u && user.Some? && user.value.status == Suspended
      then Some(user.value.(status := Active, updatedAt := now)) else user
    case RevokeUser(v, now, _) =>
      if v == u && user.Some? && user.value.status != Revoked
      then Some(user.value.(status := Revoked, updatedAt := now)) else user
    case _ => user
  }

  /** The user dictionary is as it was, or has one record put in. */
  predicate Puts(users: map<Id, User>, users': map<Id, User>, v: Id, user: Option<User>) {
    users' == if user.Some? then users[v := user.value] else users
  }

  predicate OnlyUsers(s: Core, t: Core) {
    && t.sessions == s.sessions && t.creds == s.creds
    && t.passwordHashes == s.passwordHashes && t.passkeyKeys == s.passkeyKeys
  }

  lemma CreatedUsers(s: Core, name: Option<string>, v: Id, now: Time)
    ensures Puts(s.users, CreateUser(s, name, v, now).state.users, v, Some(User(v, Active, now, now, name)))
    ensures OnlyUsers(s, CreateUser(s, name, v, now).state)
  {
  }

  lemma RenamedUsers(s: Core, v: Id, name: Option<Option<string>>, now: Time)
    ensures Puts(s.users, UpdateUser(s, v, name, now).state.users, v,
                 if v in s.users && s.users[v].status != Revoked && name.Some? && name.value != s.users[v].displayName
                 then Some(s.users[v].(displayName := name.value, updatedAt := now)) else None)
    ensures OnlyUsers(s, UpdateUser(s, v, name, now).state)
  {
  }

  lemma ReinstatedUsers(s: Core, v: Id, now: Time)
    ensures Puts(s.users, ReinstateUser(s, v, now).state.users, v,
                 if v in s.users && s.users[v].status == Suspended
                 then Some(s.users[v].(status := Active, updatedAt := now)) else None)
    ensures OnlyUsers(s, ReinstateUser(s, v, now).state)
  {
  }

  lemma SuspendedUser(s: Core, v: Id, now: Time, cascadeNow: Time, u: Id)
    ensures Lookup(SuspendUser(s, v, now, cascadeNow).state.users, u)
         == UserFate(Lookup(s.users, u), Machine.SuspendUser(v, now, cascadeNow), u)
  {
    hide RevokeSessions, LiveSessionsOfUser;
    if v in s.users {
      IndexTheorems.RevokeSessionsFrame(WithUserStatus(s, v, Suspended, now), LiveSessionsOfUser(s, v), cascadeNow);
    }
  }

  lemma RevokedUser(s: Core, v: Id, now: Time, cascadeNow: Time, u: Id)
    ensures Lookup(RevokeUser(s, v, now, cascadeNow).state.users, u)
         == UserFate(Lookup(s.users, u), Machine.RevokeUser(v, now, cascadeNow), u)
  {
    if v in s.users && s.users[v].status != Revoked {
      IndexTheorems.RevokedUserState(s, v, now, cascadeNow);
    }
    hide RevokeSessions, RevokeCredentials, WithUserStatus;
  }

  lemma UserStepFate(s: Machine.State, op: Op, u: Id)
    requires Machine.IsUserOp(op)
    ensures Lookup(Machine.UserStep(s, op).state.core.users, u) == UserFate(Lookup(s.core.users, u), op, u)
  {
    hide CreateUser, UpdateUser, SuspendUser, ReinstateUser, RevokeUser, Pats.RevokePatsOfUser;
    match op
    case CreateUser(name, v, now) => CreatedUsers(s.core, name, v, now);
    case UpdateUser(v, name, now) => RenamedUsers(s.core, v, name, now);
    case SuspendUser(v, now, cascadeNow) => SuspendedUser(s.core, v, now, cascadeNow, u);
    case ReinstateUser(v, now) => ReinstatedUsers(s.core, v, now);
    case RevokeUser(v, now, cascadeNow) => RevokedUser(s.core, v, now, cascadeNow, u);
  }

  lemma SessionStepLeavesUsers(s: Machine.State, op: Op)
    requires Machine.IsSessionOp(op)
    ensures Machine.SessionStep(s, op).state.core.users == s.core.users
    ensures Machine.SessionStep(s, op).state.core.creds == s.core.creds
  {
    hide CreateSession, RefreshSession, RevokeSession;
    match op
    case CreateSession(u, c, ttl, newId, token, now) =>
      IndexTheorems.CreateSessionFrame(s.core, u, c, ttl, newId, token, now);
    case RefreshSession(i, newId, token, checkNow, now) =>
      IndexTheorems.RefreshSessionFrame(s.core, i, newId, token, checkNow, now);
    case RevokeSession(i, now) => IndexTheorems.RevokeSessionFrame(s.core, i, now);
  }

  /** Only the operations that name a user touch its record, and what they make of it depends on
      nothing else. */
  lemma UserFollowsFate(env: Env, s: Machine.State, op: Op, u: Id)
    requires Machine.IsEnv(env)
    ensures Lookup(Machine.Step(env, s, op).state.core.users, u) == UserFate(Lookup(s.core.users, u), op, u)
  {
    hide Machine.IsEnv, Machine.UserStep, Machine.CredentialStep, Machine.SessionStep, Machine.MfaStep, Machine.PatStep;
    if Machine.IsUserOp(op) {
      UserStepFate(s, op, u);
    } else if Machine.IsCredentialOp(op) {
      RevokedUsers.CredentialStepsLeaveUsers(s, op);
    } else if Machine.IsSessionOp(op) {
      SessionStepLeavesUsers(s, op);
    }
  }

  function UserFateOnRun(user: Option<User>, ops: seq<Op>, u: Id): Option<User>
    decreases |ops|
  {
    if ops == [] then user else UserFateOnRun(UserFate(user, ops[0], u), ops[1..], u)
  }

  /** So the record of a user after a run can be read off the operations that name it. */
  lemma {:induction false} UserFollowsFateOnRun(env: Env, s: Machine.State, ops: seq<Op>, u: Id)
    requires Machine.IsEnv(env)
    ensures Lookup(Machine.Run(env, s, ops).core.users, u) == UserFateOnRun(Lookup(s.core.users, u), ops, u)
    decreases |ops|
  {
    hide Machine.IsEnv, Machine.Step, UserFate, Lookup;
    if ops != [] {
      UserFollowsFate(env, s, ops[0], u);
      UserFollowsFateOnRun(env, Machine.Step(env, s, ops[0]).state, ops[1..], u);
    }
  }

  // ----- Sessions -----

  /** When the operation revokes the session of credential type `t`, if it is not revoked yet. */
  function EndTime(ses: Session, t: CredentialType, op: Op): Option<Time> {
    match op
    case RevokeSession(i, now) => if i == ses.id then Some(now) else None
    case RefreshSession(i, _, _, checkNow, now) => if i == ses.id && checkNow <= ses.expiresAt then Some(now) else None
    case SuspendCredential(c, _, cascadeNow) => if c == ses.credId then Some(cascadeNow) else None
    case RevokeCredential(c, _, cascadeNow) => if c == ses.credId then Some(cascadeNow) else None
    case RotateCredential(c, m, _, _, cascadeNow) =>
      if c == ses.credId && MaterialType(m) == t then Some(cascadeNow) else None
    case SuspendUser(u, _, cascadeNow) => if u == ses.usrId then Some(cascadeNow) else None
    case RevokeUser(u, _, cascadeNow) => if u == ses.usrId then Some(cascadeNow) else None
    case _ => None
  }

  function MaterialType(m: Material): CredentialType {
    if m.NewPassword? then Password else if m.NewPasskey? then Passkey else Oidc
  }

  function SessionFate(ses: Session, t: CredentialType, op: Op): Session {
    if ses.revokedAt.None? && EndTime(ses, t, op).Some? then ses.(revokedAt := EndTime(ses, t, op)) else ses
  }

  function TypeOf(s: Core, i: Id): CredentialType
    requires i in s.sessions && s.sessions[i].credId in s.creds
  {
    s.creds[s.sessions[i].credId].Type()
  }

  /** Session `i` is as it was, or revoked at the given time when it was not revoked yet. */
  predicate EndsAt(s: Core, t: Core, i: Id, end: Option<Time>)
    requires i in s.sessions
  {
    && i in t.sessions
    && t.sessions[i] == if s.sessions[i].revokedAt.None? && end.Some? then s.sessions[i].(revokedAt := end)
                        else s.sessions[i]
  }

  /** Who a session belongs to, and that both are ACTIVE while it is live. */
  lemma Owner(s: Core, i: Id)
    requires Inv(s) && i in s.sessions
    ensures s.sessions[i].id == i && s.sessions[i].credId in s.creds
    ensures s.sessions[i].IsLive() ==> Backed(s.users, s.creds, s.sessions[i])
  {
    hide UsersKeyed, CredsKeyed, TokenMaps, TokensIssued, IndexSound, SecretsPresent, ReplacesLinks, RefreshLinks,
         Backed;
    assert SessionKeyed(s.creds, i, s.sessions[i]);
  }

  lemma StampedEnds(s: Core, t: Core, ids: set<Id>, now: Time, i: Id)
    requires i in s.sessions && t.sessions == Stamped(s.sessions, ids, now)
    requires i in ids ==> s.sessions[i].IsLive()
    ensures EndsAt(s, t, i, if i in ids then Some(now) else None)
  {
  }

  lemma SuspensionStamps(s: Core, u: Id, now: Time, cascadeNow: Time)
    requires u in s.users && s.users[u].status == Active
    ensures SuspendUser(s, u, now, cascadeNow).state.sessions
         == Stamped(s.sessions, LiveSessionsOfUser(s, u), cascadeNow)
  {
    hide Stamped, HashesOf, LiveSessionsOfUser;
  }

  lemma SuspendedUserSessions(s: Core, u: Id, now: Time, cascadeNow: Time, i: Id)
    requires Inv(s) && i in s.sessions
    ensures EndsAt(s, SuspendUser(s, u, now, cascadeNow).state, i,
                   if u == s.sessions[i].usrId then Some(cascadeNow) else None)
  {
    hide Inv, Stamped;
    Owner(s, i);
    if u in s.users && s.users[u].status == Active {
      SuspensionStamps(s, u, now, cascadeNow);
      hide SuspendUser;
      StampedEnds(s, SuspendUser(s, u, now, cascadeNow).state, LiveSessionsOfUser(s, u), cascadeNow, i);
    } else {
      hide RevokeSessions;
    }
  }

  lemma RevokedUserSessions(s: Core, u: Id, now: Time, cascadeNow: Time, i: Id)
    requires Inv(s) && i in s.sessions
    ensures EndsAt(s, RevokeUser(s, u, now, cascadeNow).state, i,
                   if u == s.sessions[i].usrId then Some(cascadeNow) else None)
  {
    hide Inv, Stamped, HashesOf;
    Owner(s, i);
    var t := RevokeUser(s, u, now, cascadeNow).state;
    if u in s.users && s.users[u].status != Revoked {
      RevokedUsers.RevokedUserSessions(s, u, now, cascadeNow);
      hide RevokeUser;
      StampedEnds(s, t, LiveSessionsOfUser(s, u), cascadeNow, i);
    }
  }

  lemma RetiredSessions(s: Core, c: Id, status: Status, now: Time, cascadeNow: Time)
    requires c in s.creds
    ensures RetireCredential(s, c, status, now, cascadeNow).sessions
         == Stamped(s.sessions, LiveSessionsOfCredential(s, c), cascadeNow)
  {
    hide Stamped, HashesOf, LiveSessionsOfCredential;
  }

  lemma RetiredEnds(s: Core, t: Core, c: Id, status: Status, now: Time, cascadeNow: Time, i: Id)
    requires c in s.creds && i in s.sessions
    requires t.sessions == RetireCredential(s, c, status, now, cascadeNow).sessions
    ensures EndsAt(s, t, i, if c == s.sessions[i].credId then Some(cascadeNow) else None)
  {
    hide RetireCredential, Stamped;
    RetiredSessions(s, c, status, now, cascadeNow);
    StampedEnds(s, t, LiveSessionsOfCredential(s, c), cascadeNow, i);
  }

  lemma RetirementSessions(s: Core, c: Id, now: Time, cascadeNow: Time, i: Id)
    requires Inv(s) && i in s.sessions
    ensures EndsAt(s, SuspendCredential(s, c, now, cascadeNow).state, i,
                   if c == s.sessions[i].credId then Some(cascadeNow) else None)
    ensures EndsAt(s, RevokeCredential(s, c, now, cascadeNow).state, i,
                   if c == s.sessions[i].credId then Some(cascadeNow) else None)
  {
    hide Inv, RetireCredential;
    Owner(s, i);
    if c in s.creds {
      RetiredEnds(s, RetireCredential(s, c, Suspended, now, cascadeNow), c, Suspended, now, cascadeNow, i);
      RetiredEnds(s, RetireCredential(s, c, Revoked, now, cascadeNow), c, Revoked, now, cascadeNow, i);
    }
  }

  lemma InsertionLeavesSessions(s: Core, c: Credential, m: Material)
    ensures InsertCredential(s, c, m).sessions == s.sessions
  {
  }

  lemma RotationSessions(s: Core, c: Id, m: Material, newId: Id, now: Time, cascadeNow: Time, i: Id)
    requires Inv(s) && i in s.sessions
    ensures s.sessions[i].credId in s.creds
    ensures EndsAt(s, RotateCredential(s, c, m, newId, now, cascadeNow).state, i,
                   if c == s.sessions[i].credId && MaterialType(m) == TypeOf(s, i) then Some(cascadeNow) else None)
  {
    hide Inv, RetireForRotation, InsertCredential, TooLong;
    Owner(s, i);
    if c in s.creds && s.creds[c].status == Active && s.creds[c].Type() == m.Type() {
      var s1 := RetireForRotation(s, c, now, cascadeNow);
      RetiredForRotationSessions(s, c, now, cascadeNow);
      RetiredEnds(s, s1, c, Revoked, now, cascadeNow, i);
      if !m.IsTooLong() {
        var d := Credential(newId, s.creds[c].usrId, s.creds[c].identifier, Active, Some(c), m.Details(), now, now);
        InsertionLeavesSessions(s1, d, m);
      }
    }
  }

  lemma RetiredForRotationSessions(s: Core, c: Id, now: Time, cascadeNow: Time)
    requires c in s.creds
    ensures RetireForRotation(s, c, now, cascadeNow).sessions
         == RetireCredential(s, c, Revoked, now, cascadeNow).sessions
  {
    hide RetireCredential;
  }

  lemma CreationLeavesSessions(s: Core, u: Id, identifier: string, m: Material, newId: Id, now: Time)
    ensures CreateCredential(s, u, identifier, m, newId, now).state.sessions == s.sessions
  {
    hide IdentifierKey, TooLong, Credential.Key;
  }

  lemma ReinstatementLeavesSessions(s: Core, c: Id, now: Time)
    ensures ReinstateCredential(s, c, now).state.sessions == s.sessions
  {
    hide IdentifierKey, Credential.Key, Credential.WithStatus;
  }

  /** The records that the successful creation and refresh of sessions add. */
  function NewSession(s: Core, op: Op): Option<Session> {
    match op
    case CreateSession(u, c, ttl, newId, _, now) =>
      Some(Session(newId, u, c, now, now + ttl * 1_000_000, None))
    case RefreshSession(i, newId, _, _, now) =>
      if i !in s.sessions then None else
      var prev := s.sessions[i];
      Some(Session(newId, prev.usrId, prev.credId, now, now + (prev.expiresAt - prev.createdAt), None))
    case _ => None
  }

  lemma RevokedSessionsAt(s: Core, ids: set<Id>, now: Time, i: Id)
    requires i in s.sessions
    ensures (i in ids ==> s.sessions[i].IsLive()) ==>
      EndsAt(s, RevokeSessions(s, ids, now), i, if i in ids then Some(now) else None)
    ensures RevokeSessions(s, ids, now).sessions.Keys == s.sessions.Keys
  {
    hide HashesOf;
  }

  lemma InsertedSessions(s: Core, ses: Session, token: string)
    ensures InsertSession(s, ses, token).sessions == s.sessions[ses.id := ses]
  {
  }

  lemma RevokedSessionEnds(s: Core, j: Id, now: Time, i: Id)
    requires i in s.sessions
    ensures EndsAt(s, RevokeSession(s, j, now).state, i, if j == i then Some(now) else None)
  {
    hide RevokeSessions;
    if j in s.sessions && s.sessions[j].IsLive() {
      RevokedSessionsAt(s, {j}, now, i);
    }
  }

  lemma RefreshedSessionEnds(s: Core, j: Id, newId: Id, token: string, checkNow: Time, now: Time, i: Id)
    requires i in s.sessions && newId !in s.sessions
    ensures EndsAt(s, RefreshSession(s, j, newId, token, checkNow, now).state, i,
                   if j == i && checkNow <= s.sessions[i].expiresAt then Some(now) else None)
    ensures RefreshSession(s, j, newId, token, checkNow, now).result.Ok? ==>
      Lookup(RefreshSession(s, j, newId, token, checkNow, now).state.sessions, newId)
      == NewSession(s, Machine.RefreshSession(j, newId, token, checkNow, now))
  {
    hide RevokeSessions, InsertSession;
    if j in s.sessions && s.sessions[j].IsLive() && checkNow <= s.sessions[j].expiresAt {
      RevokedSessionsAt(s, {j}, now, i);
      var prev := s.sessions[j];
      InsertedSessions(RevokeSessions(s, {j}, now),
        Session(newId, prev.usrId, prev.credId, now, now + prev.Ttl(), None), token);
    }
  }

  lemma CreatedSessionAt(s: Core, u: Id, c: Id, ttl: int, newId: Id, token: string, now: Time, i: Id)
    requires i in s.sessions && newId !in s.sessions
    ensures EndsAt(s, CreateSession(s, u, c, ttl, newId, token, now).state, i, None)
    ensures CreateSession(s, u, c, ttl, newId, token, now).result.Ok? ==>
      Lookup(CreateSession(s, u, c, ttl, newId, token, now).state.sessions, newId)
      == NewSession(s, Machine.CreateSession(u, c, ttl, newId, token, now))
  {
    hide InsertSession;
    InsertedSessions(s, Session(newId, u, c, now, now + ttl * SECOND, None), token);
  }

  lemma UserStepEnds(s: Machine.State, op: Op, i: Id)
    requires Inv(s.core) && Machine.IsUserOp(op) && i in s.core.sessions
    ensures s.core.sessions[i].credId in s.core.creds
    ensures EndsAt(s.core, Machine.UserStep(s, op).state.core, i,
                   EndTime(s.core.sessions[i], TypeOf(s.core, i), op))
  {
    hide Inv, CreateUser, UpdateUser, SuspendUser, ReinstateUser, RevokeUser, Pats.RevokePatsOfUser;
    Owner(s.core, i);
    match op
    case CreateUser(name, newId, now) => CreatedUsers(s.core, name, newId, now);
    case UpdateUser(u, name, now) => RenamedUsers(s.core, u, name, now);
    case SuspendUser(u, now, cascadeNow) => SuspendedUserSessions(s.core, u, now, cascadeNow, i);
    case ReinstateUser(u, now) => ReinstatedUsers(s.core, u, now);
    case RevokeUser(u, now, cascadeNow) => RevokedUserSessions(s.core, u, now, cascadeNow, i);
  }

  lemma CredentialStepEnds(s: Machine.State, op: Op, i: Id)
    requires Inv(s.core) && Machine.IsCredentialOp(op) && i in s.core.sessions
    ensures s.core.sessions[i].credId in s.core.creds
    ensures EndsAt(s.core, Machine.CredentialStep(s, op).state.core, i,
                   EndTime(s.core.sessions[i], TypeOf(s.core, i), op))
  {
    hide Inv, CreateCredential, RotateCredential, SuspendCredential, ReinstateCredential, RevokeCredential;
    Owner(s.core, i);
    match op
    case CreateCredential(u, identifier, m, newId, now) =>
      CreationLeavesSessions(s.core, u, identifier, m, newId, now);
    case RotateCredential(c, m, newId, now, cascadeNow) => RotationSessions(s.core, c, m, newId, now, cascadeNow, i);
    case SuspendCredential(c, now, cascadeNow) => RetirementSessions(s.core, c, now, cascadeNow, i);
    case ReinstateCredential(c, now) => ReinstatementLeavesSessions(s.core, c, now);
    case RevokeCredential(c, now, cascadeNow) => RetirementSessions(s.core, c, now, cascadeNow, i);
  }

  lemma SessionStepEnds(s: Machine.State, op: Op, i: Id)
    requires Inv(s.core) && Machine.IsSessionOp(op) && Machine.IsFresh(s, op) && i in s.core.sessions
    ensures s.core.sessions[i].credId in s.core.creds
    ensures EndsAt(s.core, Machine.SessionStep(s, op).state.core, i,
                   EndTime(s.core.sessions[i], TypeOf(s.core, i), op))
  {
    hide Inv, CreateSession, RefreshSession, RevokeSession;
    Owner(s.core, i);
    match op
    case CreateSession(u, c, ttl, newId, token, now) => CreatedSessionAt(s.core, u, c, ttl, newId, token, now, i);
    case RefreshSession(j, newId, token, checkNow, now) =>
      RefreshedSessionEnds(s.core, j, newId, token, checkNow, now, i);
    case RevokeSession(j, now) => RevokedSessionEnds(s.core, j, now, i);
  }

  /** An operation revokes a live session exactly when it names it, its credential or its user in
      one of those ways, at the time of the cascade; otherwise it leaves the session alone. */
  lemma SessionFollowsFate(env: Env, s: Machine.State, op: Op, i: Id)
    requires Machine.IsEnv(env) && Inv(s.core) && Machine.IsFresh(s, op) && i in s.core.sessions
    ensures s.core.sessions[i].credId in s.core.creds
    ensures Lookup(Machine.Step(env, s, op).state.core.sessions, i)
         == Some(SessionFate(s.core.sessions[i], TypeOf(s.core, i), op))
  {
    hide Inv, Machine.IsEnv, Machine.IsFresh, Machine.UserStep, Machine.CredentialStep, Machine.SessionStep,
         Machine.MfaStep, Machine.PatStep;
    Owner(s.core, i);
    if Machine.IsUserOp(op) {
      UserStepEnds(s, op, i);
    } else if Machine.IsCredentialOp(op) {
      CredentialStepEnds(s, op, i);
    } else if Machine.IsSessionOp(op) {
      SessionStepEnds(s, op, i);
    }
  }

  function SessionFateOnRun(ses: Session, t: CredentialType, ops: seq<Op>): Session
    decreases |ops|
  {
    if ops == [] then ses else SessionFateOnRun(SessionFate(ses, t, ops[0]), t, ops[1..])
  }

  lemma SameOwner(sessions: Sessions, sessions': Sessions, i: Id)
    requires SessionsEvolve(sessions, sessions') && i in sessions
    ensures i in sessions' && sessions'[i].credId == sessions[i].credId
  {
  }

  lemma TypeIsKept(s: Core, t: Core, i: Id)
    requires Inv(s) && Inv(t) && Evolves(s, t) && i in s.sessions
    ensures s.sessions[i].credId in s.creds && i in t.sessions && t.sessions[i].credId in t.creds
    ensures TypeOf(s, i) == TypeOf(t, i)
  {
    hide Inv, UsersEvolve, SessionsEvolve, Grows;
    Owner(s, i);
    SameOwner(s.sessions, t.sessions, i);
    assert s.creds[s.sessions[i].credId].details == t.creds[s.sessions[i].credId].details;
  }

  /** So what becomes of a session on a run can be read off the operations of the run. */
  lemma {:induction false} SessionFollowsFateOnRun(env: Env, s: Machine.State, ops: seq<Op>, i: Id)
    requires Machine.IsEnv(env) && Machine.Inv(s) && Machine.IsFreshRun(env, s, ops) && i in s.core.sessions
    ensures s.core.sessions[i].credId in s.core.creds
    ensures Lookup(Machine.Run(env, s, ops).core.sessions, i)
         == Some(SessionFateOnRun(s.core.sessions[i], TypeOf(s.core, i), ops))
    decreases |ops|
  {
    CorePart(s);
    Owner(s.core, i);
    hide Inv, Evolves, Machine.Inv, Machine.IsEnv, Machine.IsFresh, Machine.Step, SessionFate, TypeOf, Lookup;
    if ops != [] {
      var t := Machine.Step(env, s, ops[0]).state;
      Machine.StepKeeps(env, s, ops[0]);
      CoreEvolves(s, t);
      CorePart(t);
      SessionFollowsFate(env, s, ops[0], i);
      TypeIsKept(s.core, t.core, i);
      SessionFollowsFateOnRun(env, t, ops[1..], i);
    }
  }

  lemma CorePart(s: Machine.State)
    requires Machine.Inv(s)
    ensures Inv(s.core)
  {
    hide Inv, MfaInvariants.Inv, PatInvariants.Inv;
  }

  lemma CoreEvolves(s: Machine.State, t: Machine.State)
    requires Machine.Evolves(s, t)
    ensures Evolves(s.core, t.core)
  {
    hide Evolves, MfaInvariants.Evolves, PatInvariants.Evolves;
  }

  /** Some operation of the run ends the session. */
  predicate EndsOnRun(ses: Session, t: CredentialType, ops: seq<Op>) {
    exists k :: 0 <= k < |ops| && EndTime(ses, t, ops[k]).Some?
  }

  lemma {:induction false} LiveUnlessEnded(ses: Session, t: CredentialType, ops: seq<Op>)
    ensures var after := SessionFateOnRun(ses, t, ops);
      && after == ses.(revokedAt := after.revokedAt)
      && (after.revokedAt.None? <==> ses.revokedAt.None? && !EndsOnRun(ses, t, ops))
    decreases |ops|
  {
    if ops != [] {
      var next := SessionFate(ses, t, ops[0]);
      LiveUnlessEnded(next, t, ops[1..]);
      forall k | 0 <= k < |ops|
        ensures EndTime(ses, t, ops[k]) == EndTime(next, t, ops[k])
      {
      }
      hide EndTime;
      if EndsOnRun(ses, t, ops) {
        var k :| 0 <= k < |ops| && EndTime(ses, t, ops[k]).Some?;
        assert k > 0 ==> ops[1..][k - 1] == ops[k];
      }
    }
  }

  // ----- Credentials and their secrets -----

  /** The record of a credential after an operation, given whether its key is free in the index and
      whether its owner is REVOKED. */
  function CredentialFate(cred: Credential, op: Op, free: bool, ownerRevoked: bool): Credential {
    match op
    case SuspendCredential(c, now, _) =>
      if c == cred.id && cred.status == Active then cred.(status := Suspended, updatedAt := now) else cred
    case ReinstateCredential(c, now) =>
      if c == cred.id && cred.status == Suspended && free then cred.(status := Active, updatedAt := now) else cred
    case RevokeCredential(c, now, _) =>
      if c == cred.id && cred.status != Revoked then cred.(status := Revoked, updatedAt := now) else cred
    case RotateCredential(_, _, _, now, _) =>
      if IsRotatedBy(cred, op) then cred.(status := Revoked, updatedAt := now) else cred
    case RevokeUser(u, now, _) =>
      if u == cred.usrId && cred.status == Active && !ownerRevoked then cred.(status := Revoked, updatedAt := now)
      else cred
    case _ => cred
  }

  predicate IsRotatedBy(cred: Credential, op: Op) {
    && op.RotateCredential? && op.credId == cred.id && cred.status == Active && MaterialType(op.material) == cred.Type()
  }

  predicate KeyIsFree(s: Core, cred: Credential) {
    IdentifierKey(cred.Type(), cred.identifier) !in s.activeCred
  }

  predicate OwnerRevoked(s: Core, cred: Credential) {
    cred.usrId in s.users && s.users[cred.usrId].status == Revoked
  }

  /** What becomes of a credential in the dictionaries: its record and its two possible secrets. */
  predicate TurnsInto(s: Core, t: Core, c: Id, cred: Credential, rotated: bool)
    requires c in s.creds
  {
    && Lookup(t.creds, c) == Some(cred)
    && Lookup(t.passwordHashes, c)
       == (if rotated && cred.Type() == Password then None else Lookup(s.passwordHashes, c))
    && Lookup(t.passkeyKeys, c) == (if rotated && cred.Type() == Passkey then None else Lookup(s.passkeyKeys, c))
  }

  /** Credential `c` follows its fate. */
  predicate Follows(s: Core, t: Core, op: Op, c: Id)
    requires c in s.creds
  {
    var cred := s.creds[c];
    TurnsInto(s, t, c, CredentialFate(cred, op, KeyIsFree(s, cred), OwnerRevoked(s, cred)), IsRotatedBy(cred, op))
  }

  lemma RetiredCredentials(s: Core, c: Id, status: Status, now: Time, cascadeNow: Time)
    requires c in s.creds
    ensures var t := RetireCredential(s, c, status, now, cascadeNow);
      && t.creds == s.creds[c := s.creds[c].(status := status, updatedAt := now)]
      && t.passwordHashes == s.passwordHashes && t.passkeyKeys == s.passkeyKeys
  {
    hide Stamped, HashesOf, LiveSessionsOfCredential, Credential.Key;
  }

  lemma SuspendedCredential(s: Core, d: Id, now: Time, cascadeNow: Time, c: Id)
    requires c in s.creds && s.creds[c].id == c
    ensures Follows(s, SuspendCredential(s, d, now, cascadeNow).state, Machine.SuspendCredential(d, now, cascadeNow), c)
  {
    hide RetireCredential, KeyIsFree, OwnerRevoked;
    if d in s.creds {
      RetiredCredentials(s, d, Suspended, now, cascadeNow);
    }
  }

  lemma RevokedCredential(s: Core, d: Id, now: Time, cascadeNow: Time, c: Id)
    requires c in s.creds && s.creds[c].id == c
    ensures Follows(s, RevokeCredential(s, d, now, cascadeNow).state, Machine.RevokeCredential(d, now, cascadeNow), c)
  {
    hide RetireCredential, KeyIsFree, OwnerRevoked;
    if d in s.creds {
      RetiredCredentials(s, d, Revoked, now, cascadeNow);
    }
  }

  lemma ReinstatedCredentials(s: Core, d: Id, now: Time)
    ensures var t := ReinstateCredential(s, d, now).state;
      && t.creds == (if d in s.creds && s.creds[d].status == Suspended && KeyIsFree(s, s.creds[d])
                     then s.creds[d := s.creds[d].(status := Active, updatedAt := now)] else s.creds)
      && t.passwordHashes == s.passwordHashes && t.passkeyKeys == s.passkeyKeys
  {
    hide IdentifierKey;
  }

  lemma InsertedCredentials(s: Core, d: Credential, m: Material)
    ensures var t := InsertCredential(s, d, m);
      && t.creds == s.creds[d.id := d]
      && t.activeCred == s.activeCred[IdentifierKey(d.Type(), d.identifier) := d.id]
      && t.passwordHashes
         == (if m.NewPassword? then s.passwordHashes[d.id := Argon2id(m.password)] else s.passwordHashes)
      && t.passkeyKeys == (if m.NewPasskey? then s.passkeyKeys[d.id := m.publicKey] else s.passkeyKeys)
  {
    hide IdentifierKey;
  }

  lemma ReinstatedCredential(s: Core, d: Id, now: Time, c: Id)
    requires c in s.creds && s.creds[c].id == c
    ensures Follows(s, ReinstateCredential(s, d, now).state, Machine.ReinstateCredential(d, now), c)
  {
    hide ReinstateCredential, KeyIsFree, OwnerRevoked;
    ReinstatedCredentials(s, d, now);
  }

  /** What is stored for a new credential. */
  predicate IsStored(s: Core, t: Core, d: Credential, m: Material) {
    && Lookup(t.creds, d.id) == Some(d)
    && Lookup(t.activeCred, IdentifierKey(d.Type(), d.identifier)) == Some(d.id)
    && Lookup(t.passwordHashes, d.id)
       == (if m.NewPassword? then Some(Argon2id(m.password)) else Lookup(s.passwordHashes, d.id))
    && Lookup(t.passkeyKeys, d.id) == (if m.NewPasskey? then Some(m.publicKey) else Lookup(s.passkeyKeys, d.id))
  }

  function DetailsOf(m: Material): Details {
    match m
    case NewPassword(_) => PasswordDetails
    case NewPasskey(_, signCount, rpId) => PasskeyDetails(signCount, rpId)
    case NewOidc(issuer, subject) => OidcDetails(issuer, subject)
  }

  lemma CreatedCredential(s: Core, u: Id, identifier: string, m: Material, newId: Id, now: Time, c: Id)
    requires newId !in s.creds
    ensures var o := CreateCredential(s, u, identifier, m, newId, now);
      var d := Credential(newId, u, identifier, Active, None, DetailsOf(m), now, now);
      && (c in s.creds ==> Follows(s, o.state, Machine.CreateCredential(u, identifier, m, newId, now), c))
      && (o.result.Ok? ==>
            o.result.value == d && IsStored(s, o.state, d, m) && o.state.creds.Keys == s.creds.Keys + {newId})
      && (o.result.Raise? ==> o.state == s)
  {
    hide InsertCredential, IdentifierKey, TooLong, KeyIsFree, OwnerRevoked;
    var d := Credential(newId, u, identifier, Active, None, DetailsOf(m), now, now);
    InsertedCredentials(s, d, m);
  }

  lemma RetiredForRotation(s: Core, c: Id, now: Time, cascadeNow: Time)
    requires c in s.creds
    ensures var t := RetireForRotation(s, c, now, cascadeNow);
      && t.creds == s.creds[c := s.creds[c].(status := Revoked, updatedAt := now)]
      && t.passwordHashes == (if s.creds[c].Type() == Password then s.passwordHashes - {c} else s.passwordHashes)
      && t.passkeyKeys == (if s.creds[c].Type() == Passkey then s.passkeyKeys - {c} else s.passkeyKeys)
  {
    hide RetireCredential;
    RetiredCredentials(s, c, Revoked, now, cascadeNow);
  }

  lemma RotatedCredential(s: Core, d: Id, m: Material, newId: Id, now: Time, cascadeNow: Time, c: Id)
    requires newId !in s.creds && (c in s.creds ==> s.creds[c].id == c)
    ensures var o, op := RotateCredential(s, d, m, newId, now, cascadeNow),
                         Machine.RotateCredential(d, m, newId, now, cascadeNow);
      && (c in s.creds ==> Follows(s, o.state, op, c))
      && (o.result.Ok? ==>
            && d in s.creds
            && var e := Credential(newId, s.creds[d].usrId, s.creds[d].identifier, Active, Some(d), DetailsOf(m), now,
                 now);
               o.result.value == e && IsStored(s, o.state, e, m) && o.state.creds.Keys == s.creds.Keys + {newId})
  {
    hide InsertCredential, RetireForRotation, IdentifierKey, TooLong, KeyIsFree, OwnerRevoked;
    if d in s.creds {
      RetiredForRotation(s, d, now, cascadeNow);
      var e := Credential(newId, s.creds[d].usrId, s.creds[d].identifier, Active, Some(d), DetailsOf(m), now, now);
      InsertedCredentials(RetireForRotation(s, d, now, cascadeNow), e, m);
    }
  }

  lemma RevokedUserCredentials(s: Core, u: Id, now: Time, cascadeNow: Time)
    requires u in s.users && s.users[u].status != Revoked
    ensures var t := RevokeUser(s, u, now, cascadeNow).state;
      && t.creds == RevokeCredentials(s, ActiveCredentialsOfUser(s, u), now).creds
      && t.passwordHashes == s.passwordHashes && t.passkeyKeys == s.passkeyKeys
  {
    hide Stamped, HashesOf, LiveSessionsOfUser, ActiveCredentialsOfUser;
  }

  lemma CredentialOfRevokedUser(s: Core, u: Id, now: Time, cascadeNow: Time, c: Id)
    requires Inv(s) && c in s.creds
    ensures Follows(s, RevokeUser(s, u, now, cascadeNow).state, Machine.RevokeUser(u, now, cascadeNow), c)
  {
    hide Inv, KeyIsFree;
    RevokedUsers.OwnersExist(s);
    if u in s.users && s.users[u].status != Revoked {
      RevokedUserCredentials(s, u, now, cascadeNow);
      hide RevokeUser;
    }
  }

  lemma Untouched(s: Core, t: Core, op: Op, c: Id)
    requires c in s.creds && t.creds == s.creds && SameSecrets(s, t)
    requires !op.RevokeUser? && !Machine.IsCredentialOp(op)
    ensures Follows(s, t, op, c)
  {
    hide KeyIsFree, OwnerRevoked;
  }

  predicate SameSecrets(s: Core, t: Core) {
    t.passwordHashes == s.passwordHashes && t.passkeyKeys == s.passkeyKeys
  }

  lemma SessionsHoldNoSecrets(s: Core, ids: set<Id>, now: Time)
    ensures SameSecrets(s, RevokeSessions(s, ids, now)) && RevokeSessions(s, ids, now).creds == s.creds
  {
    hide Stamped, HashesOf;
  }

  lemma SuspensionLeavesCredentials(s: Core, u: Id, now: Time, cascadeNow: Time)
    ensures var t := SuspendUser(s, u, now, cascadeNow).state;
      SameSecrets(s, t) && t.creds == s.creds
  {
    hide RevokeSessions, LiveSessionsOfUser;
    if u in s.users {
      SessionsHoldNoSecrets(WithUserStatus(s, u, Suspended, now), LiveSessionsOfUser(s, u), cascadeNow);
    }
  }

  lemma CreatedSessionLeavesSecrets(s: Core, u: Id, c: Id, ttl: int, newId: Id, token: string, now: Time)
    ensures SameSecrets(s, CreateSession(s, u, c, ttl, newId, token, now).state)
  {
    hide InsertSession;
    InsertedSessionLeavesSecrets(s, Session(newId, u, c, now, now + ttl * SECOND, None), token);
  }

  lemma InsertedSessionLeavesSecrets(s: Core, ses: Session, token: string)
    ensures SameSecrets(s, InsertSession(s, ses, token))
  {
  }

  lemma RefreshLeavesSecrets(s: Core, i: Id, newId: Id, token: string, checkNow: Time, now: Time)
    ensures SameSecrets(s, RefreshSession(s, i, newId, token, checkNow, now).state)
  {
    hide RevokeSessions, InsertSession;
    if i in s.sessions {
      var prev := s.sessions[i];
      SessionsHoldNoSecrets(s, {i}, now);
      InsertedSessionLeavesSecrets(RevokeSessions(s, {i}, now),
        Session(newId, prev.usrId, prev.credId, now, now + prev.Ttl(), None), token);
    }
  }

  lemma RevokedSessionLeavesSecrets(s: Core, i: Id, now: Time)
    ensures SameSecrets(s, RevokeSession(s, i, now).state)
  {
    hide RevokeSessions;
    SessionsHoldNoSecrets(s, {i}, now);
  }

  lemma SessionStepLeavesCredentials(s: Machine.State, op: Op)
    requires Machine.IsSessionOp(op)
    ensures var t := Machine.SessionStep(s, op).state.core;
      SameSecrets(s.core, t) && t.creds == s.core.creds
  {
    SessionStepLeavesUsers(s, op);
    hide CreateSession, RefreshSession, RevokeSession;
    match op
    case CreateSession(u, c, ttl, newId, token, now) =>
      CreatedSessionLeavesSecrets(s.core, u, c, ttl, newId, token, now);
    case RefreshSession(i, newId, token, checkNow, now) =>
      RefreshLeavesSecrets(s.core, i, newId, token, checkNow, now);
    case RevokeSession(i, now) => RevokedSessionLeavesSecrets(s.core, i, now);
  }

  lemma UserStepCredentialFate(s: Machine.State, op: Op, c: Id)
    requires Inv(s.core) && Machine.IsUserOp(op) && c in s.core.creds
    ensures Follows(s.core, Machine.UserStep(s, op).state.core, op, c)
  {
    hide Inv, CreateUser, UpdateUser, SuspendUser, ReinstateUser, RevokeUser, Pats.RevokePatsOfUser, Follows;
    if op.RevokeUser? {
      CredentialOfRevokedUser(s.core, op.usrId, op.now, op.cascadeNow, c);
    } else {
      OtherUserStepLeavesCredentials(s, op);
      hide Machine.UserStep;
      Untouched(s.core, Machine.UserStep(s, op).state.core, op, c);
    }
  }

  lemma OtherUserStepLeavesCredentials(s: Machine.State, op: Op)
    requires Machine.IsUserOp(op) && !op.RevokeUser?
    ensures var t := Machine.UserStep(s, op).state.core;
      SameSecrets(s.core, t) && t.creds == s.core.creds
  {
    hide CreateUser, UpdateUser, SuspendUser, ReinstateUser;
    match op
    case CreateUser(name, newId, now) => CreatedUsers(s.core, name, newId, now);
    case UpdateUser(u, name, now) => RenamedUsers(s.core, u, name, now);
    case SuspendUser(u, now, cascadeNow) => SuspensionLeavesCredentials(s.core, u, now, cascadeNow);
    case ReinstateUser(u, now) => ReinstatedUsers(s.core, u, now);
  }

  lemma CredentialStepCredentialFate(s: Machine.State, op: Op, c: Id)
    requires Inv(s.core) && Machine.IsCredentialOp(op) && Machine.IsFresh(s, op) && c in s.core.creds
    ensures Follows(s.core, Machine.CredentialStep(s, op).state.core, op, c)
  {
    CredentialsKeyed(s.core, c);
    hide Inv, CreateCredential, RotateCredential, SuspendCredential, ReinstateCredential, RevokeCredential, Follows,
         IsStored;
    match op
    case CreateCredential(u, identifier, m, newId, now) =>
      CreatedCredential(s.core, u, identifier, m, newId, now, c);
    case RotateCredential(d, m, newId, now, cascadeNow) =>
      RotatedCredential(s.core, d, m, newId, now, cascadeNow, c);
    case SuspendCredential(d, now, cascadeNow) => SuspendedCredential(s.core, d, now, cascadeNow, c);
    case ReinstateCredential(d, now) => ReinstatedCredential(s.core, d, now, c);
    case RevokeCredential(d, now, cascadeNow) => RevokedCredential(s.core, d, now, cascadeNow, c);
  }

  lemma CredentialsKeyed(s: Core, c: Id)
    requires Inv(s) && c in s.creds
    ensures s.creds[c].id == c
  {
    hide UsersKeyed, SessionsKeyed, LiveSessionsBacked, TokenMaps, TokensIssued, IndexSound, SecretsPresent,
         ReplacesLinks, RefreshLinks;
  }

  /** What an operation makes of a credential and of its secret depends on the record, on whether its
      key is free, which matters to a reinstatement, and on whether its owner is REVOKED, which
      matters to a revocation of the owner; and only a rotation takes a secret away. */
  lemma CredentialFollowsFate(env: Env, s: Machine.State, op: Op, c: Id)
    requires Machine.IsEnv(env) && Inv(s.core) && Machine.IsFresh(s, op) && c in s.core.creds
    ensures Follows(s.core, Machine.Step(env, s, op).state.core, op, c)
  {
    hide Inv, Machine.IsEnv, Machine.IsFresh, Machine.UserStep, Machine.CredentialStep, Machine.SessionStep,
         Machine.MfaStep, Machine.PatStep, Follows;
    if Machine.IsUserOp(op) {
      UserStepCredentialFate(s, op, c);
    } else if Machine.IsCredentialOp(op) {
      CredentialStepCredentialFate(s, op, c);
    } else {
      if Machine.IsSessionOp(op) {
        SessionStepLeavesCredentials(s, op);
      }
      Untouched(s.core, Machine.Step(env, s, op).state.core, op, c);
    }
  }

  /** The record that a creation or a rotation adds. */
  function NewCredential(s: Core, op: Op): Option<Credential> {
    match op
    case CreateCredential(u, identifier, m, newId, now) =>
      Some(Credential(newId, u, identifier, Active, None, DetailsOf(m), now, now))
    case RotateCredential(c, m, newId, now, _) =>
      if c !in s.creds then None
      else Some(Credential(newId, s.creds[c].usrId, s.creds[c].identifier, Active, Some(c), DetailsOf(m), now, now))
    case _ => None
  }

  /** A creation or rotation that succeeds stores the record, the secret given and the index entry. */
  lemma NewCredentialIsStored(env: Env, s: Machine.State, op: Op)
    requires Machine.IsEnv(env) && Inv(s.core) && Machine.IsFresh(s, op)
    requires (op.CreateCredential? || op.RotateCredential?) && Machine.Step(env, s, op).error.None?
    ensures NewCredential(s.core, op).Some?
    ensures IsStored(s.core, Machine.Step(env, s, op).state.core, NewCredential(s.core, op).value, op.material)
  {
    hide Inv, Machine.IsEnv, Machine.Step, CreateCredential, RotateCredential, IsStored, Follows, DetailsOf;
    Machine.StepIsCoreStep(env, s, op);
    match op
    case CreateCredential(u, identifier, m, newId, now) =>
      CreatedCredential(s.core, u, identifier, m, newId, now, newId);
    case RotateCredential(c, m, newId, now, cascadeNow) =>
      RotatedCredential(s.core, c, m, newId, now, cascadeNow, newId);
  }

  // ----- Personal access tokens -----

  /** When the operation revokes the token record, if it is not revoked yet. */
  function PatEndTime(pat: Pats.Pat, op: Op, ownerRevoked: bool): Option<Time> {
    match op
    case RevokePat(p, now) => if p == pat.id then Some(now) else None
    case RevokeUser(u, now, _) => if u == pat.usrId && !ownerRevoked then Some(now) else None
    case _ => None
  }

  /** The token record after an operation, given whether its owner is REVOKED and whether the
      operation is a verification that accepts its token. */
  function PatFate(pat: Pats.Pat, op: Op, ownerRevoked: bool, accepted: bool): Pats.Pat {
    if pat.revokedAt.None? && PatEndTime(pat, op, ownerRevoked).Some? then
      var end := PatEndTime(pat, op, ownerRevoked).value;
      pat.(status := Pats.Revoked, revokedAt := Some(end), updatedAt := end)
    else if op.VerifyPatToken? && accepted && (pat.lastUsedAt.None? || op.now - pat.lastUsedAt.value >= 60_000_000) then
      pat.(lastUsedAt := Some(op.now), updatedAt := op.now)
    else pat
  }

  predicate Accepts(s: Machine.State, op: Op, p: Id) {
    && op.VerifyPatToken?
    && var r := Pats.VerifyPatToken(s.pats, op.token, op.now).result;
       r.Ok? && r.value.patId == p
  }

  predicate PatOwnerRevoked(s: Machine.State, pat: Pats.Pat) {
    pat.usrId in s.core.users && s.core.users[pat.usrId].status == Revoked
  }

  lemma KeyedPat(s: Pats.State, p: Id)
    requires PatInvariants.Inv(s) && p in s.pats
    ensures s.pats[p].id == p
    ensures s.pats[p].lastUsedAt == Lookup(s.lastUsedPersist, p)
  {
    hide PatToken.IsPatId, PatInvariants.IsMinted, PatInvariants.Spaced, PatInvariants.LastOrNone;
    assert PatInvariants.PatKeyed(p, s.pats[p]);
  }

  lemma VerificationPats(s: Pats.State, token: string, now: Time)
    ensures var o := Pats.VerifyPatToken(s, token, now);
      && (o.result.Ok? ==> o.result.value.patId in s.pats)
      && o.state.pats
         == if o.result.Ok? && (var p := o.result.value.patId;
                 p !in s.lastUsedPersist || now - s.lastUsedPersist[p] >= 60_000_000)
            then (var p := o.result.value.patId;
                  s.pats[p := s.pats[p].(lastUsedAt := Some(now), updatedAt := now)])
            else s.pats
  {
    hide PatToken.StructurallyValid, TooLong;
  }

  lemma PatStepFate(s: Machine.State, op: Op, p: Id)
    requires PatInvariants.Inv(s.pats) && Machine.IsPatOp(op) && Machine.IsFresh(s, op) && p in s.pats.pats
    ensures Lookup(Machine.PatStep(s, op).state.pats.pats, p)
         == Some(PatFate(s.pats.pats[p], op, PatOwnerRevoked(s, s.pats.pats[p]), Accepts(s, op, p)))
  {
    hide PatInvariants.Inv, Pats.VerifyPatToken, Pats.CheckNewPat, PatToken.Encode, PatToken.Token, PatOwnerRevoked,
         PatToken.IsPatId;
    KeyedPat(s.pats, p);
    if op.VerifyPatToken? {
      VerificationPats(s.pats, op.token, op.now);
    }
  }

  lemma RevocationPatFate(s: Machine.State, op: Op, p: Id)
    requires op.RevokeUser? && p in s.pats.pats && s.pats.pats[p].usrId in s.core.users
    ensures Lookup(Machine.UserStep(s, op).state.pats.pats, p)
         == Some(PatFate(s.pats.pats[p], op, PatOwnerRevoked(s, s.pats.pats[p]), false))
  {
    RevocationSucceeds(s.core, op.usrId, op.now, op.cascadeNow);
    hide RevokeUser;
  }

  lemma RevocationSucceeds(s: Core, u: Id, now: Time, cascadeNow: Time)
    ensures RevokeUser(s, u, now, cascadeNow).result.Ok? <==> u in s.users && s.users[u].status != Revoked
  {
    hide RevokeSessions, RevokeCredentials, LiveSessionsOfUser, ActiveCredentialsOfUser;
  }

  /** Only its own revocation, the revocation of its owner and a verification of its token that finds
      no use less than a minute old touch the record of a token. */
  lemma PatFollowsFate(env: Env, s: Machine.State, op: Op, p: Id)
    requires Machine.IsEnv(env) && PatInvariants.Inv(s.pats) && Machine.IsFresh(s, op)
    requires p in s.pats.pats && s.pats.pats[p].usrId in s.core.users
    ensures Lookup(Machine.Step(env, s, op).state.pats.pats, p)
         == Some(PatFate(s.pats.pats[p], op, PatOwnerRevoked(s, s.pats.pats[p]), Accepts(s, op, p)))
  {
    hide PatInvariants.Inv, Machine.IsEnv, Machine.IsFresh, Machine.UserStep, Machine.CredentialStep,
         Machine.SessionStep, Machine.MfaStep, Machine.PatStep, PatOwnerRevoked, Pats.VerifyPatToken;
    if Machine.IsPatOp(op) {
      PatStepFate(s, op, p);
    } else if op.RevokeUser? {
      RevocationPatFate(s, op, p);
    }
  }

  // ----- What the operations return -----

  /** The value returned is what is stored afterwards. */
  predicate ReturnsStored<T(==)>(stored: map<Id, T>, id: Id, r: Result<T>) {
    r.Ok? ==> Lookup(stored, id) == Some(r.value)
  }

  lemma ReturnedUser(s: Core, u: Id, name: Option<string>, newName: Option<Option<string>>, now: Time)
    ensures var o := CreateUser(s, name, u, now); ReturnsStored(o.state.users, u, o.result)
    ensures var o := UpdateUser(s, u, newName, now); ReturnsStored(o.state.users, u, o.result)
    ensures var o := ReinstateUser(s, u, now); ReturnsStored(o.state.users, u, o.result)
  {
    CreatedUsers(s, name, u, now);
    RenamedUsers(s, u, newName, now);
    ReinstatedUsers(s, u, now);
  }

  lemma ReturnedByCascade(s: Core, u: Id, now: Time, cascadeNow: Time)
    ensures var o := SuspendUser(s, u, now, cascadeNow); ReturnsStored(o.state.users, u, o.result)
    ensures var o := RevokeUser(s, u, now, cascadeNow); ReturnsStored(o.state.users, u, o.result)
  {
    SuspendedUser(s, u, now, cascadeNow, u);
    RevokedUser(s, u, now, cascadeNow, u);
    hide RevokeSessions, RevokeCredentials, LiveSessionsOfUser, ActiveCredentialsOfUser, WithUserStatus;
  }

  lemma ReturnedCredentials(s: Core, c: Id, now: Time, cascadeNow: Time)
    ensures var o := SuspendCredential(s, c, now, cascadeNow); ReturnsStored(o.state.creds, c, o.result)
    ensures var o := ReinstateCredential(s, c, now); ReturnsStored(o.state.creds, c, o.result)
    ensures var o := RevokeCredential(s, c, now, cascadeNow); ReturnsStored(o.state.creds, c, o.result)
  {
    hide RetireCredential, IdentifierKey, Credential.WithStatus;
    if c in s.creds {
      RetiredCredentials(s, c, Suspended, now, cascadeNow);
      RetiredCredentials(s, c, Revoked, now, cascadeNow);
    }
  }

  /** A new or refreshed session comes with the token that was drawn for it. */
  lemma ReturnedSessions(s: Core, u: Id, c: Id, ttl: int, i: Id, newId: Id, token: string, checkNow: Time, now: Time)
    ensures var o := CreateSession(s, u, c, ttl, newId, token, now);
      o.result.Ok? ==> Lookup(o.state.sessions, newId) == Some(o.result.value.session) && o.result.value.token == token
    ensures var o := RefreshSession(s, i, newId, token, checkNow, now);
      o.result.Ok? ==> Lookup(o.state.sessions, newId) == Some(o.result.value.session) && o.result.value.token == token
    ensures var o := RevokeSession(s, i, now); ReturnsStored(o.state.sessions, i, o.result)
  {
    hide RevokeSessions, InsertSession;
    var created := CreateSession(s, u, c, ttl, newId, token, now);
    if created.result.Ok? {
      InsertedSessions(s, created.result.value.session, token);
    }
    if i in s.sessions {
      RevokedSessionsAt(s, {i}, now, i);
    }
    var refreshed := RefreshSession(s, i, newId, token, checkNow, now);
    if refreshed.result.Ok? {
      InsertedSessions(RevokeSessions(s, {i}, now), refreshed.result.value.session, token);
    }
  }
}
