/** How long what was handed out stays good: session tokens, passwords and personal access tokens,
    from the operation that created them to the operations of the run that end them. */
module Lifetimes {
  import opened Prelude
  import opened Machine
  import opened Fates
  import Identity
  import IdentityInvariants
  import IdentityTheorems
  import MfaInvariants
  import Pats
  import PatInvariants
  import PatToken
  import RunHistory
  import RunTheorems

  // ----- Session tokens -----

  /** A token issued for a live session verifies, on every run from there, until the expiry of the
      session, unless an operation of the run ends the session. */
  lemma IssuedTokenLife(env: Env, s: State, token: string, i: Id, more: seq<Op>, now: Time)
    requires IsEnv(env) && Inv(s) && IsFreshRun(env, s, more)
    requires token in s.core.issued && s.core.issued[token] == i
    requires i in s.core.sessions && s.core.sessions[i].revokedAt.None?
    ensures s.core.sessions[i].credId in s.core.creds
    ensures var ses := s.core.sessions[i];
      Identity.VerifySessionToken(Run(env, s, more).core, token, now)
      == if EndsOnRun(ses, TypeOf(s.core, i), more) then Raise(InvalidToken)
         else if now > ses.expiresAt then Raise(SessionExpired)
         else Ok(ses)
  {
    hide IsEnv, IsFreshRun, Run, Inv, IdentityInvariants.Inv, IdentityInvariants.Evolves, EndsOnRun, SessionFateOnRun,
         Identity.VerifySessionToken, TypeOf;
    SessionFollowsFateOnRun(env, s, more, i);
    LiveUnlessEnded(s.core.sessions[i], TypeOf(s.core, i), more);
    RunKeeps(env, s, more);
    var later := Run(env, s, more);
    CorePart(later);
    CoreEvolves(s, later);
    IssuedForever(s.core, later.core, token);
    IdentityTheorems.TokenOutcome(later.core, token, now);
  }

  lemma IssuedForever(s: Identity.Core, t: Identity.Core, token: string)
    requires IdentityInvariants.Evolves(s, t) && token in s.issued
    ensures token in t.issued && t.issued[token] == s.issued[token]
  {
  }

  /** From its creation on, on every run, a session token verifies until `ttl_seconds` have passed,
      for the session that was asked for, iff no operation of the run ends the session: none revokes
      or refreshes it, and none suspends, revokes or rotates its credential or suspends or revokes
      its user. */
  lemma SessionTokenLife(env: Env, s: State, op: Op, more: seq<Op>, now: Time)
    requires IsEnv(env) && Inv(s) && IsFresh(s, op) && op.CreateSession? && Step(env, s, op).error.None?
    requires IsFreshRun(env, Step(env, s, op).state, more)
    ensures op.credId in s.core.creds
    ensures var later := Run(env, Step(env, s, op).state, more).core;
      var ses := Identity.Session(op.newId, op.usrId, op.credId, op.now, op.now + op.ttlSeconds * 1_000_000, None);
      Identity.VerifySessionToken(later, op.token, now)
      == if EndsOnRun(ses, s.core.creds[op.credId].Type(), more) then Raise(InvalidToken)
         else if now > ses.expiresAt then Raise(SessionExpired)
         else Ok(ses)
  {
    var t := Step(env, s, op).state;
    CreatedSession(env, s, op);
    hide Step, IsFresh, IsEnv, Run, IsFreshRun, Inv, EndsOnRun, Identity.VerifySessionToken;
    StepKeeps(env, s, op);
    IssuedTokenLife(env, t, op.token, op.newId, more, now);
  }

  lemma CreatedSession(env: Env, s: State, op: Op)
    requires IsEnv(env) && op.CreateSession? && Step(env, s, op).error.None? && IsFresh(s, op)
    ensures var t := Step(env, s, op).state.core;
      && op.token in t.issued && t.issued[op.token] == op.newId && op.newId in t.sessions
      && t.sessions[op.newId]
         == Identity.Session(op.newId, op.usrId, op.credId, op.now, op.now + op.ttlSeconds * 1_000_000, None)
      && op.credId in s.core.creds && t.creds == s.core.creds
  {
    StepIsCoreStep(env, s, op);
    SessionStepLeavesUsers(s, op);
    NewSessionIsStored(s.core, op.usrId, op.credId, op.ttlSeconds, op.newId, op.token, op.now);
    RunHistory.CreatedSessionIssues(s.core, op.usrId, op.credId, op.ttlSeconds, op.newId, op.token, op.now);
    hide IsEnv, Step, Identity.CreateSession;
  }

  lemma NewSessionIsStored(s: Identity.Core, u: Id, c: Id, ttl: int, newId: Id, token: string, now: Time)
    requires Identity.CreateSession(s, u, c, ttl, newId, token, now).result.Ok?
    ensures c in s.creds
    ensures Lookup(Identity.CreateSession(s, u, c, ttl, newId, token, now).state.sessions, newId)
         == Some(Identity.Session(newId, u, c, now, now + ttl * 1_000_000, None))
  {
    hide Identity.InsertSession;
    InsertedSessions(s, Identity.Session(newId, u, c, now, now + ttl * 1_000_000, None), token);
  }

  /** The token of a refreshed session verifies as long as the refreshed one was to live, from the
      refresh on, for the same user and credential, on the same condition; the old token is dead. */
  lemma RefreshedTokenLife(env: Env, s: State, op: Op, oldToken: string, more: seq<Op>, now: Time)
    requires IsEnv(env) && Inv(s) && IsFresh(s, op) && op.RefreshSession? && Step(env, s, op).error.None?
    requires oldToken in s.core.issued && s.core.issued[oldToken] == op.sesId
    requires IsFreshRun(env, Step(env, s, op).state, more)
    ensures op.sesId in s.core.sessions && s.core.sessions[op.sesId].credId in s.core.creds
    ensures var later := Run(env, Step(env, s, op).state, more).core;
      var prev := s.core.sessions[op.sesId];
      var ses := Identity.Session(op.newId, prev.usrId, prev.credId, op.now,
        op.now + (prev.expiresAt - prev.createdAt), None);
      && Identity.VerifySessionToken(later, op.token, now)
         == (if EndsOnRun(ses, TypeOf(s.core, op.sesId), more) then Raise(InvalidToken)
             else if now > ses.expiresAt then Raise(SessionExpired)
             else Ok(ses))
      && Identity.VerifySessionToken(later, oldToken, now) == Raise(InvalidToken)
  {
    hide Step, IsFresh, IsEnv, Run, IsFreshRun, Inv, EndsOnRun, Identity.VerifySessionToken, IdentityInvariants.Inv,
         Evolves;
    var t := Step(env, s, op).state;
    CorePart(s);
    RefreshedSession(env, s, op);
    Owner(s.core, op.sesId);
    StepKeeps(env, s, op);
    IssuedTokenLife(env, t, op.token, op.newId, more, now);
    OldTokenIsDead(env, s, op, oldToken, more, now);
  }

  lemma OldTokenIsDead(env: Env, s: State, op: Op, oldToken: string, more: seq<Op>, now: Time)
    requires IsEnv(env) && Inv(s) && IsFresh(s, op) && op.RefreshSession? && Step(env, s, op).error.None?
    requires oldToken in s.core.issued && s.core.issued[oldToken] == op.sesId
    requires IsFreshRun(env, Step(env, s, op).state, more)
    ensures Identity.VerifySessionToken(Run(env, Step(env, s, op).state, more).core, oldToken, now)
         == Raise(InvalidToken)
  {
    hide Step, IsFresh, IsEnv, Run, IsFreshRun, Inv, Identity.VerifySessionToken, IdentityInvariants.Inv,
         IdentityInvariants.Evolves;
    var t := Step(env, s, op).state;
    RefreshedSession(env, s, op);
    StepKeeps(env, s, op);
    CoreEvolves(s, t);
    IssuedForever(s.core, t.core, oldToken);
    RunTheorems.RevokedTokenNeverVerifies(env, t, more, oldToken, now);
  }

  lemma RefreshedSession(env: Env, s: State, op: Op)
    requires IsEnv(env) && op.RefreshSession? && Step(env, s, op).error.None? && IsFresh(s, op)
    ensures op.sesId in s.core.sessions && op.sesId != op.newId
    ensures var t, prev := Step(env, s, op).state.core, s.core.sessions[op.sesId];
      && op.token in t.issued && t.issued[op.token] == op.newId && op.newId in t.sessions
      && t.sessions[op.newId]
         == Identity.Session(op.newId, prev.usrId, prev.credId, op.now, op.now + (prev.expiresAt - prev.createdAt),
              None)
      && op.sesId in t.sessions && !t.sessions[op.sesId].IsLive() && t.creds == s.core.creds
  {
    StepIsCoreStep(env, s, op);
    SessionStepLeavesUsers(s, op);
    AcceptedRefresh(s.core, op.sesId, op.newId, op.token, op.checkNow, op.now);
    RunHistory.RefreshedSessionIssues(s.core, op.sesId, op.newId, op.token, op.checkNow, op.now);
    RefreshedSessionEnds(s.core, op.sesId, op.newId, op.token, op.checkNow, op.now, op.sesId);
    hide IsEnv, Step, Identity.RefreshSession;
  }

  lemma AcceptedRefresh(s: Identity.Core, i: Id, newId: Id, token: string, checkNow: Time, now: Time)
    requires Identity.RefreshSession(s, i, newId, token, checkNow, now).result.Ok?
    ensures i in s.sessions && checkNow <= s.sessions[i].expiresAt && s.sessions[i].IsLive()
  {
    hide Identity.InsertSession, Identity.RevokeSessions;
  }

  // ----- Passwords and passkeys -----

  /** On every run the secrets of a credential are those it had, until it is REVOKED. */
  lemma {:induction false} SecretsLastUntilRevoked(env: Env, s: State, more: seq<Op>, c: Id)
    requires IsEnv(env) && Inv(s) && IsFreshRun(env, s, more) && c in s.core.creds
    ensures var later := Run(env, s, more).core;
      && c in later.creds
      && later.creds[c] == s.core.creds[c].(status := later.creds[c].status, updatedAt := later.creds[c].updatedAt)
      && (later.creds[c].status != Identity.Revoked ==>
            && Lookup(later.passwordHashes, c) == Lookup(s.core.passwordHashes, c)
            && Lookup(later.passkeyKeys, c) == Lookup(s.core.passkeyKeys, c))
    decreases |more|
  {
    hide IsEnv, IsFresh, Step, Inv, IdentityInvariants.Inv, IdentityInvariants.Evolves, Lookup;
    CorePart(s);
    if more != [] {
      var t := Step(env, s, more[0]).state;
      StepKeeps(env, s, more[0]);
      CoreEvolves(s, t);
      CredentialStays(s.core, t.core, c);
      RunKeeps(env, t, more[1..]);
      CoreEvolves(t, Run(env, t, more[1..]));
      CredentialStays(t.core, Run(env, t, more[1..]).core, c);
      SecretsThisStep(env, s, more[0], c);
      SecretsLastUntilRevoked(env, t, more[1..], c);
    }
  }

  lemma CredentialStays(s: Identity.Core, t: Identity.Core, c: Id)
    requires IdentityInvariants.Evolves(s, t) && c in s.creds
    ensures c in t.creds
    ensures t.creds[c] == s.creds[c].(status := t.creds[c].status, updatedAt := t.creds[c].updatedAt)
    ensures s.creds[c].status == Identity.Revoked ==> t.creds[c].status == Identity.Revoked
  {
  }

  lemma SecretsThisStep(env: Env, s: State, op: Op, c: Id)
    requires IsEnv(env) && IdentityInvariants.Inv(s.core) && IsFresh(s, op) && c in s.core.creds
    ensures var t := Step(env, s, op).state.core;
      && c in t.creds
      && (t.creds[c].status != Identity.Revoked ==>
            && Lookup(t.passwordHashes, c) == Lookup(s.core.passwordHashes, c)
            && Lookup(t.passkeyKeys, c) == Lookup(s.core.passkeyKeys, c))
  {
    hide IsEnv, IsFresh, Step, IdentityInvariants.Inv, KeyIsFree, OwnerRevoked;
    CredentialFollowsFate(env, s, op, c);
  }

  /** From its creation on, on every run without the one operation that drops a foreign index entry, a
      password verifies, and it alone, exactly while its credential is ACTIVE. */
  lemma PasswordLife(env: Env, s: State, op: Op, more: seq<Op>, attempt: string)
    requires IsEnv(env) && Inv(s) && IsFresh(s, op) && IdentityTheorems.IndexComplete(s.core)
    requires op.CreateCredential? && op.material.NewPassword? && Step(env, s, op).error.None?
    requires IsFreshRun(env, Step(env, s, op).state, more)
    requires RunTheorems.NeverDrops(env, Step(env, s, op).state, more)
    ensures var later := Run(env, Step(env, s, op).state, more).core;
      && op.newId in later.creds
      && (Identity.VerifyPassword(later, op.identifier, attempt) == Ok(Identity.Verified(op.usrId, op.newId))
          <==> later.creds[op.newId].status == Identity.Active && attempt == op.material.password)
  {
    var t := Step(env, s, op).state;
    CreatedPassword(env, s, op);
    StepKeeps(env, s, op);
    RunTheorems.StepKeepsIndexCompleteExactly(env, s, op);
    hide IsEnv, IsFresh, IsFreshRun, Step, Run, Inv, IdentityInvariants.Inv, Evolves, IdentityTheorems.IndexComplete,
         RunTheorems.NeverDrops, Identity.VerifyPassword;
    RunKeeps(env, t, more);
    RunTheorems.RunKeepsIndexComplete(env, t, more);
    SecretsLastUntilRevoked(env, t, more, op.newId);
    var later := Run(env, t, more);
    CorePart(later);
    IdentityTheorems.PasswordVerifiesExactly(later.core, op.identifier, attempt,
      Identity.Verified(op.usrId, op.newId));
  }

  lemma CreatedPassword(env: Env, s: State, op: Op)
    requires IsEnv(env) && op.CreateCredential? && op.material.NewPassword? && Step(env, s, op).error.None?
    ensures var t := Step(env, s, op).state.core;
      && Lookup(t.creds, op.newId) == Some(Identity.Credential(op.newId, op.usrId, op.identifier, Identity.Active, None,
           Identity.PasswordDetails, op.now, op.now))
      && Lookup(t.passwordHashes, op.newId) == Some(Identity.Argon2id(op.material.password))
      && !Identity.TooLong(op.material.password)
  {
    StepIsCoreStep(env, s, op);
    IdentityTheorems.CreatedState(s.core, op.usrId, op.identifier, op.material.password, op.newId, op.now);
    hide IsEnv, Step, Identity.CreateCredential, Identity.TooLong;
  }

  // ----- Personal access tokens -----

  /** Some operation of the run revokes the token or its owner. */
  predicate PatEndsOnRun(pat: Pats.Pat, ownerRevoked: bool, ops: seq<Op>) {
    exists k :: 0 <= k < |ops| && PatEndTime(pat, ops[k], ownerRevoked).Some?
  }

  lemma PatPart(s: State)
    requires Inv(s)
    ensures PatInvariants.Inv(s.pats)
  {
    hide IdentityInvariants.Inv, MfaInvariants.Inv, PatInvariants.Inv;
  }

  lemma OwnerStays(env: Env, s: State, op: Op, pat: Pats.Pat)
    requires IsEnv(env) && IsFresh(s, op) && pat.usrId in s.core.users
    requires PatEndTime(pat, op, PatOwnerRevoked(s, pat)).None?
    ensures var t := Step(env, s, op).state;
      pat.usrId in t.core.users && PatOwnerRevoked(t, pat) == PatOwnerRevoked(s, pat)
  {
    hide IsEnv, Step;
    UserFollowsFate(env, s, op, pat.usrId);
  }

  lemma TokenThisStep(env: Env, s: State, op: Op, p: Id)
    requires IsEnv(env) && Inv(s) && IsFresh(s, op)
    requires p in s.pats.pats && s.pats.pats[p].revokedAt.None? && s.pats.pats[p].usrId in s.core.users
    ensures var t, pat := Step(env, s, op).state.pats, s.pats.pats[p];
      && p in t.pats && t.pats[p].id == pat.id && t.pats[p].usrId == pat.usrId
      && (t.pats[p].revokedAt.None? <==> PatEndTime(pat, op, PatOwnerRevoked(s, pat)).None?)
  {
    hide IsEnv, IsFresh, Step, Inv, PatInvariants.Inv, PatOwnerRevoked, Accepts;
    PatPart(s);
    PatFollowsFate(env, s, op, p);
  }

  lemma {:induction false} UnrevokedUnlessEnded(env: Env, s: State, more: seq<Op>, p: Id)
    requires IsEnv(env) && Inv(s) && IsFreshRun(env, s, more)
    requires p in s.pats.pats && s.pats.pats[p].revokedAt.None? && s.pats.pats[p].usrId in s.core.users
    ensures var later, pat := Run(env, s, more).pats, s.pats.pats[p];
      && p in later.pats
      && (later.pats[p].revokedAt.None? <==> !PatEndsOnRun(pat, PatOwnerRevoked(s, pat), more))
    decreases |more|
  {
    hide IsEnv, IsFresh, Step, Inv, PatOwnerRevoked, PatEndTime, PatEndsOnRun;
    EndsFirst(s.pats.pats[p], PatOwnerRevoked(s, s.pats.pats[p]), more);
    if more != [] {
      var t, pat := Step(env, s, more[0]).state, s.pats.pats[p];
      TokenThisStep(env, s, more[0], p);
      StepKeeps(env, s, more[0]);
      if t.pats.pats[p].revokedAt.None? {
        OwnerStays(env, s, more[0], pat);
        UnrevokedUnlessEnded(env, t, more[1..], p);
        SameEnds(pat, t.pats.pats[p], PatOwnerRevoked(s, pat), more[1..]);
        SameOwner(s, t, pat, t.pats.pats[p]);
        EndsLater(pat, PatOwnerRevoked(s, pat), more);
      } else {
        RunTheorems.RevokedIsFinal(env, t, more[1..], p);
        assert PatEndTime(pat, more[0], PatOwnerRevoked(s, pat)).Some?;
      }
    }
  }

  lemma SameEnds(pat: Pats.Pat, pat': Pats.Pat, ownerRevoked: bool, ops: seq<Op>)
    requires pat'.id == pat.id && pat'.usrId == pat.usrId
    ensures PatEndsOnRun(pat, ownerRevoked, ops) <==> PatEndsOnRun(pat', ownerRevoked, ops)
  {
    forall op: Op
      ensures PatEndTime(pat, op, ownerRevoked) == PatEndTime(pat', op, ownerRevoked)
    {
    }
    hide PatEndTime;
  }

  lemma SameOwner(s: State, t: State, pat: Pats.Pat, pat': Pats.Pat)
    requires pat'.usrId == pat.usrId && PatOwnerRevoked(t, pat) == PatOwnerRevoked(s, pat)
    ensures PatOwnerRevoked(t, pat') == PatOwnerRevoked(s, pat)
  {
  }

  lemma EndsFirst(pat: Pats.Pat, ownerRevoked: bool, ops: seq<Op>)
    ensures ops == [] ==> !PatEndsOnRun(pat, ownerRevoked, ops)
    ensures ops != [] && PatEndTime(pat, ops[0], ownerRevoked).Some? ==> PatEndsOnRun(pat, ownerRevoked, ops)
  {
    hide PatEndTime;
  }

  lemma EndsLater(pat: Pats.Pat, ownerRevoked: bool, ops: seq<Op>)
    requires ops != [] && PatEndTime(pat, ops[0], ownerRevoked).None?
    ensures PatEndsOnRun(pat, ownerRevoked, ops) <==> PatEndsOnRun(pat, ownerRevoked, ops[1..])
  {
    hide PatEndTime;
    if PatEndsOnRun(pat, ownerRevoked, ops) {
      var k :| 0 <= k < |ops| && PatEndTime(pat, ops[k], ownerRevoked).Some?;
      assert ops[1..][k - 1] == ops[k];
    }
    if PatEndsOnRun(pat, ownerRevoked, ops[1..]) {
      var k :| 0 <= k < |ops| - 1 && PatEndTime(pat, ops[1..][k], ownerRevoked).Some?;
      assert ops[1..][k] == ops[k + 1];
    }
  }

  /** From its creation on, on every run, a personal access token verifies, with the user and the scope
      it was created with, until it expires, iff no operation of the run revokes it and none revokes
      its owner; an owner that is REVOKED from the start cannot be revoked again. */
  lemma PatTokenLife(env: Env, s: State, op: Op, more: seq<Op>, now: Time)
    requires IsEnv(env) && Inv(s) && IsFresh(s, op) && op.CreatePat? && Step(env, s, op).error.None?
    requires IsFreshRun(env, Step(env, s, op).state, more)
    ensures op.usrId in s.core.users
    ensures var later := Run(env, Step(env, s, op).state, more).pats;
      var pat := Pats.Pat(op.newId, op.usrId, op.patName, op.scope, Pats.Active, op.expiresAt, None, None, op.now,
        op.now);
      Pats.VerifyPatToken(later, PatToken.Token(op.newId, PatToken.Encode(op.raw)), now).result
      == if PatEndsOnRun(pat, s.core.users[op.usrId].status == Identity.Revoked, more) then Raise(PatRevoked)
         else if op.expiresAt.Some? && now >= op.expiresAt.value then Raise(PatExpired)
         else Ok(Pats.VerifiedPat(op.newId, op.usrId, op.scope))
  {
    var t := Step(env, s, op).state;
    CreatedPat(env, s, op);
    StepKeeps(env, s, op);
    UnrevokedUnlessEnded(env, t, more, op.newId);
    RunKeeps(env, t, more);
    var later := Run(env, t, more);
    PatPart(later);
    hide Step, IsFresh, Run, IsFreshRun, Inv, IdentityInvariants.Evolves, MfaInvariants.Evolves, IsEnv,
         PatInvariants.Inv, Pats.VerifyPatToken, PatToken.Token, PatToken.Encode, PatEndsOnRun;
    RecordStays(t.pats, later.pats, op.newId);
    PatInvariants.TokenOutcome(later.pats, op.newId, now);
  }

  lemma RecordStays(s: Pats.State, t: Pats.State, p: Id)
    requires PatInvariants.Evolves(s, t) && p in s.pats && p in s.secretHashes
    ensures p in t.pats && PatInvariants.PatEvolves(s.pats[p], t.pats[p])
    ensures p in t.secretHashes && t.secretHashes[p] == s.secretHashes[p]
  {
  }

  lemma CreatedPat(env: Env, s: State, op: Op)
    requires IsEnv(env) && op.CreatePat? && Step(env, s, op).error.None?
    ensures op.usrId in s.core.users
    ensures var t := Step(env, s, op).state;
      && t.core == s.core
      && Lookup(t.pats.pats, op.newId) == Some(Pats.Pat(op.newId, op.usrId, op.patName, op.scope, Pats.Active,
           op.expiresAt, None, None, op.now, op.now))
      && Lookup(t.pats.secretHashes, op.newId) == Some(Identity.Argon2id(PatToken.Encode(op.raw)))
  {
    hide IsEnv, UserStep, CredentialStep, SessionStep, MfaStep, PatToken.Token, PatToken.Encode;
  }
}
