/** Properties of whole runs of the store. */
module RunTheorems {
  import opened Prelude
  import opened Machine
  import Identity
  import IdentityInvariants
  import IdentityTheorems
  import IndexTheorems
  import Mfa
  import MfaInvariants
  import MfaOperations
  import MfaTheorems
  import Pats
  import PatInvariants
  import PatToken
  import Totp
  import WebAuthn

  // ----- The identifier index along a run -----

  /** The one kind of step that loses an index entry. */
  predicate DropsForeignEntry(s: State, op: Op) {
    && op.RevokeCredential? && op.credId in s.core.creds
    && s.core.creds[op.credId].status == Identity.Suspended
    && s.core.creds[op.credId].Key() in s.core.activeCred
  }

  lemma UnchangedIndex(s: Identity.Core, t: Identity.Core)
    requires IdentityTheorems.IndexComplete(s) && t.creds == s.creds && t.activeCred == s.activeCred
    ensures IdentityTheorems.IndexComplete(t)
  {
    forall c | c in t.creds && t.creds[c].status == Identity.Active
      ensures IdentityTheorems.InIndex(t, c)
    {
      assert IdentityTheorems.InIndex(s, c);
    }
  }

  lemma SessionStepsLeaveOwners(s: State, op: Op)
    requires IsSessionOp(op)
    ensures var t := SessionStep(s, op).state.core;
      t.creds == s.core.creds && t.activeCred == s.core.activeCred && t.users == s.core.users
  {
    hide Identity.CreateSession, Identity.RefreshSession, Identity.RevokeSession;
    match op
    case CreateSession(u, c, ttl, newId, token, now) =>
      IndexTheorems.CreateSessionFrame(s.core, u, c, ttl, newId, token, now);
    case RefreshSession(i, newId, token, checkNow, now) =>
      IndexTheorems.RefreshSessionFrame(s.core, i, newId, token, checkNow, now);
    case RevokeSession(i, now) => IndexTheorems.RevokeSessionFrame(s.core, i, now);
  }

  /** No user becomes REVOKED, and none is created REVOKED. */
  ghost predicate NoneRevoked(users: map<Id, Identity.User>, users': map<Id, Identity.User>) {
    && (forall u :: u in users && users[u].status != Identity.Revoked ==>
          u in users' && users'[u].status != Identity.Revoked)
    && (forall u :: u in users' && users'[u].status == Identity.Revoked ==>
          u in users && users[u].status == Identity.Revoked)
  }

  lemma CreationRevokesNone(s: Identity.Core, displayName: Option<string>, newId: Id, now: Time)
    requires newId !in s.users
    ensures var t := Identity.CreateUser(s, displayName, newId, now).state;
      t.creds == s.creds && t.activeCred == s.activeCred && NoneRevoked(s.users, t.users)
  {
  }

  lemma ChangeRevokesNone(users: map<Id, Identity.User>, u: Id, v: Identity.User)
    requires u in users && users[u].status != Identity.Revoked && v.status != Identity.Revoked
    ensures NoneRevoked(users, users[u := v])
  {
  }

  lemma SameRevokesNone(users: map<Id, Identity.User>)
    ensures NoneRevoked(users, users)
  {
  }

  lemma UpdateRevokesNone(s: Identity.Core, u: Id, name: Option<Option<string>>, now: Time)
    ensures var t := Identity.UpdateUser(s, u, name, now).state;
      t.creds == s.creds && t.activeCred == s.activeCred && NoneRevoked(s.users, t.users)
  {
    hide NoneRevoked;
    SameRevokesNone(s.users);
    var t := Identity.UpdateUser(s, u, name, now).state;
    if u in s.users && s.users[u].status != Identity.Revoked && name.Some? && name.value != s.users[u].displayName {
      var updated := s.users[u].(displayName := name.value, updatedAt := now);
      assert t == s.(users := s.users[u := updated]);
      ChangeRevokesNone(s.users, u, updated);
    } else {
      assert t == s;
    }
  }

  lemma ReinstatementRevokesNone(s: Identity.Core, u: Id, now: Time)
    ensures var t := Identity.ReinstateUser(s, u, now).state;
      t.creds == s.creds && t.activeCred == s.activeCred && NoneRevoked(s.users, t.users)
  {
    hide NoneRevoked;
    SameRevokesNone(s.users);
    if u in s.users && s.users[u].status == Identity.Suspended {
      ChangeRevokesNone(s.users, u, s.users[u].(status := Identity.Active, updatedAt := now));
    }
  }

  lemma SuspensionRevokesNone(s: Identity.Core, u: Id, now: Time, cascadeNow: Time)
    ensures var t := Identity.SuspendUser(s, u, now, cascadeNow).state;
      t.creds == s.creds && t.activeCred == s.activeCred && NoneRevoked(s.users, t.users)
  {
    hide Identity.SuspendUser;
    IndexTheorems.SuspendUserFrame(s, u, now, cascadeNow);
  }

  lemma UserStepsLeaveCredentials(s: State, op: Op)
    requires IsUserOp(op) && !op.RevokeUser? && IsFresh(s, op)
    ensures var t := UserStep(s, op).state.core;
      t.creds == s.core.creds && t.activeCred == s.core.activeCred && NoneRevoked(s.core.users, t.users)
  {
    hide Identity.CreateUser, Identity.UpdateUser, Identity.SuspendUser, Identity.ReinstateUser, Identity.RevokeUser,
         Pats.RevokePatsOfUser, NoneRevoked;
    match op
    case CreateUser(displayName, newId, now) => CreationRevokesNone(s.core, displayName, newId, now);
    case UpdateUser(u, name, now) => UpdateRevokesNone(s.core, u, name, now);
    case SuspendUser(u, now, cn) => SuspensionRevokesNone(s.core, u, now, cn);
    case ReinstateUser(u, now) => ReinstatementRevokesNone(s.core, u, now);
  }

  /** Steps that are neither on credentials nor `revoke_user` leave credentials and index alone
      and revoke no user. */
  lemma OtherStepsLeaveIndex(env: Env, s: State, op: Op)
    requires IsEnv(env) && !IsCredentialOp(op) && !op.RevokeUser? && IsFresh(s, op)
    ensures var t := Step(env, s, op).state.core;
      t.creds == s.core.creds && t.activeCred == s.core.activeCred && NoneRevoked(s.core.users, t.users)
  {
    hide IsEnv, IsFresh, UserStep, CredentialStep, SessionStep, MfaStep, PatStep;
    if IsUserOp(op) {
      UserStepsLeaveCredentials(s, op);
    } else if IsSessionOp(op) {
      SessionStepsLeaveOwners(s, op);
    }
  }

  /** Every step keeps the index complete, except in exactly that case. */
  lemma StepKeepsIndexCompleteExactly(env: Env, s: State, op: Op)
    requires IsEnv(env) && Inv(s) && IsFresh(s, op) && IdentityTheorems.IndexComplete(s.core)
    ensures IdentityTheorems.IndexComplete(Step(env, s, op).state.core) <==> !DropsForeignEntry(s, op)
  {
    hide IdentityInvariants.Inv, MfaInvariants.Inv, PatInvariants.Inv, IsEnv, IsFresh, IdentityTheorems.IndexComplete,
         Identity.CreateCredential, Identity.RotateCredential, Identity.SuspendCredential, Identity.ReinstateCredential,
         Identity.RevokeCredential, Identity.RevokeUser, Pats.RevokePatsOfUser, SessionStep, MfaStep, PatStep;
    if IsCredentialOp(op) || op.RevokeUser? {
      match op
      case RevokeUser(u, now, cn) => IndexTheorems.RevokeUserKeepsComplete(s.core, u, now, cn);
      case CreateCredential(u, identifier, m, newId, now) =>
        IndexTheorems.CreateKeepsComplete(s.core, u, identifier, m, newId, now);
      case RotateCredential(c, m, newId, now, cn) =>
        FreshRotation(s, op);
        IndexTheorems.RotateKeepsComplete(s.core, c, m, newId, now, cn);
      case SuspendCredential(c, now, cn) => IndexTheorems.SuspendKeepsComplete(s.core, c, now, cn);
      case ReinstateCredential(c, now) => IndexTheorems.ReinstateKeepsComplete(s.core, c, now);
      case RevokeCredential(c, now, cn) => IndexTheorems.RevokeKeepsCompleteExactly(s.core, c, now, cn);
    } else {
      hide Step, IsFresh;
      OtherStepsLeaveIndex(env, s, op);
      UnchangedIndex(s.core, Step(env, s, op).state.core);
    }
  }

  lemma FreshRotation(s: State, op: Op)
    requires IsFresh(s, op) && op.RotateCredential?
    ensures op.newId !in s.core.creds
  {
  }

  predicate NeverDrops(env: Env, s: State, ops: seq<Op>)
    requires IsEnv(env)
    decreases |ops|
  {
    ops != [] ==> !DropsForeignEntry(s, ops[0]) && NeverDrops(env, Step(env, s, ops[0]).state, ops[1..])
  }

  /** On runs without such a step `find_credential_by_identifier` is the row scan, and at most
      one ACTIVE credential has a given type and identifier. */
  lemma {:induction false} RunKeepsIndexComplete(env: Env, s: State, ops: seq<Op>)
    requires IsEnv(env) && Inv(s) && IsFreshRun(env, s, ops) && NeverDrops(env, s, ops)
    requires IdentityTheorems.IndexComplete(s.core)
    ensures IdentityTheorems.IndexComplete(Run(env, s, ops).core)
    decreases |ops|
  {
    hide Inv, Step, IsFresh, IsEnv, DropsForeignEntry, IdentityTheorems.IndexComplete;
    if ops != [] {
      StepKeeps(env, s, ops[0]);
      StepKeepsIndexCompleteExactly(env, s, ops[0]);
      RunKeepsIndexComplete(env, Step(env, s, ops[0]).state, ops[1..]);
    }
  }

  lemma FindIsTheQueryOnSuchRuns(env: Env, ops: seq<Op>, t: Identity.CredentialType, identifier: string)
    requires IsEnv(env) && IsFreshRun(env, EMPTY, ops) && NeverDrops(env, EMPTY, ops)
    ensures var core := Run(env, EMPTY, ops).core; var r := Identity.FindCredential(core, t, identifier);
      && r.Ok?
      && (r.value.None? ==> forall c :: !IdentityTheorems.Selected(core, t, identifier, c))
      && (r.value.Some? ==> forall c :: IdentityTheorems.Selected(core, t, identifier, c) <==> c == r.value.value.id)
  {
    var core := Run(env, EMPTY, ops).core;
    assert IdentityTheorems.IndexComplete(EMPTY.core);
    hide Step, Run, IsFreshRun, NeverDrops, IsEnv, Identity.FindCredential, IdentityTheorems.IndexComplete;
    ReachableStatesSatisfyInv(env, ops);
    EmptyInv();
    RunKeepsIndexComplete(env, EMPTY, ops);
    IdentityTheorems.FoundIsSelected(core, t, identifier);
    IdentityTheorems.FindIsTheQueryExactlyWhenComplete(core);
    SelectedIsKeyed(core);
  }

  lemma SelectedIsKeyed(core: Identity.Core)
    requires IdentityInvariants.Inv(core)
    ensures forall c :: c in core.creds ==> core.creds[c].id == c
  {
    IdentityTheorems.CredentialsKeyed(core);
  }

  lemma EmptyInv()
    ensures Inv(EMPTY)
  {
    IdentityInvariants.EmptyInv();
    MfaInvariants.EmptyInv();
    PatInvariants.EmptyInv();
  }

  // ----- What every reachable state satisfies, record by record -----

  /** A session belongs to the user of its credential; while it is unrevoked, both are ACTIVE;
      and it is unrevoked exactly while it has a token hash, which leads back to it. */
  lemma LiveSessionsAreBacked(env: Env, ops: seq<Op>, i: Id)
    requires IsEnv(env) && IsFreshRun(env, EMPTY, ops)
    ensures var s := Run(env, EMPTY, ops).core;
      && (i in s.sessions ==>
          var ses := s.sessions[i];
          && ses.credId in s.creds && ses.usrId == s.creds[ses.credId].usrId && ses.usrId in s.users
          && (ses.IsLive() ==>
              s.creds[ses.credId].status == Identity.Active && s.users[ses.usrId].status == Identity.Active))
      && (i in s.tokenHashes <==> i in s.sessions && s.sessions[i].IsLive())
      && (i in s.tokenHashes ==> s.tokenHashes[i] in s.sessionByHash && s.sessionByHash[s.tokenHashes[i]] == i)
  {
    ReachableStatesSatisfyInv(env, ops);
    hide IsEnv, Run, IsFreshRun, MfaInvariants.Inv, PatInvariants.Inv;
    SessionFacts(Run(env, EMPTY, ops).core, i);
    hide IdentityInvariants.Inv;
  }

  lemma SessionFacts(s: Identity.Core, i: Id)
    requires IdentityInvariants.Inv(s)
    ensures i in s.sessions ==>
      && IdentityInvariants.SessionKeyed(s.creds, i, s.sessions[i]) && s.sessions[i].usrId in s.users
      && (s.sessions[i].IsLive() ==> IdentityInvariants.Backed(s.users, s.creds, s.sessions[i]))
    ensures i in s.tokenHashes <==> i in s.sessions && s.sessions[i].IsLive()
    ensures i in s.tokenHashes ==> s.tokenHashes[i] in s.sessionByHash && s.sessionByHash[s.tokenHashes[i]] == i
  {
    hide IdentityInvariants.TokensIssued, IdentityInvariants.IndexSound, IdentityInvariants.SecretsPresent,
         IdentityInvariants.ReplacesLinks, IdentityInvariants.RefreshLinks;
    assert i in s.sessions ==> IdentityInvariants.SessionKeyed(s.creds, i, s.sessions[i]);
  }

  /** The WebAuthn index is exactly the WebAuthn factors that are not REVOKED, and whoever holds
      a TOTP slot is an ACTIVE TOTP factor of that user, with a stored secret. */
  lemma FactorIndexesAreExact(env: Env, ops: seq<Op>, k: string, f: Id, usrId: Id)
    requires IsEnv(env) && IsFreshRun(env, EMPTY, ops)
    ensures var m := Run(env, EMPTY, ops).mfa;
      && (k in m.byCredentialId && m.byCredentialId[k] == f <==>
          f in m.factors && m.factors[f].kind.WebAuthnFactor? && m.factors[f].status != Mfa.Revoked
          && m.factors[f].kind.identifier == k)
      && (Mfa.TotpKey(usrId) in m.singleton && m.singleton[Mfa.TotpKey(usrId)] == f ==>
          f in m.factors && m.factors[f].kind.TotpFactor? && m.factors[f].status == Mfa.Active
          && m.factors[f].usrId == usrId && f in m.totpSecrets)
  {
    ReachableStatesSatisfyInv(env, ops);
    hide IsEnv, Run, IsFreshRun, IdentityInvariants.Inv, PatInvariants.Inv;
    FactorFacts(Run(env, EMPTY, ops).mfa, k, f, usrId);
    hide MfaInvariants.Inv;
  }

  lemma FactorFacts(m: Mfa.State, k: string, f: Id, usrId: Id)
    requires MfaInvariants.Inv(m)
    ensures k in m.byCredentialId && m.byCredentialId[k] == f
       <==> f in m.factors && MfaInvariants.Listed(m.factors[f], k)
    ensures Mfa.TotpKey(usrId) in m.singleton && m.singleton[Mfa.TotpKey(usrId)] == f ==>
      f in m.factors && MfaTheorems.IsActiveTotp(m.factors[f]) && m.factors[f].usrId == usrId && f in m.totpSecrets
  {
    hide MfaInvariants.RecoveryStored, MfaInvariants.CountsKept, MfaInvariants.RecoverySlotsComplete, Mfa.TotpKey,
         Mfa.RecoveryKey;
    if Mfa.TotpKey(usrId) in m.singleton && m.singleton[Mfa.TotpKey(usrId)] == f {
      assert MfaInvariants.Holds(m.factors[f], Mfa.TotpKey(usrId));
      Mfa.SingletonKeysAreInjective(m.factors[f].usrId, usrId);
      Mfa.SingletonKeysAreInjective(usrId, m.factors[f].usrId);
    }
  }

  // ----- What is final -----

  /** REVOKED is final: no run changes a revoked user, credential, factor or token record, or
      clears the revocation of a session. */
  lemma RevokedIsFinal(env: Env, s: State, more: seq<Op>, id: Id)
    requires IsEnv(env) && Inv(s) && IsFreshRun(env, s, more)
    ensures var t := Run(env, s, more);
      && (id in s.core.users && s.core.users[id].status == Identity.Revoked ==>
          id in t.core.users && t.core.users[id] == s.core.users[id])
      && (id in s.core.creds && s.core.creds[id].status == Identity.Revoked ==>
          id in t.core.creds && t.core.creds[id] == s.core.creds[id])
      && (id in s.core.sessions && !s.core.sessions[id].IsLive() ==>
          id in t.core.sessions && t.core.sessions[id] == s.core.sessions[id])
      && (id in s.mfa.factors && s.mfa.factors[id].status == Mfa.Revoked ==>
          id in t.mfa.factors && t.mfa.factors[id] == s.mfa.factors[id])
      && (id in s.pats.pats && s.pats.pats[id].revokedAt.Some? ==>
          id in t.pats.pats && t.pats.pats[id] == s.pats.pats[id])
  {
    hide Step, IsFresh, IsEnv, Run, IsFreshRun, IdentityInvariants.Inv, MfaInvariants.Inv, PatInvariants.Inv;
    RunKeeps(env, s, more);
    FinalInCore(s.core, Run(env, s, more).core, id);
    FinalInMfa(s.mfa, Run(env, s, more).mfa, id);
    FinalInPats(s.pats, Run(env, s, more).pats, id);
    hide IdentityInvariants.Evolves, MfaInvariants.Evolves, PatInvariants.Evolves;
  }

  lemma FinalInCore(s: Identity.Core, t: Identity.Core, id: Id)
    requires IdentityInvariants.Evolves(s, t)
    ensures id in s.users && s.users[id].status == Identity.Revoked ==> id in t.users && t.users[id] == s.users[id]
    ensures id in s.creds && s.creds[id].status == Identity.Revoked ==> id in t.creds && t.creds[id] == s.creds[id]
    ensures id in s.sessions && !s.sessions[id].IsLive() ==> id in t.sessions && t.sessions[id] == s.sessions[id]
  {
  }

  lemma FinalInMfa(s: Mfa.State, t: Mfa.State, id: Id)
    requires MfaInvariants.Evolves(s, t)
    ensures id in s.factors && s.factors[id].status == Mfa.Revoked ==> id in t.factors && t.factors[id] == s.factors[id]
  {
    assert id in s.factors ==> MfaInvariants.FactorEvolves(s.factors[id], t.factors[id]);
  }

  lemma FinalInPats(s: Pats.State, t: Pats.State, id: Id)
    requires PatInvariants.Evolves(s, t)
    ensures id in s.pats && s.pats[id].revokedAt.Some? ==> id in t.pats && t.pats[id] == s.pats[id]
  {
    assert id in s.pats ==> PatInvariants.PatEvolves(s.pats[id], t.pats[id]);
  }

  /** After a user or a credential has been revoked no session of it is live again, on any run. */
  lemma RevocationIsForever(env: Env, s: State, more: seq<Op>, i: Id)
    requires IsEnv(env) && Inv(s) && IsFreshRun(env, s, more)
    requires var later := Run(env, s, more).core;
      && i in later.sessions
      && ((later.sessions[i].usrId in s.core.users && s.core.users[later.sessions[i].usrId].status == Identity.Revoked)
          || (later.sessions[i].credId in s.core.creds
             && s.core.creds[later.sessions[i].credId].status == Identity.Revoked))
    ensures !Run(env, s, more).core.sessions[i].IsLive()
  {
    hide Step, IsFresh, IsEnv, Run, IsFreshRun, IdentityInvariants.Inv, MfaInvariants.Inv, PatInvariants.Inv,
         IdentityInvariants.Evolves, MfaInvariants.Evolves, PatInvariants.Evolves;
    RunKeeps(env, s, more);
    IdentityTheorems.RevokedOwnersHaveNoLiveSessions(s.core, Run(env, s, more).core, i);
  }

  /** A token whose session is revoked never verifies again. */
  lemma RevokedTokenNeverVerifies(env: Env, s: State, more: seq<Op>, token: string, now: Time)
    requires IsEnv(env) && Inv(s) && IsFreshRun(env, s, more)
    requires token in s.core.issued && s.core.issued[token] in s.core.sessions
      && !s.core.sessions[s.core.issued[token]].IsLive()
    ensures Identity.VerifySessionToken(Run(env, s, more).core, token, now) == Raise(InvalidToken)
  {
    hide Step, IsFresh, IsEnv, Run, IsFreshRun, IdentityInvariants.Inv, MfaInvariants.Inv, PatInvariants.Inv,
         IdentityInvariants.Evolves, MfaInvariants.Evolves, PatInvariants.Evolves;
    RunKeeps(env, s, more);
    IdentityTheorems.DeadTokensStayDead(s.core, Run(env, s, more).core, token, now);
  }

  // ----- MFA over runs -----

  /** The two kinds of step after which an ACTIVE TOTP factor is left without its slot: a
      confirmation that passes all its checks while the slot is taken, and the revocation of a
      PENDING factor while the slot is taken. */
  predicate LosesTotpSlot(env: Env, s: State, op: Op)
    requires IsEnv(env)
  {
    || (op.ConfirmTotp? && MfaTheorems.TakesSlotOver(s.mfa, env.hmac, op.mfaId, op.code, op.ageNow, op.codeNow))
    || (op.RevokeFactor? && MfaTheorems.TakesSlotAway(s.mfa, op.mfaId))
  }

  lemma VerifyMfaLeavesTotp(env: Env, s: Mfa.State, u: Id, proof: Mfa.Proof, now: Time)
    requires IsEnv(env)
    ensures MfaTheorems.TotpUntouched(s, Mfa.VerifyMfa(s, env.hmac, env.lib, u, proof, now).state)
  {
    hide Totp.IsHmac, MfaTheorems.TotpUntouched, Mfa.VerifyTotp, Mfa.VerifyWebAuthn, Mfa.VerifyRecovery;
    match proof
    case TotpProof(code) => MfaTheorems.NothingLeavesTotp(s);
    case WebAuthnProof(credentialId, a) => MfaTheorems.VerifyWebAuthnLeavesTotp(s, env.lib, u, credentialId, a, now);
    case RecoveryProof(code) => MfaTheorems.VerifyRecoveryLeavesTotp(s, u, code, now);
  }

  lemma MfaStepsLeaveTotp(env: Env, s: State, op: Op)
    requires IsEnv(env) && IsMfaOp(op) && !op.ConfirmTotp? && !op.RevokeFactor?
    ensures MfaTheorems.TotpUntouched(s.mfa, MfaStep(env, s, op).state.mfa)
  {
    hide Totp.IsHmac, MfaTheorems.TotpUntouched, Mfa.EnrollTotp, Mfa.EnrollWebAuthn, Mfa.EnrollRecovery,
         Mfa.ConfirmWebAuthn, Mfa.VerifyMfa, Mfa.ConfirmTotp, Mfa.RevokeFactor;
    match op
    case EnrollTotp(u, identifier, secret, newId, now) =>
      MfaTheorems.EnrollTotpLeavesTotp(s.mfa, s.core.users, u, identifier, secret, newId, now);
    case EnrollWebAuthn(u, identifier, reg, newId, now) =>
      MfaTheorems.EnrollWebAuthnLeavesTotp(s.mfa, s.core.users, u, identifier, reg, newId, now);
    case EnrollRecovery(u, codes, newId, now) =>
      MfaTheorems.EnrollRecoveryLeavesTotp(s.mfa, s.core.users, u, codes, newId, now);
    case ConfirmWebAuthn(f, a, ageNow, now) => MfaTheorems.ConfirmWebAuthnLeavesTotp(s.mfa, env.lib, f, a, ageNow, now);
    case VerifyMfa(u, proof, now) => VerifyMfaLeavesTotp(env, s.mfa, u, proof, now);
  }

  lemma MfaStepKeepsTotpSlotsExactly(env: Env, s: State, op: Op)
    requires IsEnv(env) && MfaInvariants.Inv(s.mfa) && MfaTheorems.TotpSlotsComplete(s.mfa) && IsMfaOp(op)
    ensures MfaTheorems.TotpSlotsComplete(MfaStep(env, s, op).state.mfa) <==> !LosesTotpSlot(env, s, op)
  {
    hide MfaInvariants.Inv, Totp.IsHmac, MfaTheorems.TotpSlotsComplete, MfaTheorems.TotpUntouched,
         MfaTheorems.TakesSlotOver, MfaTheorems.TakesSlotAway, Mfa.EnrollTotp, Mfa.EnrollWebAuthn, Mfa.EnrollRecovery,
         Mfa.ConfirmWebAuthn, Mfa.VerifyMfa, Mfa.ConfirmTotp, Mfa.RevokeFactor;
    if op.ConfirmTotp? {
      MfaTheorems.ConfirmKeepsSlotsExactlyWhenFree(s.mfa, env.hmac, op.mfaId, op.code, op.ageNow, op.codeNow, op.now);
    } else if op.RevokeFactor? {
      MfaTheorems.RevocationKeepsSlotsExactlyWhenOwn(s.mfa, op.mfaId, op.now);
    } else {
      hide MfaStep;
      MfaStepsLeaveTotp(env, s, op);
      MfaTheorems.UntouchedKeepsSlots(s.mfa, MfaStep(env, s, op).state.mfa);
    }
  }

  /** Every step keeps each user's ACTIVE TOTP factor unique and in its slot, except exactly in
      those two cases. */
  lemma StepKeepsTotpSlotsExactly(env: Env, s: State, op: Op)
    requires IsEnv(env) && Inv(s) && MfaTheorems.TotpSlotsComplete(s.mfa)
    ensures MfaTheorems.TotpSlotsComplete(Step(env, s, op).state.mfa) <==> !LosesTotpSlot(env, s, op)
  {
    hide IdentityInvariants.Inv, MfaInvariants.Inv, PatInvariants.Inv, IsEnv, MfaTheorems.TotpSlotsComplete,
         MfaTheorems.TakesSlotOver, MfaTheorems.TakesSlotAway, UserStep, CredentialStep, SessionStep, MfaStep, PatStep;
    if IsMfaOp(op) {
      MfaStepKeepsTotpSlotsExactly(env, s, op);
    }
  }

  predicate NeverLosesTotpSlot(env: Env, s: State, ops: seq<Op>)
    requires IsEnv(env)
    decreases |ops|
  {
    ops != [] ==> !LosesTotpSlot(env, s, ops[0]) && NeverLosesTotpSlot(env, Step(env, s, ops[0]).state, ops[1..])
  }

  /** On runs without such a step every ACTIVE TOTP factor is in its slot, so a user has one at
      most. */
  lemma {:induction false} RunKeepsTotpSlots(env: Env, s: State, ops: seq<Op>)
    requires IsEnv(env) && Inv(s) && IsFreshRun(env, s, ops) && NeverLosesTotpSlot(env, s, ops)
    requires MfaTheorems.TotpSlotsComplete(s.mfa)
    ensures MfaTheorems.TotpSlotsComplete(Run(env, s, ops).mfa)
    decreases |ops|
  {
    hide Inv, Step, IsFresh, IsEnv, LosesTotpSlot, MfaTheorems.TotpSlotsComplete;
    if ops != [] {
      StepKeeps(env, s, ops[0]);
      StepKeepsTotpSlotsExactly(env, s, ops[0]);
      RunKeepsTotpSlots(env, Step(env, s, ops[0]).state, ops[1..]);
    }
  }

  // ----- Lookups never fail -----

  lemma UserOpsRaiseNoKeyError(s: State, op: Op)
    requires IsUserOp(op)
    ensures UserStep(s, op).error != Some(KeyError)
  {
    hide Identity.RevokeSessions, Identity.RevokeCredentials, Pats.RevokePatsOfUser, Identity.LiveSessionsOfUser;
  }

  lemma CredentialOpsRaiseNoKeyError(s: State, op: Op)
    requires IsCredentialOp(op)
    ensures CredentialStep(s, op).error != Some(KeyError)
  {
    hide Identity.RetireCredential, Identity.RetireForRotation, Identity.InsertCredential, Identity.TooLong,
         Identity.IdentifierKey;
  }

  lemma SessionOpsRaiseNoKeyError(s: State, op: Op)
    requires IsSessionOp(op)
    ensures SessionStep(s, op).error != Some(KeyError)
  {
    hide Identity.RevokeSessions, Identity.InsertSession;
  }

  lemma ConfirmationsRaiseNoKeyError(env: Env, s: Mfa.State, f: Id, code: string, a: WebAuthn.Assertion,
                                     ageNow: Time, codeNow: Time, now: Time)
    requires IsEnv(env) && MfaInvariants.Inv(s)
    ensures Mfa.ConfirmTotp(s, env.hmac, f, code, ageNow, codeNow, now).result != Raise(KeyError)
    ensures Mfa.ConfirmWebAuthn(s, env.lib, f, a, ageNow, now).result != Raise(KeyError)
  {
    hide MfaInvariants.Inv, Mfa.CheckTotp, Mfa.CheckAssertion, Totp.IsHmac;
    if f in s.factors {
      MfaOperations.SecretOf(s, f);
      if s.factors[f].kind.TotpFactor? {
        MfaTheorems.CheckTotpRaises(env.hmac, s.totpSecrets[f], code, codeNow);
      }
      if s.factors[f].kind.WebAuthnFactor? {
        MfaTheorems.AssertionNoKeyError(s, env.lib, f, s.factors[f], a);
      }
    }
  }

  lemma VerifyPatRaisesNoKeyError(s: Pats.State, token: string, now: Time)
    requires PatInvariants.Inv(s)
    ensures Pats.VerifyPatToken(s, token, now).result != Raise(KeyError)
  {
    hide PatToken.StructurallyValid, PatToken.IsPatId, Identity.TooLong, PatInvariants.IsMinted, Pats.RecordUse,
         Pats.RecordsUse;
    if PatToken.StructurallyValid(token) {
      PatToken.StructurallyValidParts(token);
    }
  }

  const NO_ASSERTION := WebAuthn.Assertion([], [], [], [], "")

  lemma MfaOpsRaiseNoKeyError(env: Env, s: State, op: Op)
    requires IsEnv(env) && MfaInvariants.Inv(s.mfa) && IsMfaOp(op)
    ensures MfaStep(env, s, op).error != Some(KeyError)
  {
    hide MfaInvariants.Inv, Totp.IsHmac, Mfa.ConfirmTotp, Mfa.ConfirmWebAuthn, Mfa.VerifyMfa, Mfa.CheckUserActive,
         Mfa.TotpKey, Mfa.RecoveryKey, Mfa.HashAll, Mfa.AllFalse;
    match op
    case ConfirmTotp(f, code, ageNow, codeNow, now) =>
      ConfirmationsRaiseNoKeyError(env, s.mfa, f, code, NO_ASSERTION, ageNow, codeNow, now);
    case ConfirmWebAuthn(f, a, ageNow, now) =>
      ConfirmationsRaiseNoKeyError(env, s.mfa, f, "", a, ageNow, ageNow, now);
    case VerifyMfa(u, proof, now) => MfaTheorems.VerifiedFactorIsActive(s.mfa, env.hmac, env.lib, u, proof, now);
    case EnrollTotp(u, _, _, _, _) => EnrollmentRaises(s.core.users, u);
    case EnrollWebAuthn(u, _, _, _, _) => EnrollmentRaises(s.core.users, u);
    case EnrollRecovery(u, _, _, _) => EnrollmentRaises(s.core.users, u);
    case RevokeFactor(_, _) =>
  }

  lemma PatOpsRaiseNoKeyError(s: State, op: Op)
    requires PatInvariants.Inv(s.pats) && IsPatOp(op)
    ensures PatStep(s, op).error != Some(KeyError)
  {
    hide PatInvariants.Inv, Pats.VerifyPatToken, Pats.CheckNewPat, PatToken.Encode, PatToken.Token;
    match op
    case VerifyPatToken(token, now) => VerifyPatRaisesNoKeyError(s.pats, token, now);
    case CreatePat(u, name, _, expiresAt, _, _, now) => CreationRaises(s.core.users, u, name, expiresAt, now);
    case RevokePat(_, _) =>
  }

  /** In no reachable state does an operation trip over an index or a secret that is missing. */
  lemma NoLookupFails(env: Env, s: State, op: Op)
    requires IsEnv(env) && Inv(s)
    ensures Step(env, s, op).error != Some(KeyError)
  {
    hide IdentityInvariants.Inv, MfaInvariants.Inv, PatInvariants.Inv, IsEnv, UserStep, CredentialStep, SessionStep,
         MfaStep, PatStep;
    if IsUserOp(op) {
      UserOpsRaiseNoKeyError(s, op);
    } else if IsCredentialOp(op) {
      CredentialOpsRaiseNoKeyError(s, op);
    } else if IsSessionOp(op) {
      SessionOpsRaiseNoKeyError(s, op);
    } else if IsMfaOp(op) {
      MfaOpsRaiseNoKeyError(env, s, op);
    } else {
      PatOpsRaiseNoKeyError(s, op);
    }
  }

  lemma EnrollmentRaises(users: Mfa.Users, u: Id)
    ensures Mfa.CheckUserActive(users, u) != Some(KeyError)
  {
  }

  lemma CreationRaises(users: Pats.Users, u: Id, name: string, expiresAt: Option<Time>, now: Time)
    ensures Pats.CheckNewPat(users, u, name, expiresAt, now) != Some(KeyError)
  {
  }
}
