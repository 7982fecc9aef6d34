/** What becomes of one MFA factor, followed through an operation by looking at the record, the
    operation and its success; and what its secret is good for on the runs after its enrollment. */
module FactorFates {
  import opened Prelude
  import opened Machine
  import IdentityInvariants
  import Mfa
  import MfaInvariants
  import MfaOperations
  import MfaTheorems
  import PatInvariants
  import Recovery
  import RunHistory
  import Totp
  import WebAuthn

  type Factor = Mfa.Factor

  // ----- One operation -----

  /** The factor after an operation that succeeds. */
  function FactorFate(f: Factor, op: Op): Factor {
    match op
    case ConfirmTotp(id, _, _, _, now) =>
      if id == f.id then f.(status := Mfa.Active, updatedAt := now) else f
    case ConfirmWebAuthn(id, a, _, now) =>
      if id == f.id && f.kind.WebAuthnFactor?
      then f.(status := Mfa.Active, updatedAt := now, kind := f.kind.(signCount := RunHistory.CountOf(a))) else f
    case RevokeFactor(id, now) =>
      if id == f.id && f.status != Mfa.Revoked then f.(status := Mfa.Revoked, updatedAt := now) else f
    case VerifyMfa(u, WebAuthnProof(credentialId, a), now) =>
      if f.usrId == u && f.status == Mfa.Active && f.kind.WebAuthnFactor? && f.kind.identifier == credentialId
      then f.(updatedAt := now, kind := f.kind.(signCount := RunHistory.CountOf(a))) else f
    case VerifyMfa(u, RecoveryProof(_), now) =>
      if f.usrId == u && f.status == Mfa.Active && f.kind.RecoveryFactor? && f.kind.remaining > 0
      then f.(updatedAt := now, kind := Mfa.RecoveryFactor(f.kind.remaining - 1)) else f
    case _ => f
  }

  /** The record an enrollment adds. */
  function NewFactor(op: Op): Option<Factor> {
    match op
    case EnrollTotp(u, identifier, _, newId, now) =>
      Some(Mfa.Factor(newId, u, Mfa.Pending, None, now, now, Mfa.TotpFactor(identifier)))
    case EnrollWebAuthn(u, identifier, reg, newId, now) =>
      Some(Mfa.Factor(newId, u, Mfa.Pending, None, now, now,
        Mfa.WebAuthnFactor(identifier, reg.rpId, reg.signCount)))
    case EnrollRecovery(u, codes, newId, now) =>
      Some(Mfa.Factor(newId, u, Mfa.Active, None, now, now, Mfa.RecoveryFactor(|codes|)))
    case _ => None
  }

  /** The factor dictionary is as it was, or has one record put in. */
  predicate Puts(factors: map<Id, Factor>, factors': map<Id, Factor>, id: Id, f: Option<Factor>) {
    factors' == if f.Some? then factors[id := f.value] else factors
  }

  lemma EnrolledTotp(s: Mfa.State, users: Mfa.Users, u: Id, identifier: string, secret: bytes, newId: Id, now: Time)
    ensures var o := Mfa.EnrollTotp(s, users, u, identifier, secret, newId, now);
      var f := NewFactor(EnrollTotp(u, identifier, secret, newId, now));
      && Puts(s.factors, o.state.factors, newId, if o.result.Ok? then f else None)
      && (o.result.Ok? ==> o.result.value == f.value && Lookup(o.state.totpSecrets, newId) == Some(secret))
  {
    hide Mfa.CheckUserActive, Mfa.TotpKey;
  }

  lemma EnrolledWebAuthn(s: Mfa.State, users: Mfa.Users, u: Id, identifier: string, reg: WebAuthn.Registration,
                         newId: Id, now: Time)
    ensures var o := Mfa.EnrollWebAuthn(s, users, u, identifier, reg, newId, now);
      var f := NewFactor(EnrollWebAuthn(u, identifier, reg, newId, now));
      && Puts(s.factors, o.state.factors, newId, if o.result.Ok? then f else None)
      && (o.result.Ok? ==>
            && o.result.value == f.value && Lookup(o.state.webauthnKeys, newId) == Some(reg.cosePublicKey)
            && Lookup(o.state.accepted, newId) == Some([]))
  {
    hide Mfa.CheckUserActive;
  }

  lemma EnrolledRecovery(s: Mfa.State, users: Mfa.Users, u: Id, codes: seq<string>, newId: Id, now: Time)
    ensures var o := Mfa.EnrollRecovery(s, users, u, codes, newId, now);
      var f := NewFactor(EnrollRecovery(u, codes, newId, now));
      && Puts(s.factors, o.state.factors, newId, if o.result.Ok? then f else None)
      && (o.result.Ok? ==> o.result.value == f.value)
  {
    hide Mfa.CheckUserActive, Mfa.RecoveryKey, Mfa.HashAll, Mfa.AllFalse;
  }

  lemma ConfirmedTotp(hmac: (bytes, bytes) -> bytes, s: Mfa.State, id: Id, code: string, ageNow: Time,
                      codeNow: Time, now: Time)
    requires Totp.IsHmac(hmac)
    ensures var o := Mfa.ConfirmTotp(s, hmac, id, code, ageNow, codeNow, now);
      && (o.result.Ok? ==> id in s.factors)
      && Puts(s.factors, o.state.factors, id,
              if o.result.Ok? then Some(s.factors[id].(status := Mfa.Active, updatedAt := now)) else None)
  {
    hide Totp.IsHmac, Mfa.CheckTotp, Mfa.TotpKey, Mfa.IsExpiredPending;
  }

  lemma CountedFactor(s: Mfa.State, id: Id, status: Mfa.FactorStatus, n: nat, now: Time)
    requires id in s.factors && s.factors[id].kind.WebAuthnFactor?
    ensures Mfa.AcceptCount(s, id, Mfa.WithCount(s.factors[id], status, n, now), n).factors
         == s.factors[id := s.factors[id].(status := status, updatedAt := now,
                                           kind := s.factors[id].kind.(signCount := n))]
  {
    hide Mfa.History;
  }

  lemma ConfirmedWebAuthn(s: Mfa.State, lib: WebAuthn.Library, id: Id, a: WebAuthn.Assertion, ageNow: Time, now: Time)
    ensures var o := Mfa.ConfirmWebAuthn(s, lib, id, a, ageNow, now);
      && (o.result.Ok? ==> id in s.factors && s.factors[id].kind.WebAuthnFactor?)
      && Puts(s.factors, o.state.factors, id,
              if o.result.Ok? then Some(s.factors[id].(status := Mfa.Active, updatedAt := now,
                                          kind := s.factors[id].kind.(signCount := RunHistory.CountOf(a))))
              else None)
  {
    hide Mfa.CheckAssertion, Mfa.AcceptCount, Mfa.WithCount, RunHistory.CountOf, Mfa.IsExpiredPending;
    if Mfa.ConfirmWebAuthn(s, lib, id, a, ageNow, now).result.Ok? {
      RunHistory.CheckedCount(s, lib, id, s.factors[id], a);
      CountedFactor(s, id, Mfa.Active, RunHistory.CountOf(a), now);
    }
  }

  lemma RevokedFactor(s: Mfa.State, id: Id, now: Time)
    ensures Puts(s.factors, Mfa.RevokeFactor(s, id, now).state.factors, id,
                 if id in s.factors && s.factors[id].status != Mfa.Revoked
                 then Some(s.factors[id].(status := Mfa.Revoked, updatedAt := now)) else None)
  {
    hide Mfa.WithoutSlot, Mfa.WithoutListing;
  }

  lemma AssertedFactor(s: Mfa.State, lib: WebAuthn.Library, u: Id, c: string, a: WebAuthn.Assertion, now: Time, f: Id)
    requires MfaInvariants.Inv(s) && f in s.factors
    ensures var o := Mfa.VerifyWebAuthn(s, lib, u, c, a, now);
      && (o.result.Raise? ==> o.state == s)
      && (o.result.Ok? ==>
            Lookup(o.state.factors, f)
            == Some(if MfaTheorems.Answers(s, u, c, f)
                    then s.factors[f].(updatedAt := now, kind := s.factors[f].kind.(signCount := RunHistory.CountOf(a)))
                    else s.factors[f]))
  {
    hide MfaInvariants.Inv, Mfa.CheckAssertion, Mfa.AcceptCount, Mfa.WithCount, RunHistory.CountOf;
    if Mfa.VerifyWebAuthn(s, lib, u, c, a, now).result.Ok? {
      var id := s.byCredentialId[c];
      MfaTheorems.IndexedFactor(s, c);
      if MfaTheorems.Answers(s, u, c, f) {
        MfaTheorems.ListedFactor(s, f);
      }
      RunHistory.CheckedCount(s, lib, id, s.factors[id], a);
      CountedFactor(s, id, Mfa.Active, RunHistory.CountOf(a), now);
    }
  }

  lemma RecoveredFactor(s: Mfa.State, u: Id, code: string, now: Time, f: Id)
    requires MfaInvariants.Inv(s) && f in s.factors
    ensures var o := Mfa.VerifyRecovery(s, u, code, now);
      && (o.result.Raise? ==> o.state == s)
      && (o.result.Ok? ==>
            Lookup(o.state.factors, f) == Some(FactorFate(s.factors[f], VerifyMfa(u, Mfa.RecoveryProof(code), now))))
  {
    hide MfaInvariants.Inv, Mfa.VerifyRecovery, Mfa.RecoveryKey, Mfa.CountFalse, Recovery.Normalize,
         MfaInvariants.RecoveryConsistent;
    MfaOperations.RecoveryFailsCleanly(s, u, code, now);
    MfaTheorems.RecoverySlotIsTheQuery(s, u, f);
    if Mfa.VerifyRecovery(s, u, code, now).result.Ok? {
      var slot := MfaOperations.RecoveryConsumes(s, u, code, now);
      var id := s.singleton[Mfa.RecoveryKey(u)];
      MfaOperations.RecoverySlot(s, u);
      OneLess(s.factors[id].kind.remaining, s.recoveryHashes[id], s.recoveryConsumed[id], s.spent[id], slot);
    }
  }

  lemma OneLess(remaining: nat, hashes: seq<Mfa.PasswordHash>, consumed: seq<bool>, spent: seq<string>, i: nat)
    requires MfaInvariants.RecoveryConsistent(remaining, hashes, consumed, spent) && i < |consumed| && !consumed[i]
    ensures remaining > 0 && Mfa.CountFalse(consumed[i := true]) == remaining - 1
  {
    hide Recovery.IsValidCode, MfaInvariants.Picked, Mfa.CountFalse;
    MfaInvariants.ConsumeSlot(hashes, consumed, i);
  }

  lemma VerifiedFactor(env: Env, s: State, op: Op, f: Id)
    requires IsEnv(env) && op.VerifyMfa? && MfaInvariants.Inv(s.mfa) && f in s.mfa.factors
    ensures var r := MfaStep(env, s, op);
      Lookup(r.state.mfa.factors, f)
      == Some(if r.error.None? then FactorFate(s.mfa.factors[f], op) else s.mfa.factors[f])
  {
    hide MfaInvariants.Inv, Totp.IsHmac, Mfa.VerifyTotp, Mfa.VerifyWebAuthn, Mfa.VerifyRecovery, RunHistory.CountOf;
    match op.proof
    case TotpProof(_) =>
    case WebAuthnProof(c, a) => AssertedFactor(s.mfa, env.lib, op.usrId, c, a, op.now, f);
    case RecoveryProof(code) => RecoveredFactor(s.mfa, op.usrId, code, op.now, f);
  }

  lemma EnrollmentFate(env: Env, s: State, op: Op, f: Id)
    requires IsEnv(env) && (op.EnrollTotp? || op.EnrollWebAuthn? || op.EnrollRecovery?)
    requires IsFresh(s, op) && f in s.mfa.factors
    ensures Lookup(MfaStep(env, s, op).state.mfa.factors, f) == Some(s.mfa.factors[f])
  {
    hide Totp.IsHmac, Mfa.EnrollTotp, Mfa.EnrollWebAuthn, Mfa.EnrollRecovery, Recovery.IsValidCode, NewFactor;
    match op
    case EnrollTotp(u, identifier, secret, newId, now) =>
      EnrolledTotp(s.mfa, s.core.users, u, identifier, secret, newId, now);
    case EnrollWebAuthn(u, identifier, reg, newId, now) =>
      EnrolledWebAuthn(s.mfa, s.core.users, u, identifier, reg, newId, now);
    case EnrollRecovery(u, codes, newId, now) => EnrolledRecovery(s.mfa, s.core.users, u, codes, newId, now);
  }

  lemma ChangeFate(env: Env, s: State, op: Op, f: Id)
    requires IsEnv(env) && (op.ConfirmTotp? || op.ConfirmWebAuthn? || op.RevokeFactor?)
    requires f in s.mfa.factors && s.mfa.factors[f].id == f
    ensures var r := MfaStep(env, s, op);
      Lookup(r.state.mfa.factors, f)
      == Some(if r.error.None? then FactorFate(s.mfa.factors[f], op) else s.mfa.factors[f])
  {
    hide Totp.IsHmac, Mfa.ConfirmTotp, Mfa.ConfirmWebAuthn, Mfa.RevokeFactor, RunHistory.CountOf;
    match op
    case ConfirmTotp(id, code, ageNow, codeNow, now) =>
      ConfirmedTotp(env.hmac, s.mfa, id, code, ageNow, codeNow, now);
    case ConfirmWebAuthn(id, a, ageNow, now) => ConfirmedWebAuthn(s.mfa, env.lib, id, a, ageNow, now);
    case RevokeFactor(id, now) =>
      RevokedFactor(s.mfa, id, now);
      RevocationSucceeds(s.mfa, id, now);
  }

  lemma MfaStepFate(env: Env, s: State, op: Op, f: Id)
    requires IsEnv(env) && IsMfaOp(op) && MfaInvariants.Inv(s.mfa) && IsFresh(s, op) && f in s.mfa.factors
    ensures var r := MfaStep(env, s, op);
      Lookup(r.state.mfa.factors, f)
      == Some(if r.error.None? then FactorFate(s.mfa.factors[f], op) else s.mfa.factors[f])
  {
    MfaOperations.KeyedFactor(s.mfa, f);
    hide IsEnv, IsFresh, MfaInvariants.Inv, MfaStep;
    if op.VerifyMfa? {
      VerifiedFactor(env, s, op, f);
    } else if op.EnrollTotp? || op.EnrollWebAuthn? || op.EnrollRecovery? {
      EnrollmentFate(env, s, op, f);
    } else {
      ChangeFate(env, s, op, f);
    }
  }

  lemma RevocationSucceeds(s: Mfa.State, id: Id, now: Time)
    ensures Mfa.RevokeFactor(s, id, now).result.Ok? <==> id in s.factors
  {
    hide Mfa.WithoutSlot, Mfa.WithoutListing;
  }

  /** A factor changes only by an operation that succeeds and names it, or that verifies against it,
      and what it turns into depends on nothing else. */
  lemma FactorFollowsFate(env: Env, s: State, op: Op, f: Id)
    requires IsEnv(env) && MfaInvariants.Inv(s.mfa) && IsFresh(s, op) && f in s.mfa.factors
    ensures var r := Step(env, s, op);
      Lookup(r.state.mfa.factors, f)
      == Some(if r.error.None? then FactorFate(s.mfa.factors[f], op) else s.mfa.factors[f])
  {
    hide IsEnv, IsFresh, MfaInvariants.Inv, Step, MfaStep;
    if IsMfaOp(op) {
      StepIsMfaStep(env, s, op);
      MfaStepFate(env, s, op, f);
    } else {
      RunHistory.OtherStepLeavesMfa(env, s, op);
    }
  }

  // ----- After an enrollment -----

  lemma SecretsStay(env: Env, s: State, more: seq<Op>, f: Id)
    requires IsEnv(env) && Inv(s) && IsFreshRun(env, s, more) && f in s.mfa.factors
    ensures var later := Run(env, s, more);
      && Inv(later) && MfaInvariants.Inv(later.mfa) && f in later.mfa.factors
      && MfaInvariants.FactorEvolves(s.mfa.factors[f], later.mfa.factors[f])
      && (f in s.mfa.totpSecrets ==> Lookup(later.mfa.totpSecrets, f) == Some(s.mfa.totpSecrets[f]))
      && (f in s.mfa.webauthnKeys ==> Lookup(later.mfa.webauthnKeys, f) == Some(s.mfa.webauthnKeys[f]))
  {
    hide IsEnv, IsFreshRun, Run, IdentityInvariants.Inv, MfaInvariants.Inv, PatInvariants.Inv,
         IdentityInvariants.Evolves, PatInvariants.Evolves;
    RunKeeps(env, s, more);
    SecretsEvolve(s.mfa, Run(env, s, more).mfa, f);
    hide MfaInvariants.Evolves;
  }

  lemma SecretsEvolve(s: Mfa.State, t: Mfa.State, f: Id)
    requires MfaInvariants.Evolves(s, t) && f in s.factors
    ensures f in t.factors && MfaInvariants.FactorEvolves(s.factors[f], t.factors[f])
    ensures f in s.totpSecrets ==> Lookup(t.totpSecrets, f) == Some(s.totpSecrets[f])
    ensures f in s.webauthnKeys ==> Lookup(t.webauthnKeys, f) == Some(s.webauthnKeys[f])
  {
    hide MfaInvariants.FactorEvolves;
  }

  lemma TotpIsStored(env: Env, s: State, op: Op)
    requires IsEnv(env) && op.EnrollTotp? && Step(env, s, op).error.None?
    ensures var m := Step(env, s, op).state.mfa;
      && Lookup(m.factors, op.newId) == NewFactor(op) && Lookup(m.totpSecrets, op.newId) == Some(op.secret)
  {
    StepIsMfaStep(env, s, op);
    EnrolledTotp(s.mfa, s.core.users, op.usrId, op.identifier, op.secret, op.newId, op.now);
    hide IsEnv, Step, Mfa.EnrollTotp, NewFactor;
  }

  lemma WebAuthnIsStored(env: Env, s: State, op: Op)
    requires IsEnv(env) && op.EnrollWebAuthn? && Step(env, s, op).error.None?
    ensures var m := Step(env, s, op).state.mfa;
      && Lookup(m.factors, op.newId) == NewFactor(op)
      && Lookup(m.webauthnKeys, op.newId) == Some(op.registration.cosePublicKey)
      && Lookup(m.accepted, op.newId) == Some([])
  {
    StepIsMfaStep(env, s, op);
    EnrolledWebAuthn(s.mfa, s.core.users, op.usrId, op.identifier, op.registration, op.newId, op.now);
    hide IsEnv, Step, Mfa.EnrollWebAuthn, NewFactor;
  }

  /** On every run after its enrollment a TOTP factor accepts, for its user, exactly the current codes of
      the secret it was enrolled with, while it is in the slot, which with complete slots is while it
      is ACTIVE. */
  lemma TotpFactorLife(env: Env, s: State, op: Op, more: seq<Op>, code: string, now: Time)
    requires IsEnv(env) && Inv(s) && IsFresh(s, op) && op.EnrollTotp? && Step(env, s, op).error.None?
    requires IsFreshRun(env, Step(env, s, op).state, more)
    ensures var m := Run(env, Step(env, s, op).state, more).mfa;
      && op.newId in m.factors
      && (Mfa.VerifyTotp(m, env.hmac, op.usrId, code, now) == Ok(Mfa.Match(op.newId, None))
          <==> MfaTheorems.IsTotpSlotOf(m, op.usrId, op.newId)
               && MfaTheorems.IsCurrentCode(env.hmac, op.secret, code, now))
      && (MfaTheorems.TotpSlotsComplete(m) ==>
            (MfaTheorems.IsTotpSlotOf(m, op.usrId, op.newId) <==> m.factors[op.newId].status == Mfa.Active))
  {
    var t := Step(env, s, op).state;
    hide IsEnv, IsFresh, IsFreshRun, Step, Run, Inv, MfaInvariants.Inv, Mfa.VerifyTotp, MfaTheorems.TotpSlotsComplete,
         MfaTheorems.IsTotpSlotOf, MfaTheorems.IsCurrentCode;
    TotpIsStored(env, s, op);
    StepKeeps(env, s, op);
    SecretsStay(env, t, more, op.newId);
    MfaTheorems.TotpVerifiesExactly(Run(env, t, more).mfa, env.hmac, op.usrId, code, now, Mfa.Match(op.newId, None));
  }

  lemma SuccessIsCounted(env: Env, s: State, op: Op, f: Id)
    requires IsEnv(env) && MfaInvariants.Inv(s.mfa) && f in s.mfa.factors && MfaStepSucceeds(env, s, op)
    requires (op.ConfirmWebAuthn? && op.mfaId == f)
      || (op.VerifyMfa? && op.proof.WebAuthnProof?
          && MfaTheorems.Answers(s.mfa, op.usrId, op.proof.credentialId, f))
    ensures RunHistory.CountAccepted(env, s, op, f) != []
  {
    hide Totp.IsHmac, MfaInvariants.Inv, RunHistory.CountOf, Mfa.ConfirmWebAuthn, Mfa.VerifyWebAuthn,
         Mfa.VerifyRecovery, Mfa.VerifyTotp, WebAuthn.VerifyAssertion;
    if op.VerifyMfa? {
      MfaTheorems.AssertionVerifiesExactly(s.mfa, env.lib, op.usrId, op.proof.credentialId, op.proof.assertion, op.now,
        f);
    }
  }

  predicate MfaStepSucceeds(env: Env, s: State, op: Op)
    requires IsEnv(env)
  {
    IsMfaOp(op) && MfaStep(env, s, op).error.None?
  }

  lemma KindChanges(f: Factor, op: Op)
    requires f.kind.WebAuthnFactor? && FactorFate(f, op).kind != f.kind
    ensures (op.ConfirmWebAuthn? && op.mfaId == f.id)
      || (op.VerifyMfa? && op.proof.WebAuthnProof? && f.usrId == op.usrId && f.status == Mfa.Active
          && f.kind.identifier == op.proof.credentialId)
  {
  }

  lemma KindUntilCounted(env: Env, s: State, op: Op, f: Id)
    requires IsEnv(env) && MfaInvariants.Inv(s.mfa) && IsFresh(s, op)
    requires f in s.mfa.factors && s.mfa.factors[f].kind.WebAuthnFactor?
    requires RunHistory.CountAccepted(env, s, op, f) == []
    ensures var t := Step(env, s, op).state.mfa; f in t.factors && t.factors[f].kind == s.mfa.factors[f].kind
  {
    MfaOperations.KeyedFactor(s.mfa, f);
    hide IsEnv, IsFresh, MfaInvariants.Inv, Step, MfaStep, RunHistory.CountAccepted, FactorFate;
    FactorFollowsFate(env, s, op, f);
    if s.mfa.factors[f].kind != FactorFate(s.mfa.factors[f], op).kind && Step(env, s, op).error.None? {
      KindChanges(s.mfa.factors[f], op);
      StepIsMfaStep(env, s, op);
      SuccessIsCounted(env, s, op, f);
    }
  }

  /** The stored count is the one of the registration until an assertion is accepted. */
  lemma {:induction false} CountUntilAccepted(env: Env, s: State, ops: seq<Op>, f: Id)
    requires IsEnv(env) && Inv(s) && IsFreshRun(env, s, ops)
    requires f in s.mfa.factors && s.mfa.factors[f].kind.WebAuthnFactor?
    requires RunHistory.CountsAccepted(env, s, ops, f) == []
    ensures var t := Run(env, s, ops).mfa; f in t.factors && t.factors[f].kind == s.mfa.factors[f].kind
    decreases |ops|
  {
    hide IsEnv, IsFresh, Inv, Step, RunHistory.CountAccepted;
    if ops != [] {
      StepKeeps(env, s, ops[0]);
      RunHistory.MfaPart(s);
      KindUntilCounted(env, s, ops[0], f);
      CountUntilAccepted(env, Step(env, s, ops[0]).state, ops[1..], f);
    }
  }

  lemma CountOnRun(env: Env, s: State, more: seq<Op>, f: Id)
    requires IsEnv(env) && Inv(s) && IsFreshRun(env, s, more)
    requires f in s.mfa.factors && s.mfa.factors[f].kind.WebAuthnFactor? && Lookup(s.mfa.accepted, f) == Some([])
    ensures var m, counts := Run(env, s, more).mfa, RunHistory.CountsAccepted(env, s, more, f);
      && f in m.factors && m.factors[f].kind.WebAuthnFactor?
      && m.factors[f].kind.signCount == if counts == [] then s.mfa.factors[f].kind.signCount else Last(counts)
  {
    hide IsEnv, IsFreshRun, Run, Inv, MfaInvariants.Inv, RunHistory.CountsAccepted;
    SecretsStay(env, s, more, f);
    MfaOperations.CountsOf(Run(env, s, more).mfa, f);
    RunHistory.RunAccepts(env, s, more, f);
    if RunHistory.CountsAccepted(env, s, more, f) == [] {
      CountUntilAccepted(env, s, more, f);
    }
  }

  /** What an ACTIVE factor with this key, relying party and count answers. */
  predicate AnswersWith(m: Mfa.State, lib: WebAuthn.Library, usrId: Id, credentialId: string, f: Id,
                        reg: WebAuthn.Registration, a: WebAuthn.Assertion, now: Time)
  {
    var checked := WebAuthn.VerifyAssertion(lib, reg, a);
    Mfa.VerifyWebAuthn(m, lib, usrId, credentialId, a, now).result
    == if checked.Ok? then Ok(Mfa.Match(f, Some(checked.value))) else Raise(checked.error)
  }

  lemma ActiveFactorAnswers(m: Mfa.State, lib: WebAuthn.Library, f: Id, usrId: Id, credentialId: string,
                            reg: WebAuthn.Registration, a: WebAuthn.Assertion, now: Time)
    requires MfaInvariants.Inv(m) && f in m.factors && m.factors[f].usrId == usrId
    requires m.factors[f].kind == Mfa.WebAuthnFactor(credentialId, reg.rpId, reg.signCount)
    requires Lookup(m.webauthnKeys, f) == Some(reg.cosePublicKey)
    ensures m.factors[f].status == Mfa.Active ==> AnswersWith(m, lib, usrId, credentialId, f, reg, a, now)
  {
    hide MfaInvariants.Inv, Mfa.VerifyWebAuthn, WebAuthn.VerifyAssertion;
    MfaTheorems.AssertionVerifiesExactly(m, lib, usrId, credentialId, a, now, f);
  }

  /** On every run after its enrollment a WebAuthn factor, while it is ACTIVE, accepts under its
      credential id exactly the assertions that the verifier accepts with the key and the relying
      party it was enrolled with and with the last count accepted on the run, or the count it was
      enrolled with as long as none was. */
  lemma WebAuthnFactorLife(env: Env, s: State, op: Op, more: seq<Op>, a: WebAuthn.Assertion, now: Time)
    requires IsEnv(env) && Inv(s) && IsFresh(s, op) && op.EnrollWebAuthn? && Step(env, s, op).error.None?
    requires IsFreshRun(env, Step(env, s, op).state, more)
    ensures var m := Run(env, Step(env, s, op).state, more).mfa;
      var counts := RunHistory.CountsAccepted(env, Step(env, s, op).state, more, op.newId);
      var reg := if counts == [] then op.registration else op.registration.(signCount := Last(counts));
      && op.newId in m.factors
      && (m.factors[op.newId].status == Mfa.Active ==>
            AnswersWith(m, env.lib, op.usrId, op.identifier, op.newId, reg, a, now))
  {
    hide IsEnv, IsFresh, IsFreshRun, Step, Run, Inv, MfaInvariants.Inv, RunHistory.CountsAccepted, AnswersWith;
    var t := Step(env, s, op).state;
    WebAuthnIsStored(env, s, op);
    StepKeeps(env, s, op);
    SecretsStay(env, t, more, op.newId);
    CountOnRun(env, t, more, op.newId);
    var counts := RunHistory.CountsAccepted(env, t, more, op.newId);
    var reg := if counts == [] then op.registration else op.registration.(signCount := Last(counts));
    ActiveFactorAnswers(Run(env, t, more).mfa, env.lib, op.newId, op.usrId, op.identifier, reg, a, now);
  }

  // ----- What the operations return -----

  /** Confirmation and revocation return the factor as it is stored afterwards. */
  lemma ReturnedFactors(env: Env, s: Mfa.State, f: Id, code: string, a: WebAuthn.Assertion, ageNow: Time,
                        codeNow: Time, now: Time)
    requires IsEnv(env)
    ensures var o := Mfa.ConfirmTotp(s, env.hmac, f, code, ageNow, codeNow, now);
      o.result.Ok? ==> Lookup(o.state.factors, f) == Some(o.result.value)
    ensures var o := Mfa.ConfirmWebAuthn(s, env.lib, f, a, ageNow, now);
      o.result.Ok? ==> Lookup(o.state.factors, f) == Some(o.result.value)
    ensures var o := Mfa.RevokeFactor(s, f, now);
      o.result.Ok? ==> Lookup(o.state.factors, f) == Some(o.result.value)
  {
    hide Totp.IsHmac, Mfa.CheckTotp, Mfa.CheckAssertion, Mfa.TotpKey, Mfa.IsExpiredPending, Mfa.WithCount, Mfa.History,
         Mfa.WithoutSlot, Mfa.WithoutListing;
  }
}
