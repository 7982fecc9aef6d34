/** The history fields of the model, read off the operations of a run and their results: recovery
    codes and sign counts accepted, session tokens issued, sessions refreshed, uses of tokens
    recorded. So what the invariant says of the history holds of the operations. */
module RunHistory {
  import opened Prelude
  import opened Machine
  import Identity
  import IdentityInvariants
  import Mfa
  import MfaInvariants
  import MfaOperations
  import MfaTheorems
  import Pats
  import PatInvariants
  import PatToken
  import Recovery
  import Totp
  import WebAuthn

  // ----- Recoveries -----

  /** The code, normalized, with which this operation verifies against the factor, if it does. */
  function CodeAccepted(env: Env, s: State, op: Op, f: Id): (codes: seq<string>)
    requires IsEnv(env)
    ensures |codes| <= 1
  {
    if op.VerifyMfa? && op.proof.RecoveryProof? then
      var r := Mfa.VerifyMfa(s.mfa, env.hmac, env.lib, op.usrId, op.proof, op.now).result;
      if r.Ok? && r.value.mfaId == f then [Recovery.Normalize(op.proof.code)] else []
    else []
  }

  /** The codes of all successful recoveries against the factor in a run, in order. */
  function CodesAccepted(env: Env, s: State, ops: seq<Op>, f: Id): seq<string>
    requires IsEnv(env)
    decreases |ops|
  {
    if ops == [] then []
    else CodeAccepted(env, s, ops[0], f) + CodesAccepted(env, Step(env, s, ops[0]).state, ops[1..], f)
  }

  lemma SpentWhenAccepted(s: Mfa.State, u: Id, code: string, now: Time)
    requires Mfa.VerifyRecovery(s, u, code, now).result.Ok?
    ensures var o := Mfa.VerifyRecovery(s, u, code, now); var id := o.result.value.mfaId;
      o.state.spent == s.spent[id := Mfa.History(s.spent, id) + [Recovery.Normalize(code)]]
  {
    hide Recovery.Normalize, Recovery.IsValidCode, Mfa.RecoveryKey, Mfa.FirstMatch, Mfa.CountFalse, Mfa.History;
  }

  lemma SpentByRecovery(s: Mfa.State, u: Id, code: string, now: Time)
    requires MfaInvariants.Inv(s)
    ensures var o := Mfa.VerifyRecovery(s, u, code, now);
      o.state.spent == if o.result.Ok?
        then s.spent[o.result.value.mfaId := Mfa.History(s.spent, o.result.value.mfaId) + [Recovery.Normalize(code)]]
        else s.spent
  {
    hide MfaInvariants.Inv, Mfa.VerifyRecovery, Mfa.History, Recovery.Normalize;
    MfaOperations.RecoveryFailsCleanly(s, u, code, now);
    if Mfa.VerifyRecovery(s, u, code, now).result.Ok? {
      SpentWhenAccepted(s, u, code, now);
    }
  }

  lemma SpentByProof(env: Env, s: Mfa.State, u: Id, proof: Mfa.Proof, now: Time)
    requires IsEnv(env) && !proof.RecoveryProof?
    ensures Mfa.VerifyMfa(s, env.hmac, env.lib, u, proof, now).state.spent == s.spent
    ensures Mfa.VerifyMfa(s, env.hmac, env.lib, u, proof, now).state.recoveryHashes == s.recoveryHashes
  {
    hide Totp.IsHmac, Mfa.VerifyTotp, Mfa.CheckAssertion;
  }

  lemma SpentByEnrollment(s: Mfa.State, users: Mfa.Users, u: Id, codes: seq<string>, newId: Id, now: Time)
    ensures var spent := Mfa.EnrollRecovery(s, users, u, codes, newId, now).state.spent;
      spent == s.spent || spent == s.spent[newId := []]
  {
    hide Mfa.CheckUserActive, Mfa.RecoveryKey, Mfa.HashAll, Mfa.AllFalse;
  }

  lemma SpentIsStored(s: Mfa.State)
    requires MfaInvariants.Inv(s)
    ensures s.spent.Keys <= s.factors.Keys && s.accepted.Keys <= s.factors.Keys
    ensures s.recoveryHashes.Keys <= s.factors.Keys
  {
  }

  lemma SpentUntouchedByTotp(hmac: (bytes, bytes) -> bytes, s: Mfa.State, f: Id, code: string, ageNow: Time,
                             codeNow: Time, now: Time)
    requires Totp.IsHmac(hmac)
    ensures Mfa.ConfirmTotp(s, hmac, f, code, ageNow, codeNow, now).state.spent == s.spent
    ensures Mfa.ConfirmTotp(s, hmac, f, code, ageNow, codeNow, now).state.recoveryHashes == s.recoveryHashes
  {
    hide Totp.IsHmac, Mfa.CheckTotp, Mfa.TotpKey;
  }

  lemma SpentUntouchedByRevocation(s: Mfa.State, f: Id, now: Time)
    ensures Mfa.RevokeFactor(s, f, now).state.spent == s.spent
    ensures Mfa.RevokeFactor(s, f, now).state.recoveryHashes == s.recoveryHashes
  {
    hide Mfa.WithoutSlot, Mfa.WithoutListing;
  }

  lemma SpentUntouchedByTotpEnrollment(s: Mfa.State, users: Mfa.Users, u: Id, identifier: string, secret: bytes,
                                       newId: Id, now: Time)
    ensures Mfa.EnrollTotp(s, users, u, identifier, secret, newId, now).state.spent == s.spent
    ensures Mfa.EnrollTotp(s, users, u, identifier, secret, newId, now).state.recoveryHashes == s.recoveryHashes
  {
    hide Mfa.CheckUserActive, Mfa.TotpKey;
  }

  lemma SpentUntouchedByWebAuthnEnrollment(s: Mfa.State, users: Mfa.Users, u: Id, identifier: string,
                                           reg: WebAuthn.Registration, newId: Id, now: Time)
    ensures Mfa.EnrollWebAuthn(s, users, u, identifier, reg, newId, now).state.spent == s.spent
    ensures Mfa.EnrollWebAuthn(s, users, u, identifier, reg, newId, now).state.recoveryHashes == s.recoveryHashes
  {
    hide Mfa.CheckUserActive;
  }

  lemma SpentUntouchedByAssertion(s: Mfa.State, lib: WebAuthn.Library, f: Id, a: WebAuthn.Assertion, ageNow: Time,
                                  now: Time)
    ensures Mfa.ConfirmWebAuthn(s, lib, f, a, ageNow, now).state.spent == s.spent
    ensures Mfa.ConfirmWebAuthn(s, lib, f, a, ageNow, now).state.recoveryHashes == s.recoveryHashes
  {
    hide Mfa.CheckAssertion, Mfa.AcceptCount, Mfa.WithCount;
    var o := Mfa.ConfirmWebAuthn(s, lib, f, a, ageNow, now);
    if o.result.Ok? {
      SpentUntouchedByCount(s, f, o.result.value, Mfa.CheckAssertion(s, lib, f, s.factors[f], a).value);
    }
  }

  lemma SpentUntouchedByCount(s: Mfa.State, id: Id, f: Mfa.Factor, n: nat)
    ensures Mfa.AcceptCount(s, id, f, n).spent == s.spent
    ensures Mfa.AcceptCount(s, id, f, n).recoveryHashes == s.recoveryHashes
  {
  }

  lemma SpentUntouched(env: Env, s: State, op: Op)
    requires IsEnv(env) && IsMfaOp(op) && !op.VerifyMfa? && !op.EnrollRecovery?
    ensures MfaStep(env, s, op).state.mfa.spent == s.mfa.spent
    ensures MfaStep(env, s, op).state.mfa.recoveryHashes == s.mfa.recoveryHashes
  {
    hide Totp.IsHmac, Mfa.EnrollTotp, Mfa.EnrollWebAuthn, Mfa.ConfirmTotp, Mfa.ConfirmWebAuthn, Mfa.RevokeFactor,
         Mfa.VerifyMfa, Mfa.EnrollRecovery;
    match op
    case EnrollTotp(u, identifier, secret, newId, now) =>
      SpentUntouchedByTotpEnrollment(s.mfa, s.core.users, u, identifier, secret, newId, now);
    case EnrollWebAuthn(u, identifier, reg, newId, now) =>
      SpentUntouchedByWebAuthnEnrollment(s.mfa, s.core.users, u, identifier, reg, newId, now);
    case ConfirmTotp(f, code, ageNow, codeNow, now) =>
      SpentUntouchedByTotp(env.hmac, s.mfa, f, code, ageNow, codeNow, now);
    case ConfirmWebAuthn(f, a, ageNow, now) => SpentUntouchedByAssertion(s.mfa, env.lib, f, a, ageNow, now);
    case RevokeFactor(f, now) => SpentUntouchedByRevocation(s.mfa, f, now);
  }

  lemma MfaStepSpends(env: Env, s: State, op: Op, f: Id)
    requires IsEnv(env) && MfaInvariants.Inv(s.mfa) && IsFresh(s, op) && IsMfaOp(op)
    ensures Mfa.History(MfaStep(env, s, op).state.mfa.spent, f)
         == Mfa.History(s.mfa.spent, f) + CodeAccepted(env, s, op, f)
  {
    hide MfaInvariants.Inv, Totp.IsHmac, Mfa.VerifyRecovery, Mfa.VerifyTotp, Mfa.VerifyWebAuthn, Mfa.EnrollTotp,
         Mfa.EnrollWebAuthn, Mfa.EnrollRecovery, Mfa.ConfirmTotp, Mfa.ConfirmWebAuthn, Mfa.RevokeFactor,
         Recovery.Normalize, Recovery.IsValidCode;
    SpentIsStored(s.mfa);
    if op.VerifyMfa? {
      if op.proof.RecoveryProof? {
        SpentByRecovery(s.mfa, op.usrId, op.proof.code, op.now);
      } else {
        SpentByProof(env, s.mfa, op.usrId, op.proof, op.now);
      }
    } else if op.EnrollRecovery? {
      SpentByEnrollment(s.mfa, s.core.users, op.usrId, op.codes, op.newId, op.now);
    } else {
      hide MfaStep;
      SpentUntouched(env, s, op);
    }
  }

  lemma OtherStepLeavesMfa(env: Env, s: State, op: Op)
    requires IsEnv(env) && !IsMfaOp(op)
    ensures Step(env, s, op).state.mfa == s.mfa
  {
    hide IsEnv, UserStep, CredentialStep, SessionStep, MfaStep, PatStep;
  }

  lemma StepSpends(env: Env, s: State, op: Op, f: Id)
    requires IsEnv(env) && MfaInvariants.Inv(s.mfa) && IsFresh(s, op)
    ensures Mfa.History(Step(env, s, op).state.mfa.spent, f)
         == Mfa.History(s.mfa.spent, f) + CodeAccepted(env, s, op, f)
  {
    hide IsEnv, IsFresh, MfaInvariants.Inv, Step, MfaStep, Mfa.VerifyMfa, Mfa.History;
    if IsMfaOp(op) {
      StepIsMfaStep(env, s, op);
      MfaStepSpends(env, s, op, f);
    } else {
      OtherStepLeavesMfa(env, s, op);
    }
  }

  /** The recorded codes grow by exactly the codes of the successful recoveries of the run. */
  lemma {:induction false} RunSpends(env: Env, s: State, ops: seq<Op>, f: Id)
    requires IsEnv(env) && Inv(s) && IsFreshRun(env, s, ops)
    ensures Mfa.History(Run(env, s, ops).mfa.spent, f)
         == Mfa.History(s.mfa.spent, f) + CodesAccepted(env, s, ops, f)
    decreases |ops|
  {
    hide IsEnv, IsFresh, Inv, Step, CodeAccepted, Mfa.History;
    if ops != [] {
      StepKeeps(env, s, ops[0]);
      MfaPart(s);
      StepSpends(env, s, ops[0], f);
      RunSpends(env, Step(env, s, ops[0]).state, ops[1..], f);
    }
  }

  lemma MfaPart(s: State)
    requires Inv(s)
    ensures MfaInvariants.Inv(s.mfa)
  {
    hide IdentityInvariants.Inv, MfaInvariants.Inv, PatInvariants.Inv;
  }

  // ----- Codes issued -----

  /** The codes with which this operation enrolls the recovery factor, if it does. */
  function CodesEnrolled(env: Env, s: State, op: Op, f: Id): (codes: seq<string>)
    requires IsEnv(env)
  {
    if op.EnrollRecovery? && op.newId == f && MfaStep(env, s, op).error.None? then op.codes else []
  }

  /** All codes with which the factor is enrolled in a run. */
  function CodesIssued(env: Env, s: State, ops: seq<Op>, f: Id): seq<string>
    requires IsEnv(env)
    decreases |ops|
  {
    if ops == [] then []
    else CodesEnrolled(env, s, ops[0], f) + CodesIssued(env, Step(env, s, ops[0]).state, ops[1..], f)
  }

  function StoredCodes(m: Mfa.State, f: Id): seq<string> {
    if f in m.recoveryHashes then MfaInvariants.Codes(m.recoveryHashes[f]) else []
  }

  lemma HashesByEnrollment(s: Mfa.State, users: Mfa.Users, u: Id, codes: seq<string>, newId: Id, now: Time)
    ensures var o := Mfa.EnrollRecovery(s, users, u, codes, newId, now);
      o.state.recoveryHashes == if o.result.Ok? then s.recoveryHashes[newId := Mfa.HashAll(codes)] else s.recoveryHashes
  {
    hide Mfa.CheckUserActive, Mfa.RecoveryKey, Mfa.HashAll, Mfa.AllFalse;
  }

  lemma HashesByRecovery(s: Mfa.State, u: Id, code: string, now: Time)
    ensures Mfa.VerifyRecovery(s, u, code, now).state.recoveryHashes == s.recoveryHashes
  {
    hide Mfa.RecoveryKey, Mfa.FirstMatch, Mfa.CountFalse, Recovery.Normalize, Recovery.IsValidCode, Mfa.History;
  }

  lemma HashesByVerification(env: Env, s: Mfa.State, u: Id, proof: Mfa.Proof, now: Time)
    requires IsEnv(env)
    ensures Mfa.VerifyMfa(s, env.hmac, env.lib, u, proof, now).state.recoveryHashes == s.recoveryHashes
  {
    if proof.RecoveryProof? {
      hide Totp.IsHmac, Mfa.VerifyRecovery, Mfa.VerifyTotp, Mfa.VerifyWebAuthn;
      HashesByRecovery(s, u, proof.code, now);
    } else {
      hide Mfa.VerifyMfa;
      SpentByProof(env, s, u, proof, now);
    }
  }

  lemma EnrollmentStores(env: Env, s: State, op: Op, f: Id)
    requires IsEnv(env) && op.EnrollRecovery? && op.newId !in s.mfa.recoveryHashes
    ensures StoredCodes(MfaStep(env, s, op).state.mfa, f) == StoredCodes(s.mfa, f) + CodesEnrolled(env, s, op, f)
  {
    hide MfaInvariants.Codes, Totp.IsHmac, Mfa.EnrollRecovery;
    HashesByEnrollment(s.mfa, s.core.users, op.usrId, op.codes, op.newId, op.now);
    MfaTheorems.CodesOfHashes(op.codes);
  }

  lemma OthersStoreNothing(env: Env, s: State, op: Op)
    requires IsEnv(env) && IsMfaOp(op) && !op.EnrollRecovery?
    ensures MfaStep(env, s, op).state.mfa.recoveryHashes == s.mfa.recoveryHashes
  {
    if op.VerifyMfa? {
      hide Totp.IsHmac, Mfa.VerifyMfa;
      HashesByVerification(env, s.mfa, op.usrId, op.proof, op.now);
    } else {
      hide MfaStep;
      SpentUntouched(env, s, op);
    }
  }

  lemma MfaStepStores(env: Env, s: State, op: Op, f: Id)
    requires IsEnv(env) && MfaInvariants.Inv(s.mfa) && IsFresh(s, op) && IsMfaOp(op)
    ensures StoredCodes(MfaStep(env, s, op).state.mfa, f) == StoredCodes(s.mfa, f) + CodesEnrolled(env, s, op, f)
  {
    hide IsEnv, MfaInvariants.Inv, MfaInvariants.Codes, MfaStep, Recovery.IsValidCode;
    if op.EnrollRecovery? {
      SpentIsStored(s.mfa);
      EnrollmentStores(env, s, op, f);
    } else {
      OthersStoreNothing(env, s, op);
    }
  }

  lemma StepStores(env: Env, s: State, op: Op, f: Id)
    requires IsEnv(env) && MfaInvariants.Inv(s.mfa) && IsFresh(s, op)
    ensures StoredCodes(Step(env, s, op).state.mfa, f) == StoredCodes(s.mfa, f) + CodesEnrolled(env, s, op, f)
  {
    hide IsEnv, IsFresh, MfaInvariants.Inv, Step, MfaStep, StoredCodes;
    if IsMfaOp(op) {
      StepIsMfaStep(env, s, op);
      MfaStepStores(env, s, op, f);
    } else {
      OtherStepLeavesMfa(env, s, op);
    }
  }

  /** The codes stored for a factor are exactly those its enrollment in the run was given. */
  lemma {:induction false} RunStores(env: Env, s: State, ops: seq<Op>, f: Id)
    requires IsEnv(env) && Inv(s) && IsFreshRun(env, s, ops)
    ensures StoredCodes(Run(env, s, ops).mfa, f) == StoredCodes(s.mfa, f) + CodesIssued(env, s, ops, f)
    decreases |ops|
  {
    hide IsEnv, IsFresh, Inv, Step, CodesEnrolled, StoredCodes;
    if ops != [] {
      StepKeeps(env, s, ops[0]);
      MfaPart(s);
      StepStores(env, s, ops[0], f);
      RunStores(env, Step(env, s, ops[0]).state, ops[1..], f);
    }
  }

  lemma HistoryOfRun(env: Env, ops: seq<Op>, f: Id)
    requires IsEnv(env) && IsFreshRun(env, EMPTY, ops)
    ensures Mfa.History(Run(env, EMPTY, ops).mfa.spent, f) == CodesAccepted(env, EMPTY, ops, f)
    ensures StoredCodes(Run(env, EMPTY, ops).mfa, f) == CodesIssued(env, EMPTY, ops, f)
  {
    hide Step, Run, IsFreshRun, IsEnv, CodesAccepted, CodesIssued;
    EmptyInv();
    RunSpends(env, EMPTY, ops, f);
    RunStores(env, EMPTY, ops, f);
  }

  /** On every run, ten codes are issued for a recovery factor; the successful recoveries and its
      `remaining` make ten; and the codes they were made with are, with multiplicity, among the ten. */
  lemma RecoveriesAndRemainingMakeTen(env: Env, ops: seq<Op>, f: Id)
    requires IsEnv(env) && IsFreshRun(env, EMPTY, ops)
    requires f in Run(env, EMPTY, ops).mfa.factors && Run(env, EMPTY, ops).mfa.factors[f].kind.RecoveryFactor?
    ensures var m := Run(env, EMPTY, ops).mfa;
      var issued, used := CodesIssued(env, EMPTY, ops, f), CodesAccepted(env, EMPTY, ops, f);
      && |issued| == 10
      && |used| + m.factors[f].kind.remaining == 10
      && multiset(used) <= multiset(issued)
  {
    hide Step, Run, IsFreshRun, IsEnv, CodesAccepted, CodesIssued;
    var m := Run(env, EMPTY, ops).mfa;
    ReachableStatesSatisfyInv(env, ops);
    SpentAreIssued(m, f);
    HistoryOfRun(env, ops, f);
  }

  /** And after every run a code verifies against an ACTIVE recovery factor iff, normalized, it was
      issued to it by its enrollment more often than it has been accepted on the run. */
  lemma RecoveryOnRun(env: Env, ops: seq<Op>, usrId: Id, f: Id, typed: string, now: Time)
    requires IsEnv(env) && IsFreshRun(env, EMPTY, ops)
    requires var m := Run(env, EMPTY, ops).mfa;
      f in m.factors && m.factors[f].usrId == usrId && m.factors[f].kind.RecoveryFactor?
      && m.factors[f].status == Mfa.Active
    ensures var m, code := Run(env, EMPTY, ops).mfa, Recovery.Normalize(typed);
      Mfa.VerifyRecovery(m, usrId, typed, now).result
      == if multiset(CodesAccepted(env, EMPTY, ops, f))[code] < multiset(CodesIssued(env, EMPTY, ops, f))[code]
         then Ok(Mfa.Match(f, None)) else Raise(InvalidCredential)
  {
    hide Step, Run, IsFreshRun, IsEnv, CodesAccepted, CodesIssued, Recovery.Normalize, Mfa.VerifyRecovery;
    var m := Run(env, EMPTY, ops).mfa;
    ReachableStatesSatisfyInv(env, ops);
    HistoryOfRun(env, ops, f);
    hide MfaInvariants.Inv, IdentityInvariants.Inv, PatInvariants.Inv;
    MfaTheorems.RecoveryAcceptsExactlyTheUnspent(m, usrId, f, typed, now);
    MfaTheorems.MatchHasNoCount(m, usrId, typed, now);
  }

  lemma EmptyInv()
    ensures Inv(EMPTY)
  {
    IdentityInvariants.EmptyInv();
    MfaInvariants.EmptyInv();
    PatInvariants.EmptyInv();
  }

  lemma SpentAreIssued(m: Mfa.State, f: Id)
    requires MfaInvariants.Inv(m) && f in m.factors && m.factors[f].kind.RecoveryFactor?
    ensures f in m.spent && f in m.recoveryHashes && f in m.recoveryConsumed
    ensures |MfaInvariants.Codes(m.recoveryHashes[f])| == Recovery.CODE_COUNT
    ensures |m.spent[f]| + m.factors[f].kind.remaining == Recovery.CODE_COUNT
    ensures multiset(m.spent[f]) <= multiset(MfaInvariants.Codes(m.recoveryHashes[f]))
  {
    hide Recovery.IsValidCode;
    MfaInvariants.PickedPartition(m.recoveryHashes[f], m.recoveryConsumed[f]);
  }

  // ----- Sign counts -----

  /** The sign count an assertion carries. */
  function CountOf(a: WebAuthn.Assertion): nat {
    match WebAuthn.ParseAuthenticatorData(a.authenticatorData) case None => 0 case Some(auth) => auth.signCount
  }

  /** The sign count with which this operation confirms the factor or verifies against it, if it
      does. */
  function CountAccepted(env: Env, s: State, op: Op, f: Id): (counts: seq<nat>)
    requires IsEnv(env)
    ensures |counts| <= 1
  {
    if op.ConfirmWebAuthn? then
      if op.mfaId == f && Mfa.ConfirmWebAuthn(s.mfa, env.lib, f, op.assertion, op.ageNow, op.now).result.Ok?
      then [CountOf(op.assertion)] else []
    else if op.VerifyMfa? && op.proof.WebAuthnProof? then
      var r := Mfa.VerifyMfa(s.mfa, env.hmac, env.lib, op.usrId, op.proof, op.now).result;
      if r.Ok? && r.value.mfaId == f then [CountOf(op.proof.assertion)] else []
    else []
  }

  function CountsAccepted(env: Env, s: State, ops: seq<Op>, f: Id): seq<nat>
    requires IsEnv(env)
    decreases |ops|
  {
    if ops == [] then []
    else CountAccepted(env, s, ops[0], f) + CountsAccepted(env, Step(env, s, ops[0]).state, ops[1..], f)
  }

  /** The new count is the one the assertion carries. */
  lemma CheckedCount(s: Mfa.State, lib: WebAuthn.Library, id: Id, f: Mfa.Factor, a: WebAuthn.Assertion)
    requires f.kind.WebAuthnFactor? && Mfa.CheckAssertion(s, lib, id, f, a).Ok?
    ensures Mfa.CheckAssertion(s, lib, id, f, a).value == CountOf(a)
  {
    hide WebAuthn.CheckClientData, WebAuthn.CheckSignature, WebAuthn.CounterAdvances;
  }

  lemma AcceptedByVerify(s: Mfa.State, lib: WebAuthn.Library, u: Id, c: string, a: WebAuthn.Assertion, now: Time)
    ensures var o := Mfa.VerifyWebAuthn(s, lib, u, c, a, now);
      o.state.accepted == if o.result.Ok?
        then s.accepted[o.result.value.mfaId := Mfa.History(s.accepted, o.result.value.mfaId) + [CountOf(a)]]
        else s.accepted
  {
    hide Mfa.CheckAssertion, Mfa.History, CountOf;
    if Mfa.VerifyWebAuthn(s, lib, u, c, a, now).result.Ok? {
      CheckedCount(s, lib, s.byCredentialId[c], s.factors[s.byCredentialId[c]], a);
    }
  }

  lemma AcceptedByConfirm(s: Mfa.State, lib: WebAuthn.Library, id: Id, a: WebAuthn.Assertion, ageNow: Time, now: Time)
    ensures var o := Mfa.ConfirmWebAuthn(s, lib, id, a, ageNow, now);
      o.state.accepted == if o.result.Ok? then s.accepted[id := Mfa.History(s.accepted, id) + [CountOf(a)]]
                          else s.accepted
  {
    hide Mfa.CheckAssertion, Mfa.History, CountOf;
    if Mfa.ConfirmWebAuthn(s, lib, id, a, ageNow, now).result.Ok? {
      CheckedCount(s, lib, id, s.factors[id], a);
    }
  }

  lemma AcceptedByProof(env: Env, s: Mfa.State, u: Id, proof: Mfa.Proof, now: Time)
    requires IsEnv(env) && !proof.WebAuthnProof?
    ensures Mfa.VerifyMfa(s, env.hmac, env.lib, u, proof, now).state.accepted == s.accepted
  {
    hide Totp.IsHmac, Mfa.VerifyTotp, Mfa.FirstMatch, Mfa.CountFalse, Recovery.Normalize, Recovery.IsValidCode;
  }

  lemma AcceptedByEnrollment(s: Mfa.State, users: Mfa.Users, u: Id, identifier: string, reg: WebAuthn.Registration,
                             newId: Id, now: Time)
    ensures var accepted := Mfa.EnrollWebAuthn(s, users, u, identifier, reg, newId, now).state.accepted;
      accepted == s.accepted || accepted == s.accepted[newId := []]
  {
    hide Mfa.CheckUserActive;
  }

  lemma AcceptedUntouched(env: Env, s: State, op: Op)
    requires IsEnv(env) && IsMfaOp(op) && !op.VerifyMfa? && !op.EnrollWebAuthn? && !op.ConfirmWebAuthn?
    ensures MfaStep(env, s, op).state.mfa.accepted == s.mfa.accepted
  {
    hide Totp.IsHmac, Mfa.CheckTotp, Mfa.CheckUserActive, Mfa.TotpKey, Mfa.RecoveryKey, Mfa.WithoutSlot,
         Mfa.WithoutListing, Mfa.VerifyMfa, Mfa.EnrollWebAuthn, Mfa.ConfirmWebAuthn, Mfa.HashAll, Mfa.AllFalse;
  }

  lemma MfaStepAccepts(env: Env, s: State, op: Op, f: Id)
    requires IsEnv(env) && MfaInvariants.Inv(s.mfa) && IsFresh(s, op) && IsMfaOp(op)
    ensures Mfa.History(MfaStep(env, s, op).state.mfa.accepted, f)
         == Mfa.History(s.mfa.accepted, f) + CountAccepted(env, s, op, f)
  {
    hide MfaInvariants.Inv, Totp.IsHmac, Mfa.VerifyRecovery, Mfa.VerifyTotp, Mfa.VerifyWebAuthn, Mfa.EnrollTotp,
         Mfa.EnrollWebAuthn, Mfa.EnrollRecovery, Mfa.ConfirmTotp, Mfa.ConfirmWebAuthn, Mfa.RevokeFactor,
         Recovery.IsValidCode, CountOf;
    SpentIsStored(s.mfa);
    if op.ConfirmWebAuthn? {
      AcceptedByConfirm(s.mfa, env.lib, op.mfaId, op.assertion, op.ageNow, op.now);
    } else if op.VerifyMfa? {
      if op.proof.WebAuthnProof? {
        AcceptedByVerify(s.mfa, env.lib, op.usrId, op.proof.credentialId, op.proof.assertion, op.now);
      } else {
        AcceptedByProof(env, s.mfa, op.usrId, op.proof, op.now);
      }
    } else if op.EnrollWebAuthn? {
      AcceptedByEnrollment(s.mfa, s.core.users, op.usrId, op.identifier, op.registration, op.newId, op.now);
    } else {
      hide MfaStep;
      AcceptedUntouched(env, s, op);
    }
  }

  lemma StepAccepts(env: Env, s: State, op: Op, f: Id)
    requires IsEnv(env) && MfaInvariants.Inv(s.mfa) && IsFresh(s, op)
    ensures Mfa.History(Step(env, s, op).state.mfa.accepted, f)
         == Mfa.History(s.mfa.accepted, f) + CountAccepted(env, s, op, f)
  {
    hide IsEnv, IsFresh, MfaInvariants.Inv, Step, MfaStep, Mfa.VerifyMfa, Mfa.ConfirmWebAuthn, Mfa.History, CountOf;
    if IsMfaOp(op) {
      StepIsMfaStep(env, s, op);
      MfaStepAccepts(env, s, op, f);
    } else {
      OtherStepLeavesMfa(env, s, op);
    }
  }

  /** The recorded counts grow by exactly the counts of the assertions accepted in the run. */
  lemma {:induction false} RunAccepts(env: Env, s: State, ops: seq<Op>, f: Id)
    requires IsEnv(env) && Inv(s) && IsFreshRun(env, s, ops)
    ensures Mfa.History(Run(env, s, ops).mfa.accepted, f)
         == Mfa.History(s.mfa.accepted, f) + CountsAccepted(env, s, ops, f)
    decreases |ops|
  {
    hide IsEnv, IsFresh, Inv, Step, CountAccepted, Mfa.History;
    if ops != [] {
      StepKeeps(env, s, ops[0]);
      MfaPart(s);
      StepAccepts(env, s, ops[0], f);
      RunAccepts(env, Step(env, s, ops[0]).state, ops[1..], f);
    }
  }

  /** On every run, the counts carried by the assertions that confirmed or verified against a
      WebAuthn factor are zeros and then strictly increasing, so no nonzero count is accepted
      twice; and the stored count is the last one accepted. */
  lemma SignCountsAdvance(env: Env, ops: seq<Op>, f: Id, i: nat, j: nat)
    requires IsEnv(env) && IsFreshRun(env, EMPTY, ops)
    requires f in Run(env, EMPTY, ops).mfa.factors && Run(env, EMPTY, ops).mfa.factors[f].kind.WebAuthnFactor?
    ensures var m := Run(env, EMPTY, ops).mfa; var counts := CountsAccepted(env, EMPTY, ops, f);
      && (counts != [] ==> Last(counts) == m.factors[f].kind.signCount)
      && (i < j < |counts| ==> counts[i] < counts[j] || (counts[i] == 0 && counts[j] == 0))
  {
    hide Step, Run, IsFreshRun, IsEnv, IdentityInvariants.Inv, PatInvariants.Inv, CountsAccepted;
    var m := Run(env, EMPTY, ops).mfa;
    ReachableStatesSatisfyInv(env, ops);
    MfaOperations.CountsOf(m, f);
    EmptyInv();
    RunAccepts(env, EMPTY, ops, f);
    assert Mfa.History(m.accepted, f) == CountsAccepted(env, EMPTY, ops, f);
  }

  // ----- Session tokens and refreshes -----

  /** The session token this operation issues, with its session. */
  function TokenIssued(env: Env, s: State, op: Op): map<string, Id>
    requires IsEnv(env)
  {
    if (op.CreateSession? || op.RefreshSession?) && Step(env, s, op).error.None? then map[op.token := op.newId]
    else map[]
  }

  /** The session this operation issues by refreshing another one. */
  function SessionRefreshed(env: Env, s: State, op: Op): map<Id, Id>
    requires IsEnv(env)
  {
    if op.RefreshSession? && Step(env, s, op).error.None? then map[op.newId := op.sesId] else map[]
  }

  function TokensIssued(env: Env, s: State, ops: seq<Op>): map<string, Id>
    requires IsEnv(env)
    decreases |ops|
  {
    if ops == [] then map[] else TokenIssued(env, s, ops[0]) + TokensIssued(env, Step(env, s, ops[0]).state, ops[1..])
  }

  function SessionsRefreshed(env: Env, s: State, ops: seq<Op>): map<Id, Id>
    requires IsEnv(env)
    decreases |ops|
  {
    if ops == [] then map[]
    else SessionRefreshed(env, s, ops[0]) + SessionsRefreshed(env, Step(env, s, ops[0]).state, ops[1..])
  }

  predicate IssuesNothing(s: Identity.Core, t: Identity.Core) {
    t.issued == s.issued && t.refreshOf == s.refreshOf
  }

  lemma SessionRevocationIssuesNothing(s: Identity.Core, ids: set<Id>, now: Time)
    ensures IssuesNothing(s, Identity.RevokeSessions(s, ids, now))
  {
    hide Identity.Stamped, Identity.HashesOf;
  }

  lemma UserRevocationIssuesNothing(s: Identity.Core, u: Id, now: Time, cascadeNow: Time)
    ensures IssuesNothing(s, Identity.RevokeUser(s, u, now, cascadeNow).state)
  {
    hide Identity.RevokeSessions, Identity.LiveSessionsOfUser, Identity.ActiveCredentialsOfUser;
    var s1 := Identity.RevokeCredentials(s, Identity.ActiveCredentialsOfUser(s, u), now);
    SessionRevocationIssuesNothing(s1, Identity.LiveSessionsOfUser(s, u), cascadeNow);
  }

  lemma UserStepIssuesNothing(s: State, op: Op)
    requires IsUserOp(op)
    ensures IssuesNothing(s.core, UserStep(s, op).state.core)
  {
    hide Identity.Stamped, Identity.HashesOf, Identity.LiveSessionsOfUser, Identity.RevokeUser, Pats.RevokePatsOfUser;
    if op.RevokeUser? {
      UserRevocationIssuesNothing(s.core, op.usrId, op.now, op.cascadeNow);
    }
  }

  lemma RetirementIssuesNothing(s: Identity.Core, c: Id, status: Identity.Status, now: Time, cascadeNow: Time)
    requires c in s.creds
    ensures IssuesNothing(s, Identity.RetireCredential(s, c, status, now, cascadeNow))
  {
    hide Identity.Stamped, Identity.HashesOf, Identity.LiveSessionsOfCredential;
  }

  lemma InsertionIssuesNothing(s: Identity.Core, c: Identity.Credential, m: Identity.Material)
    ensures IssuesNothing(s, Identity.InsertCredential(s, c, m))
  {
  }

  lemma RetirementForRotationIssuesNothing(s: Identity.Core, c: Id, now: Time, cascadeNow: Time)
    requires c in s.creds
    ensures IssuesNothing(s, Identity.RetireForRotation(s, c, now, cascadeNow))
  {
    hide Identity.RetireCredential;
    RetirementIssuesNothing(s, c, Identity.Revoked, now, cascadeNow);
  }

  lemma RotationIssuesNothing(s: Identity.Core, c: Id, m: Identity.Material, newId: Id, now: Time, cascadeNow: Time)
    ensures IssuesNothing(s, Identity.RotateCredential(s, c, m, newId, now, cascadeNow).state)
  {
    hide Identity.RetireForRotation, Identity.InsertCredential, Identity.TooLong;
    var o := Identity.RotateCredential(s, c, m, newId, now, cascadeNow);
    if c in s.creds {
      RetirementForRotationIssuesNothing(s, c, now, cascadeNow);
      if o.result.Ok? {
        InsertionIssuesNothing(Identity.RetireForRotation(s, c, now, cascadeNow), o.result.value, m);
      }
    }
  }

  lemma CreationIssuesNothing(s: Identity.Core, u: Id, identifier: string, m: Identity.Material, newId: Id, now: Time)
    ensures IssuesNothing(s, Identity.CreateCredential(s, u, identifier, m, newId, now).state)
  {
    hide Identity.InsertCredential, Identity.TooLong, Identity.IdentifierKey;
    var o := Identity.CreateCredential(s, u, identifier, m, newId, now);
    if o.result.Ok? {
      InsertionIssuesNothing(s, o.result.value, m);
    }
  }

  lemma SuspensionIssuesNothing(s: Identity.Core, c: Id, now: Time, cascadeNow: Time)
    ensures IssuesNothing(s, Identity.SuspendCredential(s, c, now, cascadeNow).state)
  {
    hide Identity.RetireCredential;
    if c in s.creds {
      RetirementIssuesNothing(s, c, Identity.Suspended, now, cascadeNow);
    }
  }

  lemma RevocationIssuesNothing(s: Identity.Core, c: Id, now: Time, cascadeNow: Time)
    ensures IssuesNothing(s, Identity.RevokeCredential(s, c, now, cascadeNow).state)
  {
    hide Identity.RetireCredential;
    if c in s.creds {
      RetirementIssuesNothing(s, c, Identity.Revoked, now, cascadeNow);
    }
  }

  lemma IndexUpdateIssuesNothing(s: Identity.Core, creds: map<Id, Identity.Credential>, index: map<string, Id>)
    ensures IssuesNothing(s, s.(creds := creds, activeCred := index))
  {
  }

  lemma ReinstatementIssuesNothing(s: Identity.Core, c: Id, now: Time)
    ensures IssuesNothing(s, Identity.ReinstateCredential(s, c, now).state)
  {
    hide IssuesNothing, Identity.Credential.WithStatus, Identity.Credential.Key;
    var t := Identity.ReinstateCredential(s, c, now).state;
    IndexUpdateIssuesNothing(s, t.creds, t.activeCred);
    IndexUpdateIssuesNothing(s, s.creds, s.activeCred);
  }

  lemma CredentialStepIssuesNothing(s: State, op: Op)
    requires IsCredentialOp(op)
    ensures IssuesNothing(s.core, CredentialStep(s, op).state.core)
  {
    hide Identity.CreateCredential, Identity.RotateCredential, Identity.SuspendCredential, Identity.RevokeCredential,
         Identity.ReinstateCredential;
    match op
    case CreateCredential(u, identifier, m, newId, now) =>
      CreationIssuesNothing(s.core, u, identifier, m, newId, now);
    case RotateCredential(c, m, newId, now, cascadeNow) =>
      RotationIssuesNothing(s.core, c, m, newId, now, cascadeNow);
    case SuspendCredential(c, now, cascadeNow) => SuspensionIssuesNothing(s.core, c, now, cascadeNow);
    case RevokeCredential(c, now, cascadeNow) => RevocationIssuesNothing(s.core, c, now, cascadeNow);
    case ReinstateCredential(c, now) => ReinstatementIssuesNothing(s.core, c, now);
  }

  lemma InsertedSessionIssues(s: Identity.Core, ses: Identity.Session, token: string)
    ensures Identity.InsertSession(s, ses, token).issued == s.issued[token := ses.id]
    ensures Identity.InsertSession(s, ses, token).refreshOf == s.refreshOf
  {
  }

  lemma CreatedSessionIssues(s: Identity.Core, u: Id, c: Id, ttl: int, newId: Id, token: string, now: Time)
    ensures var o := Identity.CreateSession(s, u, c, ttl, newId, token, now);
      && o.state.issued == (if o.result.Ok? then s.issued[token := newId] else s.issued)
      && o.state.refreshOf == s.refreshOf
  {
    hide Identity.InsertSession;
    var o := Identity.CreateSession(s, u, c, ttl, newId, token, now);
    if o.result.Ok? {
      InsertedSessionIssues(s, o.result.value.session, token);
    }
  }

  lemma RefreshedSessionIssues(s: Identity.Core, i: Id, newId: Id, token: string, checkNow: Time, now: Time)
    ensures var o := Identity.RefreshSession(s, i, newId, token, checkNow, now);
      && o.state.issued == (if o.result.Ok? then s.issued[token := newId] else s.issued)
      && o.state.refreshOf == (if o.result.Ok? then s.refreshOf[newId := i] else s.refreshOf)
  {
    hide Identity.InsertSession, Identity.RevokeSessions;
    var o := Identity.RefreshSession(s, i, newId, token, checkNow, now);
    if o.result.Ok? {
      SessionRevocationIssuesNothing(s, {i}, now);
      InsertedSessionIssues(Identity.RevokeSessions(s, {i}, now), o.result.value.session, token);
    }
  }

  lemma SessionStepIssues(s: State, op: Op)
    requires IsSessionOp(op)
    ensures var r := SessionStep(s, op);
      && r.state.core.issued == (if !op.RevokeSession? && r.error.None? then s.core.issued[op.token := op.newId]
                                 else s.core.issued)
      && r.state.core.refreshOf == (if op.RefreshSession? && r.error.None? then s.core.refreshOf[op.newId := op.sesId]
                                    else s.core.refreshOf)
  {
    hide Identity.RevokeSessions, Identity.CreateSession, Identity.RefreshSession;
    match op
    case CreateSession(u, c, ttl, newId, token, now) => CreatedSessionIssues(s.core, u, c, ttl, newId, token, now);
    case RefreshSession(i, newId, token, checkNow, now) =>
      RefreshedSessionIssues(s.core, i, newId, token, checkNow, now);
    case RevokeSession(i, now) => SessionRevocationIssuesNothing(s.core, {i}, now);
  }

  lemma UnionWithNothing<K, V>(m: map<K, V>)
    ensures m + map[] == m
  {
  }

  lemma UnionWithOne<K, V>(m: map<K, V>, k: K, v: V)
    ensures m + map[k := v] == m[k := v]
  {
  }

  lemma OtherStepIssuesNothing(env: Env, s: State, op: Op)
    requires IsEnv(env) && !IsSessionOp(op)
    ensures IssuesNothing(s.core, Step(env, s, op).state.core)
  {
    hide IsEnv, UserStep, CredentialStep, SessionStep, MfaStep, PatStep;
    if IsUserOp(op) {
      UserStepIssuesNothing(s, op);
    } else if IsCredentialOp(op) {
      CredentialStepIssuesNothing(s, op);
    }
  }

  lemma StepIssues(env: Env, s: State, op: Op)
    requires IsEnv(env)
    ensures Step(env, s, op).state.core.issued == s.core.issued + TokenIssued(env, s, op)
    ensures Step(env, s, op).state.core.refreshOf == s.core.refreshOf + SessionRefreshed(env, s, op)
  {
    hide IsEnv, Step, SessionStep;
    UnionWithNothing(s.core.issued);
    UnionWithNothing(s.core.refreshOf);
    if IsSessionOp(op) {
      StepIsCoreStep(env, s, op);
      SessionStepIssues(s, op);
      if !op.RevokeSession? {
        UnionWithOne(s.core.issued, op.token, op.newId);
      }
      if op.RefreshSession? {
        UnionWithOne(s.core.refreshOf, op.newId, op.sesId);
      }
    } else {
      OtherStepIssuesNothing(env, s, op);
    }
  }

  lemma UnionIsAssociative<K, V>(a: map<K, V>, b: map<K, V>, c: map<K, V>)
    ensures (a + b) + c == a + (b + c)
  {
  }

  /** The tokens and refreshes recorded grow by exactly those of the operations that succeed. */
  lemma {:induction false} RunIssues(env: Env, s: State, ops: seq<Op>)
    requires IsEnv(env)
    ensures Run(env, s, ops).core.issued == s.core.issued + TokensIssued(env, s, ops)
    ensures Run(env, s, ops).core.refreshOf == s.core.refreshOf + SessionsRefreshed(env, s, ops)
    decreases |ops|
  {
    hide IsEnv, Step, TokenIssued, SessionRefreshed;
    if ops != [] {
      var t := Step(env, s, ops[0]).state;
      StepIssues(env, s, ops[0]);
      RunIssues(env, t, ops[1..]);
      UnionIsAssociative(s.core.issued, TokenIssued(env, s, ops[0]), TokensIssued(env, t, ops[1..]));
      UnionIsAssociative(s.core.refreshOf, SessionRefreshed(env, s, ops[0]), SessionsRefreshed(env, t, ops[1..]));
    }
  }

  // ----- Uses of personal access tokens -----

  /** The time of a successful verification of this token that finds no recorded use less than a
      minute old. */
  function UseRecorded(s: State, op: Op, p: Id): (times: seq<Time>)
    ensures |times| <= 1
  {
    if op.VerifyPatToken? then
      var r := Pats.VerifyPatToken(s.pats, op.token, op.now).result;
      if r.Ok? && r.value.patId == p && Pats.RecordsUse(s.pats, p, op.now) then [op.now] else []
    else []
  }

  function UsesRecorded(env: Env, s: State, ops: seq<Op>, p: Id): seq<Time>
    requires IsEnv(env)
    decreases |ops|
  {
    if ops == [] then [] else UseRecorded(s, ops[0], p) + UsesRecorded(env, Step(env, s, ops[0]).state, ops[1..], p)
  }

  function Uses(recorded: map<Id, seq<Time>>, p: Id): seq<Time> {
    if p in recorded then recorded[p] else []
  }

  lemma VerificationRecords(s: Pats.State, token: string, now: Time)
    ensures var o := Pats.VerifyPatToken(s, token, now);
      o.state.recorded == if o.result.Ok? && Pats.RecordsUse(s, o.result.value.patId, now)
        then s.recorded[o.result.value.patId := Uses(s.recorded, o.result.value.patId) + [now]]
        else s.recorded
  {
    hide PatToken.StructurallyValid, Identity.TooLong, Pats.RecordsUse;
  }

  lemma PatStepRecords(s: State, op: Op, p: Id)
    requires IsPatOp(op) && IsFresh(s, op) && s.pats.recorded.Keys <= s.pats.pats.Keys
    ensures Uses(PatStep(s, op).state.pats.recorded, p) == Uses(s.pats.recorded, p) + UseRecorded(s, op, p)
  {
    if op.VerifyPatToken? {
      VerificationRecords(s.pats, op.token, op.now);
    }
    hide Pats.VerifyPatToken, Pats.CheckNewPat, Pats.RecordsUse, PatToken.Encode, PatToken.Token;
  }

  lemma RevocationRecordsNothing(s: State, op: Op)
    requires IsUserOp(op)
    ensures UserStep(s, op).state.pats.recorded == s.pats.recorded
  {
    hide Pats.Cascaded, Identity.CreateUser, Identity.UpdateUser, Identity.SuspendUser, Identity.ReinstateUser,
         Identity.RevokeUser;
  }

  lemma RecordsOfStored(s: State)
    requires Inv(s)
    ensures s.pats.recorded.Keys <= s.pats.pats.Keys
  {
    hide IdentityInvariants.Inv, MfaInvariants.Inv;
  }

  lemma StepRecords(env: Env, s: State, op: Op, p: Id)
    requires IsEnv(env) && IsFresh(s, op) && s.pats.recorded.Keys <= s.pats.pats.Keys
    ensures Uses(Step(env, s, op).state.pats.recorded, p) == Uses(s.pats.recorded, p) + UseRecorded(s, op, p)
  {
    hide IsEnv, IsFresh, UserStep, CredentialStep, SessionStep, MfaStep, PatStep, Pats.VerifyPatToken,
         Pats.RecordsUse;
    if IsPatOp(op) {
      PatStepRecords(s, op, p);
    } else if IsUserOp(op) {
      RevocationRecordsNothing(s, op);
    }
  }

  /** The recorded uses grow by exactly the times of those verifications. */
  lemma {:induction false} RunRecords(env: Env, s: State, ops: seq<Op>, p: Id)
    requires IsEnv(env) && Inv(s) && IsFreshRun(env, s, ops)
    ensures Uses(Run(env, s, ops).pats.recorded, p) == Uses(s.pats.recorded, p) + UsesRecorded(env, s, ops, p)
    decreases |ops|
  {
    hide IsEnv, IsFresh, Inv, Step, UseRecorded, Uses;
    if ops != [] {
      StepKeeps(env, s, ops[0]);
      RecordsOfStored(s);
      StepRecords(env, s, ops[0], p);
      RunRecords(env, Step(env, s, ops[0]).state, ops[1..], p);
    }
  }

  /** In every reachable state a token record is REVOKED exactly when it has a time of revocation,
      and `last_used_at` is the last of those times, which are at least a minute apart. */
  lemma LastUseIsRecorded(env: Env, ops: seq<Op>, p: Id, i: nat)
    requires IsEnv(env) && IsFreshRun(env, EMPTY, ops)
    ensures var s := Run(env, EMPTY, ops).pats; var times := UsesRecorded(env, EMPTY, ops, p);
      p in s.pats ==>
        && (s.pats[p].status == Pats.Revoked <==> s.pats[p].revokedAt.Some?)
        && s.pats[p].lastUsedAt == (if times == [] then None else Some(Last(times)))
        && s.pats[p].lastUsedAt == (if p in s.lastUsedPersist then Some(s.lastUsedPersist[p]) else None)
        && (0 < i < |times| ==> times[i] - times[i - 1] >= 60 * Identity.SECOND)
  {
    hide IsEnv, Step, Run, IsFreshRun, IdentityInvariants.Inv, MfaInvariants.Inv, UsesRecorded;
    ReachableStatesSatisfyInv(env, ops);
    EmptyInv();
    RunRecords(env, EMPTY, ops, p);
    var s := Run(env, EMPTY, ops).pats;
    assert Uses(s.recorded, p) == UsesRecorded(env, EMPTY, ops, p);
    assert p in s.pats ==> PatInvariants.PatKeyed(p, s.pats[p]);
  }
}
