/** Every operation on MFA factors keeps the invariant and undoes nothing; what the
    verifications then guarantee. */
module MfaOperations {
  import opened Prelude
  import opened Mfa
  import opened MfaInvariants
  import Recovery
  import Totp
  import WebAuthn

  // ----- Enrollment -----

  lemma EnrollTotpKeeps(s: State, users: Users, usrId: Id, identifier: string, secret: bytes, newId: Id, now: Time)
    requires Inv(s) && newId !in s.factors
    ensures var s' := EnrollTotp(s, users, usrId, identifier, secret, newId, now).state;
      Inv(s') && Evolves(s, s')
  {
    hide FactorsKeyed, SecretsStored, WebAuthnIndexExact, SingletonsSound, RecoverySlotsComplete, RecoveryStored,
         CountsKept, FactorsEvolve, CheckUserActive, Grows, ConsumedEvolve, HistoryGrows, TotpKey,
         OnlyOfFactors;
    EvolvesIsReflexive(s);
    if EnrollTotp(s, users, usrId, identifier, secret, newId, now).result.Ok? {
      NothingKept(s, newId);
      FactorAdded(s, EnrollTotp(s, users, usrId, identifier, secret, newId, now).state, newId);
      var f := Factor(newId, usrId, Pending, None, now, now, TotpFactor(identifier));
      KeyedPut(s.factors, f);
      EvolvePut(s.factors, f);
      IndexPut(s.factors, s.byCredentialId, f);
      SlotsPut(s.factors, s.singleton, f);
      SecretsPut(s.factors, s.totpSecrets, s.webauthnKeys, s.totpSecrets[newId := secret], s.webauthnKeys, f);
      GrowsByOne(s.totpSecrets, newId, secret);
      RecoveryUntouched(s, f);
      CountsUntouched(s.factors, s.accepted, f);
    }
  }

  lemma EnrollWebAuthnKeeps(s: State, users: Users, usrId: Id, identifier: string, reg: WebAuthn.Registration,
                            newId: Id, now: Time)
    requires Inv(s) && newId !in s.factors
    ensures var s' := EnrollWebAuthn(s, users, usrId, identifier, reg, newId, now).state;
      Inv(s') && Evolves(s, s')
  {
    hide FactorsKeyed, SecretsStored, WebAuthnIndexExact, SingletonsSound, RecoverySlotsComplete, RecoveryStored,
         CountsKept, FactorsEvolve, CheckUserActive, Grows, ConsumedEvolve, HistoryGrows, OnlyOfFactors;
    EvolvesIsReflexive(s);
    if EnrollWebAuthn(s, users, usrId, identifier, reg, newId, now).result.Ok? {
      NothingKept(s, newId);
      FactorAdded(s, EnrollWebAuthn(s, users, usrId, identifier, reg, newId, now).state, newId);
      var f := Factor(newId, usrId, Pending, None, now, now, WebAuthnFactor(identifier, reg.rpId, reg.signCount));
      KeyedPut(s.factors, f);
      EvolvePut(s.factors, f);
      IndexAdd(s.factors, s.byCredentialId, f);
      SlotsPut(s.factors, s.singleton, f);
      SecretsPut(s.factors, s.totpSecrets, s.webauthnKeys, s.totpSecrets, s.webauthnKeys[newId := reg.cosePublicKey],
          f);
      GrowsByOne(s.webauthnKeys, newId, reg.cosePublicKey);
      HistoryGrowsByOne(s.accepted, newId, []);
      RecoveryUntouched(s, f);
      CountsPut(s.factors, s.accepted, f, []);
    }
  }

  lemma NewCodesConsistent(codes: seq<string>)
    requires |codes| == Recovery.CODE_COUNT && forall c :: c in codes ==> Recovery.IsValidCode(c)
    ensures RecoveryConsistent(|codes|, HashAll(codes), AllFalse(|codes|), [])
  {
    hide Recovery.IsValidCode;
    var hashes := HashAll(codes);
    forall h | h in hashes
      ensures h.password in codes
    {
      var i :| 0 <= i < |hashes| && hashes[i] == h;
      assert codes[i] in codes;
    }
    AllOpen(hashes, AllFalse(|codes|));
  }

  lemma NewCodesGrow(s: State, newId: Id, hashes: seq<PasswordHash>, consumed: seq<bool>)
    requires newId !in s.recoveryHashes && newId !in s.recoveryConsumed && newId !in s.spent
    ensures Grows(s.recoveryHashes, s.recoveryHashes[newId := hashes])
    ensures ConsumedEvolve(s.recoveryConsumed, s.recoveryConsumed[newId := consumed])
    ensures HistoryGrows(s.spent, s.spent[newId := []])
  {
  }

  lemma EnrollRecoveryKeeps(s: State, users: Users, usrId: Id, codes: seq<string>, newId: Id, now: Time)
    requires Inv(s) && newId !in s.factors
    requires |codes| == Recovery.CODE_COUNT && forall c :: c in codes ==> Recovery.IsValidCode(c)
    ensures var s' := EnrollRecovery(s, users, usrId, codes, newId, now).state;
      Inv(s') && Evolves(s, s')
  {
    hide FactorsKeyed, SecretsStored, WebAuthnIndexExact, SingletonsSound, RecoverySlotsComplete, RecoveryStored,
         CountsKept, FactorsEvolve, CheckUserActive, Recovery.IsValidCode, RecoveryConsistent, RecoveryKey,
         ConsumedEvolve, HistoryGrows, Grows, HashAll, AllFalse, OnlyOfFactors;
    EvolvesIsReflexive(s);
    if EnrollRecovery(s, users, usrId, codes, newId, now).result.Ok? {
      NothingKept(s, newId);
      FactorAdded(s, EnrollRecovery(s, users, usrId, codes, newId, now).state, newId);
      var f := Factor(newId, usrId, Active, None, now, now, RecoveryFactor(|codes|));
      NewCodesConsistent(codes);
      NewCodesGrow(s, newId, HashAll(codes), AllFalse(|codes|));
      KeyedPut(s.factors, f);
      EvolvePut(s.factors, f);
      IndexPut(s.factors, s.byCredentialId, f);
      SlotTaken(s.factors, s.singleton, f, RecoveryKey(usrId));
      RecoverySlotTaken(s.factors, s.singleton, f);
      SecretsPut(s.factors, s.totpSecrets, s.webauthnKeys, s.totpSecrets, s.webauthnKeys, f);
      RecoveryPut(s, f, HashAll(codes), AllFalse(|codes|), []);
      CountsUntouched(s.factors, s.accepted, f);
    }
  }

  // ----- Confirmation -----

  lemma KeyedFactor(s: State, id: Id)
    requires Inv(s) && id in s.factors
    ensures FactorKeyed(id, s.factors[id])
  {
  }

  lemma SecretOf(s: State, id: Id)
    requires Inv(s) && id in s.factors
    ensures s.factors[id].kind.TotpFactor? ==> id in s.totpSecrets
    ensures s.factors[id].kind.WebAuthnFactor? ==> id in s.webauthnKeys
  {
  }

  lemma ConfirmTotpKeeps(s: State, hmac: (bytes, bytes) -> bytes, id: Id, code: string, ageNow: Time, codeNow: Time,
                         now: Time)
    requires Inv(s) && Totp.IsHmac(hmac)
    ensures var s' := ConfirmTotp(s, hmac, id, code, ageNow, codeNow, now).state;
      Inv(s') && Evolves(s, s')
  {
    hide FactorsKeyed, SecretsStored, WebAuthnIndexExact, SingletonsSound, RecoverySlotsComplete, RecoveryStored,
         CountsKept, FactorsEvolve, TotpKey, RecoveryKey, CheckTotp, Totp.IsHmac, Grows, ConsumedEvolve, HistoryGrows,
         OnlyOfFactors, IsExpiredPending;
    EvolvesIsReflexive(s);
    if ConfirmTotp(s, hmac, id, code, ageNow, codeNow, now).result.Ok? {
      FactorAdded(s, ConfirmTotp(s, hmac, id, code, ageNow, codeNow, now).state, id);
      KeyedFactor(s, id);
      var f := s.factors[id].(status := Active, updatedAt := now);
      KeyedPut(s.factors, f);
      EvolvePut(s.factors, f);
      IndexPut(s.factors, s.byCredentialId, f);
      SlotTaken(s.factors, s.singleton, f, TotpKey(f.usrId));
      TotpKeyIsNoRecoveryKey(f.usrId);
      RecoverySlotsApart(s.factors, s.singleton, f, TotpKey(f.usrId), id);
      SecretsPut(s.factors, s.totpSecrets, s.webauthnKeys, s.totpSecrets, s.webauthnKeys, f);
      RecoveryUntouched(s, f);
      CountsUntouched(s.factors, s.accepted, f);
    }
  }

  lemma HistoryExtended<T>(m: map<Id, seq<T>>, id: Id, x: T)
    requires id in m
    ensures HistoryGrows(m, m[id := History(m, id) + [x]])
  {
  }

  /** Accepting a sign count for a factor that is not revoked. */
  lemma AcceptCountKeeps(s: State, id: Id, status: FactorStatus, n: nat, now: Time)
    requires Inv(s) && id in s.factors && s.factors[id].kind.WebAuthnFactor? && s.factors[id].status != Revoked
    requires status == Active && WebAuthn.CounterAdvances(s.factors[id].kind.signCount, n)
    ensures var s' := AcceptCount(s, id, WithCount(s.factors[id], status, n, now), n);
      Inv(s') && Evolves(s, s')
  {
    hide FactorsKeyed, SecretsStored, WebAuthnIndexExact, SingletonsSound, RecoverySlotsComplete, RecoveryStored,
         CountsKept, FactorsEvolve, CountsAdvance, HistoryGrows, WebAuthn.CounterAdvances;
    KeyedFactor(s, id);
    CountsOf(s, id);
    var f := WithCount(s.factors[id], status, n, now);
    KeyedPut(s.factors, f);
    EvolvePut(s.factors, f);
    IndexPut(s.factors, s.byCredentialId, f);
    SlotsPut(s.factors, s.singleton, f);
    SecretsPut(s.factors, s.totpSecrets, s.webauthnKeys, s.totpSecrets, s.webauthnKeys, f);
    RecoveryUntouched(s, f);
    CountsAdvanceByOne(s.accepted[id], s.factors[id].kind.signCount, n);
    CountsPut(s.factors, s.accepted, f, s.accepted[id] + [n]);
    HistoryExtended(s.accepted, id, n);
    HistoryGrowsToItself(s.spent);
  }

  lemma HistoryGrowsToItself<T>(m: map<Id, seq<T>>)
    ensures HistoryGrows(m, m)
  {
  }

  lemma CountsOf(s: State, id: Id)
    requires Inv(s) && id in s.factors && s.factors[id].kind.WebAuthnFactor?
    ensures id in s.accepted && CountsAdvance(s.accepted[id], s.factors[id].kind.signCount) && id in s.webauthnKeys
  {
  }

  lemma CheckedAssertionAdvances(s: State, lib: WebAuthn.Library, id: Id, f: Factor, a: WebAuthn.Assertion)
    requires f.kind.WebAuthnFactor? && CheckAssertion(s, lib, id, f, a).Ok?
    ensures WebAuthn.CounterAdvances(f.kind.signCount, CheckAssertion(s, lib, id, f, a).value)
  {
    hide WebAuthn.VerifyAssertion;
    WebAuthn.AcceptedCount(lib, WebAuthn.Registration(s.webauthnKeys[id], f.kind.signCount, f.kind.rpId), a);
  }

  lemma ConfirmWebAuthnKeeps(s: State, lib: WebAuthn.Library, id: Id, a: WebAuthn.Assertion, ageNow: Time, now: Time)
    requires Inv(s)
    ensures var s' := ConfirmWebAuthn(s, lib, id, a, ageNow, now).state;
      Inv(s') && Evolves(s, s')
  {
    hide Inv, Evolves, CheckAssertion, WebAuthn.CounterAdvances, AcceptCount;
    EvolvesIsReflexive(s);
    if ConfirmWebAuthn(s, lib, id, a, ageNow, now).result.Ok? {
      CheckedAssertionAdvances(s, lib, id, s.factors[id], a);
      AcceptCountKeeps(s, id, Active, CheckAssertion(s, lib, id, s.factors[id], a).value, now);
    }
  }

  // ----- Revocation -----

  lemma RevokeFactorKeeps(s: State, id: Id, now: Time)
    requires Inv(s)
    ensures var s' := RevokeFactor(s, id, now).state;
      Inv(s') && Evolves(s, s')
  {
    hide FactorsKeyed, SecretsStored, WebAuthnIndexExact, SingletonsSound, RecoverySlotsComplete, RecoveryStored,
         CountsKept, FactorsEvolve, TotpKey, RecoveryKey, Holds, FactorEvolves, HistoryGrows, ConsumedEvolve,
         FactorKeyed;
    EvolvesIsReflexive(s);
    if id in s.factors && s.factors[id].status != Revoked {
      KeyedFactor(s, id);
      var f := s.factors[id].(status := Revoked, updatedAt := now);
      SameSlots(s, s.factors[id], f);
      hide WithoutSlot, WithoutListing;
      RevokedFactor(s, f);
      RevokedSlots(s, f);
    }
  }

  lemma SameSlots(s: State, f: Factor, f': Factor)
    requires f'.usrId == f.usrId && f'.kind == f.kind
    ensures WithoutSlot(s.singleton, f') == WithoutSlot(s.singleton, f)
    ensures WithoutListing(s.byCredentialId, f') == WithoutListing(s.byCredentialId, f)
  {
  }

  lemma RevokedFactor(s: State, f: Factor)
    requires Inv(s) && f.id in s.factors && s.factors[f.id].status != Revoked
    requires f == s.factors[f.id].(status := Revoked, updatedAt := f.updatedAt)
    ensures var factors' := s.factors[f.id := f];
      && FactorsKeyed(factors') && SecretsStored(factors', s.totpSecrets, s.webauthnKeys)
      && RecoveryStored(factors', s.recoveryHashes, s.recoveryConsumed, s.spent)
      && CountsKept(factors', s.accepted) && FactorsEvolve(s.factors, factors')
      && WebAuthnIndexExact(factors', WithoutListing(s.byCredentialId, f))
  {
    hide FactorsKeyed, SecretsStored, WebAuthnIndexExact, SingletonsSound, RecoverySlotsComplete, RecoveryStored,
         CountsKept, FactorsEvolve;
    KeyedFactor(s, f.id);
    SecretOf(s, f.id);
    KeyedPut(s.factors, f);
    EvolvePut(s.factors, f);
    SecretsPut(s.factors, s.totpSecrets, s.webauthnKeys, s.totpSecrets, s.webauthnKeys, f);
    RecoveryUntouched(s, f);
    CountsUntouched(s.factors, s.accepted, f);
    if f.kind.WebAuthnFactor? {
      IndexRemove(s.factors, s.byCredentialId, f);
    } else {
      IndexPut(s.factors, s.byCredentialId, f);
    }
  }

  lemma RevokedSlots(s: State, f: Factor)
    requires Inv(s) && f.id in s.factors && s.factors[f.id].status != Revoked
    requires f == s.factors[f.id].(status := Revoked, updatedAt := f.updatedAt)
    ensures var factors' := s.factors[f.id := f];
      var singleton' := WithoutSlot(s.singleton, f);
      SingletonsSound(factors', singleton') && RecoverySlotsComplete(factors', singleton')
  {
    hide FactorsKeyed, SecretsStored, WebAuthnIndexExact, SingletonsSound, RecoverySlotsComplete, RecoveryStored,
         CountsKept, TotpKey, RecoveryKey;
    KeyedFactor(s, f.id);
    match f.kind
    case TotpFactor(_) =>
      SlotReleased(s.factors, s.singleton, f, TotpKey(f.usrId));
      TotpKeyIsNoRecoveryKey(f.usrId);
      RecoverySlotsApart(s.factors, s.singleton, f, TotpKey(f.usrId), f.id);
    case RecoveryFactor(_) =>
      SlotReleased(s.factors, s.singleton, f, RecoveryKey(f.usrId));
      RecoverySlotReleased(s.factors, s.singleton, f);
    case WebAuthnFactor(_, _, _) =>
      SlotsPut(s.factors, s.singleton, f);
  }

  // ----- Verification -----

  lemma VerifyWebAuthnKeeps(s: State, lib: WebAuthn.Library, usrId: Id, credentialId: string, a: WebAuthn.Assertion,
                            now: Time)
    requires Inv(s)
    ensures var s' := VerifyWebAuthn(s, lib, usrId, credentialId, a, now).state;
      Inv(s') && Evolves(s, s')
  {
    hide Inv, Evolves, CheckAssertion, WebAuthn.CounterAdvances, AcceptCount;
    EvolvesIsReflexive(s);
    if VerifyWebAuthn(s, lib, usrId, credentialId, a, now).result.Ok? {
      var id := s.byCredentialId[credentialId];
      CheckedAssertionAdvances(s, lib, id, s.factors[id], a);
      AcceptCountKeeps(s, id, Active, CheckAssertion(s, lib, id, s.factors[id], a).value, now);
    }
  }

  /** The slot that the user's singleton entry leads to. */
  lemma RecoverySlot(s: State, usrId: Id)
    requires Inv(s) && RecoveryKey(usrId) in s.singleton
    ensures var id := s.singleton[RecoveryKey(usrId)];
      && id in s.factors && s.factors[id].id == id
      && s.factors[id].status == Active && s.factors[id].kind.RecoveryFactor? && s.factors[id].usrId == usrId
      && id in s.recoveryHashes && id in s.recoveryConsumed && id in s.spent
      && RecoveryConsistent(s.factors[id].kind.remaining, s.recoveryHashes[id], s.recoveryConsumed[id], s.spent[id])
  {
    hide RecoveryConsistent;
    var id := s.singleton[RecoveryKey(usrId)];
    assert Holds(s.factors[id], RecoveryKey(usrId));
    SingletonKeysAreInjective(s.factors[id].usrId, usrId);
    SingletonKeysAreInjective(usrId, s.factors[id].usrId);
  }

  lemma ConsumedConsistent(remaining: nat, hashes: seq<PasswordHash>, consumed: seq<bool>, spent: seq<string>, i: nat)
    requires RecoveryConsistent(remaining, hashes, consumed, spent) && i < |consumed| && !consumed[i]
    ensures var consumed' := consumed[i := true];
      && RecoveryConsistent(CountFalse(consumed'), hashes, consumed', spent + [hashes[i].password])
      && CountFalse(consumed') < remaining
  {
    hide Recovery.IsValidCode, Picked, CountFalse;
    ConsumeSlot(hashes, consumed, i);
  }

  /** A successful recovery consumes one open slot of the user's factor that holds the code. */
  lemma RecoveryConsumes(s: State, usrId: Id, code: string, now: Time) returns (slot: nat)
    requires Inv(s) && VerifyRecovery(s, usrId, code, now).result.Ok?
    ensures RecoveryKey(usrId) in s.singleton
    ensures var id, n := s.singleton[RecoveryKey(usrId)], Recovery.Normalize(code);
      && id in s.factors && id in s.recoveryHashes && id in s.recoveryConsumed && id in s.spent
      && slot < |s.recoveryHashes[id]| == |s.recoveryConsumed[id]|
      && Opens(s.recoveryHashes[id], s.recoveryConsumed[id], n, slot)
      && var consumed' := s.recoveryConsumed[id][slot := true];
         var f := s.factors[id].(updatedAt := now, kind := RecoveryFactor(CountFalse(consumed')));
         VerifyRecovery(s, usrId, code, now).state
           == s.(recoveryConsumed := s.recoveryConsumed[id := consumed'], spent := s.spent[id := s.spent[id] + [n]],
                 factors := s.factors[id := f])
  {
    hide Recovery.Normalize, Recovery.IsValidCode, CountFalse, Inv, RecoveryKey;
    RecoverySlot(s, usrId);
    var id, n := s.singleton[RecoveryKey(usrId)], Recovery.Normalize(code);
    var hashes, consumed := s.recoveryHashes[id], s.recoveryConsumed[id];
    assert |hashes| == |consumed|;
    assert hashes[..|hashes|] == hashes && consumed[..|hashes|] == consumed;
    slot := FirstMatch(hashes, consumed, n, 0).value;
  }

  lemma VerifyRecoveryKeeps(s: State, usrId: Id, code: string, now: Time)
    requires Inv(s)
    ensures var s' := VerifyRecovery(s, usrId, code, now).state;
      Inv(s') && Evolves(s, s')
  {
    hide Inv, Evolves, RecoveryKey, Recovery.Normalize;
    EvolvesIsReflexive(s);
    RecoveryFailsCleanly(s, usrId, code, now);
    if VerifyRecovery(s, usrId, code, now).result.Ok? {
      hide VerifyRecovery;
      var slot := RecoveryConsumes(s, usrId, code, now);
      ConsumeKeeps(s, usrId, slot, Recovery.Normalize(code), now);
    }
  }

  lemma RecoveryFailsCleanly(s: State, usrId: Id, code: string, now: Time)
    requires Inv(s)
    ensures VerifyRecovery(s, usrId, code, now).result.Raise? ==>
      VerifyRecovery(s, usrId, code, now) == Refused(s, InvalidCredential)
  {
    hide Inv, RecoveryKey, Recovery.Normalize, Recovery.IsValidCode, FirstMatch, CountFalse, RecoveryConsistent;
    if RecoveryKey(usrId) in s.singleton {
      RecoverySlot(s, usrId);
    }
  }

  lemma ConsumeKeeps(s: State, usrId: Id, slot: nat, code: string, now: Time)
    requires Inv(s) && RecoveryKey(usrId) in s.singleton
    requires var id := s.singleton[RecoveryKey(usrId)];
      && id in s.factors && id in s.recoveryHashes && id in s.recoveryConsumed && id in s.spent
      && slot < |s.recoveryHashes[id]| == |s.recoveryConsumed[id]|
      && Opens(s.recoveryHashes[id], s.recoveryConsumed[id], code, slot)
    ensures var id := s.singleton[RecoveryKey(usrId)];
      var consumed' := s.recoveryConsumed[id][slot := true];
      var f := s.factors[id].(updatedAt := now, kind := RecoveryFactor(CountFalse(consumed')));
      var s' := s.(recoveryConsumed := s.recoveryConsumed[id := consumed'],
          spent := s.spent[id := s.spent[id] + [code]],
                   factors := s.factors[id := f]);
      Inv(s') && Evolves(s, s')
  {
    hide FactorsKeyed, SecretsStored, WebAuthnIndexExact, SingletonsSound, RecoverySlotsComplete, RecoveryStored,
         CountsKept, FactorsEvolve, RecoveryKey, TotpKey, RecoveryConsistent, CountFalse, HistoryGrows, ConsumedEvolve,
         FactorEvolves;
    RecoverySlot(s, usrId);
    var id := s.singleton[RecoveryKey(usrId)];
    var consumed' := s.recoveryConsumed[id][slot := true];
    ConsumedConsistent(s.factors[id].kind.remaining, s.recoveryHashes[id], s.recoveryConsumed[id], s.spent[id], slot);
    RemainingLowered(s, id, CountFalse(consumed'), now);
    var f := s.factors[id].(updatedAt := now, kind := RecoveryFactor(CountFalse(consumed')));
    RecoveryPut(s, f, s.recoveryHashes[id], consumed', s.spent[id] + [code]);
    assert s.recoveryHashes[id := s.recoveryHashes[id]] == s.recoveryHashes;
    ConsumedGrows(s.recoveryConsumed, id, slot);
    HistoryAppended(s.spent, id, code);
    HistoryGrowsToItself(s.accepted);
  }

  lemma RemainingLowered(s: State, id: Id, remaining: nat, now: Time)
    requires Inv(s) && id in s.factors && s.factors[id].kind.RecoveryFactor? && s.factors[id].status == Active
    requires remaining <= s.factors[id].kind.remaining
    ensures var f := s.factors[id].(updatedAt := now, kind := RecoveryFactor(remaining));
      var factors' := s.factors[id := f];
      && f.id == id
      && FactorsKeyed(factors') && SecretsStored(factors', s.totpSecrets, s.webauthnKeys)
      && WebAuthnIndexExact(factors', s.byCredentialId) && SingletonsSound(factors', s.singleton)
      && RecoverySlotsComplete(factors', s.singleton) && CountsKept(factors', s.accepted)
      && FactorsEvolve(s.factors, factors')
  {
    hide FactorsKeyed, SecretsStored, WebAuthnIndexExact, SingletonsSound, RecoverySlotsComplete, RecoveryStored,
         CountsKept, FactorsEvolve, RecoveryKey, TotpKey;
    KeyedFactor(s, id);
    var f := s.factors[id].(updatedAt := now, kind := RecoveryFactor(remaining));
    KeyedPut(s.factors, f);
    EvolvePut(s.factors, f);
    IndexPut(s.factors, s.byCredentialId, f);
    SlotsPut(s.factors, s.singleton, f);
    SecretsPut(s.factors, s.totpSecrets, s.webauthnKeys, s.totpSecrets, s.webauthnKeys, f);
    CountsUntouched(s.factors, s.accepted, f);
  }

  lemma HistoryAppended<T>(m: map<Id, seq<T>>, id: Id, x: T)
    requires id in m
    ensures HistoryGrows(m, m[id := m[id] + [x]])
  {
  }

  lemma ConsumedGrows(consumed: map<Id, seq<bool>>, id: Id, slot: nat)
    requires id in consumed && slot < |consumed[id]|
    ensures ConsumedEvolve(consumed, consumed[id := consumed[id][slot := true]])
  {
  }
}
