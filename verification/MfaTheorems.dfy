/** What a successful MFA verification guarantees, when a recovery code is accepted, and when
    the TOTP slots are exact. */
module MfaTheorems {
  import opened Prelude
  import opened Mfa
  import opened MfaInvariants
  import opened MfaOperations
  import Recovery
  import Totp
  import WebAuthn

  // ----- Successful proofs name active factors of the user -----

  predicate ProofFits(k: Kind, proof: Proof) {
    match proof
    case TotpProof(_) => k.TotpFactor?
    case WebAuthnProof(credentialId, _) => k.WebAuthnFactor? && k.identifier == credentialId
    case RecoveryProof(_) => k.RecoveryFactor?
  }

  lemma TotpSlot(s: State, usrId: Id)
    requires Inv(s) && TotpKey(usrId) in s.singleton
    ensures var id := s.singleton[TotpKey(usrId)];
      && id in s.factors && s.factors[id].status == Active && s.factors[id].kind.TotpFactor?
         && s.factors[id].usrId == usrId
      && id in s.totpSecrets
  {
    var id := s.singleton[TotpKey(usrId)];
    assert Holds(s.factors[id], TotpKey(usrId));
    SingletonKeysAreInjective(s.factors[id].usrId, usrId);
    SingletonKeysAreInjective(usrId, s.factors[id].usrId);
  }

  lemma CheckTotpRaises(hmac: (bytes, bytes) -> bytes, secret: bytes, code: string, now: Time)
    requires Totp.IsHmac(hmac)
    ensures CheckTotp(hmac, secret, code, now) != Some(KeyError)
  {
    SearchRaises(hmac, secret, code, WholeSeconds(now), -1);
  }

  lemma {:induction false} SearchRaises(hmac: (bytes, bytes) -> bytes, secret: bytes, code: string, t: int, w: int)
    requires Totp.IsHmac(hmac)
    ensures var r := Totp.Search(hmac, secret, code, t, 30, 6, w, 1); r.Raise? ==> r.error == StructError
    decreases 1 - w
  {
    hide Totp.Format, Totp.Truncate, Totp.IsHmac;
    if w <= 1 {
      SearchRaises(hmac, secret, code, t, w + 1);
    }
  }

  lemma IndexedFactor(s: State, credentialId: string)
    requires Inv(s) && credentialId in s.byCredentialId
    ensures var id := s.byCredentialId[credentialId];
      id in s.factors && Listed(s.factors[id], credentialId) && id in s.webauthnKeys
  {
    assert Listed(s.factors[s.byCredentialId[credentialId]], credentialId);
  }

  lemma AssertionNoKeyError(s: State, lib: WebAuthn.Library, id: Id, f: Factor, a: WebAuthn.Assertion)
    requires f.kind.WebAuthnFactor? && id in s.webauthnKeys
    ensures CheckAssertion(s, lib, id, f, a) != Raise(KeyError)
  {
    hide WebAuthn.ParseAuthenticatorData, WebAuthn.CounterAdvances;
  }

  /** A verified proof names a factor that is ACTIVE, belongs to the user and has the type of
      the proof; and no dictionary lookup on the way fails. */
  lemma VerifiedFactorIsActive(s: State, hmac: (bytes, bytes) -> bytes, lib: WebAuthn.Library, usrId: Id, proof: Proof,
                               now: Time)
    requires Inv(s) && Totp.IsHmac(hmac)
    ensures var r := VerifyMfa(s, hmac, lib, usrId, proof, now).result;
      && (r.Ok? ==>
          && r.value.mfaId in s.factors
          && s.factors[r.value.mfaId].status == Active
          && s.factors[r.value.mfaId].usrId == usrId
          && ProofFits(s.factors[r.value.mfaId].kind, proof))
      && r != Raise(KeyError)
  {
    hide Inv, TotpKey, RecoveryKey, CheckTotp, Recovery.Normalize, Recovery.IsValidCode, CheckAssertion, FirstMatch,
         RecoveryConsistent, Totp.IsHmac, CountFalse;
    match proof
    case TotpProof(code) =>
      if TotpKey(usrId) in s.singleton {
        TotpSlot(s, usrId);
        CheckTotpRaises(hmac, s.totpSecrets[s.singleton[TotpKey(usrId)]], code, now);
      }
    case WebAuthnProof(credentialId, a) =>
      if credentialId in s.byCredentialId {
        IndexedFactor(s, credentialId);
        var id := s.byCredentialId[credentialId];
        AssertionNoKeyError(s, lib, id, s.factors[id], a);
      }
    case RecoveryProof(code) =>
      RecoveryFailsCleanly(s, usrId, code, now);
      if RecoveryKey(usrId) in s.singleton {
        RecoverySlot(s, usrId);
      }
  }

  // ----- Recovery codes: each issued code is accepted as often as it was issued -----

  lemma OpenExactlyWhenUnspent(remaining: nat, hashes: seq<PasswordHash>, consumed: seq<bool>, spent: seq<string>,
                               code: string)
    requires RecoveryConsistent(remaining, hashes, consumed, spent)
    ensures FirstMatch(hashes, consumed, code, 0).Some? <==> multiset(spent)[code] < multiset(Codes(hashes))[code]
  {
    hide Recovery.IsValidCode;
    PickedPartition(hashes, consumed);
    PickedContains(hashes, consumed, code);
    var open := Picked(hashes, consumed, false);
    assert code in open <==> multiset(open)[code] > 0;
    var slot := FirstMatch(hashes, consumed, code, 0);
    if slot.Some? {
      assert Opens(hashes, consumed, code, slot.value);
    }
  }

  lemma {:induction false} IssuedIsValid(hashes: seq<PasswordHash>, code: string)
    requires forall h :: h in hashes ==> Recovery.IsValidCode(h.password)
    requires code in Codes(hashes)
    ensures Recovery.IsValidCode(code)
  {
    hide Recovery.IsValidCode;
    if code == hashes[0].password {
      assert hashes[0] in hashes;
    } else {
      assert forall h :: h in hashes[1..] ==> h in hashes;
      IssuedIsValid(hashes[1..], code);
    }
  }

  lemma RecoveryOutcome(s: State, usrId: Id, code: string, now: Time)
    requires Inv(s) && RecoveryKey(usrId) in s.singleton
    ensures var id, n := s.singleton[RecoveryKey(usrId)], Recovery.Normalize(code);
      && id in s.recoveryHashes && id in s.recoveryConsumed && |s.recoveryHashes[id]| == |s.recoveryConsumed[id]|
      && VerifyRecovery(s, usrId, code, now).result
        == if Recovery.IsValidCode(n) && FirstMatch(s.recoveryHashes[id], s.recoveryConsumed[id], n, 0).Some?
           then Ok(Match(id, None)) else Raise(InvalidCredential)
  {
    hide Inv, RecoveryKey, Recovery.Normalize, Recovery.IsValidCode, CountFalse, FirstMatch;
    RecoverySlot(s, usrId);
    var id := s.singleton[RecoveryKey(usrId)];
    var hashes, consumed := s.recoveryHashes[id], s.recoveryConsumed[id];
    assert |hashes| == |consumed|;
    hide RecoveryConsistent;
    assert hashes[..|hashes|] == hashes && consumed[..|hashes|] == consumed;
  }

  /** For a user with an ACTIVE recovery factor, a code verifies exactly when, normalized, it
      was issued more often than it has been used; nothing else is ever accepted. */
  lemma RecoveryAcceptsExactlyTheUnspent(s: State, usrId: Id, id: Id, code: string, now: Time)
    requires Inv(s) && id in s.factors && s.factors[id].usrId == usrId
    requires s.factors[id].kind.RecoveryFactor? && s.factors[id].status == Active
    ensures id in s.recoveryHashes && id in s.spent
    ensures var n, r := Recovery.Normalize(code), VerifyRecovery(s, usrId, code, now).result;
      && (r.Ok? <==> multiset(s.spent[id])[n] < multiset(Codes(s.recoveryHashes[id]))[n])
      && (r.Ok? ==> r.value.mfaId == id)
      && (r.Raise? ==> r.error == InvalidCredential)
  {
    hide Inv, RecoveryKey, Recovery.Normalize, Recovery.IsValidCode, FirstMatch, VerifyRecovery, RecoveryConsistent,
         Codes;
    ActiveRecoverySlot(s, id);
    RecoverySlot(s, usrId);
    RecoveryOutcome(s, usrId, code, now);
    var n, hashes := Recovery.Normalize(code), s.recoveryHashes[id];
    OpenExactlyWhenUnspent(s.factors[id].kind.remaining, hashes, s.recoveryConsumed[id], s.spent[id], n);
    if multiset(s.spent[id])[n] < multiset(Codes(hashes))[n] {
      assert n in Codes(hashes);
      RecoveryFactorCodes(s, id);
      IssuedIsValid(hashes, n);
    }
  }

  lemma ActiveRecoverySlot(s: State, id: Id)
    requires Inv(s) && id in s.factors && s.factors[id].kind.RecoveryFactor? && s.factors[id].status == Active
    ensures RecoveryKey(s.factors[id].usrId) in s.singleton && s.singleton[RecoveryKey(s.factors[id].usrId)] == id
  {
  }

  /** So an issued code verifies however it is typed, in lower case and between blanks, as long
      as one of its copies is unspent. */
  lemma TypedIssuedCodeVerifies(s: State, usrId: Id, id: Id, code: string, typed: string, before: string,
                                after: string, now: Time)
    requires Inv(s) && id in s.factors && s.factors[id].usrId == usrId
    requires s.factors[id].kind.RecoveryFactor? && s.factors[id].status == Active
    requires id in s.recoveryHashes && code in Codes(s.recoveryHashes[id])
    requires |typed| == |code|
    requires forall i :: 0 <= i < |code| ==> typed[i] == code[i] || typed[i] == Recovery.Lower(code[i])
    requires forall ch :: ch in before + after ==> Recovery.IsSpace(ch)
    ensures id in s.spent
    ensures VerifyRecovery(s, usrId, before + typed + after, now).result.Ok?
       <==> multiset(s.spent[id])[code] < multiset(Codes(s.recoveryHashes[id]))[code]
  {
    RecoveryFactorCodes(s, id);
    hide Inv, Recovery.IsValidCode, Recovery.IsSpace, Recovery.Lower, Recovery.Normalize, VerifyRecovery;
    IssuedIsValid(s.recoveryHashes[id], code);
    Recovery.TypedCodeNormalizes(code, typed, before, after);
    RecoveryAcceptsExactlyTheUnspent(s, usrId, id, before + typed + after, now);
  }

  lemma {:induction false} CodesOfHashes(codes: seq<string>)
    ensures Codes(HashAll(codes)) == codes
  {
    if codes != [] {
      CodesOfHashes(codes[1..]);
      assert HashAll(codes)[1..] == HashAll(codes[1..]);
    }
  }

  lemma EnrolledState(s: State, users: Users, usrId: Id, codes: seq<string>, newId: Id, now: Time)
    requires EnrollRecovery(s, users, usrId, codes, newId, now).result.Ok?
    ensures var s' := EnrollRecovery(s, users, usrId, codes, newId, now).state;
      && newId in s'.factors
      && s'.factors[newId] == Factor(newId, usrId, Active, None, now, now, RecoveryFactor(|codes|))
      && newId in s'.spent && s'.spent[newId] == []
      && newId in s'.recoveryHashes && s'.recoveryHashes[newId] == HashAll(codes)
  {
    hide CheckUserActive, RecoveryKey, HashAll, AllFalse;
  }

  /** After an enrollment exactly the codes it hands out verify, in whatever form they normalize from. */
  lemma EnrolledCodesVerify(s: State, users: Users, usrId: Id, codes: seq<string>, newId: Id, now: Time, typed: string,
                            later: Time)
    requires Inv(s) && newId !in s.factors
    requires |codes| == Recovery.CODE_COUNT && forall c :: c in codes ==> Recovery.IsValidCode(c)
    requires EnrollRecovery(s, users, usrId, codes, newId, now).result.Ok?
    ensures VerifyRecovery(EnrollRecovery(s, users, usrId, codes, newId, now).state, usrId, typed, later).result
         == if Recovery.Normalize(typed) in codes then Ok(Match(newId, None)) else Raise(InvalidCredential)
  {
    hide Inv, Recovery.IsValidCode, Recovery.Normalize, EnrollRecovery, VerifyRecovery;
    var s' := EnrollRecovery(s, users, usrId, codes, newId, now).state;
    EnrollRecoveryKeeps(s, users, usrId, codes, newId, now);
    EnrolledState(s, users, usrId, codes, newId, now);
    CodesOfHashes(codes);
    RecoveryAcceptsExactlyTheUnspent(s', usrId, newId, typed, later);
    MatchHasNoCount(s', usrId, typed, later);
    assert Recovery.Normalize(typed) in codes <==> multiset(codes)[Recovery.Normalize(typed)] > 0;
  }

  lemma MatchHasNoCount(s: State, usrId: Id, code: string, now: Time)
    ensures var r := VerifyRecovery(s, usrId, code, now).result; r.Ok? ==> r.value.newSignCount == None
  {
    hide RecoveryKey, Recovery.Normalize, Recovery.IsValidCode, FirstMatch, CountFalse;
  }

  // ----- TOTP and WebAuthn verification -----

  /** A code is that of the current half minute or of one next to it, for this secret. */
  ghost predicate IsCurrentCode(hmac: (bytes, bytes) -> bytes, secret: bytes, code: string, t: Time)
    requires Totp.IsHmac(hmac)
  {
    t >= 30_000_000
    && exists c :: t / 30_000_000 - 1 <= c <= t / 30_000_000 + 1 && Totp.IsCodeOf(hmac, secret, code, c, 6)
  }

  /** A TOTP code is accepted exactly when the slot of the user is taken and it is a current code for
      the secret of the factor in it; with complete slots that factor is the ACTIVE TOTP factor of
      the user. */
  lemma TotpVerifiesExactly(s: State, hmac: (bytes, bytes) -> bytes, usrId: Id, code: string, now: Time, m: Match)
    requires Inv(s) && Totp.IsHmac(hmac)
    ensures VerifyTotp(s, hmac, usrId, code, now) == Ok(m)
       <==> IsTotpSlotOf(s, usrId, m.mfaId) && m.newSignCount == None && m.mfaId in s.totpSecrets
            && IsCurrentCode(hmac, s.totpSecrets[m.mfaId], code, now)
    ensures TotpSlotsComplete(s) ==> (IsTotpSlotOf(s, usrId, m.mfaId) <==> SelectedTotp(s, usrId, m.mfaId))
  {
    hide Inv, Totp.IsHmac, TotpKey, CheckTotp, Totp.IsCodeOf, TotpSlotsComplete, SelectedTotp;
    TotpSlotIsTheQueryExactlyWhenComplete(s);
    if TotpKey(usrId) in s.singleton {
      TotpSlot(s, usrId);
      CheckTotpExactly(hmac, s.totpSecrets[s.singleton[TotpKey(usrId)]], code, now);
    }
  }

  /** The factor that answers to a credential id: ACTIVE, of the user, WebAuthn. */
  predicate Answers(s: State, usrId: Id, credentialId: string, f: Id) {
    && f in s.factors && s.factors[f].usrId == usrId && s.factors[f].status == Active
    && s.factors[f].kind.WebAuthnFactor? && s.factors[f].kind.identifier == credentialId
  }

  /** An assertion is accepted exactly when a factor answers to the credential id and the assertion
      passes the verifier with the stored key, count and relying party; there is one such factor at
      most, and without one InvalidCredential is raised, else what the verifier raises. */
  lemma AssertionVerifiesExactly(s: State, lib: WebAuthn.Library, usrId: Id, credentialId: string,
                                 a: WebAuthn.Assertion, now: Time, f: Id)
    requires Inv(s)
    ensures var r := VerifyWebAuthn(s, lib, usrId, credentialId, a, now).result;
      && (Answers(s, usrId, credentialId, f) ==>
            && f in s.webauthnKeys
            && var k := s.factors[f].kind;
               var reg := WebAuthn.Registration(s.webauthnKeys[f], k.signCount, k.rpId);
               var checked := WebAuthn.VerifyAssertion(lib, reg, a);
               r == if checked.Ok? then Ok(Match(f, Some(checked.value))) else Raise(checked.error))
      && ((forall g :: !Answers(s, usrId, credentialId, g)) ==> r == Raise(InvalidCredential))
  {
    hide Inv, WebAuthn.VerifyAssertion;
    if credentialId in s.byCredentialId {
      IndexedFactor(s, credentialId);
      assert Answers(s, usrId, credentialId, s.byCredentialId[credentialId])
        || s.factors[s.byCredentialId[credentialId]].usrId != usrId
        || s.factors[s.byCredentialId[credentialId]].status != Active;
    }
    if Answers(s, usrId, credentialId, f) {
      ListedFactor(s, f);
    }
  }

  lemma ListedFactor(s: State, f: Id)
    requires Inv(s) && f in s.factors && s.factors[f].kind.WebAuthnFactor? && s.factors[f].status != Revoked
    ensures s.factors[f].kind.identifier in s.byCredentialId && s.byCredentialId[s.factors[f].kind.identifier] == f
  {
    assert Listed(s.factors[f], s.factors[f].kind.identifier);
  }

  lemma RecoveryFactorCodes(s: State, id: Id)
    requires Inv(s) && id in s.factors && s.factors[id].kind.RecoveryFactor? && id in s.recoveryHashes
    ensures forall h :: h in s.recoveryHashes[id] ==> Recovery.IsValidCode(h.password)
  {
    hide Recovery.IsValidCode;
  }

  /** The singleton entry for recovery is the row the Postgres store selects: the ACTIVE recovery
      factor of the user, of which there is one at most. */
  lemma RecoverySlotIsTheQuery(s: State, usrId: Id, id: Id)
    requires Inv(s)
    ensures RecoveryKey(usrId) in s.singleton && s.singleton[RecoveryKey(usrId)] == id <==>
      && id in s.factors && s.factors[id].usrId == usrId
      && s.factors[id].kind.RecoveryFactor? && s.factors[id].status == Active
  {
    hide Inv, RecoveryKey;
    if id in s.factors && s.factors[id].kind.RecoveryFactor? && s.factors[id].status == Active {
      ActiveRecoverySlot(s, id);
    }
    if RecoveryKey(usrId) in s.singleton {
      RecoverySlot(s, usrId);
    }
  }

  // ----- TOTP slots -----

  /** Every ACTIVE TOTP factor holds its user's slot: then a user has one at most. */
  ghost predicate TotpSlotsComplete(s: State) {
    forall f :: f in s.factors && IsActiveTotp(s.factors[f]) ==> HoldsTotpSlot(s, f)
  }

  predicate IsActiveTotp(f: Factor) {
    f.kind.TotpFactor? && f.status == Active
  }

  predicate HoldsTotpSlot(s: State, f: Id)
    requires f in s.factors
  {
    TotpKey(s.factors[f].usrId) in s.singleton && s.singleton[TotpKey(s.factors[f].usrId)] == f
  }

  /** The confirmation passes every check while the user's slot is taken. */
  predicate TakesSlotOver(s: State, hmac: (bytes, bytes) -> bytes, id: Id, code: string, ageNow: Time, codeNow: Time)
    requires Totp.IsHmac(hmac)
  {
    && id in s.factors && s.factors[id].kind.TotpFactor? && s.factors[id].status == Pending
    && !IsExpiredPending(s.factors[id], ageNow)
    && id in s.totpSecrets && CheckTotp(hmac, s.totpSecrets[id], code, codeNow).None?
    && TotpKey(s.factors[id].usrId) in s.singleton
  }

  /** A PENDING TOTP factor while the user's slot is taken, by another factor. */
  predicate TakesSlotAway(s: State, id: Id) {
    && id in s.factors && s.factors[id].kind.TotpFactor? && s.factors[id].status == Pending
    && TotpKey(s.factors[id].usrId) in s.singleton
  }

  /** The code check passes exactly for the code of the current half minute or of one next to it,
      from the second half minute of the epoch on. */
  lemma CheckTotpExactly(hmac: (bytes, bytes) -> bytes, secret: bytes, code: string, t: Time)
    requires Totp.IsHmac(hmac)
    ensures CheckTotp(hmac, secret, code, t).None?
       <==> IsCurrentCode(hmac, secret, code, t)
    ensures CheckTotp(hmac, secret, code, t) in {None, Some(InvalidCredential), Some(StructError)}
    ensures CheckTotp(hmac, secret, code, t) == Some(StructError)
       <==> |code| == 6 && Totp.IsDigits(code) && !IsCurrentCode(hmac, secret, code, t)
            && (t < 30_000_000 || t / 30_000_000 + 1 >= 0x1_0000_0000_0000_0000)
  {
    Totp.VerifyAcceptsExactlyTheWindow(hmac, secret, code, WholeSeconds(t), 30, 6, 1);
    assert t >= 0 ==> WholeSeconds(t) / 30 == t / 30_000_000;
    assert t < 30_000_000 ==> WholeSeconds(t) / 30 < 1;
    forall c | Totp.IsCodeOf(hmac, secret, code, c, 6)
      ensures |code| == 6 && Totp.IsDigits(code)
    {
    }
    hide Totp.IsHmac, Totp.IsCodeOf, Totp.IsDigits, Totp.Verify;
  }

  lemma RefusedConfirmation(s: State, hmac: (bytes, bytes) -> bytes, id: Id, code: string,
                            ageNow: Time, codeNow: Time, now: Time)
    requires Totp.IsHmac(hmac)
    ensures ConfirmTotp(s, hmac, id, code, ageNow, codeNow, now).result.Raise? ==>
      && !TakesSlotOver(s, hmac, id, code, ageNow, codeNow)
      && ConfirmTotp(s, hmac, id, code, ageNow, codeNow, now).state == s
    ensures ConfirmTotp(s, hmac, id, code, ageNow, codeNow, now).result.Ok? ==>
      && id in s.factors
      && (TakesSlotOver(s, hmac, id, code, ageNow, codeNow) <==> TotpKey(s.factors[id].usrId) in s.singleton)
  {
    hide Totp.IsHmac, CheckTotp, TotpKey, IsExpiredPending;
  }

  /** The slots are complete exactly when each holds the row the Postgres store selects: the ACTIVE
      TOTP factor of the user. */
  lemma TotpSlotIsTheQueryExactlyWhenComplete(s: State)
    requires Inv(s)
    ensures TotpSlotsComplete(s)
       <==> forall u, f :: IsTotpSlotOf(s, u, f) <==> SelectedTotp(s, u, f)
    ensures TotpSlotsComplete(s) ==> forall u, f, g :: SelectedTotp(s, u, f) && SelectedTotp(s, u, g) ==> f == g
  {
    hide Inv, TotpKey;
    forall u, f | IsTotpSlotOf(s, u, f)
      ensures SelectedTotp(s, u, f)
    {
      TotpSlot(s, u);
    }
    if !TotpSlotsComplete(s) {
      var f :| f in s.factors && IsActiveTotp(s.factors[f]) && !HoldsTotpSlot(s, f);
      assert SelectedTotp(s, s.factors[f].usrId, f) && !IsTotpSlotOf(s, s.factors[f].usrId, f);
    }
  }

  predicate IsTotpSlotOf(s: State, u: Id, f: Id) {
    TotpKey(u) in s.singleton && s.singleton[TotpKey(u)] == f
  }

  /** What the SQL query of the Postgres store selects. */
  predicate SelectedTotp(s: State, u: Id, f: Id) {
    f in s.factors && s.factors[f].usrId == u && IsActiveTotp(s.factors[f])
  }

  /** `confirm_totp_factor` keeps the slots complete exactly when it does not take one over. */
  lemma ConfirmKeepsSlotsExactlyWhenFree(s: State, hmac: (bytes, bytes) -> bytes, id: Id, code: string,
                                         ageNow: Time, codeNow: Time, now: Time)
    requires Inv(s) && Totp.IsHmac(hmac) && TotpSlotsComplete(s)
    ensures TotpSlotsComplete(ConfirmTotp(s, hmac, id, code, ageNow, codeNow, now).state)
       <==> !TakesSlotOver(s, hmac, id, code, ageNow, codeNow)
  {
    hide Inv, Totp.IsHmac, ConfirmTotp, TotpSlotsComplete, TakesSlotOver, TotpKey;
    RefusedConfirmation(s, hmac, id, code, ageNow, codeNow, now);
    if ConfirmTotp(s, hmac, id, code, ageNow, codeNow, now).result.Ok? {
      AcceptedConfirmation(s, hmac, id, code, ageNow, codeNow, now);
    }
  }

  lemma AcceptedConfirmation(s: State, hmac: (bytes, bytes) -> bytes, id: Id, code: string,
                             ageNow: Time, codeNow: Time, now: Time)
    requires Inv(s) && Totp.IsHmac(hmac) && TotpSlotsComplete(s)
    requires ConfirmTotp(s, hmac, id, code, ageNow, codeNow, now).result.Ok?
    ensures id in s.factors
    ensures TotpSlotsComplete(ConfirmTotp(s, hmac, id, code, ageNow, codeNow, now).state)
       <==> TotpKey(s.factors[id].usrId) !in s.singleton
  {
    hide Inv, Totp.IsHmac, CheckTotp, TotpKey;
    var s' := ConfirmTotp(s, hmac, id, code, ageNow, codeNow, now).state;
    var key := TotpKey(s.factors[id].usrId);
    forall f | f in s.factors
      ensures TotpKey(s.factors[f].usrId) == key <==> s.factors[f].usrId == s.factors[id].usrId
    {
      SingletonKeysAreInjective(s.factors[f].usrId, s.factors[id].usrId);
    }
    if key in s.singleton {
      TotpSlot(s, s.factors[id].usrId);
      var g := s.singleton[key];
      assert s'.factors[g] == s.factors[g] && IsActiveTotp(s'.factors[g]) && !HoldsTotpSlot(s', g);
    } else {
      forall f | f in s'.factors && IsActiveTotp(s'.factors[f])
        ensures HoldsTotpSlot(s', f)
      {
        assert f != id ==> HoldsTotpSlot(s, f);
      }
    }
  }

  /** A revocation keeps them complete except exactly when it is of a PENDING factor while another
      factor of the user holds the slot: the slot is then emptied under that other factor. */
  lemma RevocationKeepsSlotsExactlyWhenOwn(s: State, id: Id, now: Time)
    requires Inv(s) && TotpSlotsComplete(s)
    ensures TotpSlotsComplete(RevokeFactor(s, id, now).state) <==> !TakesSlotAway(s, id)
  {
    hide Inv, TotpKey, RecoveryKey, TotpSlotsComplete, WithoutSlot, WithoutListing;
    if TakesSlotAway(s, id) {
      PendingRevocationEmptiesSlot(s, id, now);
    } else if id in s.factors && s.factors[id].status != Revoked {
      OtherRevocationKeepsSlots(s, id, now);
    }
  }

  lemma PendingRevocationEmptiesSlot(s: State, id: Id, now: Time)
    requires Inv(s) && id in s.factors && s.factors[id].kind.TotpFactor? && s.factors[id].status == Pending
    requires TotpKey(s.factors[id].usrId) in s.singleton
    ensures !TotpSlotsComplete(RevokeFactor(s, id, now).state)
  {
    hide Inv, TotpKey;
    var u := s.factors[id].usrId;
    TotpSlot(s, u);
    var s', g := RevokeFactor(s, id, now).state, s.singleton[TotpKey(u)];
    assert s'.factors[g] == s.factors[g] && TotpKey(u) !in s'.singleton;
    assert IsActiveTotp(s'.factors[g]) && !HoldsTotpSlot(s', g);
  }

  lemma OtherRevocationKeepsSlots(s: State, id: Id, now: Time)
    requires Inv(s) && TotpSlotsComplete(s) && id in s.factors && s.factors[id].status != Revoked
    requires s.factors[id].kind.TotpFactor? && s.factors[id].status == Pending
      ==> TotpKey(s.factors[id].usrId) !in s.singleton
    ensures TotpSlotsComplete(RevokeFactor(s, id, now).state)
  {
    hide Inv, TotpKey, RecoveryKey;
    KeyedFactor(s, id);
    var s', u := RevokeFactor(s, id, now).state, s.factors[id].usrId;
    forall f | f in s'.factors && IsActiveTotp(s'.factors[f])
      ensures HoldsTotpSlot(s', f)
    {
      assert f != id && s'.factors[f] == s.factors[f];
      assert IsActiveTotp(s.factors[f]) && HoldsTotpSlot(s, f);
      SingletonKeysAreInjective(s.factors[f].usrId, u);
      assert IsActiveTotp(s.factors[id]) ==> HoldsTotpSlot(s, id);
    }
  }

  /** No factor becomes an ACTIVE TOTP factor, and the TOTP slots stay. */
  ghost predicate TotpUntouched(s: State, t: State) {
    && (forall f :: f in t.factors && IsActiveTotp(t.factors[f]) ==>
          f in s.factors && IsActiveTotp(s.factors[f]) && s.factors[f].usrId == t.factors[f].usrId)
    && SameTotpSlots(s.singleton, t.singleton)
  }

  ghost predicate SameTotpSlots(singleton: map<string, Id>, singleton': map<string, Id>) {
    forall u: Id :: TotpKey(u) in singleton ==>
      TotpKey(u) in singleton' && singleton'[TotpKey(u)] == singleton[TotpKey(u)]
  }

  lemma UntouchedKeepsSlots(s: State, t: State)
    requires TotpSlotsComplete(s) && TotpUntouched(s, t)
    ensures TotpSlotsComplete(t)
  {
    hide TotpKey;
    forall f | f in t.factors && IsActiveTotp(t.factors[f])
      ensures HoldsTotpSlot(t, f)
    {
      assert HoldsTotpSlot(s, f);
    }
  }

  /** Storing a factor that is no ACTIVE TOTP factor. */
  lemma OtherFactorLeavesTotp(s: State, t: State, id: Id, f: Factor)
    requires t.factors == s.factors || t.factors == s.factors[id := f]
    requires !IsActiveTotp(f) && SameTotpSlots(s.singleton, t.singleton)
    ensures TotpUntouched(s, t)
  {
    hide SameTotpSlots;
  }

  lemma RecoverySlotIsNoTotpSlot(singleton: map<string, Id>, usrId: Id, id: Id)
    ensures SameTotpSlots(singleton, singleton) && SameTotpSlots(singleton, singleton[RecoveryKey(usrId) := id])
  {
    hide TotpKey, RecoveryKey;
    forall u: Id
      ensures TotpKey(u) != RecoveryKey(usrId)
    {
      SingletonKeysAreInjective(u, usrId);
    }
  }

  lemma EnrollTotpLeavesTotp(s: State, users: Users, usrId: Id, identifier: string, secret: bytes, newId: Id, now: Time)
    ensures TotpUntouched(s, EnrollTotp(s, users, usrId, identifier, secret, newId, now).state)
  {
    hide TotpKey, CheckUserActive, TotpUntouched, SameTotpSlots;
    RecoverySlotIsNoTotpSlot(s.singleton, usrId, newId);
    var f := Factor(newId, usrId, Pending, None, now, now, TotpFactor(identifier));
    OtherFactorLeavesTotp(s, EnrollTotp(s, users, usrId, identifier, secret, newId, now).state, newId, f);
  }

  lemma EnrollWebAuthnLeavesTotp(s: State, users: Users, usrId: Id, identifier: string, reg: WebAuthn.Registration,
                                 newId: Id, now: Time)
    ensures TotpUntouched(s, EnrollWebAuthn(s, users, usrId, identifier, reg, newId, now).state)
  {
    hide CheckUserActive, TotpUntouched, SameTotpSlots;
    RecoverySlotIsNoTotpSlot(s.singleton, usrId, newId);
    var f := Factor(newId, usrId, Pending, None, now, now, WebAuthnFactor(identifier, reg.rpId, reg.signCount));
    OtherFactorLeavesTotp(s, EnrollWebAuthn(s, users, usrId, identifier, reg, newId, now).state, newId, f);
  }

  lemma EnrollRecoveryLeavesTotp(s: State, users: Users, usrId: Id, codes: seq<string>, newId: Id, now: Time)
    ensures TotpUntouched(s, EnrollRecovery(s, users, usrId, codes, newId, now).state)
  {
    hide CheckUserActive, TotpUntouched, SameTotpSlots, RecoveryKey, HashAll, AllFalse;
    RecoverySlotIsNoTotpSlot(s.singleton, usrId, newId);
    var f := Factor(newId, usrId, Active, None, now, now, RecoveryFactor(|codes|));
    OtherFactorLeavesTotp(s, EnrollRecovery(s, users, usrId, codes, newId, now).state, newId, f);
  }

  lemma CountedFactorLeavesTotp(s: State, id: Id, status: FactorStatus, n: nat, now: Time)
    requires id in s.factors && s.factors[id].kind.WebAuthnFactor?
    ensures TotpUntouched(s, AcceptCount(s, id, WithCount(s.factors[id], status, n, now), n))
  {
    hide TotpUntouched, SameTotpSlots;
    RecoverySlotIsNoTotpSlot(s.singleton, id, id);
    var f := WithCount(s.factors[id], status, n, now);
    OtherFactorLeavesTotp(s, AcceptCount(s, id, f, n), id, f);
  }

  lemma NothingLeavesTotp(s: State)
    ensures TotpUntouched(s, s)
  {
  }

  lemma VerifyWebAuthnLeavesTotp(s: State, lib: WebAuthn.Library, usrId: Id, credentialId: string,
                                 a: WebAuthn.Assertion, now: Time)
    ensures TotpUntouched(s, VerifyWebAuthn(s, lib, usrId, credentialId, a, now).state)
  {
    hide TotpUntouched, SameTotpSlots, CheckAssertion, IsActiveTotp;
    var o := VerifyWebAuthn(s, lib, usrId, credentialId, a, now);
    if o.result.Ok? {
      CountedFactorLeavesTotp(s, o.result.value.mfaId, Active, o.result.value.newSignCount.value, now);
    } else {
      NothingLeavesTotp(s);
    }
  }

  const SOME_RECOVERY_FACTOR := Factor("", "", Revoked, None, 0, 0, RecoveryFactor(0))

  lemma ConfirmWebAuthnLeavesTotp(s: State, lib: WebAuthn.Library, id: Id, a: WebAuthn.Assertion, ageNow: Time,
                                  now: Time)
    ensures TotpUntouched(s, ConfirmWebAuthn(s, lib, id, a, ageNow, now).state)
  {
    hide TotpUntouched, SameTotpSlots, CheckAssertion, IsActiveTotp;
    var o := ConfirmWebAuthn(s, lib, id, a, ageNow, now);
    if o.result.Ok? {
      CountedFactorLeavesTotp(s, id, Active, CheckAssertion(s, lib, id, s.factors[id], a).value, now);
    } else {
      NothingLeavesTotp(s);
    }
  }

  lemma VerifyRecoveryLeavesTotp(s: State, usrId: Id, code: string, now: Time)
    ensures TotpUntouched(s, VerifyRecovery(s, usrId, code, now).state)
  {
    hide TotpUntouched, SameTotpSlots, RecoveryKey, FirstMatch, CountFalse, Recovery.Normalize, Recovery.IsValidCode;
    RecoverySlotIsNoTotpSlot(s.singleton, usrId, usrId);
    var t := VerifyRecovery(s, usrId, code, now).state;
    var id := if RecoveryKey(usrId) in s.singleton then s.singleton[RecoveryKey(usrId)] else usrId;
    OtherFactorLeavesTotp(s, t, id, if t.factors != s.factors then t.factors[id] else SOME_RECOVERY_FACTOR);
  }
}
