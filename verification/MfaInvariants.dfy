/** What holds of MFA factors in every reachable state, and what no operation undoes. */
module MfaInvariants {
  import opened Prelude
  import opened Mfa
  import Recovery
  import WebAuthn

  type Factors = map<Id, Factor>

  // ----- The invariant -----

  /** Factors are stored under their ids; recovery factors are never PENDING, and no operation
      of the in-memory store suspends a factor. */
  ghost predicate FactorsKeyed(factors: Factors) {
    forall f :: f in factors ==> FactorKeyed(f, factors[f])
  }

  ghost predicate FactorKeyed(id: Id, f: Factor) {
    f.id == id && f.status != Suspended && (f.kind.RecoveryFactor? ==> f.status != Pending)
  }

  ghost predicate SecretsStored(factors: Factors, totpSecrets: map<Id, bytes>, webauthnKeys: map<Id, bytes>) {
    forall f :: f in factors ==>
      && (factors[f].kind.TotpFactor? ==> f in totpSecrets)
      && (factors[f].kind.WebAuthnFactor? ==> f in webauthnKeys)
  }

  /** The WebAuthn index is exactly the WebAuthn factors that are not REVOKED, one per
      credential id. */
  ghost predicate WebAuthnIndexExact(factors: Factors, index: map<string, Id>) {
    && (forall k :: k in index ==> index[k] in factors && Listed(factors[index[k]], k))
    && (forall f, k :: f in factors && Listed(factors[f], k) ==> k in index && index[k] == f)
  }

  predicate Listed(f: Factor, credentialId: string) {
    f.kind.WebAuthnFactor? && f.status != Revoked && f.kind.identifier == credentialId
  }

  /** Every singleton entry names an ACTIVE factor of the user and type in its key. */
  ghost predicate SingletonsSound(factors: Factors, singleton: map<string, Id>) {
    forall k :: k in singleton ==> singleton[k] in factors && Holds(factors[singleton[k]], k)
  }

  predicate Holds(f: Factor, key: string) {
    f.status == Active && ((f.kind.TotpFactor? && key == TotpKey(f.usrId))
        || (f.kind.RecoveryFactor? && key == RecoveryKey(f.usrId)))
  }

  /** Every ACTIVE recovery factor holds its user's slot; with `SingletonsSound`, the slot is
      exactly the ACTIVE recovery factor, and there is one at most. */
  ghost predicate RecoverySlotsComplete(factors: Factors, singleton: map<string, Id>) {
    forall f :: f in factors && factors[f].kind.RecoveryFactor? && factors[f].status == Active ==>
      RecoveryKey(factors[f].usrId) in singleton && singleton[RecoveryKey(factors[f].usrId)] == f
  }

  /** The codes in the slots whose flag is `b`. */
  function Picked(hashes: seq<PasswordHash>, flags: seq<bool>, b: bool): seq<string>
    requires |hashes| == |flags|
  {
    if hashes == [] then []
    else (if flags[0] == b then [hashes[0].password] else []) + Picked(hashes[1..], flags[1..], b)
  }

  function Codes(hashes: seq<PasswordHash>): seq<string> {
    if hashes == [] then [] else [hashes[0].password] + Codes(hashes[1..])
  }

  /** Ten issued codes; the successful verifications are, as a multiset, the codes in the
      consumed slots, and with `remaining` they make ten. */
  ghost predicate RecoveryConsistent(remaining: nat, hashes: seq<PasswordHash>, consumed: seq<bool>,
                                     spent: seq<string>) {
    && |hashes| == |consumed| == Recovery.CODE_COUNT
    && (forall h :: h in hashes ==> Recovery.IsValidCode(h.password))
    && remaining == CountFalse(consumed)
    && |spent| + remaining == Recovery.CODE_COUNT
    && multiset(spent) == multiset(Picked(hashes, consumed, true))
  }

  ghost predicate RecoveryStored(factors: Factors, hashes: map<Id, seq<PasswordHash>>, consumed: map<Id, seq<bool>>,
                                 spent: map<Id, seq<string>>) {
    forall f :: f in factors && factors[f].kind.RecoveryFactor? ==>
      && f in hashes && f in consumed && f in spent
      && RecoveryConsistent(factors[f].kind.remaining, hashes[f], consumed[f], spent[f])
  }

  /** Zeros first, then strictly increasing. */
  predicate ZerosThenIncreasing(counts: seq<nat>) {
    forall i, j :: 0 <= i < j < |counts| ==> counts[i] < counts[j] || (counts[i] == 0 && counts[j] == 0)
  }

  /** The accepted counts of a factor, and the stored count, which is the last accepted one. */
  predicate CountsAdvance(counts: seq<nat>, stored: int) {
    ZerosThenIncreasing(counts) && (counts != [] ==> Last(counts) == stored)
  }

  ghost predicate CountsKept(factors: Factors, accepted: map<Id, seq<nat>>) {
    forall f :: f in factors && factors[f].kind.WebAuthnFactor? ==>
      f in accepted && CountsAdvance(accepted[f], factors[f].kind.signCount)
  }

  ghost predicate Inv(s: State) {
    && FactorsKeyed(s.factors)
    && SecretsStored(s.factors, s.totpSecrets, s.webauthnKeys)
    && WebAuthnIndexExact(s.factors, s.byCredentialId)
    && SingletonsSound(s.factors, s.singleton)
    && RecoverySlotsComplete(s.factors, s.singleton)
    && RecoveryStored(s.factors, s.recoveryHashes, s.recoveryConsumed, s.spent)
    && CountsKept(s.factors, s.accepted)
    && OnlyOfFactors(s)
  }

  /** Nothing is kept for ids that are no factors. */
  ghost predicate OnlyOfFactors(s: State) {
    && s.accepted.Keys + s.recoveryHashes.Keys + s.recoveryConsumed.Keys + s.spent.Keys <= s.factors.Keys
    && s.totpSecrets.Keys + s.webauthnKeys.Keys <= s.factors.Keys
  }

  lemma EmptyInv()
    ensures Inv(EMPTY)
  {
  }

  // ----- What no operation undoes -----

  predicate SameKind(k: Kind, k': Kind) {
    match k
    case TotpFactor(_) => k' == k
    case WebAuthnFactor(identifier, rpId, _) => k'.WebAuthnFactor? && k'.identifier == identifier && k'.rpId == rpId
    case RecoveryFactor(remaining) => k'.RecoveryFactor? && k'.remaining <= remaining
  }

  /** Factors stay, with their user and kind; a REVOKED factor stays exactly as it is; a
      factor once confirmed is never PENDING again. */
  ghost predicate FactorsEvolve(factors: Factors, factors': Factors) {
    forall f :: f in factors ==> f in factors' && FactorEvolves(factors[f], factors'[f])
  }

  predicate FactorEvolves(f: Factor, f': Factor) {
    && f'.id == f.id && f'.usrId == f.usrId && f'.createdAt == f.createdAt && SameKind(f.kind, f'.kind)
    && (f.status == Revoked ==> f' == f)
    && (f'.status == Pending ==> f.status == Pending)
  }

  /** Consumed slots stay consumed. */
  ghost predicate ConsumedEvolve(consumed: map<Id, seq<bool>>, consumed': map<Id, seq<bool>>) {
    forall f :: f in consumed ==>
      && f in consumed' && |consumed'[f]| == |consumed[f]|
      && forall i :: 0 <= i < |consumed[f]| && consumed[f][i] ==> consumed'[f][i]
  }

  ghost predicate HistoryGrows<T>(m: map<Id, seq<T>>, m': map<Id, seq<T>>) {
    forall f :: f in m ==> f in m' && m[f] <= m'[f]
  }

  ghost predicate Grows<V>(m: map<Id, V>, m': map<Id, V>) {
    forall f :: f in m ==> f in m' && m'[f] == m[f]
  }

  ghost predicate Evolves(s: State, s': State) {
    && FactorsEvolve(s.factors, s'.factors)
    && ConsumedEvolve(s.recoveryConsumed, s'.recoveryConsumed)
    && Grows(s.totpSecrets, s'.totpSecrets)
    && Grows(s.webauthnKeys, s'.webauthnKeys)
    && Grows(s.recoveryHashes, s'.recoveryHashes)
    && HistoryGrows(s.spent, s'.spent)
    && HistoryGrows(s.accepted, s'.accepted)
  }

  lemma NothingKept(s: State, id: Id)
    requires OnlyOfFactors(s) && id !in s.factors
    ensures id !in s.totpSecrets && id !in s.webauthnKeys && id !in s.accepted
    ensures id !in s.recoveryHashes && id !in s.recoveryConsumed && id !in s.spent
  {
  }

  lemma FactorAdded(s: State, t: State, id: Id)
    requires OnlyOfFactors(s) && t.factors.Keys == s.factors.Keys + {id}
    requires t.accepted.Keys <= s.accepted.Keys + {id} && t.recoveryHashes.Keys <= s.recoveryHashes.Keys + {id}
    requires t.recoveryConsumed.Keys <= s.recoveryConsumed.Keys + {id} && t.spent.Keys <= s.spent.Keys + {id}
    requires t.totpSecrets.Keys <= s.totpSecrets.Keys + {id} && t.webauthnKeys.Keys <= s.webauthnKeys.Keys + {id}
    ensures OnlyOfFactors(t)
  {
  }

  lemma GrowsByOne<V>(m: map<Id, V>, id: Id, v: V)
    requires id !in m
    ensures Grows(m, m[id := v])
  {
  }

  lemma HistoryGrowsByOne<T>(m: map<Id, seq<T>>, id: Id, h: seq<T>)
    requires id !in m
    ensures HistoryGrows(m, m[id := h])
  {
  }

  lemma EvolvesIsReflexive(s: State)
    ensures Evolves(s, s)
  {
  }

  lemma EvolvesIsTransitive(s: State, t: State, u: State)
    requires Evolves(s, t) && Evolves(t, u)
    ensures Evolves(s, u)
  {
    forall f | f in s.factors
      ensures f in u.factors && FactorEvolves(s.factors[f], u.factors[f])
    {
      assert FactorEvolves(s.factors[f], t.factors[f]) && FactorEvolves(t.factors[f], u.factors[f]);
    }
    hide FactorEvolves;
  }

  // ----- Recovery slots -----

  lemma {:induction false} PickedPartition(hashes: seq<PasswordHash>, flags: seq<bool>)
    requires |hashes| == |flags|
    ensures multiset(Picked(hashes, flags, true)) + multiset(Picked(hashes, flags, false)) == multiset(Codes(hashes))
    ensures |Picked(hashes, flags, false)| == CountFalse(flags)
    ensures |Codes(hashes)| == |hashes|
  {
    if hashes != [] {
      PickedPartition(hashes[1..], flags[1..]);
    }
  }

  lemma {:induction false} PickedContains(hashes: seq<PasswordHash>, flags: seq<bool>, code: string)
    requires |hashes| == |flags|
    ensures code in Picked(hashes, flags, false) <==> exists i :: 0 <= i < |hashes| && Opens(hashes, flags, code, i)
  {
    if hashes != [] {
      PickedContains(hashes[1..], flags[1..], code);
      if i :| 0 <= i < |hashes[1..]| && Opens(hashes[1..], flags[1..], code, i) {
        assert Opens(hashes, flags, code, i + 1);
      }
      if i :| 0 <= i < |hashes| && Opens(hashes, flags, code, i) {
        assert i == 0 || Opens(hashes[1..], flags[1..], code, i - 1);
      }
      if code == hashes[0].password && !flags[0] {
        assert Opens(hashes, flags, code, 0);
      }
    }
  }

  /** Consuming a slot moves its code from the open to the spent ones. */
  lemma {:induction false} ConsumeSlot(hashes: seq<PasswordHash>, flags: seq<bool>, i: nat)
    requires |hashes| == |flags| && i < |flags| && !flags[i]
    ensures var flags' := flags[i := true];
      && multiset(Picked(hashes, flags', true)) == multiset(Picked(hashes, flags, true)) + multiset{hashes[i].password}
      && CountFalse(flags') + 1 == CountFalse(flags)
  {
    var flags' := flags[i := true];
    if i == 0 {
      assert flags'[1..] == flags[1..];
    } else {
      ConsumeSlot(hashes[1..], flags[1..], i - 1);
      assert flags'[1..] == flags[1..][i - 1 := true];
    }
  }

  lemma {:induction false} AllOpen(hashes: seq<PasswordHash>, flags: seq<bool>)
    requires |hashes| == |flags| && forall i :: 0 <= i < |flags| ==> !flags[i]
    ensures Picked(hashes, flags, true) == [] && CountFalse(flags) == |flags|
  {
    if hashes != [] {
      AllOpen(hashes[1..], flags[1..]);
    }
  }

  lemma CountsAdvanceByOne(counts: seq<nat>, stored: int, n: nat)
    requires CountsAdvance(counts, stored) && WebAuthn.CounterAdvances(stored, n)
    ensures CountsAdvance(counts + [n], n)
  {
    var counts' := counts + [n];
    forall i | 0 <= i < |counts|
      ensures counts'[i] < n || (counts'[i] == 0 && n == 0)
    {
      assert counts[i] <= Last(counts) == stored;
    }
  }

  // ----- Storing one factor: what each part of the invariant asks of it -----

  lemma KeyedPut(factors: Factors, f: Factor)
    requires FactorsKeyed(factors) && FactorKeyed(f.id, f)
    ensures FactorsKeyed(factors[f.id := f])
  {
  }

  lemma EvolvePut(factors: Factors, f: Factor)
    requires f.id in factors ==> FactorEvolves(factors[f.id], f)
    ensures FactorsEvolve(factors, factors[f.id := f])
  {
    hide FactorEvolves;
    forall g | g in factors
      ensures FactorEvolves(factors[g], factors[g])
    {
      EvolvesToItself(factors[g]);
    }
  }

  lemma EvolvesToItself(f: Factor)
    ensures FactorEvolves(f, f)
  {
  }

  /** The index stays when the factor is listed as it was. */
  lemma IndexPut(factors: Factors, index: map<string, Id>, f: Factor)
    requires WebAuthnIndexExact(factors, index)
    requires forall k :: Listed(f, k) <==> f.id in factors && Listed(factors[f.id], k)
    ensures WebAuthnIndexExact(factors[f.id := f], index)
  {
    hide Listed;
  }

  lemma IndexAdd(factors: Factors, index: map<string, Id>, f: Factor)
    requires WebAuthnIndexExact(factors, index) && f.id !in factors
    requires f.kind.WebAuthnFactor? && f.status != Revoked && f.kind.identifier !in index
    ensures WebAuthnIndexExact(factors[f.id := f], index[f.kind.identifier := f.id])
  {
  }

  lemma IndexRemove(factors: Factors, index: map<string, Id>, f: Factor)
    requires WebAuthnIndexExact(factors, index) && f.id in factors && f.status == Revoked
    requires factors[f.id].kind.WebAuthnFactor? && factors[f.id].status != Revoked
    ensures WebAuthnIndexExact(factors[f.id := f], index - {factors[f.id].kind.identifier})
  {
    var identifier, factors' := factors[f.id].kind.identifier, factors[f.id := f];
    assert identifier in index && index[identifier] == f.id;
    forall g, k | g in factors' && Listed(factors'[g], k)
      ensures k in index - {identifier} && index[k] == g
    {
      assert Listed(factors[g], k);
    }
    forall k | k in index - {identifier}
      ensures index[k] in factors' && Listed(factors'[index[k]], k)
    {
      assert Listed(factors[index[k]], k);
    }
  }

  /** The singleton slots stay when the factor still deserves those it holds. */
  lemma SlotsPut(factors: Factors, singleton: map<string, Id>, f: Factor)
    requires SingletonsSound(factors, singleton) && RecoverySlotsComplete(factors, singleton)
    requires f.id in factors ==> forall k :: Holds(factors[f.id], k) ==> Holds(f, k)
    requires f.kind.RecoveryFactor? && f.status == Active ==>
      f.id in factors && factors[f.id].kind.RecoveryFactor? && factors[f.id].status == Active
          && factors[f.id].usrId == f.usrId
    ensures SingletonsSound(factors[f.id := f], singleton) && RecoverySlotsComplete(factors[f.id := f], singleton)
  {
    hide Holds;
    forall k | k in singleton && singleton[k] == f.id
      ensures Holds(f, k)
    {
      assert Holds(factors[f.id], k);
    }
  }

  lemma SlotTaken(factors: Factors, singleton: map<string, Id>, f: Factor, key: string)
    requires SingletonsSound(factors, singleton) && Holds(f, key)
    requires f.id in factors ==> forall k :: Holds(factors[f.id], k) ==> Holds(f, k)
    ensures SingletonsSound(factors[f.id := f], singleton[key := f.id])
  {
    hide Holds;
  }

  lemma RecoverySlotTaken(factors: Factors, singleton: map<string, Id>, f: Factor)
    requires RecoverySlotsComplete(factors, singleton) && f.id !in factors
    requires f.kind.RecoveryFactor? && f.status == Active && RecoveryKey(f.usrId) !in singleton
    ensures RecoverySlotsComplete(factors[f.id := f], singleton[RecoveryKey(f.usrId) := f.id])
  {
    var factors', singleton' := factors[f.id := f], singleton[RecoveryKey(f.usrId) := f.id];
    forall g | g in factors' && factors'[g].kind.RecoveryFactor? && factors'[g].status == Active
      ensures RecoveryKey(factors'[g].usrId) in singleton' && singleton'[RecoveryKey(factors'[g].usrId)] == g
    {
      SingletonKeysAreInjective(factors'[g].usrId, f.usrId);
    }
  }

  lemma RecoverySlotsApart(factors: Factors, singleton: map<string, Id>, f: Factor, key: string, id: Id)
    requires RecoverySlotsComplete(factors, singleton)
    requires forall u: Id :: key != RecoveryKey(u)
    requires !f.kind.RecoveryFactor?
    ensures RecoverySlotsComplete(factors[f.id := f], singleton[key := id])
    ensures RecoverySlotsComplete(factors[f.id := f], singleton - {key})
  {
  }

  lemma TotpKeyIsNoRecoveryKey(u: Id)
    ensures forall v: Id :: TotpKey(u) != RecoveryKey(v)
  {
    forall v: Id
      ensures TotpKey(u) != RecoveryKey(v)
    {
      SingletonKeysAreInjective(u, v);
    }
  }

  /** A revoked factor gives up its key, and holds no other. */
  lemma SlotReleased(factors: Factors, singleton: map<string, Id>, f: Factor, key: string)
    requires SingletonsSound(factors, singleton) && f.id in factors
    requires forall k :: Holds(factors[f.id], k) ==> k == key
    ensures SingletonsSound(factors[f.id := f], singleton - {key})
  {
    hide Holds;
  }

  lemma RecoverySlotReleased(factors: Factors, singleton: map<string, Id>, f: Factor)
    requires RecoverySlotsComplete(factors, singleton) && SingletonsSound(factors, singleton) && FactorsKeyed(factors)
    requires f.id in factors && factors[f.id].kind.RecoveryFactor? && factors[f.id].status == Active
    requires f.status == Revoked && f.usrId == factors[f.id].usrId
    ensures RecoverySlotsComplete(factors[f.id := f], singleton - {RecoveryKey(f.usrId)})
  {
    var factors', singleton' := factors[f.id := f], singleton - {RecoveryKey(f.usrId)};
    forall g | g in factors' && factors'[g].kind.RecoveryFactor? && factors'[g].status == Active
      ensures RecoveryKey(factors'[g].usrId) in singleton' && singleton'[RecoveryKey(factors'[g].usrId)] == g
    {
      SingletonKeysAreInjective(factors'[g].usrId, f.usrId);
    }
  }

  lemma SecretsPut(factors: Factors, totpSecrets: map<Id, bytes>, webauthnKeys: map<Id, bytes>,
                   totpSecrets': map<Id, bytes>, webauthnKeys': map<Id, bytes>, f: Factor)
    requires SecretsStored(factors, totpSecrets, webauthnKeys)
    requires totpSecrets.Keys <= totpSecrets'.Keys && webauthnKeys.Keys <= webauthnKeys'.Keys
    requires (f.kind.TotpFactor? ==> f.id in totpSecrets') && (f.kind.WebAuthnFactor? ==> f.id in webauthnKeys')
    ensures SecretsStored(factors[f.id := f], totpSecrets', webauthnKeys')
  {
  }

  lemma RecoveryPut(s: State, f: Factor, hashes: seq<PasswordHash>, consumed: seq<bool>, spent: seq<string>)
    requires RecoveryStored(s.factors, s.recoveryHashes, s.recoveryConsumed, s.spent)
    requires f.kind.RecoveryFactor? && RecoveryConsistent(f.kind.remaining, hashes, consumed, spent)
    ensures RecoveryStored(s.factors[f.id := f], s.recoveryHashes[f.id := hashes], s.recoveryConsumed[f.id := consumed],
                           s.spent[f.id := spent])
  {
    hide RecoveryConsistent;
  }

  lemma RecoveryUntouched(s: State, f: Factor)
    requires RecoveryStored(s.factors, s.recoveryHashes, s.recoveryConsumed, s.spent)
    requires f.kind.RecoveryFactor? ==> f.id in s.factors && s.factors[f.id].kind == f.kind
    ensures RecoveryStored(s.factors[f.id := f], s.recoveryHashes, s.recoveryConsumed, s.spent)
  {
    hide RecoveryConsistent;
  }

  lemma CountsPut(factors: Factors, accepted: map<Id, seq<nat>>, f: Factor, counts: seq<nat>)
    requires CountsKept(factors, accepted) && f.kind.WebAuthnFactor? && CountsAdvance(counts, f.kind.signCount)
    ensures CountsKept(factors[f.id := f], accepted[f.id := counts])
  {
    hide CountsAdvance;
  }

  lemma CountsUntouched(factors: Factors, accepted: map<Id, seq<nat>>, f: Factor)
    requires CountsKept(factors, accepted)
    requires f.kind.WebAuthnFactor? ==> f.id in factors && factors[f.id].kind == f.kind
    ensures CountsKept(factors[f.id := f], accepted)
  {
    hide CountsAdvance;
  }
}
