/** What holds of personal access tokens in every reachable state, what no operation undoes,
    and which strings verify. */
module PatInvariants {
  import opened Prelude
  import opened Pats
  import Identity
  import PatToken

  // ----- The invariant -----

  /** Records are stored under well-formed ids; REVOKED is the same as having a time of
      revocation, and EXPIRED is never stored. */
  ghost predicate PatsKeyed(pats: map<Id, Pat>) {
    forall p :: p in pats ==> PatKeyed(p, pats[p])
  }

  ghost predicate PatKeyed(p: Id, pat: Pat) {
    pat.id == p && PatToken.IsPatId(p) && (pat.status == Revoked <==> pat.revokedAt.Some?) && pat.status != Expired
  }

  ghost predicate SecretsStored(pats: map<Id, Pat>, hashes: map<Id, PasswordHash>) {
    forall p :: p in pats ==> p in hashes && IsMinted(hashes[p].password)
  }

  /** What 32 random bytes encode to. */
  ghost predicate IsMinted(secret: string) {
    PatToken.IsSecret(secret) && |secret| == 43
  }

  /** Consecutive values are a minute apart. */
  predicate Spaced(times: seq<Time>) {
    forall i :: 0 < i < |times| ==> times[i] - times[i - 1] >= COALESCE_SECONDS * Identity.SECOND
  }

  function LastOrNone(times: seq<Time>): Option<Time> {
    if times == [] then None else Some(Last(times))
  }

  /** `last_used_at`, the coalescing entry and the last recorded value are one and the same. */
  ghost predicate UseRecorded(pats: map<Id, Pat>, persist: map<Id, Time>, recorded: map<Id, seq<Time>>) {
    forall p :: p in pats ==>
      && p in recorded && Spaced(recorded[p])
      && pats[p].lastUsedAt == LastOrNone(recorded[p])
      && pats[p].lastUsedAt == (if p in persist then Some(persist[p]) else None)
  }

  ghost predicate Inv(s: State) {
    && PatsKeyed(s.pats)
    && SecretsStored(s.pats, s.secretHashes)
    && UseRecorded(s.pats, s.lastUsedPersist, s.recorded)
    && s.lastUsedPersist.Keys <= s.pats.Keys && s.secretHashes.Keys <= s.pats.Keys && s.recorded.Keys <= s.pats.Keys
  }

  lemma EmptyInv()
    ensures Inv(EMPTY)
  {
  }

  // ----- What no operation undoes -----

  predicate PatEvolves(p: Pat, p': Pat) {
    && p'.id == p.id && p'.usrId == p.usrId && p'.name == p.name && p'.scope == p.scope
    && p'.expiresAt == p.expiresAt && p'.createdAt == p.createdAt
    && (p.revokedAt.Some? ==> p' == p)
  }

  ghost predicate PatsEvolve(pats: map<Id, Pat>, pats': map<Id, Pat>) {
    forall p :: p in pats ==> p in pats' && PatEvolves(pats[p], pats'[p])
  }

  ghost predicate SecretsKept(hashes: map<Id, PasswordHash>, hashes': map<Id, PasswordHash>) {
    forall p :: p in hashes ==> p in hashes' && hashes'[p] == hashes[p]
  }

  ghost predicate HistoryGrows(recorded: map<Id, seq<Time>>, recorded': map<Id, seq<Time>>) {
    forall p :: p in recorded ==> p in recorded' && recorded[p] <= recorded'[p]
  }

  ghost predicate Evolves(s: State, s': State) {
    && PatsEvolve(s.pats, s'.pats) && SecretsKept(s.secretHashes, s'.secretHashes)
       && HistoryGrows(s.recorded, s'.recorded)
  }

  lemma EvolvesIsReflexive(s: State)
    ensures Evolves(s, s)
  {
  }

  lemma EvolvesIsTransitive(s: State, t: State, u: State)
    requires Evolves(s, t) && Evolves(t, u)
    ensures Evolves(s, u)
  {
  }

  // ----- Operations -----

  lemma KeyedPut(pats: map<Id, Pat>, pat: Pat)
    requires PatsKeyed(pats) && PatKeyed(pat.id, pat)
    requires pat.id in pats ==> PatEvolves(pats[pat.id], pat)
    ensures PatsKeyed(pats[pat.id := pat]) && PatsEvolve(pats, pats[pat.id := pat])
  {
    hide PatToken.IsPatId;
  }

  lemma SecretsPut(pats: map<Id, Pat>, hashes: map<Id, PasswordHash>, pat: Pat, hash: PasswordHash)
    requires SecretsStored(pats, hashes) && hashes.Keys <= pats.Keys && IsMinted(hash.password)
    requires pat.id in pats ==> pat.id in hashes && hash == hashes[pat.id]
    ensures SecretsStored(pats[pat.id := pat], hashes[pat.id := hash]) && SecretsKept(hashes, hashes[pat.id := hash])
  {
    hide IsMinted;
  }

  /** A PAT whose `last_used_at` and entries are left as they were. */
  lemma UseUntouched(pats: map<Id, Pat>, persist: map<Id, Time>, recorded: map<Id, seq<Time>>, pat: Pat)
    requires UseRecorded(pats, persist, recorded) && pat.id in pats && pats[pat.id].lastUsedAt == pat.lastUsedAt
    ensures UseRecorded(pats[pat.id := pat], persist, recorded)
  {
    hide Spaced, LastOrNone;
  }

  lemma UsePut(pats: map<Id, Pat>, persist: map<Id, Time>, recorded: map<Id, seq<Time>>, pat: Pat, now: Time)
    requires UseRecorded(pats, persist, recorded) && pat.id in pats && pat.lastUsedAt == Some(now)
    requires pat.id in persist ==> now - persist[pat.id] >= COALESCE_SECONDS * Identity.SECOND
    ensures pat.id in recorded
    ensures var times' := recorded[pat.id] + [now];
      && UseRecorded(pats[pat.id := pat], persist[pat.id := now], recorded[pat.id := times'])
      && HistoryGrows(recorded, recorded[pat.id := times'])
  {
    SpacedByOne(recorded[pat.id], now);
    hide Spaced;
  }

  lemma SpacedByOne(times: seq<Time>, now: Time)
    requires Spaced(times) && (times != [] ==> now - Last(times) >= COALESCE_SECONDS * Identity.SECOND)
    ensures Spaced(times + [now])
  {
    var times' := times + [now];
    forall i | 0 < i < |times'|
      ensures times'[i] - times'[i - 1] >= COALESCE_SECONDS * Identity.SECOND
    {
      assert i < |times| || times'[i - 1] == Last(times);
    }
  }

  lemma UseNew(pats: map<Id, Pat>, persist: map<Id, Time>, recorded: map<Id, seq<Time>>, pat: Pat)
    requires UseRecorded(pats, persist, recorded) && pat.lastUsedAt == None && pat.id !in persist && pat.id !in recorded
    ensures UseRecorded(pats[pat.id := pat], persist, recorded[pat.id := []])
    ensures HistoryGrows(recorded, recorded[pat.id := []])
  {
  }

  lemma CreatePatKeeps(s: State, users: Users, usrId: Id, name: string, scope: seq<string>, expiresAt: Option<Time>,
                       newId: Id, raw: bytes, now: Time)
    requires Inv(s) && newId !in s.pats && PatToken.IsPatId(newId) && |raw| == PatToken.SECRET_BYTES
    ensures var s' := CreatePat(s, users, usrId, name, scope, expiresAt, newId, raw, now).state;
      Inv(s') && Evolves(s, s')
  {
    hide CheckNewPat, PatToken.IsPatId, PatToken.IsSecret, PatToken.Encode, PatsKeyed, SecretsStored, UseRecorded,
         PatsEvolve, SecretsKept, HistoryGrows;
    if CreatePat(s, users, usrId, name, scope, expiresAt, newId, raw, now).result.Ok? {
      var pat := Pat(newId, usrId, name, scope, Active, expiresAt, None, None, now, now);
      PatToken.MintedToken(newId, raw);
      KeyedPut(s.pats, pat);
      SecretsPut(s.pats, s.secretHashes, pat, Identity.Argon2id(PatToken.Encode(raw)));
      UseNew(s.pats, s.lastUsedPersist, s.recorded, pat);
    } else {
      EvolvesIsReflexive(s);
    }
  }

  lemma KeyedPat(s: State, p: Id)
    requires Inv(s) && p in s.pats
    ensures PatKeyed(p, s.pats[p]) && p in s.recorded && p in s.secretHashes && IsMinted(s.secretHashes[p].password)
  {
    hide PatToken.IsPatId, IsMinted, Spaced;
  }

  lemma RecordUseKeeps(s: State, p: Id, now: Time)
    requires Inv(s) && p in s.pats && s.pats[p].revokedAt.None? && RecordsUse(s, p, now)
    ensures Inv(RecordUse(s, p, now)) && Evolves(s, RecordUse(s, p, now))
  {
    hide PatToken.IsPatId, IsMinted, PatsKeyed, SecretsStored, UseRecorded, PatsEvolve, SecretsKept, HistoryGrows;
    var pat := s.pats[p].(lastUsedAt := Some(now), updatedAt := now);
    KeyedPat(s, p);
    KeyedPut(s.pats, pat);
    SecretsPut(s.pats, s.secretHashes, pat, s.secretHashes[p]);
    assert s.secretHashes[p := s.secretHashes[p]] == s.secretHashes;
    UsePut(s.pats, s.lastUsedPersist, s.recorded, pat, now);
  }

  lemma VerifyPatTokenKeeps(s: State, token: string, now: Time)
    requires Inv(s)
    ensures var s' := VerifyPatToken(s, token, now).state;
      Inv(s') && Evolves(s, s')
  {
    hide Inv, Evolves, PatToken.StructurallyValid, RecordsUse, RecordUse, Identity.TooLong;
    EvolvesIsReflexive(s);
    if VerifyPatToken(s, token, now).result.Ok? {
      PatToken.StructurallyValidParts(token);
      if RecordsUse(s, token[..36], now) {
        RecordUseKeeps(s, token[..36], now);
      }
    }
  }

  lemma RevokePatKeeps(s: State, p: Id, now: Time)
    requires Inv(s)
    ensures var s' := RevokePat(s, p, now).state;
      Inv(s') && Evolves(s, s')
  {
    hide PatToken.IsPatId, IsMinted, PatsKeyed, SecretsStored, UseRecorded, PatsEvolve, SecretsKept, HistoryGrows;
    EvolvesIsReflexive(s);
    if p in s.pats && s.pats[p].revokedAt.None? {
      var pat := s.pats[p].WithRevocation(now);
      KeyedPat(s, p);
      KeyedPut(s.pats, pat);
      SecretsPut(s.pats, s.secretHashes, pat, s.secretHashes[p]);
      assert s.secretHashes[p := s.secretHashes[p]] == s.secretHashes;
      UseUntouched(s.pats, s.lastUsedPersist, s.recorded, pat);
    }
  }

  lemma CascadeEvolves(pats: map<Id, Pat>, u: Id, now: Time)
    requires PatsKeyed(pats)
    ensures PatsKeyed(Cascaded(pats, u, now)) && PatsEvolve(pats, Cascaded(pats, u, now))
    ensures Cascaded(pats, u, now).Keys == pats.Keys
  {
    hide PatToken.IsPatId;
  }

  lemma UseAfterCascade(pats: map<Id, Pat>, persist: map<Id, Time>, recorded: map<Id, seq<Time>>, u: Id, now: Time)
    requires UseRecorded(pats, persist, recorded)
    ensures UseRecorded(Cascaded(pats, u, now), persist, recorded)
  {
    hide Spaced, LastOrNone;
  }

  lemma SecretsAfterCascade(pats: map<Id, Pat>, hashes: map<Id, PasswordHash>, u: Id, now: Time)
    requires SecretsStored(pats, hashes)
    ensures SecretsStored(Cascaded(pats, u, now), hashes)
  {
    hide IsMinted;
  }

  lemma RevokePatsOfUserKeeps(s: State, u: Id, now: Time)
    requires Inv(s)
    ensures var s' := RevokePatsOfUser(s, u, now);
      Inv(s') && Evolves(s, s')
  {
    hide PatsKeyed, SecretsStored, UseRecorded, PatsEvolve, SecretsKept, HistoryGrows, Cascaded;
    CascadeEvolves(s.pats, u, now);
    UseAfterCascade(s.pats, s.lastUsedPersist, s.recorded, u, now);
    SecretsAfterCascade(s.pats, s.secretHashes, u, now);
    EvolvesIsReflexive(s);
  }

  // ----- Which strings verify -----

  /** A string is a live token: it was minted for a PAT that is neither revoked nor expired. */
  ghost predicate IsLiveTokenOf(s: State, token: string, p: Id, now: Time) {
    && p in s.pats && p in s.secretHashes
    && token == PatToken.Token(p, s.secretHashes[p].password)
    && s.pats[p].revokedAt.None? && !s.pats[p].IsExpired(now)
  }

  lemma SecretIsAscii(secret: string)
    requires PatToken.IsSecret(secret)
    ensures !Identity.TooLong(secret) || |secret| > Identity.MAX_PASSWORD_BYTES
  {
    forall c | c in secret
      ensures c < '\U{80}'
    {
      assert PatToken.IsBase64UrlChar(c);
    }
    Utf8LengthOfAscii(secret);
  }

  /** `verify_pat_token` accepts exactly the minted tokens of PATs that are neither revoked nor
      expired; a trailing newline, which the structural check lets through, is never accepted. */
  lemma VerifiesExactlyLiveTokens(s: State, token: string, now: Time, p: Id)
    requires Inv(s)
    ensures VerifyPatToken(s, token, now).result.Ok? && VerifyPatToken(s, token, now).result.value.patId == p
       <==> IsLiveTokenOf(s, token, p, now)
  {
    if IsLiveTokenOf(s, token, p, now) {
      LiveTokenVerifies(s, token, p, now);
    }
    if VerifyPatToken(s, token, now).result.Ok? && VerifyPatToken(s, token, now).result.value.patId == p {
      VerifiedTokenIsLive(s, token, now);
    }
  }

  lemma LiveTokenVerifies(s: State, token: string, p: Id, now: Time)
    requires Inv(s) && IsLiveTokenOf(s, token, p, now)
    ensures VerifyPatToken(s, token, now).result == Ok(VerifiedPat(p, s.pats[p].usrId, s.pats[p].scope))
  {
    assert PatKeyed(p, s.pats[p]) && IsMinted(s.secretHashes[p].password);
    hide Inv, PatToken.IsSecret, PatToken.IsPatId, Identity.TooLong;
    var secret := s.secretHashes[p].password;
    PatToken.TokenParts(p, secret);
    SecretIsAscii(secret);
  }

  lemma VerifiedTokenIsLive(s: State, token: string, now: Time)
    requires VerifyPatToken(s, token, now).result.Ok?
    ensures IsLiveTokenOf(s, token, VerifyPatToken(s, token, now).result.value.patId, now)
  {
    PatToken.StructurallyValidParts(token);
  }

  /** The one token of a PAT verifies exactly while the PAT is neither revoked nor expired. */
  lemma TokenVerifiesWhileLive(s: State, p: Id, now: Time)
    requires Inv(s) && p in s.pats && p in s.secretHashes
    ensures VerifyPatToken(s, PatToken.Token(p, s.secretHashes[p].password), now).result.Ok?
       <==> s.pats[p].revokedAt.None? && !s.pats[p].IsExpired(now)
  {
    hide Inv, VerifyPatToken;
    var token := PatToken.Token(p, s.secretHashes[p].password);
    if s.pats[p].revokedAt.None? && !s.pats[p].IsExpired(now) {
      LiveTokenVerifies(s, token, p, now);
    }
    if VerifyPatToken(s, token, now).result.Ok? {
      var q := VerifyPatToken(s, token, now).result.value.patId;
      VerifiedTokenIsLive(s, token, now);
      LivePatHasTokenId(s, token, q, now);
      PatIdLength(s, p);
      PatToken.TokenParts(p, s.secretHashes[p].password);
    }
  }

  /** What happens to the token of a record. */
  lemma TokenOutcome(s: State, p: Id, now: Time)
    requires Inv(s) && p in s.pats && p in s.secretHashes
    ensures var pat := s.pats[p];
      VerifyPatToken(s, PatToken.Token(p, s.secretHashes[p].password), now).result
      == if pat.revokedAt.Some? then Raise(PatRevoked)
         else if pat.expiresAt.Some? && now >= pat.expiresAt.value then Raise(PatExpired)
         else Ok(VerifiedPat(p, pat.usrId, pat.scope))
  {
    KeyedPat(s, p);
    var secret := s.secretHashes[p].password;
    PatToken.TokenParts(p, secret);
    hide Inv, PatToken.IsSecret, PatToken.IsPatId;
    SecretIsAscii(secret);
    hide Identity.TooLong;
  }

  lemma PatIdLength(s: State, p: Id)
    requires Inv(s) && p in s.pats
    ensures |p| == 36
  {
    assert PatKeyed(p, s.pats[p]);
  }

  /** The token handed out on creation verifies from then on exactly until it is revoked or
      expires: in every later state, however many operations away. */
  lemma CreatedTokenVerifies(s: State, users: Users, usrId: Id, name: string, scope: seq<string>,
                             expiresAt: Option<Time>,
                             newId: Id, raw: bytes, now: Time, later: State, laterNow: Time)
    requires CreatePat(s, users, usrId, name, scope, expiresAt, newId, raw, now).result.Ok?
    requires Inv(later) && Evolves(CreatePat(s, users, usrId, name, scope, expiresAt, newId, raw, now).state, later)
    ensures newId in later.pats
    ensures var token := CreatePat(s, users, usrId, name, scope, expiresAt, newId, raw, now).result.value.token;
      VerifyPatToken(later, token, laterNow).result.Ok?
      <==> later.pats[newId].revokedAt.None? && (expiresAt.Some? ==> laterNow < expiresAt.value)
  {
    hide Inv, VerifyPatToken, CheckNewPat, PatToken.Encode, PatToken.Token;
    var created := CreatePat(s, users, usrId, name, scope, expiresAt, newId, raw, now).state;
    assert newId in created.pats && newId in created.secretHashes;
    assert PatEvolves(created.pats[newId], later.pats[newId]);
    TokenVerifiesWhileLive(later, newId, laterNow);
  }

  lemma LivePatHasTokenId(s: State, token: string, p: Id, now: Time)
    requires Inv(s) && IsLiveTokenOf(s, token, p, now)
    ensures |token| >= 36 && token[..36] == p
  {
    assert PatKeyed(p, s.pats[p]);
    PatToken.TokenParts(p, s.secretHashes[p].password);
  }

  /** Creation returns the record that is stored, with the token of the secret whose hash is stored;
      revocation returns the stored record. */
  lemma ReturnedPats(s: State, users: Users, usrId: Id, name: string, scope: seq<string>, expiresAt: Option<Time>,
                     p: Id, raw: bytes, now: Time)
    ensures var o := CreatePat(s, users, usrId, name, scope, expiresAt, p, raw, now);
      o.result.Ok? ==>
        && Lookup(o.state.pats, p) == Some(o.result.value.pat)
        && p in o.state.secretHashes && o.result.value.token == PatToken.Token(p, o.state.secretHashes[p].password)
    ensures var o := RevokePat(s, p, now); o.result.Ok? ==> Lookup(o.state.pats, p) == Some(o.result.value)
  {
    hide CheckNewPat, PatToken.Encode, PatToken.Token;
  }

  /** After a successful verification the recorded use is less than a minute old. */
  lemma UseIsFresh(s: State, token: string, now: Time)
    requires Inv(s) && VerifyPatToken(s, token, now).result.Ok?
    ensures var p, s' := VerifyPatToken(s, token, now).result.value.patId, VerifyPatToken(s, token, now).state;
      && p in s'.pats && s'.pats[p].lastUsedAt.Some?
      && now - s'.pats[p].lastUsedAt.value < COALESCE_SECONDS * Identity.SECOND
  {
    hide PatToken.StructurallyValid, PatToken.IsPatId, Identity.TooLong, IsMinted;
  }
}
