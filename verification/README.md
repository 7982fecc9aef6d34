# The identity store, verified

A Dafny model of the identity SDK: users, credentials, sessions, multi-factor authentication
and personal access tokens, with the algorithms underneath (CBOR and COSE decoding, WebAuthn
assertions, TOTP, recovery codes, token format, pagination, the ILIKE filter), and proofs of
what the SDK relies on. `dafny verify dfyconfig.toml` checks everything.

How it is put together:

- `Identity`, `Mfa` and `Pats` say what every operation does, as functions from the dictionaries
  and the arguments to the new dictionaries and a result or an error. The generators' ids, tokens
  and random bytes, and each reading of the clock, are arguments.
- `IdentityInvariants`, `MfaInvariants` and `PatInvariants` state the invariant and what no
  operation undoes; `IdentityOperations` and `MfaOperations` prove that each operation keeps them.
- `Machine` puts the operations together as one state machine with runs; `RunTheorems` holds the
  theorems about whole runs, `IdentityTheorems`, `IndexTheorems` and `MfaTheorems` those about
  single states and steps, `RevokedUsers` those about what REVOKED users may still have, and
  `Counterexamples` one concrete input for each property that the code does not keep. Some
  dictionaries of the model are history that the code does not store: the order of insertion, the
  session each token was issued for, the session each session refreshed, the recovery codes and
  sign counts accepted, the values `last_used_at` has had. `RunHistory` proves that all of
  it but the order of insertion records exactly what the operations of a run have done.
- `Fates` and `FactorFates` say what becomes of a single record in an operation and on a run, by
  looking at the record and the operations alone; `Refusals` says which error each operation raises;
  `Lifetimes` follows tokens and passwords from the operation that hands them out to those that end
  them. They are independent of how the functions above are written, and the functions are proved
  to agree with them.
- `Store` is `InMemoryIdentityStore` as a class with the dictionaries as mutable fields. Each
  method is written like the original, with its loops and its early exits, and is proved to do
  what the function of the same name says, from any state at all that satisfies the invariant of
  the dictionaries it writes. `Perform` and `PerformAll` prove that whatever operations a caller
  performs, the store takes the steps and the run of `Machine`, so the theorems about runs are
  about the class.
- `Cbor` (with the decoder as a class), `WebAuthn`, `Totp`, `Recovery`, `PatToken`, `Like`,
  `Pagination`, `Listings` and `Lineage` hold the algorithms. The Postgres store enters as the
  simple specification: what its queries select.

Assumptions: ids and session tokens drawn are new; a new token identifier has the form the
generator gives it; Postgres orders uuids as the wire ids made from them are ordered as strings
(32 lower-case hexadecimal digits behind one prefix); SHA-256 and Argon2id do not collide, so
that a password verifies against a hash iff it is the one hashed. Nothing is assumed of HMAC but
the length of its digests, and nothing of the signature schemes. All theorems about runs hold for
every run, all times and every order of clock readings; the clock need not be monotonic.

Where the code does not do what one might expect, the model follows the code; the exact condition
is proved as a guard that can be evaluated before the call, and, but for the last two, a concrete
input is given:

- `revoke_credential` on a SUSPENDED credential can drop the index entry of another one
  (`src/flametrench_identity/in_memory.py:657`).
- `reinstate_credential` does not look at the user, so a REVOKED user can have an ACTIVE credential,
  whose password verifies and which blocks its identifier (`:632`).
- `create_pat` needs only an existing user, so a REVOKED user can have a live token (`:1281`).
- `confirm_totp_factor` takes the slot over, so two TOTP factors can be ACTIVE (`:1006`), and revoking
  a PENDING factor empties the slot under an ACTIVE one (`:1066`).
- `rotate_password` with a password that is too long fails after the old one is gone (`:517-525`).
- Session walks end early in Postgres for limits over 200
  (`src/flametrench_identity/postgres.py:961-968`).
- The stores raise different errors for tokens of revoked sessions (`:986`).
- The token pattern lets a trailing newline through (`src/flametrench_identity/types.py:215`); no such
  token ever verifies.

## Model

| member | source | states |
|---|---|---|
| `Machine.StepKeeps` | src/flametrench_identity/in_memory.py:118-1421 | Every one of the 23 mutating operations, on any state that satisfies the invariant and with fresh ids and tokens, leads to a state that satisfies it, and undoes nothing (users, credentials, sessions, factors and tokens stay; what is REVOKED stays as it is; `revoked_at` is written once). |
| `Machine.RunKeeps` | src/flametrench_identity/in_memory.py:118-1421 | The same for every run of operations, by composition of the steps. |
| `Machine.ReachableStatesSatisfyInv` | src/flametrench_identity/in_memory.py:123-149 | Every state reachable from the empty store satisfies the invariant. In particular every unrevoked session has an ACTIVE credential and an ACTIVE user and the user of its credential; the two token maps are mutually inverse with domain exactly the unrevoked sessions; index entries name ACTIVE credentials with that key; the WebAuthn index is exactly the WebAuthn factors that are not REVOKED; every `last_used_at` equals its coalescing entry. |
| `RunTheorems.LiveSessionsAreBacked` | src/flametrench_identity/in_memory.py:178-194 | In every reachable state a session has the user of its credential; while it is unrevoked its credential and its user are ACTIVE; and it is unrevoked iff it has a token hash, which the inverse map leads back to it. |
| `RunTheorems.FactorIndexesAreExact` | src/flametrench_identity/in_memory.py:893-1071 | In every reachable state the WebAuthn index lists exactly the WebAuthn factors that are not REVOKED, one per credential id, and every TOTP slot names an ACTIVE TOTP factor of that user with a stored secret. |
| `RunHistory.RunRecords` | src/flametrench_identity/in_memory.py:1380-1399 | Along every run the recorded uses of a token grow by exactly the times of its successful verifications that found no use recorded less than 60 s before. |
| `RunHistory.LastUseIsRecorded` | src/flametrench_identity/in_memory.py:1380-1399 | In every reachable state a token record is REVOKED iff `revoked_at` is set; `last_used_at` equals its coalescing entry and is the time of the last of those verifications in the run, and they are at least 60 s apart. |
| `Machine.ErrorsAreCleanExactly` | src/flametrench_identity/in_memory.py:505-540 | An operation that raises leaves every dictionary unchanged if and only if it is not a rotation of an ACTIVE password to one over 1024 bytes, which revokes the old credential and its sessions before `hash_password` refuses the new password. |
| `Machine.LongRotationChangesState` | src/flametrench_identity/in_memory.py:517-525 | In that case the call raises ValueError and the old credential is REVOKED afterwards. |
| `Refusals.StepRefusesExactly` | src/flametrench_identity/in_memory.py:118-1421 | For each of the 23 operations and all inputs: the operation raises the error of the first of its checks that fails, in the order of the code, and succeeds when none fails; the checks are conditions on the stored records with the limits written out (60 s, 600 s, 120 characters, 365 days, 1024 bytes, 256 characters). |
| `Fates.UserFollowsFate` | src/flametrench_identity/in_memory.py:268-400 | What an operation makes of a user, or of an unused user id, depends only on the record and on whether the operation names the user: creation, renaming, and the transitions ACTIVE to SUSPENDED and back and to REVOKED, with the time of update. |
| `Fates.UserFollowsFateOnRun` | src/flametrench_identity/in_memory.py:268-400 | So the record of a user after a run is determined by the operations of the run that name it. |
| `Fates.ReturnedUser` | src/flametrench_identity/in_memory.py:268-380 | `create_user`, `update_user` and `reinstate_user` return what is stored afterwards. |
| `Fates.ReturnedByCascade` | src/flametrench_identity/in_memory.py:359-400 | `suspend_user` and `revoke_user` return what is stored afterwards. |
| `Fates.ReturnedCredentials` | src/flametrench_identity/in_memory.py:616-661 | Suspension, reinstatement and revocation of a credential return what is stored afterwards. |
| `Fates.ReturnedSessions` | src/flametrench_identity/in_memory.py:697-817 | Creation and refresh return the stored session with the token that was drawn, revocation the stored session. |
| `RunTheorems.RevokedIsFinal` | src/flametrench_identity/in_memory.py:359-400 | On every run a REVOKED user, credential or factor, a revoked token record and a revoked session stay exactly as they are. |
| `IdentityTheorems.TokenVerifiesExactly` | src/flametrench_identity/in_memory.py:763-776 | `verify_session_token` returns a session iff the token was issued for it, it is unrevoked and now <= expires_at. |
| `IdentityTheorems.TokenListed` | src/flametrench_identity/in_memory.py:731-733 | A token hash is listed iff its session is unrevoked; so no lookup after the first fails and the "Session is revoked" branch is never taken. |
| `IdentityTheorems.DeadTokensStayDead` | src/flametrench_identity/in_memory.py:178-194 | The token of a revoked session raises InvalidToken in every later state at every time. |
| `IdentityTheorems.BothStoresVerifyAlikeExactly` | src/flametrench_identity/postgres.py:971-992 | In-memory verification and the Postgres query accept the same tokens for the same sessions, and their whole outcome is equal iff the token is not one of a revoked session. |
| `IdentityTheorems.RevokedOwnersHaveNoLiveSessions` | src/flametrench_identity/in_memory.py:178-194 | No session of a user or credential that is REVOKED now is unrevoked in any later state. |
| `RunHistory.RunIssues` | src/flametrench_identity/in_memory.py:697-805 | Along every run the tokens recorded as issued and the sessions recorded as refreshed grow by exactly those of the `create_session` and `refresh_session` operations that succeed. |
| `Fates.SessionFollowsFate` | src/flametrench_identity/in_memory.py:178-194 | An operation revokes an unrevoked session, at the time of its cascade, iff it revokes or refreshes that session, suspends, revokes or rotates its credential, or suspends or revokes its user; otherwise the session stays as it is. |
| `Fates.SessionFollowsFateOnRun` | src/flametrench_identity/in_memory.py:697-817 | So the record of a session after a run is determined by the record and the list of operations alone. |
| `Fates.LiveUnlessEnded` | src/flametrench_identity/in_memory.py:697-817 | And it is unrevoked after the run iff it was before and no operation of the run is one of those. |
| `Lifetimes.SessionTokenLife` | src/flametrench_identity/in_memory.py:697-734 | From its creation on, on every run, a session token verifies, for the user, the credential and the times asked for, until `ttl_seconds` have passed, iff no operation of the run ends the session; after an end it raises InvalidToken, after the expiry SessionExpired. |
| `Lifetimes.RefreshedTokenLife` | src/flametrench_identity/in_memory.py:778-805 | The same for the token a refresh hands out, for the user and the credential of the old session, from the time of the refresh on and for as long as the old one was to live; the old token raises InvalidToken for ever. |
| `IdentityTheorems.TokenOutcome` | src/flametrench_identity/in_memory.py:763-776 | What `verify_session_token` does with every string: InvalidToken unless it is the token of an unrevoked session, SessionExpired when now > expires_at, else that session. |
| `IdentityTheorems.RevocationKillsTheToken` | src/flametrench_identity/in_memory.py:807-817 | `revoke_session` stamps an unrevoked session with the time given; its token raises InvalidToken at every time; every other token does what it did before. |
| `RunTheorems.RevocationIsForever` | src/flametrench_identity/in_memory.py:382-400 | After a user or a credential has been revoked, no run makes a session of it live again. |
| `RunTheorems.RevokedTokenNeverVerifies` | src/flametrench_identity/in_memory.py:807-817 | After its session is revoked, no run makes a token verify again. |
| `IdentityTheorems.RefreshIsAsCautiousAsCreate` | src/flametrench_identity/in_memory.py:778-805 | `refresh_session` checks neither user nor credential; whenever it accepts a session, `create_session` for the same user and credential would succeed as well. |
| `IdentityTheorems.ChainIsConstant` | src/flametrench_identity/in_memory.py:778-805 | Along any chain of refreshes user, credential and time to live are those of the first session, and the time to live is at least 60 s. |
| `IdentityTheorems.OneLiveSessionPerChain` | src/flametrench_identity/in_memory.py:784-790 | Two unrevoked sessions of the same refresh chain are the same session. |
| `IdentityTheorems.RefreshedOnce` | src/flametrench_identity/in_memory.py:778-783 | A session that has been refreshed raises SessionExpired, with no change, whenever it is refreshed again in any later state. |
| `Identity.IdentifierKeyIsInjective` | src/flametrench_identity/in_memory.py:157-158 | Type-and-identifier keys are equal iff type and identifier are, whatever characters the identifier holds. |
| `IdentityTheorems.FoundIsSelected` | src/flametrench_identity/in_memory.py:495-503 | What the index finds is an ACTIVE credential of that type and identifier, a row the SQL query selects. |
| `IdentityTheorems.FindIsTheQueryExactlyWhenComplete` | src/flametrench_identity/postgres.py:648-660 | The index agrees with the SQL query on every type and identifier iff every ACTIVE credential is in the index, and then (type, identifier) is unique among ACTIVE credentials. |
| `IdentityTheorems.KeyIsTakenExactlyWhenSelected` | src/flametrench_identity/in_memory.py:251-264 | The DuplicateCredential test finds a key only if some ACTIVE credential has that type and identifier, and with a complete index iff there is one. |
| `IndexTheorems.RevokeKeepsCompleteExactly` | src/flametrench_identity/in_memory.py:650-661 | `revoke_credential` keeps the index complete iff it is not called on a SUSPENDED credential whose key is in the index. |
| `IndexTheorems.ForeignEntryIsDropped` | src/flametrench_identity/in_memory.py:657-659 | In that case another credential stays ACTIVE and is selected by the query, but is no longer found. |
| `RunTheorems.StepKeepsIndexCompleteExactly` | src/flametrench_identity/in_memory.py:388-661 | Among all operations and inputs, that call is the only step after which a complete index is not complete. |
| `RunTheorems.RunKeepsIndexComplete` | src/flametrench_identity/in_memory.py:388-661 | On runs without such a call the index is complete in every state. |
| `RunTheorems.FindIsTheQueryOnSuchRuns` | src/flametrench_identity/postgres.py:648-660 | So on those runs `find_credential_by_identifier` agrees with the SQL query and (type, identifier) is unique among ACTIVE credentials. |
| `Counterexamples.EntryIsLostOnSomeRun` | src/flametrench_identity/in_memory.py:650-661 | A concrete run of five operations after which an ACTIVE credential is not found: create, suspend, create again, revoke the suspended one. |
| `RevokedUsers.RevokeUserLeavesNothing` | src/flametrench_identity/in_memory.py:382-400 | After any successful `revoke_user` the user is REVOKED and has no ACTIVE credential and no live session, whatever the state was. |
| `RevokedUsers.RevokeUserLeavesNoToken` | src/flametrench_identity/in_memory.py:196-210 | Nor an unrevoked personal access token. |
| `RevokedUsers.RevokeUserKeepsBare` | src/flametrench_identity/in_memory.py:382-400 | If no REVOKED user has an ACTIVE credential, that is still so after `revoke_user`, for the user revoked and all others. |
| `RevokedUsers.ReinstateKeepsBareExactly` | src/flametrench_identity/in_memory.py:632-648 | `reinstate_credential` keeps "no REVOKED user has an ACTIVE credential" iff the credential is not a stored SUSPENDED one with a free key and a REVOKED owner. |
| `RevokedUsers.StepKeepsRevokedUsersBareExactly` | src/flametrench_identity/in_memory.py:382-661 | Among all operations and inputs that call is the only one that breaks the property. |
| `RevokedUsers.RunKeepsRevokedUsersBare` | src/flametrench_identity/in_memory.py:382-661 | On runs without such a call no REVOKED user ever has an ACTIVE credential. |
| `Counterexamples.RevokedUserHasCredentialOnSomeRun` | src/flametrench_identity/in_memory.py:632-648 | A concrete run of five operations after which a REVOKED user has an ACTIVE credential. |
| `RevokedUsers.OpensNoSession` | src/flametrench_identity/in_memory.py:697-715 | A credential whose owner is not ACTIVE opens no session, whichever user the call names; the call raises and changes nothing. |
| `RevokedUsers.RevivedPasswordVerifies` | src/flametrench_identity/in_memory.py:663-690 | A reinstated password credential of a REVOKED user verifies its password again, and only that one. |
| `RevokedUsers.RevivedCredentialBlocks` | src/flametrench_identity/in_memory.py:251-264 | And it blocks its identifier: creating a credential of that type under it raises DuplicateCredential for every ACTIVE user. |
| `RevokedUsers.CreationKeepsTokenlessExactly` | src/flametrench_identity/in_memory.py:1273-1309 | `create_pat`, which needs only an existing user, keeps "no unrevoked token belongs to a REVOKED user" iff the user is not REVOKED or name or expiry are refused. |
| `RevokedUsers.StepKeepsTokenlessExactly` | src/flametrench_identity/in_memory.py:196-400 | Among all operations and inputs that call is the only one that breaks the property. |
| `RevokedUsers.RunKeepsTokenless` | src/flametrench_identity/in_memory.py:1273-1421 | On runs without such a call no unrevoked token ever belongs to a REVOKED user. |
| `RevokedUsers.NoTokenOfRevokedUserVerifies` | src/flametrench_identity/in_memory.py:1341-1399 | On those runs no token of a REVOKED user verifies. |
| `Counterexamples.RevokedUserHasTokenOnSomeRun` | src/flametrench_identity/in_memory.py:1281 | A concrete run of three operations after which the token of a REVOKED user verifies. |
| `Counterexamples.RotationFailsHalfwayOnSomeRun` | src/flametrench_identity/in_memory.py:517-525 | A concrete run in which rotating to a password of 1025 bytes raises ValueError and leaves the user without a password. |
| `IdentityTheorems.PasswordOpens` | src/flametrench_identity/in_memory.py:663-690 | An accepted password names an ACTIVE password credential with that identifier whose hash was made from it; with a complete index it is accepted iff there is one. |
| `IdentityTheorems.PasswordVerifiesExactly` | src/flametrench_identity/in_memory.py:663-690 | With a complete index a password verifies for a user and credential iff that credential is ACTIVE, has the identifier, belongs to the user and its hash was made from that password of at most 1024 bytes. |
| `IdentityTheorems.RotationHandsOver` | src/flametrench_identity/in_memory.py:505-540 | After `rotate_password` exactly the new password verifies for the identifier, for the new credential, which links to the old one, now REVOKED. |
| `IdentityTheorems.PasswordRefused` | src/flametrench_identity/in_memory.py:663-690 | A password that is not accepted raises ValueError when it has more than 1024 bytes and InvalidCredential otherwise. |
| `IdentityTheorems.CreatedPasswordVerifies` | src/flametrench_identity/in_memory.py:404-425 | After a creation exactly the password given verifies under the identifier, for the new credential, and every other attempt is refused; what verifies under other identifiers is as before. |
| `Lifetimes.PasswordLife` | src/flametrench_identity/in_memory.py:404-690 | On every run without the call that drops a foreign index entry, that password, and it alone, verifies for the credential exactly while the credential is ACTIVE. |
| `Lifetimes.SecretsLastUntilRevoked` | src/flametrench_identity/in_memory.py:404-661 | On every run a credential keeps its record but for status and time of update, and its password hash and public key, until it is REVOKED. |
| `Fates.NewCredentialIsStored` | src/flametrench_identity/in_memory.py:404-614 | A creation or rotation that succeeds stores the record with the arguments given, or with user and identifier of the old credential and the link to it, the hash of the password or the public key given, and the index entry. |
| `Fates.CredentialFollowsFate` | src/flametrench_identity/in_memory.py:382-661 | What an operation makes of a credential and its secrets depends only on the record, on whether its key is free (for a reinstatement) and on whether its owner is REVOKED (for `revoke_user`); status and time of update change as the status table says, and only a rotation removes a secret. |
| `IdentityTheorems.LineageIsConstant` | src/flametrench_identity/in_memory.py:505-614 | `replaces` links are well-founded; along a lineage user, type and identifier are those of its first credential. |
| `IdentityTheorems.OneUnrevokedCredentialPerLineage` | src/flametrench_identity/in_memory.py:505-614 | A lineage has at most one member that is not REVOKED. |
| `Lineage.LineageIsChain` | src/flametrench_identity/in_memory.py:505-614 | Links under which every record has one successor at most form chains: of two records with the same root one descends from the other. |
| `Lineage.OneUnreplacedRecord` | src/flametrench_identity/in_memory.py:505-614 | Such a chain has one unreplaced record at most. |
| `Lineage.RootIsStable` | src/flametrench_identity/in_memory.py:505-614 | Later records and links leave the roots of earlier ones as they were. |
| `IdentityOperations.CreateUserKeeps` | src/flametrench_identity/in_memory.py:268-278 | Keeps the invariant of users, credentials, sessions and indexes on every path and undoes nothing. |
| `IdentityOperations.UpdateUserKeeps` | src/flametrench_identity/in_memory.py:283-316 | A REVOKED user is never touched. Keeps the invariant of users, credentials, sessions and indexes on every path and undoes nothing. |
| `IdentityOperations.SuspendUserKeeps` | src/flametrench_identity/in_memory.py:359-369 | The cascade reaches every live session of the user, so all live sessions stay backed. Keeps the invariant of users, credentials, sessions and indexes on every path and undoes nothing. |
| `IdentityOperations.ReinstateUserKeeps` | src/flametrench_identity/in_memory.py:371-380 | No session of the user is live, so none becomes wrongly backed. Keeps the invariant of users, credentials, sessions and indexes on every path and undoes nothing. |
| `IdentityOperations.RevokeUserKeeps` | src/flametrench_identity/in_memory.py:382-400 | The cascades leave no live session on the revoked user or on a revoked credential, and no index entry on one. Keeps the invariant of users, credentials, sessions and indexes on every path and undoes nothing. |
| `IdentityOperations.CreateCredentialKeeps` | src/flametrench_identity/in_memory.py:404-487 | The new index entry names an ACTIVE credential with that key, and its secret is stored. Keeps the invariant of users, credentials, sessions and indexes on every path and undoes nothing. |
| `IdentityOperations.RotateCredentialKeeps` | src/flametrench_identity/in_memory.py:505-614 | The link added keeps user, type and identifier and branches no lineage, also when the new password is refused. Keeps the invariant of users, credentials, sessions and indexes on every path and undoes nothing. |
| `IdentityOperations.SuspendCredentialKeeps` | src/flametrench_identity/in_memory.py:616-630 | Dropping the key and the sessions leaves no entry and no live session on a credential that is not ACTIVE. Keeps the invariant of users, credentials, sessions and indexes on every path and undoes nothing. |
| `IdentityOperations.ReinstateCredentialKeeps` | src/flametrench_identity/in_memory.py:632-648 | The credential takes a free key and finds its secret still stored. Keeps the invariant of users, credentials, sessions and indexes on every path and undoes nothing. |
| `IdentityOperations.RevokeCredentialKeeps` | src/flametrench_identity/in_memory.py:650-661 | What is left in the index is still sound, even when the entry dropped was of another credential. Keeps the invariant of users, credentials, sessions and indexes on every path and undoes nothing. |
| `IdentityOperations.CreateSessionKeeps` | src/flametrench_identity/in_memory.py:697-734 | The session is backed, has at least 60 s, and its fresh token keeps the token maps inverse. Keeps the invariant of users, credentials, sessions and indexes on every path and undoes nothing. |
| `IdentityOperations.RefreshSessionKeeps` | src/flametrench_identity/in_memory.py:778-805 | The new session is backed although nothing is checked, and the link added branches no chain. Keeps the invariant of users, credentials, sessions and indexes on every path and undoes nothing. |
| `IdentityOperations.RevokeSessionKeeps` | src/flametrench_identity/in_memory.py:807-817 | Both token entries go with the session. Keeps the invariant of users, credentials, sessions and indexes on every path and undoes nothing. |
| `MfaOperations.EnrollTotpKeeps` | src/flametrench_identity/in_memory.py:857-891 | A PENDING factor holds no slot. Keeps the invariant of factors, secrets, slots, listings, recovery slots and accepted counts on every path. |
| `MfaOperations.EnrollWebAuthnKeeps` | src/flametrench_identity/in_memory.py:893-941 | The listing stays exact, one factor per credential id. Keeps the invariant of factors, secrets, slots, listings, recovery slots and accepted counts on every path. |
| `MfaOperations.EnrollRecoveryKeeps` | src/flametrench_identity/in_memory.py:943-971 | The slot names the ACTIVE recovery factor of the user, with ten valid codes, and `remaining` counts the unconsumed ones. Keeps the invariant of factors, secrets, slots, listings, recovery slots and accepted counts on every path. |
| `MfaOperations.ConfirmTotpKeeps` | src/flametrench_identity/in_memory.py:981-1007 | Whoever holds the slot afterwards is ACTIVE, of that user and has a secret. Keeps the invariant of factors, secrets, slots, listings, recovery slots and accepted counts on every path. |
| `MfaOperations.ConfirmWebAuthnKeeps` | src/flametrench_identity/in_memory.py:1009-1055 | The accepted count extends the increasing history and is the stored one. Keeps the invariant of factors, secrets, slots, listings, recovery slots and accepted counts on every path. |
| `MfaOperations.RevokeFactorKeeps` | src/flametrench_identity/in_memory.py:1057-1071 | No slot and no listing is left on a REVOKED factor. Keeps the invariant of factors, secrets, slots, listings, recovery slots and accepted counts on every path. |
| `MfaOperations.VerifyWebAuthnKeeps` | src/flametrench_identity/in_memory.py:1103-1149 | The accepted count extends the increasing history and is the stored one. Keeps the invariant of factors, secrets, slots, listings, recovery slots and accepted counts on every path. |
| `MfaOperations.VerifyRecoveryKeeps` | src/flametrench_identity/in_memory.py:1151-1191 | `remaining` counts the unconsumed slots, and the codes spent are, with multiplicity, those of the consumed ones. Keeps the invariant of factors, secrets, slots, listings, recovery slots and accepted counts on every path. |
| `PatInvariants.CreatePatKeeps` | src/flametrench_identity/in_memory.py:1273-1309 | The hash stored is of a 43-character secret, and `last_used_at` agrees with its coalescing entry. Keeps the invariant of the token records on every path. |
| `PatInvariants.VerifyPatTokenKeeps` | src/flametrench_identity/in_memory.py:1341-1399 | `last_used_at` stays equal to its coalescing entry, and recorded uses are at least 60 s apart. Keeps the invariant of the token records on every path. |
| `PatInvariants.RevokePatKeeps` | src/flametrench_identity/in_memory.py:1401-1421 | REVOKED and `revoked_at` are set together. Keeps the invariant of the token records on every path. |
| `PatInvariants.RevokePatsOfUserKeeps` | src/flametrench_identity/in_memory.py:196-210 | REVOKED and `revoked_at` are set together in the cascade as well. Keeps the invariant of the token records on every path. |
| `Mfa.SingletonKeysAreInjective` | src/flametrench_identity/in_memory.py:843-855 | Slot keys of different users or different types differ, whatever the user ids contain. |
| `MfaTheorems.VerifiedFactorIsActive` | src/flametrench_identity/in_memory.py:1073-1191 | A successful `verify_mfa` names an ACTIVE factor of the type of the proof that belongs to the user, although `_verify_totp` never looks at the factor; and no dictionary lookup on the way fails. |
| `RunTheorems.NoLookupFails` | src/flametrench_identity/in_memory.py:118-1421 | In no reachable state does any operation raise KeyError for a missing index entry, secret or slot list. |
| `MfaTheorems.RecoveryAcceptsExactlyTheUnspent` | src/flametrench_identity/in_memory.py:1151-1191 | With an ACTIVE recovery factor a code verifies iff, normalized, it was issued more often than it has been used; otherwise InvalidCredential is raised. |
| `MfaTheorems.TypedIssuedCodeVerifies` | src/flametrench_identity/mfa.py:369-375 | An issued code verifies while a copy of it is unspent, in any mixture of upper and lower case and between any blanks. |
| `RunHistory.RunSpends` | src/flametrench_identity/in_memory.py:1151-1191 | Along every run the codes recorded as spent grow by exactly the normalized codes of the `verify_mfa` operations of the run that succeed for the factor with a recovery proof. |
| `RunHistory.RunStores` | src/flametrench_identity/in_memory.py:943-971 | Along every run the codes behind the stored hashes of a factor grow by exactly the codes given to its `enroll_recovery` operation. |
| `RunHistory.RecoveriesAndRemainingMakeTen` | src/flametrench_identity/in_memory.py:943-971 | On every run from the empty store, its enrollment gave a recovery factor ten codes; the number of successful recoveries against it plus `remaining` is ten; and their codes are, with multiplicity, among the ten. |
| `RunHistory.RecoveryOnRun` | src/flametrench_identity/in_memory.py:1151-1191 | After every run a code verifies against an ACTIVE recovery factor iff, normalized, its enrollment issued it more often than it has been accepted on the run; otherwise InvalidCredential is raised. |
| `MfaTheorems.EnrolledCodesVerify` | src/flametrench_identity/in_memory.py:943-971 | Right after an enrollment a code verifies iff, normalized, it is one of the codes handed out. |
| `FactorFates.FactorFollowsFate` | src/flametrench_identity/in_memory.py:857-1191 | A factor changes only by an operation that succeeds and confirms or revokes it or verifies against it: status and time of update, the sign count of the assertion, or one less `remaining`. |
| `FactorFates.TotpFactorLife` | src/flametrench_identity/in_memory.py:857-1101 | On every run after its enrollment a TOTP factor accepts for its user exactly the current codes of the secret it was enrolled with, while it is in its slot, which with complete slots is while it is ACTIVE. |
| `FactorFates.WebAuthnFactorLife` | src/flametrench_identity/in_memory.py:893-1149 | On every run after its enrollment an ACTIVE WebAuthn factor accepts under its credential id exactly the assertions that the verifier accepts with the key and relying party of its registration and the last count accepted on the run, or the count of the registration. |
| `FactorFates.ReturnedFactors` | src/flametrench_identity/in_memory.py:981-1071 | Confirmation and revocation return the factor as it is stored afterwards. |
| `MfaTheorems.TotpVerifiesExactly` | src/flametrench_identity/in_memory.py:1089-1101 | A TOTP code is accepted for a factor iff the factor is in the slot of the user and the code is a current one for its secret. |
| `MfaTheorems.AssertionVerifiesExactly` | src/flametrench_identity/in_memory.py:1103-1149 | With an ACTIVE WebAuthn factor of the user under the credential id, the outcome is that of the verifier with its stored key, count and relying party; without one InvalidCredential is raised. |
| `MfaTheorems.RecoverySlotIsTheQuery` | src/flametrench_identity/postgres.py:1402-1420 | The recovery slot of a user is exactly the row the Postgres query selects: the ACTIVE recovery factor, one per user at most. |
| `MfaTheorems.TotpSlotIsTheQueryExactlyWhenComplete` | src/flametrench_identity/postgres.py:1338-1347 | Every ACTIVE TOTP factor is in its slot iff, for every user and factor, the slot of the user names the factor exactly when the Postgres query selects it; then the query selects one row at most. |
| `MfaTheorems.CheckTotpExactly` | src/flametrench_identity/mfa.py:266-305 | The code check of the store passes iff t is at least 30 s and the six digits are the RFC 4226 code of the half minute of t or of one next to it; it raises StructError for six digits before 30 s or at the end of the 64-bit counters, and InvalidCredential otherwise. |
| `MfaTheorems.ConfirmKeepsSlotsExactlyWhenFree` | src/flametrench_identity/in_memory.py:981-1007 | `confirm_totp_factor` keeps every ACTIVE TOTP factor in its slot iff it is not called for a PENDING TOTP factor that has not expired, with a passing code, while the slot of its user is taken. |
| `MfaTheorems.RevocationKeepsSlotsExactlyWhenOwn` | src/flametrench_identity/in_memory.py:1057-1071 | `revoke_mfa_factor` does so iff it is not called on a PENDING TOTP factor while the slot of its user is taken, which empties the slot under the other factor. |
| `RunTheorems.StepKeepsTotpSlotsExactly` | src/flametrench_identity/in_memory.py:857-1191 | Among all operations and inputs those two calls are the only ones after which an ACTIVE TOTP factor is without its slot. |
| `RunTheorems.RunKeepsTotpSlots` | src/flametrench_identity/in_memory.py:857-1191 | On runs without such calls every ACTIVE TOTP factor is in its slot, so a user has one at most. |
| `Counterexamples.TwoTotpFactorsAreActiveOnSomeRun` | src/flametrench_identity/in_memory.py:1006 | A concrete run of five operations after which two TOTP factors of one user are ACTIVE. |
| `Counterexamples.ActiveTotpFactorIsIgnoredOnSomeRun` | src/flametrench_identity/in_memory.py:1066 | A concrete run of five operations after which a TOTP factor is ACTIVE and its own current code is refused. |
| `RunHistory.RunAccepts` | src/flametrench_identity/in_memory.py:1009-1149 | Along every run the counts recorded as accepted grow by exactly the counts carried by the assertions with which a `confirm_webauthn_factor` or `verify_mfa` operation of the run succeeds for the factor. |
| `RunHistory.SignCountsAdvance` | src/flametrench_identity/webauthn.py:427-435 | On every run from the empty store those counts are zeros followed by a strictly increasing sequence, and the stored count is the last of them. |
| `WebAuthn.AcceptedAssertion` | src/flametrench_identity/webauthn.py:352-467 | An assertion is accepted with a count iff its client data has type webauthn.get, the expected origin and the expected challenge; its authenticator data has the hash of the registered relying party, both flags and that 32-bit count; the count is greater than the stored one, or both are zero; and the signature has the form of its algorithm and verifies with the registered, acceptable key over exactly these bytes. |
| `WebAuthn.RegressionExactly` | src/flametrench_identity/webauthn.py:427-435 | When client data, relying party and flags are right, counter_regression is raised iff the count is not greater than the stored one and not both are zero; and with a valid signature the assertion is accepted with its count iff it is greater or both are zero. |
| `WebAuthn.RefusedAssertion` | src/flametrench_identity/webauthn.py:391-425 | Which of the other errors is raised, each iff its check fails and the checks before it pass. |
| `WebAuthn.SignatureErrors` | src/flametrench_identity/webauthn.py:437-465 | The key is refused with its error when the bytes are no supported key, a supported key that the library refuses raises ValueError, and signature_invalid is raised iff the signature has the wrong form or does not verify. |
| `WebAuthn.ParsedKeyExactly` | src/flametrench_identity/webauthn.py:160-240 | COSE bytes are read as a key iff they decode to a map with the labels of that key: ES256 with two coordinates of 32 bytes, RS256 with a modulus of at least 2048 bits, EdDSA with 32 bytes on Ed25519. |
| `WebAuthn.KeyErrorExactly` | src/flametrench_identity/webauthn.py:160-240 | Bytes that are no such key are malformed when they are no map or when a byte string of a supported key is missing or has the wrong length, and unsupported otherwise. |
| `WebAuthn.ReplayIsRefusedExactlyWhenCounted` | src/flametrench_identity/webauthn.py:427-435 | Replaying an accepted assertion against the advanced count is refused as a regression iff its count is not zero. |
| `WebAuthn.AuthenticatorDataFields` | src/flametrench_identity/webauthn.py:332-338 | The parsed fields determine the first 37 bytes, and the count is a 32-bit number. |
| `WebAuthn.CoseKeyEs256RoundTrip` | src/flametrench_identity/webauthn.py:472-494 | `cose_key_es256` succeeds iff both coordinates have 32 bytes; its output decodes to {1: 2, 3: -7, -1: 1, -2: x, -3: y} and the ES256 parser recovers x and y. |
| `Cbor.BigEndianRoundTrip` | src/flametrench_identity/webauthn.py:277-288 | Unpacking a packed number returns it, for every width. |
| `Cbor.BigEndianOnto` | src/flametrench_identity/webauthn.py:277-288 | Packing an unpacked number returns the bytes, for every width, and the number fits the width. |
| `Cbor.HeadRoundTrip` | src/flametrench_identity/webauthn.py:277-293 | An encoded head is read back in each of the five length widths, wherever it stands. |
| `Cbor.DecodeEncode` | src/flametrench_identity/webauthn.py:265-311 | For every nested item of integers, byte strings and integer-keyed maps and every legal choice of length widths, decoding its encoding followed by any suffix returns its value (the last duplicate key wins) and consumes exactly the encoding. |
| `Cbor.DecodeSound` | src/flametrench_identity/webauthn.py:265-311 | Conversely, whatever the decoder accepts is the encoding of such an item with the value returned. |
| `Cbor.DecodeMapExact` | src/flametrench_identity/webauthn.py:243-262 | `_decode_cbor_map` returns a map iff the whole buffer is an encoding of it. |
| `Cbor.CborDecoder.Read` | src/flametrench_identity/webauthn.py:270-275 | Returns the next n bytes and moves the offset past them, or raises without moving it when they are not there. |
| `Cbor.CborDecoder.ReadUintAt` | src/flametrench_identity/webauthn.py:277-288 | Reads the number announced by the additional information, as the function on the buffer does, and moves the offset accordingly. |
| `Cbor.CborDecoder.DecodeItem` | src/flametrench_identity/webauthn.py:290-311 | The recursive decoder with its moving offset returns what the function on the buffer returns and ends at its end; it terminates on every buffer, the offset never passes the end, and the calls made are at most the bytes consumed, plus one when it raises. |
| `Cbor.DecodeCborMap` | src/flametrench_identity/webauthn.py:243-262 | The whole decoding agrees with the function and makes at most len(buf) + 1 calls, whatever lengths the buffer claims. |
| `Totp.FormatIsExact` | src/flametrench_identity/mfa.py:263 | The output has exactly `digits` decimal digits and spells the number modulo 10^digits. |
| `Totp.FormatEqualIffCongruent` | src/flametrench_identity/mfa.py:263 | Equality of two codes as strings is congruence modulo 10^digits. |
| `Totp.TruncateIsDynamicNumber` | src/flametrench_identity/mfa.py:260-262 | The truncated number of a digest is that of section 5.3 of RFC 4226, written out byte by byte from the offset in the low half of the last byte. |
| `Totp.MessageIsPacked` | src/flametrench_identity/mfa.py:258 | The counter is packed into the eight bytes of the number, the highest first. |
| `Totp.MatchesExactlyTheCode` | src/flametrench_identity/mfa.py:257-263 | A candidate is the computed code of a counter iff it has the right number of digits and they spell the truncated number of the HMAC, with the secret as key and the counter as message, modulo the power of ten. |
| `Totp.Rfc4226Example` | src/flametrench_identity/mfa.py:260-263 | The digest of section 5.4 of RFC 4226 truncates to 0x50ef7f19, whose code is 872921. |
| `Totp.VerifyAcceptsExactlyTheWindow` | src/flametrench_identity/mfa.py:266-305 | The outcome of `totp_verify` for every input: which error is raised when, and otherwise acceptance iff the candidate is the RFC 4226 code of a counter in [t//p - d, t//p + d]. |
| `Totp.CodesAreShaped` | src/flametrench_identity/mfa.py:293-294 | Every code has `digits` decimal digits, so the shape check rejects no code. |
| `Totp.CounterIsAcceptedForOneInterval` | src/flametrench_identity/mfa.py:295-296 | The times at which a counter is within the drift form one interval of exactly (2d + 1) * p seconds. |
| `Totp.CodeIsAcceptedThroughout` | src/flametrench_identity/mfa.py:266-305 | The code of a counter is accepted throughout that interval, from the end of the first d windows of the epoch on. |
| `Recovery.ValidIsCanonical` | src/flametrench_identity/mfa.py:378-404 | The check by `split` accepts exactly the positional form XXXX-XXXX-XXXX over the alphabet. |
| `Recovery.AlphabetExactly` | src/flametrench_identity/mfa.py:351 | The alphabet is the upper case letters and digits without I, L, O, 0 and 1. |
| `Recovery.JoinSplit` | src/flametrench_identity/mfa.py:392 | Joining the parts of `split("-")` gives the string back. |
| `Recovery.GeneratedIsValid` | src/flametrench_identity/mfa.py:356-361 | Every generated code passes the check. |
| `Recovery.TypedCodeNormalizes` | src/flametrench_identity/mfa.py:369-375 | Normalization maps every mixture of cases of a valid code, between any blanks, to the code. |
| `Recovery.ValidIsNormal` | src/flametrench_identity/mfa.py:369-375 | Normalization leaves a valid code alone. |
| `PatToken.DecodeEncode` | src/flametrench_identity/in_memory.py:1294 | Unpadded base64url (section 5 of RFC 4648) loses nothing. |
| `PatToken.AlphabetInOrder` | src/flametrench_identity/in_memory.py:1294 | The 64 characters of base64url in the order of table 2 of RFC 4648, and no others. |
| `PatToken.EncodedGroups` | src/flametrench_identity/in_memory.py:1294 | Character by character the encoding of every three bytes is the four digits of their 24-bit number to the base 64, with zeros filled up at the end. |
| `PatToken.StructurallyValidExactly` | src/flametrench_identity/types.py:215-224 | The structural check accepts exactly "pat_", 32 lower case hexadecimal digits, an underscore, one or more characters of the alphabet, and possibly a newline. |
| `PatToken.StructurallyValidParts` | src/flametrench_identity/types.py:215-224 | Every structurally valid token splits by position into an identifier, an underscore and the rest; the rest is a secret iff it does not end in the newline that `$` lets through. |
| `PatToken.MintedToken` | src/flametrench_identity/in_memory.py:1292-1296 | A token minted from 32 random bytes has a 43-character secret, passes the structural check, and its positional split returns the identifier, the secret and the bytes, even when the secret contains an underscore. |
| `PatToken.TokensAreDistinct` | src/flametrench_identity/in_memory.py:1292-1296 | Two minted tokens are equal iff identifier and random bytes are. |
| `PatInvariants.VerifiesExactlyLiveTokens` | src/flametrench_identity/in_memory.py:1341-1399 | `verify_pat_token` accepts exactly the minted tokens of records that are neither revoked nor expired. |
| `PatInvariants.TokenVerifiesWhileLive` | src/flametrench_identity/in_memory.py:1341-1399 | The one token of a record verifies iff the record is neither revoked nor expired. |
| `PatInvariants.CreatedTokenVerifies` | src/flametrench_identity/in_memory.py:1273-1309 | The token that `create_pat` hands out verifies in every later state iff its record is not revoked and now < expires_at. |
| `Fates.PatFollowsFate` | src/flametrench_identity/in_memory.py:196-210 | The record of a token changes only by its revocation, by the revocation of an owner that is not REVOKED yet, and by a verification of its token that finds no use in the last 60 s. |
| `Lifetimes.PatTokenLife` | src/flametrench_identity/in_memory.py:1273-1421 | From its creation on, on every run, a token verifies, with the user and the scope given, until it expires, iff no operation of the run revokes it or its owner; then it raises PatRevoked, after the expiry PatExpired. |
| `PatInvariants.ReturnedPats` | src/flametrench_identity/in_memory.py:1273-1421 | `create_pat` returns the stored record and the token of the stored hash; `revoke_pat` returns the stored record. |
| `PatInvariants.TokenOutcome` | src/flametrench_identity/in_memory.py:1341-1399 | The outcome for the token of a record: PatRevoked, PatExpired, or its user and scope. |
| `PatInvariants.UseIsFresh` | src/flametrench_identity/in_memory.py:1380-1399 | After a successful verification at time now, now - last_used_at is under 60 s. |
| `Like.EscapeIsCharacterWise` | src/flametrench_identity/postgres.py:418-420 | The three successive replacements put one backslash before every special character and change nothing else. |
| `Like.ILikeIsSubstring` | src/flametrench_identity/postgres.py:409-421 | ILIKE with the escaped query between two percent signs accepts an identifier iff the query is a substring of it up to case, for every query. |
| `Pagination.InMemoryPageIsRowScan` | src/flametrench_identity/postgres.py:422-430 | Slicing the sorted list in memory gives the page and the cursor of the LIMIT n + 1 query, for every cursor and limit >= 1. |
| `Pagination.PageByEqualityIsRowScan` | src/flametrench_identity/in_memory.py:1326-1339 | While its cursor names a listed item, looking the cursor up by equality gives the page of the scan. |
| `Pagination.PageContents` | src/flametrench_identity/postgres.py:422-430 | A page holds, in order, exactly the items after the cursor up to the next cursor, or all of them when there is none. |
| `Pagination.WalkIncreases` | src/flametrench_identity/in_memory.py:346-357 | Along a walk, whatever happens between the fetches, keys strictly increase, so nothing appears twice. |
| `Pagination.WalkCoversPersistentItems` | src/flametrench_identity/in_memory.py:346-357 | A walk that reaches its end delivers every item that matched at each of its fetches. |
| `Pagination.FixedWalk` | src/flametrench_identity/in_memory.py:346-357 | On a fixed set a walk ends after at most one fetch more than there are items, and its pages concatenate to the full sorted list. |
| `Pagination.StringLessExactly` | src/flametrench_identity/in_memory.py:346-352 | One id is before another iff it is a proper prefix of it or smaller at the first difference. |
| `Listings.UserPageExactly` | src/flametrench_identity/in_memory.py:318-357 | A page of `list_users` holds, by id, the first users after the cursor that have the status and an ACTIVE credential whose identifier contains the query up to case, as many as the limit between 1 and 200, and a cursor iff more are left. |
| `Listings.SessionPageExactly` | src/flametrench_identity/in_memory.py:739-761 | A page of `list_sessions_for_user` holds, by id, the first sessions of the user after the cursor, revoked ones too, as many as the limit, and a cursor iff more are left. |
| `Listings.PatPageExactly` | src/flametrench_identity/in_memory.py:1317-1339 | A page of `list_pats_for_user` holds, by creation and id, the first tokens of the user after the one the cursor names, or from the start when it names none, as many as the limit or 50, and a cursor iff more are left. |
| `Listings.BothStoresListTheSameUsers` | src/flametrench_identity/postgres.py:388-430 | For the same rows `list_users` returns the same page and the same cursor in both stores, for every query, status and limit and every cursor that Postgres can decode, as all cursors handed out can be. |
| `Listings.UserPagesAreWalk` | src/flametrench_identity/in_memory.py:318-357 | The pages of a client that passes each `next_cursor` of `list_users` back are those of the walk by order. |
| `Listings.UserWalk` | src/flametrench_identity/in_memory.py:318-357 | Along those pages, over stores that change arbitrarily, no user appears twice, and in a walk that ends every user that matched at each fetch appears. |
| `Listings.FixedUserWalk` | src/flametrench_identity/in_memory.py:318-357 | On a store that does not change the walk ends and its pages concatenate to all matching users, sorted. |
| `Listings.SessionPagesAreWalk` | src/flametrench_identity/in_memory.py:739-761 | The same for `list_sessions_for_user`, for every limit of at least 1. |
| `Listings.SessionWalk` | src/flametrench_identity/in_memory.py:739-761 | Along those pages, while the store evolves, no session appears twice, and in a walk that ends every session there at the start appears. |
| `Listings.FixedSessionWalk` | src/flametrench_identity/in_memory.py:739-761 | On a store that does not change the walk ends and lists all sessions of the user, sorted. |
| `Listings.WalkByEqualityIsWalk` | src/flametrench_identity/in_memory.py:1317-1339 | On sets of keys that only grow, the walk that looks its cursor up by equality is the walk by order. |
| `Listings.PatPagesAreOrdered` | src/flametrench_identity/in_memory.py:1317-1339 | As token records are never deleted, following the cursors of `list_pats_for_user` is such a walk, with any limit. |
| `Listings.PatWalk` | src/flametrench_identity/in_memory.py:1317-1339 | Along those pages, while the store evolves, no token appears twice, and in a walk that ends every token there at the start appears. |
| `Listings.FixedPatWalk` | src/flametrench_identity/in_memory.py:1317-1339 | On a store that does not change the walk ends and lists all tokens of the user in order of creation. |
| `Counterexamples.SessionsAreCutOffInPostgres` | src/flametrench_identity/postgres.py:953-969 | With 202 sessions and limit 201 the walk of the in-memory store ends with all 202; the walk of the Postgres store ends without the last one. |
| `Listings.BothStoresListTheSameSessionsExactly` | src/flametrench_identity/postgres.py:953-969 | The two session pages are equal iff the limit is at most 200 or at most 201 sessions are left; a larger limit gets no cursor from Postgres. |
| `Listings.PostgresSessionPagesWithin` | src/flametrench_identity/postgres.py:953-969 | Up to a limit of 200, following the cursors gives the same pages from both stores while they change alike. |
| `Listings.PostgresListsAllSessionsExactly` | src/flametrench_identity/postgres.py:953-969 | On a store that does not change the Postgres walk ends, and lists all sessions of the user iff the limit is at most 200 or at most 201 sessions exist. |
| `Store.InMemoryIdentityStore.constructor` | src/flametrench_identity/in_memory.py:123-149 | A new store is the empty state and satisfies the invariant. |
| `Store.InMemoryIdentityStore.RevokeStored` | src/flametrench_identity/in_memory.py:181-185 | Stamping one session and popping its two token entries in place is the revocation of that session. |
| `Store.InMemoryIdentityStore.CascadeRevokeSessionsForCredential` | src/flametrench_identity/in_memory.py:178-185 | The loop over all sessions, in whatever order, revokes exactly the live sessions of the credential. |
| `Store.InMemoryIdentityStore.CascadeRevokeSessionsForUser` | src/flametrench_identity/in_memory.py:187-194 | The loop revokes exactly the live sessions of the user. |
| `Store.InMemoryIdentityStore.CascadeRevokeCredentials` | src/flametrench_identity/in_memory.py:387-395 | The loop revokes exactly the ACTIVE credentials of the user and drops exactly their keys. |
| `Store.InMemoryIdentityStore.CascadeRevokePats` | src/flametrench_identity/in_memory.py:196-210 | The loop revokes exactly the unrevoked tokens of the user. |
| `Store.InMemoryIdentityStore.CreateUser` | src/flametrench_identity/in_memory.py:268-278 | Stores a new ACTIVE user under the id drawn. Result and whole new state are those of the specification function. |
| `Store.InMemoryIdentityStore.UpdateUser` | src/flametrench_identity/in_memory.py:283-316 | Changes the name and the time of update of a user that is not REVOKED; an omitted or equal name changes nothing; otherwise raises NotFound or AlreadyTerminal. Result and whole new state are those of the specification function. |
| `Store.InMemoryIdentityStore.SuspendUser` | src/flametrench_identity/in_memory.py:359-369 | Suspends an ACTIVE user and revokes exactly its live sessions; a SUSPENDED user is returned unchanged; otherwise raises. Result and whole new state are those of the specification function. |
| `Store.InMemoryIdentityStore.ReinstateUser` | src/flametrench_identity/in_memory.py:371-380 | Makes a SUSPENDED user ACTIVE; every other status raises invalid_transition. Result and whole new state are those of the specification function. |
| `Store.InMemoryIdentityStore.RevokeUser` | src/flametrench_identity/in_memory.py:382-400 | Revokes the user, its ACTIVE credentials with their index entries, its live sessions and its unrevoked tokens, and nothing else. Result and whole new state are those of the specification function. |
| `Store.InMemoryIdentityStore.CreateCredential` | src/flametrench_identity/in_memory.py:404-487 | Refuses in the order of the code (missing user, user not ACTIVE, key taken, password too long) and otherwise stores credential, secret and index entry. Result and whole new state are those of the specification function. |
| `Store.InMemoryIdentityStore.RotateCredential` | src/flametrench_identity/in_memory.py:505-614 | Revokes the old credential, its secret, entry and sessions, then stores the successor with its link; a password that is too long raises after the first half. Result and whole new state are those of the specification function. |
| `Store.InMemoryIdentityStore.SuspendCredential` | src/flametrench_identity/in_memory.py:616-630 | Suspends an ACTIVE credential, drops its key and revokes exactly its live sessions. Result and whole new state are those of the specification function. |
| `Store.InMemoryIdentityStore.ReinstateCredential` | src/flametrench_identity/in_memory.py:632-648 | Makes a SUSPENDED credential ACTIVE and lists it, unless its key is taken. Result and whole new state are those of the specification function. |
| `Store.InMemoryIdentityStore.RevokeCredential` | src/flametrench_identity/in_memory.py:650-661 | Revokes a credential that is not REVOKED, drops its key whoever holds it, and revokes exactly its live sessions. Result and whole new state are those of the specification function. |
| `Store.InMemoryIdentityStore.CreateSession` | src/flametrench_identity/in_memory.py:697-734 | Refuses in the order of the code and otherwise issues a session and its token. Result and whole new state are those of the specification function. |
| `Store.InMemoryIdentityStore.RefreshSession` | src/flametrench_identity/in_memory.py:778-805 | Revokes a live, unexpired session and issues one with the same user, credential and time to live. Result and whole new state are those of the specification function. |
| `Store.InMemoryIdentityStore.RevokeSession` | src/flametrench_identity/in_memory.py:807-817 | Revokes a live session and forgets its token; a revoked one is returned unchanged. Result and whole new state are those of the specification function. |
| `Store.InMemoryIdentityStore.EnrollTotp` | src/flametrench_identity/in_memory.py:857-891 | Stores a PENDING factor and its secret, unless the user is not ACTIVE or the slot is taken. Result and whole new state are those of the specification function. |
| `Store.InMemoryIdentityStore.EnrollWebAuthn` | src/flametrench_identity/in_memory.py:893-941 | Stores a PENDING factor with its key and lists it at once, unless the credential id is listed. Result and whole new state are those of the specification function. |
| `Store.InMemoryIdentityStore.EnrollRecovery` | src/flametrench_identity/in_memory.py:943-971 | Stores an ACTIVE factor with ten unconsumed hashes and takes the slot, unless it is taken. Result and whole new state are those of the specification function. |
| `Store.InMemoryIdentityStore.ConfirmTotp` | src/flametrench_identity/in_memory.py:981-1007 | Activates a PENDING, unexpired TOTP factor on a passing code and takes the slot, whoever holds it. Result and whole new state are those of the specification function. |
| `Store.InMemoryIdentityStore.ConfirmWebAuthn` | src/flametrench_identity/in_memory.py:1009-1055 | Activates a PENDING, unexpired WebAuthn factor on an accepted assertion and stores its count, which is greater than the stored one or zero like it. Result and whole new state are those of the specification function. |
| `Store.InMemoryIdentityStore.RevokeFactor` | src/flametrench_identity/in_memory.py:1057-1071 | Revokes a factor and drops its slot or its listing, whoever holds the slot. Result and whole new state are those of the specification function. |
| `Store.InMemoryIdentityStore.VerifyMfa` | src/flametrench_identity/in_memory.py:1073-1087 | Dispatches on the proof; the state changes only by a stored count or a consumed slot. Result and whole new state are those of the specification function. |
| `Store.InMemoryIdentityStore.CreatePat` | src/flametrench_identity/in_memory.py:1273-1309 | Refuses in the order of the code and otherwise stores record and hash and returns the token. Result and whole new state are those of the specification function. |
| `Store.InMemoryIdentityStore.VerifyPatToken` | src/flametrench_identity/in_memory.py:1341-1399 | Refuses in the order of the code; an accepted token moves `last_used_at` only when the recorded use is a minute old. Result and whole new state are those of the specification function. |
| `Store.InMemoryIdentityStore.RevokePat` | src/flametrench_identity/in_memory.py:1401-1421 | Revokes an unrevoked record; a revoked one is returned unchanged. Result and whole new state are those of the specification function. |
| `Store.InMemoryIdentityStore.Perform` | src/flametrench_identity/in_memory.py:118-1421 | Whatever of the 23 operations a caller performs on the store, state and error are those of the step of the machine, and the whole invariant is kept. |
| `Store.InMemoryIdentityStore.PerformAll` | src/flametrench_identity/in_memory.py:118-1421 | Whatever sequence of them, the state is that of the run, so the theorems about runs are about the class. |
| `Store.InMemoryIdentityStore.FindCredential` | src/flametrench_identity/in_memory.py:495-503 | What is found is an ACTIVE credential of that type and identifier, the lookup never raises, and with a complete index nothing is found only if there is none. |
| `Store.InMemoryIdentityStore.VerifyPassword` | src/flametrench_identity/in_memory.py:663-690 | Acceptance names an ACTIVE password credential with that identifier, its user, and a hash made from the password; with a complete index there is acceptance iff there is one. |
| `Store.InMemoryIdentityStore.VerifySessionToken` | src/flametrench_identity/in_memory.py:763-776 | Accepted iff the token was issued, its session is unrevoked and not expired; the session is that one; SessionExpired is raised iff it is unrevoked but expired, InvalidToken otherwise. |
| `Store.InMemoryIdentityStore.VerifyTotp` | src/flametrench_identity/in_memory.py:1089-1101 | Acceptance for a factor iff it is in the slot of the user and the code is a current one for its stored secret; it is then an ACTIVE TOTP factor of the user; no lookup fails. |
| `Store.InMemoryIdentityStore.VerifyWebAuthn` | src/flametrench_identity/in_memory.py:1103-1149 | Success names a factor that was ACTIVE and of the user, whose stored count is smaller than the new one or zero like it, and stores exactly that count; no lookup fails and the invariant is kept. |
| `Store.InMemoryIdentityStore.VerifyRecovery` | src/flametrench_identity/in_memory.py:1151-1191 | Result and new state are those of the specification function: the first matching slot is consumed and `remaining` recounted. |
| `Store.InMemoryIdentityStore.MatchSlot` | src/flametrench_identity/in_memory.py:1163-1172 | The loop that visits every slot ends with the first unconsumed slot that verifies, or -1. |
| `Store.InMemoryIdentityStore.SelectUsers` | src/flametrench_identity/in_memory.py:326-344 | The nested loops select exactly the users with the status and with an ACTIVE credential that contains the needle. |
| `Store.InMemoryIdentityStore.ListUsers` | src/flametrench_identity/in_memory.py:318-357 | The page holds the stored users of the specified page, in its order, and its cursor. |
| `Store.InMemoryIdentityStore.ListSessions` | src/flametrench_identity/in_memory.py:739-761 | The page holds the stored sessions of the specified page, in its order, and its cursor. |
| `Store.InMemoryIdentityStore.ListPats` | src/flametrench_identity/in_memory.py:1317-1339 | Raises NotFound iff the user does not exist; otherwise the page holds the stored tokens of the specified page, in its order, and its cursor. |

## Left out

- Argon2id, SHA-256, HMAC, ECDSA, RSA and Ed25519, JSON and UTF-8 decoding: library code, abstract functions or free constructors here.
- Dummy hashes and constant-time comparison against timing attacks: they have no effect on results, except that a password over the cap raises ValueError, which is modelled.
- psycopg connections, transactions, isolation levels and row mappers; of the Postgres store only what its queries select, sequentially. Parity of all its errors is not claimed; `create_session` there checks the time to live first.
- Cursors that are no wire ids, on which `_wire_to_uuid` raises in Postgres while the in-memory lists compare them as strings.
- `list_sessions_for_user` in Postgres with a limit below 1, and the dictionaries' insertion order in lists that are not sorted.
- The three `create_*_credential` and the three `rotate_*` methods are one operation each, parameterised by what they are given; they differ in the secret that is stored.
- MFA policies and the `mfa_required` flag, `classify_bearer`, the plain getters and the unpaginated lists `list_credentials_for_user` and `list_mfa_factors`, the otpauth URI, the base32 secret and the texts of errors.
- `require_user_verified` and `require_user_present` of the assertion check have their default value, the only one the store uses; `aaguid` and `transports` are ignored there as here.
- Upper and lower case, white space and digits outside ASCII; the form of session tokens and of user ids, which nothing depends on.
- The leniency of Python's base64 decoder towards foreign characters: decoding the challenge is a library function. The encoder is modelled without the padding that the code strips again.
- Overflow of datetime, rounding of `timestamp()` to a float, Python's recursion limit: times are unbounded integers of microseconds.
- A number of TOTP digits below zero, which `totp_verify` answers with False.
- The status EXPIRED of a token, which the in-memory store never writes.
- The tables of the schema for organisations, memberships, invitations and tuples, which no code here uses.
- The order in which the loops over dictionaries visit them: the cascades and the user selection are proved for every order, and the selection collects a set because the code sorts next.
