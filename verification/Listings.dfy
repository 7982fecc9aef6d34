/** The three paginated listings: what the in-memory store returns, what the Postgres store
    returns for the same rows, and what a client sees that follows the cursors. */
module Listings {
  import opened Prelude
  import opened Pagination
  import Identity
  import IdentityInvariants
  import Like
  import Pats
  import PatInvariants
  import Recovery

  type Id = Identity.Id

  const MAX_LIMIT := 200

  // ----- Users -----

  function UserKeys(ids: set<Id>): set<Key> {
    set u | u in ids :: Key(0, u)
  }

  function CursorKey(cursor: Option<Id>): Option<Key> {
    if cursor.None? then None else Some(Key(0, cursor.value))
  }

  /** The test of the nested loop: some ACTIVE credential of the user contains the needle. */
  predicate HasHit(core: Identity.Core, u: Id, needle: string) {
    exists c :: c in core.creds && IsHit(core.creds[c], u, needle)
  }

  predicate IsHit(c: Identity.Credential, u: Id, needle: string) {
    c.usrId == u && c.status == Identity.Active && Like.Contains(Recovery.MapChars(Recovery.Lower, c.identifier),
        needle)
  }

  predicate MatchesUser(core: Identity.Core, u: Id, query: Option<string>, status: Option<Identity.Status>)
    requires u in core.users
  {
    && (status.None? || core.users[u].status == status.value)
    && (query.None? || HasHit(core, u, Recovery.MapChars(Recovery.Lower, query.value)))
  }

  function MatchingUsers(core: Identity.Core, query: Option<string>, status: Option<Identity.Status>): set<Id> {
    set u | u in core.users && MatchesUser(core, u, query, status)
  }

  function ClampLimit(limit: int): nat {
    Max(1, Min(limit, MAX_LIMIT))
  }

  /** `InMemoryIdentityStore.list_users`. */
  function ListUsers(core: Identity.Core, cursor: Option<Id>, limit: int, query: Option<string>,
                     status: Option<Identity.Status>)
    : Page
  {
    InMemoryPage(UserKeys(MatchingUsers(core, query, status)), CursorKey(cursor), ClampLimit(limit))
  }

  /** The WHERE clause of the Postgres query: EXISTS over credentials with ILIKE. */
  predicate SelectsUser(core: Identity.Core, u: Id, query: Option<string>, status: Option<Identity.Status>)
    requires u in core.users
  {
    && (status.None? || core.users[u].status == status.value)
    && (query.None? || exists c :: c in core.creds && SelectsCredential(core.creds[c], u, query.value))
  }

  predicate SelectsCredential(c: Identity.Credential, u: Id, query: string) {
    c.usrId == u && c.status == Identity.Active && Like.ILike("%" + Like.Escape(query) + "%", c.identifier)
  }

  function PostgresListUsers(core: Identity.Core, cursor: Option<Id>, limit: int, query: Option<string>,
                             status: Option<Identity.Status>): Page
  {
    RowScan(UserKeys(set u | u in core.users && SelectsUser(core, u, query, status)), CursorKey(cursor),
        ClampLimit(limit))
  }

  lemma SelectedExactlyWhenMatching(core: Identity.Core, u: Id, query: Option<string>, status: Option<Identity.Status>)
    requires u in core.users
    ensures SelectsUser(core, u, query, status) <==> MatchesUser(core, u, query, status)
  {
    hide Like.ILike, Like.Contains, Like.Escape;
    if query.Some? {
      var needle := Recovery.MapChars(Recovery.Lower, query.value);
      forall c | c in core.creds
        ensures SelectsCredential(core.creds[c], u, query.value) <==> IsHit(core.creds[c], u, needle)
      {
        Like.ILikeIsSubstring(query.value, core.creds[c].identifier);
      }
      hide SelectsCredential, IsHit;
    }
  }

  /** For the same rows both stores return the same page and the same cursor, for every query,
      status and limit, and for every cursor that Postgres can decode, that is, every wire id. */
  lemma BothStoresListTheSameUsers(core: Identity.Core, cursor: Option<Id>, limit: int, query: Option<string>,
                                   status: Option<Identity.Status>)
    ensures ListUsers(core, cursor, limit, query, status) == PostgresListUsers(core, cursor, limit, query, status)
  {
    forall u | u in core.users
      ensures SelectsUser(core, u, query, status) <==> MatchesUser(core, u, query, status)
    {
      SelectedExactlyWhenMatching(core, u, query, status);
    }
    hide SelectsUser, MatchesUser, RowScan, InMemoryPage;
    assert (set u | u in core.users && SelectsUser(core, u, query, status)) == MatchingUsers(core, query, status);
    InMemoryPageIsRowScan(UserKeys(MatchingUsers(core, query, status)), CursorKey(cursor), ClampLimit(limit));
  }

  /** The identifier contains the query, letters compared without regard to case. */
  predicate ContainsFolded(identifier: string, query: string) {
    exists k :: 0 <= k <= |identifier| && Like.FoldedPrefix(query, identifier[k..])
  }

  ghost predicate IsListedUser(core: Identity.Core, cursor: Option<Id>, query: Option<string>,
                               status: Option<Identity.Status>, u: Id)
  {
    && u in core.users
    && (cursor.None? || StringLess(cursor.value, u))
    && (status.None? || core.users[u].status == status.value)
    && (query.None? || exists c :: c in core.creds && IsFound(core.creds[c], u, query.value))
  }

  predicate IsFound(c: Identity.Credential, u: Id, query: string) {
    c.usrId == u && c.status == Identity.Active && ContainsFolded(c.identifier, query)
  }

  /** What a page of `list_users` holds: of the users whose id is after the cursor, that have the status,
      and with an ACTIVE credential whose identifier contains the query, the first ones by id, as many
      as the limit, which is at least 1 and at most 200. */
  lemma UserPageExactly(core: Identity.Core, cursor: Option<Id>, limit: int, query: Option<string>,
                        status: Option<Identity.Status>)
    ensures var rest := set u | u in core.users && IsListedUser(core, cursor, query, status, u) :: Key(0, u);
      IsPageOf(ListUsers(core, cursor, limit, query, status), rest,
               if limit < 1 then 1 else if limit > 200 then 200 else limit)
  {
    hide InMemoryPage, RowScan, IsPageOf, StringLess, MatchesUser, IsListedUser;
    var keys := UserKeys(MatchingUsers(core, query, status));
    InMemoryPageIsRowScan(keys, CursorKey(cursor), ClampLimit(limit));
    RowScanIsPage(keys, CursorKey(cursor), ClampLimit(limit));
    forall u | u in core.users
      ensures IsListedUser(core, cursor, query, status, u)
         <==> MatchesUser(core, u, query, status) && (cursor.None? || StringLess(cursor.value, u))
    {
      ListedExactly(core, cursor, query, status, u);
    }
    assert After(keys, CursorKey(cursor))
      == set u | u in core.users && IsListedUser(core, cursor, query, status, u) :: Key(0, u);
  }

  lemma ListedExactly(core: Identity.Core, cursor: Option<Id>, query: Option<string>, status: Option<Identity.Status>,
                      u: Id)
    requires u in core.users
    ensures IsListedUser(core, cursor, query, status, u)
       <==> MatchesUser(core, u, query, status) && (cursor.None? || StringLess(cursor.value, u))
  {
    hide StringLess, Like.Contains, ContainsFolded;
    if query.Some? {
      forall c | c in core.creds
        ensures IsFound(core.creds[c], u, query.value)
           <==> IsHit(core.creds[c], u, Recovery.MapChars(Recovery.Lower, query.value))
      {
        ContainsExactly(core.creds[c].identifier, query.value);
      }
      hide IsFound, IsHit;
    }
  }

  lemma ContainsExactly(identifier: string, q: string)
    ensures Like.Contains(Recovery.MapChars(Recovery.Lower, identifier), Recovery.MapChars(Recovery.Lower, q))
       <==> ContainsFolded(identifier, q)
  {
    forall k | 0 <= k <= |identifier|
      ensures Like.FoldedPrefix(q, identifier[k..])
         <==> Like.OccursAt(Recovery.MapChars(Recovery.Lower, identifier), Recovery.MapChars(Recovery.Lower, q), k)
    {
      Like.FoldedPrefixOccurs(q, identifier, k);
    }
    hide Like.FoldedPrefix, Like.OccursAt;
  }

  function UserSnapshots(stores: seq<Identity.Core>, query: Option<string>, status: Option<Identity.Status>)
    : (snapshots: seq<set<Key>>)
    ensures |snapshots| == |stores|
    ensures forall i :: 0 <= i < |stores| ==> snapshots[i] == UserKeys(MatchingUsers(stores[i], query, status))
  {
    seq(|stores|, i requires 0 <= i < |stores| => UserKeys(MatchingUsers(stores[i], query, status)))
  }

  /** The pages a client gets that follows the cursors of `list_users`, one store per fetch. */
  function UserPages(stores: seq<Identity.Core>, cursor: Option<Id>, limit: int, query: Option<string>,
                     status: Option<Identity.Status>): seq<Page>
  {
    if stores == [] then [] else
    var page := ListUsers(stores[0], cursor, limit, query, status);
    if page.next.None? then [page]
    else [page] + UserPages(stores[1..], Some(page.next.value.id), limit, query, status)
  }

  /** A cursor handed out for keys without a time is the key itself. */
  lemma NextIsCursor(ids: set<Id>, cursor: Option<Id>, limit: nat)
    requires limit >= 1
    ensures var page := InMemoryPage(UserKeys(ids), CursorKey(cursor), limit);
      && page == RowScan(UserKeys(ids), CursorKey(cursor), limit)
      && (page.next.Some? ==> CursorKey(Some(page.next.value.id)) == page.next)
  {
    hide InMemoryPage, RowScan, Less, IsSorted;
    InMemoryPageIsRowScan(UserKeys(ids), CursorKey(cursor), limit);
    PageContents(UserKeys(ids), CursorKey(cursor), limit);
    var page := RowScan(UserKeys(ids), CursorKey(cursor), limit);
    assert page.next.Some? ==> page.next.value in page.data;
  }

  lemma {:induction false} UserPagesAreWalk(stores: seq<Identity.Core>, cursor: Option<Id>, limit: int,
                                            query: Option<string>, status: Option<Identity.Status>)
    ensures UserPages(stores, cursor, limit, query, status)
         == Walk(UserSnapshots(stores, query, status), CursorKey(cursor), ClampLimit(limit))
  {
    hide InMemoryPage, RowScan, MatchingUsers, CursorKey;
    if stores != [] {
      NextIsCursor(MatchingUsers(stores[0], query, status), cursor, ClampLimit(limit));
      var page := ListUsers(stores[0], cursor, limit, query, status);
      if page.next.Some? {
        UserPagesAreWalk(stores[1..], Some(page.next.value.id), limit, query, status);
        assert UserSnapshots(stores, query, status)[1..] == UserSnapshots(stores[1..], query, status);
      }
    }
  }

  /** Following the cursors of `list_users` over stores that change arbitrarily between the
      fetches: ids strictly increase, and in a walk that reaches its end every user that
      matched at each fetch was delivered, once. */
  lemma UserWalk(stores: seq<Identity.Core>, limit: int, query: Option<string>, status: Option<Identity.Status>, u: Id)
    ensures var pages := UserPages(stores, None, limit, query, status);
      && IsSorted(Items(pages))
      && (IsComplete(pages)
          && (forall i :: 0 <= i < |pages| && i < |stores| ==> u in MatchingUsers(stores[i], query, status))
          ==> Key(0, u) in Items(pages))
  {
    hide Less, IsSorted, MatchingUsers, RowScan, UserPages;
    UserPagesAreWalk(stores, None, limit, query, status);
    var snapshots := UserSnapshots(stores, query, status);
    WalkIncreases(snapshots, None, ClampLimit(limit));
    var pages := Walk(snapshots, None, ClampLimit(limit));
    if IsComplete(pages)
       && forall i :: 0 <= i < |pages| && i < |stores| ==> u in MatchingUsers(stores[i], query, status) {
      WalkCoversPersistentItems(snapshots, None, ClampLimit(limit), Key(0, u));
    }
  }

  lemma AfterNothing(keys: set<Key>)
    ensures After(keys, None) == keys
  {
  }

  /** On a store that stays as it is the walk ends and lists all matching users, sorted. */
  lemma FixedUserWalk(stores: seq<Identity.Core>, core: Identity.Core, limit: int, query: Option<string>,
                      status: Option<Identity.Status>)
    requires forall i :: 0 <= i < |stores| ==> stores[i] == core
    requires |stores| > |UserKeys(MatchingUsers(core, query, status))|
    ensures var pages := UserPages(stores, None, limit, query, status);
      IsComplete(pages) && Items(pages) == Sorted(UserKeys(MatchingUsers(core, query, status)))
  {
    hide MatchingUsers, UserPages, Walk, Sorted, After, IsComplete, Items;
    UserPagesAreWalk(stores, None, limit, query, status);
    AfterNothing(UserKeys(MatchingUsers(core, query, status)));
    FixedWalk(UserKeys(MatchingUsers(core, query, status)), None, ClampLimit(limit),
        UserSnapshots(stores, query, status));
  }

  // ----- Sessions -----

  function SessionsOfUser(core: Identity.Core, usrId: Id): set<Id> {
    set i | i in core.sessions && core.sessions[i].usrId == usrId
  }

  /** `InMemoryIdentityStore.list_sessions_for_user`; the limit is not clamped. */
  function ListSessions(core: Identity.Core, usrId: Id, cursor: Option<Id>, limit: int): Page {
    InMemoryPage(UserKeys(SessionsOfUser(core, usrId)), CursorKey(cursor), limit)
  }

  predicate IsListedSession(core: Identity.Core, usrId: Id, cursor: Option<Id>, i: Id) {
    i in core.sessions && core.sessions[i].usrId == usrId && (cursor.None? || StringLess(cursor.value, i))
  }

  /** What a page of `list_sessions_for_user` holds: of the sessions of the user, revoked ones too, whose
      id is after the cursor, the first ones by id, as many as the limit. */
  lemma SessionPageExactly(core: Identity.Core, usrId: Id, cursor: Option<Id>, limit: nat)
    requires limit >= 1
    ensures var rest := set i | i in core.sessions && IsListedSession(core, usrId, cursor, i) :: Key(0, i);
      IsPageOf(ListSessions(core, usrId, cursor, limit), rest, limit)
  {
    hide InMemoryPage, RowScan, IsPageOf, StringLess;
    var keys := UserKeys(SessionsOfUser(core, usrId));
    InMemoryPageIsRowScan(keys, CursorKey(cursor), limit);
    RowScanIsPage(keys, CursorKey(cursor), limit);
    assert After(keys, CursorKey(cursor))
      == set i | i in core.sessions && IsListedSession(core, usrId, cursor, i) :: Key(0, i);
  }

  function SessionSnapshots(stores: seq<Identity.Core>, usrId: Id): (snapshots: seq<set<Key>>)
    ensures |snapshots| == |stores|
    ensures forall i :: 0 <= i < |stores| ==> snapshots[i] == UserKeys(SessionsOfUser(stores[i], usrId))
  {
    seq(|stores|, i requires 0 <= i < |stores| => UserKeys(SessionsOfUser(stores[i], usrId)))
  }

  /** The pages of a client that follows the cursors of `list_sessions_for_user`. */
  function SessionPages(stores: seq<Identity.Core>, usrId: Id, cursor: Option<Id>, limit: int): seq<Page> {
    if stores == [] then [] else
    var page := ListSessions(stores[0], usrId, cursor, limit);
    if page.next.None? then [page] else [page] + SessionPages(stores[1..], usrId, Some(page.next.value.id), limit)
  }

  lemma {:induction false} SessionPagesAreWalk(stores: seq<Identity.Core>, usrId: Id, cursor: Option<Id>, limit: nat)
    requires limit >= 1
    ensures SessionPages(stores, usrId, cursor, limit)
      == Walk(SessionSnapshots(stores, usrId), CursorKey(cursor), limit)
  {
    hide InMemoryPage, RowScan, SessionsOfUser, CursorKey;
    if stores != [] {
      NextIsCursor(SessionsOfUser(stores[0], usrId), cursor, limit);
      var page := ListSessions(stores[0], usrId, cursor, limit);
      if page.next.Some? {
        SessionPagesAreWalk(stores[1..], usrId, Some(page.next.value.id), limit);
        assert SessionSnapshots(stores, usrId)[1..] == SessionSnapshots(stores[1..], usrId);
      }
    }
  }

  /** Walking a user's sessions while the store evolves: ids strictly increase, and in a walk
      that reaches its end every session there at the start appears, once. */
  lemma SessionWalk(stores: seq<Identity.Core>, usrId: Id, limit: nat, i: Id)
    requires limit >= 1 && stores != [] && i in SessionsOfUser(stores[0], usrId)
    requires forall n :: 0 < n < |stores| ==> IdentityInvariants.Evolves(stores[n - 1], stores[n])
    ensures var pages := SessionPages(stores, usrId, None, limit);
      && IsSorted(Items(pages))
      && (IsComplete(pages) ==> Key(0, i) in Items(pages))
  {
    hide Less, IsSorted, RowScan, IdentityInvariants.Evolves, SessionsOfUser, SessionPages;
    SessionPagesAreWalk(stores, usrId, None, limit);
    var snapshots := SessionSnapshots(stores, usrId);
    WalkIncreases(snapshots, None, limit);
    SessionStays(stores, usrId, i);
    if IsComplete(Walk(snapshots, None, limit)) {
      WalkCoversPersistentItems(snapshots, None, limit, Key(0, i));
    }
  }

  lemma FixedSessionWalk(stores: seq<Identity.Core>, core: Identity.Core, usrId: Id, limit: nat)
    requires limit >= 1 && forall i :: 0 <= i < |stores| ==> stores[i] == core
    requires |stores| > |UserKeys(SessionsOfUser(core, usrId))|
    ensures var pages := SessionPages(stores, usrId, None, limit);
      IsComplete(pages) && Items(pages) == Sorted(UserKeys(SessionsOfUser(core, usrId)))
  {
    hide SessionsOfUser, SessionPages, Walk, Sorted, After, IsComplete, Items;
    SessionPagesAreWalk(stores, usrId, None, limit);
    AfterNothing(UserKeys(SessionsOfUser(core, usrId)));
    FixedWalk(UserKeys(SessionsOfUser(core, usrId)), None, limit, SessionSnapshots(stores, usrId));
  }

  lemma SessionStays(stores: seq<Identity.Core>, usrId: Id, i: Id)
    requires stores != [] && i in SessionsOfUser(stores[0], usrId)
    requires forall n :: 0 < n < |stores| ==> IdentityInvariants.Evolves(stores[n - 1], stores[n])
    ensures forall n :: 0 <= n < |stores| ==> i in SessionsOfUser(stores[n], usrId)
  {
    hide IdentityInvariants.Evolves, SessionsOfUser;
    var n := 1;
    while n < |stores|
      invariant 1 <= n <= |stores|
      invariant forall k :: 0 <= k < n ==> i in SessionsOfUser(stores[k], usrId)
    {
      SessionsGrow(stores[n - 1], stores[n], usrId);
      n := n + 1;
    }
  }

  lemma SessionsGrow(s: Identity.Core, later: Identity.Core, usrId: Id)
    requires IdentityInvariants.Evolves(s, later)
    ensures SessionsOfUser(s, usrId) <= SessionsOfUser(later, usrId)
  {
  }

  /** The Postgres query fetches at most 201 rows but cuts them at the caller's limit. */
  function PostgresSessionPage(keys: set<Key>, cursor: Option<Key>, limit: nat): Page {
    var all := Sorted(After(keys, cursor));
    var rows := all[..Min(|all|, Min(limit, MAX_LIMIT) + 1)];
    var data := rows[..Min(|rows|, limit)];
    Page(data, if |rows| > limit && data != [] then Some(Last(data)) else None)
  }

  /** The two stores list the same page of sessions exactly when the limit is at most 200 or
      no more than 201 sessions are left; otherwise Postgres ends the walk early. */
  lemma BothStoresListTheSameSessionsExactly(keys: set<Key>, cursor: Option<Key>, limit: nat)
    requires limit >= 1
    ensures InMemoryPage(keys, cursor, limit) == PostgresSessionPage(keys, cursor, limit)
       <==> limit <= MAX_LIMIT || |After(keys, cursor)| <= MAX_LIMIT + 1
    ensures limit > MAX_LIMIT ==> PostgresSessionPage(keys, cursor, limit).next == None
  {
    hide Sorted, After, InMemoryPage, IsSorted;
    InMemoryPageIsRowScan(keys, cursor, limit);
    var all := Sorted(After(keys, cursor));
    assert |all| == |After(keys, cursor)|;
    var memory, rows := RowScan(keys, cursor, limit), all[..Min(|all|, Min(limit, MAX_LIMIT) + 1)];
    assert memory.data == all[..Min(|all|, limit)];
    assert PostgresSessionPage(keys, cursor, limit).data == all[..Min(|rows|, limit)];
  }

  /** The pages of a client that follows the cursors of the Postgres `list_sessions_for_user`. */
  function PostgresSessionPages(stores: seq<Identity.Core>, usrId: Id, cursor: Option<Id>, limit: nat): seq<Page> {
    if stores == [] then [] else
    var page := PostgresSessionPage(UserKeys(SessionsOfUser(stores[0], usrId)), CursorKey(cursor), limit);
    if page.next.None? then [page]
    else [page] + PostgresSessionPages(stores[1..], usrId, Some(page.next.value.id), limit)
  }

  /** Up to 200 the client sees the same pages from both stores, while they evolve alike. */
  lemma {:induction false} PostgresSessionPagesWithin(stores: seq<Identity.Core>, usrId: Id, cursor: Option<Id>,
                                                      limit: nat)
    requires 1 <= limit <= MAX_LIMIT
    ensures PostgresSessionPages(stores, usrId, cursor, limit) == SessionPages(stores, usrId, cursor, limit)
  {
    hide InMemoryPage, PostgresSessionPage, SessionsOfUser, UserKeys, CursorKey;
    if stores != [] {
      BothStoresListTheSameSessionsExactly(UserKeys(SessionsOfUser(stores[0], usrId)), CursorKey(cursor), limit);
      var page := ListSessions(stores[0], usrId, cursor, limit);
      if page.next.Some? {
        PostgresSessionPagesWithin(stores[1..], usrId, Some(page.next.value.id), limit);
      }
    }
  }

  /** Beyond 200 there is one page, of 201 sessions at most. */
  lemma PostgresSessionPagesBeyond(stores: seq<Identity.Core>, usrId: Id, limit: nat)
    requires limit > MAX_LIMIT && stores != []
    ensures var pages := PostgresSessionPages(stores, usrId, None, limit);
      var all := Sorted(UserKeys(SessionsOfUser(stores[0], usrId)));
      |pages| == 1 && pages[0].next.None? && pages[0].data == all[..Min(|all|, MAX_LIMIT + 1)]
  {
    hide InMemoryPage, SessionsOfUser, UserKeys, Sorted, After;
    AfterNothing(UserKeys(SessionsOfUser(stores[0], usrId)));
  }

  /** Walking the sessions of a Postgres store that stays as it is ends, and lists all of them
      exactly when the limit is at most 200 or at most 201 exist. */
  lemma PostgresListsAllSessionsExactly(stores: seq<Identity.Core>, core: Identity.Core, usrId: Id, limit: nat)
    requires limit >= 1 && forall i :: 0 <= i < |stores| ==> stores[i] == core
    requires |stores| > |UserKeys(SessionsOfUser(core, usrId))|
    ensures var keys := UserKeys(SessionsOfUser(core, usrId));
      var pages := PostgresSessionPages(stores, usrId, None, limit);
      && IsComplete(pages)
      && (Items(pages) == Sorted(keys) <==> limit <= MAX_LIMIT || |keys| <= MAX_LIMIT + 1)
  {
    hide SessionsOfUser, UserKeys, SessionPages, PostgresSessionPages, Sorted;
    var keys := UserKeys(SessionsOfUser(core, usrId));
    if limit <= MAX_LIMIT {
      PostgresSessionPagesWithin(stores, usrId, None, limit);
      FixedSessionWalk(stores, core, usrId, limit);
    } else {
      PostgresSessionPagesBeyond(stores, usrId, limit);
      var pages := PostgresSessionPages(stores, usrId, None, limit);
      OnePage(pages);
      assert |Sorted(keys)| == |keys|;
      assert Items(pages) == Sorted(keys)[..Min(|keys|, MAX_LIMIT + 1)];
      assert |keys| <= MAX_LIMIT + 1 ==> Sorted(keys)[..|keys|] == Sorted(keys);
    }
  }

  lemma OnePage(pages: seq<Page>)
    requires |pages| == 1
    ensures Items(pages) == pages[0].data && (IsComplete(pages) <==> pages[0].next.None?)
  {
    assert pages[1..] == [];
  }

  // ----- Personal access tokens -----

  function PatKeys(s: Pats.State, usrId: Id): set<Key> {
    set p | p in s.pats && s.pats[p].usrId == usrId :: Key(s.pats[p].createdAt, p)
  }

  function PatLimit(limit: int): (n: nat)
    ensures n >= 1
  {
    if limit <= 0 then 50 else limit
  }

  /** `list_pats_for_user`: a limit that is not positive means 50, an empty cursor none. */
  function ListPats(s: Pats.State, usrId: Id, cursor: Option<Id>, limit: int): Page {
    PageByEquality(PatKeys(s, usrId), if cursor.Some? then cursor.value else "", PatLimit(limit))
  }

  predicate IsListedPat(s: Pats.State, usrId: Id, cursor: Id, p: Id) {
    && p in s.pats && s.pats[p].usrId == usrId
    && (cursor !in s.pats || s.pats[cursor].usrId != usrId || s.pats[p].createdAt > s.pats[cursor].createdAt
        || (s.pats[p].createdAt == s.pats[cursor].createdAt && StringLess(cursor, p)))
  }

  /** What a page of `list_pats_for_user` holds: of the tokens of the user those created after the one the
      cursor names, or created with it and with a greater id, the first ones in that order, as many as
      the limit or 50; a cursor that names no token of the user starts over. */
  lemma PatPageExactly(s: Pats.State, usrId: Id, cursor: Id, limit: int)
    requires PatInvariants.Inv(s)
    ensures var rest := set p | p in s.pats && IsListedPat(s, usrId, cursor, p) :: Key(s.pats[p].createdAt, p);
      IsPageOf(ListPats(s, usrId, Some(cursor), limit), rest, if limit <= 0 then 50 else limit)
  {
    hide PatInvariants.Inv, PatInvariants.Evolves, IdsAreUnique, PageByEquality, RowScan, IsPageOf, StringLess;
    PatInvariants.EvolvesIsReflexive(s);
    PatKeysGrow(s, s, usrId);
    var keys := PatKeys(s, usrId);
    var at := if cursor in s.pats && s.pats[cursor].usrId == usrId then Some(Key(s.pats[cursor].createdAt, cursor))
              else None;
    assert at.Some? ==> at.value in keys;
    PageByEqualityIsRowScan(keys, at, PatLimit(limit));
    if at.None? {
      UnknownCursorStartsOver(keys, cursor, PatLimit(limit));
    }
    RowScanIsPage(keys, at, PatLimit(limit));
    assert After(keys, at) == set p | p in s.pats && IsListedPat(s, usrId, cursor, p) :: Key(s.pats[p].createdAt, p);
  }

  lemma UnknownCursorStartsOver(keys: set<Key>, cursor: Id, limit: int)
    requires forall k :: k in keys ==> k.id != cursor
    ensures PageByEquality(keys, cursor, limit) == PageByEquality(keys, "", limit)
  {
    hide SlicePage;
    NotFoundFrom(Sorted(keys), cursor, 0);
  }

  lemma {:induction false} NotFoundFrom(sorted: seq<Key>, id: Id, i: nat)
    requires i <= |sorted| && forall k :: k in sorted ==> k.id != id
    ensures IndexAfterId(sorted, id, i) == 0
    decreases |sorted| - i
  {
    if i < |sorted| {
      NotFoundFrom(sorted, id, i + 1);
    }
  }

  /** The pages of a walk that looks its cursor up by equality. */
  function WalkByEquality(snapshots: seq<set<Key>>, cursor: Option<Key>, limit: nat): seq<Page> {
    if snapshots == [] then [] else
    var page := PageByEquality(snapshots[0], if cursor.Some? then cursor.value.id else "", limit);
    if page.next.None? then [page] else [page] + WalkByEquality(snapshots[1..], page.next, limit)
  }

  ghost predicate IsGrowing(snapshots: seq<set<Key>>) {
    && (forall i :: 0 <= i < |snapshots| ==> IdsAreUnique(snapshots[i]) && IdsAreNotEmpty(snapshots[i]))
    && (forall i :: 0 < i < |snapshots| ==> snapshots[i - 1] <= snapshots[i])
  }

  ghost predicate IdsAreNotEmpty(keys: set<Key>) {
    forall k :: k in keys ==> k.id != ""
  }

  /** As tokens are never deleted, such a walk is a walk by order. */
  lemma {:induction false} WalkByEqualityIsWalk(snapshots: seq<set<Key>>, cursor: Option<Key>, limit: nat)
    requires limit >= 1 && IsGrowing(snapshots)
    requires snapshots != [] && cursor.Some? ==> cursor.value in snapshots[0]
    ensures WalkByEquality(snapshots, cursor, limit) == Walk(snapshots, cursor, limit)
  {
    hide PageByEquality, RowScan, Less, IdsAreUnique;
    if snapshots != [] {
      assert IdsAreUnique(snapshots[0]) && IdsAreNotEmpty(snapshots[0]);
      PageByEqualityIsRowScan(snapshots[0], cursor, limit);
      PageContents(snapshots[0], cursor, limit);
      var page := RowScan(snapshots[0], cursor, limit);
      if page.next.Some? {
        assert page.next.value in page.data;
        GrowingTail(snapshots);
        WalkByEqualityIsWalk(snapshots[1..], page.next, limit);
      }
    }
  }

  lemma GrowingTail(snapshots: seq<set<Key>>)
    requires IsGrowing(snapshots) && snapshots != []
    ensures IsGrowing(snapshots[1..])
    ensures snapshots[1..] != [] ==> snapshots[0] <= snapshots[1..][0]
  {
    hide IdsAreUnique, IdsAreNotEmpty;
    var tail := snapshots[1..];
    forall i | 0 <= i < |tail|
      ensures IdsAreUnique(tail[i]) && IdsAreNotEmpty(tail[i])
    {
      assert tail[i] == snapshots[i + 1];
    }
    forall i | 0 < i < |tail|
      ensures tail[i - 1] <= tail[i]
    {
      assert snapshots[i] <= snapshots[i + 1];
    }
    assert |snapshots| > 1 ==> snapshots[0] <= snapshots[1];
  }

  /** Later stores list at least the tokens of earlier ones, under the same keys. */
  lemma PatKeysGrow(s: Pats.State, later: Pats.State, usrId: Id)
    requires PatInvariants.Inv(s) && PatInvariants.Evolves(s, later)
    ensures PatKeys(s, usrId) <= PatKeys(later, usrId)
    ensures IdsAreUnique(PatKeys(s, usrId)) && IdsAreNotEmpty(PatKeys(s, usrId))
  {
    forall p | p in s.pats
      ensures p in later.pats && PatInvariants.PatEvolves(s.pats[p], later.pats[p]) && p != ""
    {
      assert PatInvariants.PatKeyed(p, s.pats[p]);
    }
  }

  function PatSnapshots(stores: seq<Pats.State>, usrId: Id): (snapshots: seq<set<Key>>)
    ensures |snapshots| == |stores|
    ensures forall i :: 0 <= i < |stores| ==> snapshots[i] == PatKeys(stores[i], usrId)
  {
    seq(|stores|, i requires 0 <= i < |stores| => PatKeys(stores[i], usrId))
  }

  lemma StaysInGrowing(snapshots: seq<set<Key>>, k: Key)
    requires IsGrowing(snapshots) && snapshots != [] && k in snapshots[0]
    ensures forall i :: 0 <= i < |snapshots| ==> k in snapshots[i]
  {
    hide IdsAreUnique, IdsAreNotEmpty;
    var n := 1;
    while n < |snapshots|
      invariant 1 <= n <= |snapshots|
      invariant forall i :: 0 <= i < n ==> k in snapshots[i]
    {
      assert snapshots[n - 1] <= snapshots[n];
      n := n + 1;
    }
  }

  /** The pages of a client that follows the cursors of `list_pats_for_user`. */
  function PatPages(stores: seq<Pats.State>, usrId: Id, cursor: Option<Id>, limit: int): seq<Page> {
    if stores == [] then [] else
    var page := ListPats(stores[0], usrId, cursor, limit);
    if page.next.None? then [page] else [page] + PatPages(stores[1..], usrId, Some(page.next.value.id), limit)
  }

  function CursorOf(cursor: Option<Key>): Option<Id> {
    if cursor.None? then None else Some(cursor.value.id)
  }

  lemma {:induction false} PatPagesAreWalk(stores: seq<Pats.State>, usrId: Id, cursor: Option<Key>, limit: int)
    ensures PatPages(stores, usrId, CursorOf(cursor), limit)
         == WalkByEquality(PatSnapshots(stores, usrId), cursor, PatLimit(limit))
  {
    hide PageByEquality, PatKeys;
    if stores != [] {
      var page := ListPats(stores[0], usrId, CursorOf(cursor), limit);
      if page.next.Some? {
        PatPagesAreWalk(stores[1..], usrId, page.next, limit);
        assert PatSnapshots(stores, usrId)[1..] == PatSnapshots(stores[1..], usrId);
      }
    }
  }

  lemma PatPagesAreOrdered(stores: seq<Pats.State>, usrId: Id, limit: int)
    requires forall i :: 0 <= i < |stores| ==> PatInvariants.Inv(stores[i])
    requires forall i :: 0 < i < |stores| ==> PatInvariants.Evolves(stores[i - 1], stores[i])
    ensures IsGrowing(PatSnapshots(stores, usrId))
    ensures PatPages(stores, usrId, None, limit) == Walk(PatSnapshots(stores, usrId), None, PatLimit(limit))
  {
    hide PatInvariants.Inv, PatInvariants.Evolves, PatKeys, IdsAreUnique, IdsAreNotEmpty, WalkByEquality, Walk,
         PatPages, PatLimit;
    var snapshots := PatSnapshots(stores, usrId);
    forall i | 0 <= i < |stores|
      ensures IdsAreUnique(snapshots[i]) && IdsAreNotEmpty(snapshots[i])
      ensures i > 0 ==> snapshots[i - 1] <= snapshots[i]
    {
      if i > 0 {
        PatKeysGrow(stores[i - 1], stores[i], usrId);
      }
      PatInvariants.EvolvesIsReflexive(stores[i]);
      PatKeysGrow(stores[i], stores[i], usrId);
    }
    PatPagesAreWalk(stores, usrId, None, limit);
    WalkByEqualityIsWalk(snapshots, None, PatLimit(limit));
  }

  /** Walking a user's tokens while the store evolves, with any limit: no token appears twice, and
      in a walk that reaches its end every token there at the start appears. */
  lemma PatWalk(stores: seq<Pats.State>, usrId: Id, limit: int, k: Key)
    requires stores != []
    requires forall i :: 0 <= i < |stores| ==> PatInvariants.Inv(stores[i])
    requires forall i :: 0 < i < |stores| ==> PatInvariants.Evolves(stores[i - 1], stores[i])
    ensures var pages := PatPages(stores, usrId, None, limit);
      && IsSorted(Items(pages))
      && (IsComplete(pages) && k in PatKeys(stores[0], usrId) ==> k in Items(pages))
  {
    hide PatInvariants.Inv, PatInvariants.Evolves, Less, PatKeys, IsGrowing, Walk, IsSorted, PatPages, PatLimit;
    var snapshots := PatSnapshots(stores, usrId);
    PatPagesAreOrdered(stores, usrId, limit);
    WalkIncreases(snapshots, None, PatLimit(limit));
    if IsComplete(Walk(snapshots, None, PatLimit(limit))) && k in snapshots[0] {
      StaysInGrowing(snapshots, k);
      WalkCoversPersistentItems(snapshots, None, PatLimit(limit), k);
    }
  }

  /** On a store that stays as it is the walk ends and lists all tokens of the user in the order
      of their creation. */
  lemma FixedPatWalk(stores: seq<Pats.State>, s: Pats.State, usrId: Id, limit: int)
    requires PatInvariants.Inv(s) && forall i :: 0 <= i < |stores| ==> stores[i] == s
    requires |stores| > |PatKeys(s, usrId)|
    ensures var pages := PatPages(stores, usrId, None, limit);
      IsComplete(pages) && Items(pages) == Sorted(PatKeys(s, usrId))
  {
    hide PatInvariants.Inv, PatInvariants.Evolves, PatKeys, PatPages, Walk, Sorted, After, IsComplete, Items, IsGrowing,
         PatLimit;
    PatInvariants.EvolvesIsReflexive(s);
    PatPagesAreOrdered(stores, usrId, limit);
    AfterNothing(PatKeys(s, usrId));
    FixedWalk(PatKeys(s, usrId), None, PatLimit(limit), PatSnapshots(stores, usrId));
  }
}
