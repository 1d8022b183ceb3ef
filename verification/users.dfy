/** The user routes: profile read, a user's posts, profile update, the
    connect (follow) toggle, the connection-status read and the user search. */
module Users {
  import opened Lists
  import opened Ordering
  import opened Text
  import opened Schema
  import opened Posts

  /** A user as the profile route sends it: every field but the password hash
      (`select('-password')`). */
  datatype Profile = Profile(
    id: UserId,
    name: string,
    email: string,
    bio: string,
    connections: seq<UserId>,
    followers: seq<UserId>,
    createdAt: nat)

  /** A search hit: the fields `select('name email bio createdAt')` keeps. */
  datatype UserSummary = UserSummary(id: UserId, name: string, email: string, bio: string, createdAt: nat)

  /** The connect route's answer: the caller's record after the toggle and
      whether the caller now follows the target. */
  datatype Connection = Connection(user: User, isConnected: bool)

  /** A user's profile, or NotFound. */
  function GetProfile(st: Store, id: UserId): (r: Result<Profile>)
    ensures r.Ok? <==> id in st.users
    ensures r.Err? ==> r.error == NotFound
    ensures r.Ok? ==>
      var u, v := st.users[id], r.value;
      && v.id == id && v.name == u.name && v.email == u.email && v.bio == u.bio
      && v.connections == u.connections && v.followers == u.followers && v.createdAt == u.createdAt
  {
    if id !in st.users then Err(NotFound)
    else
      var u := st.users[id];
      Ok(Profile(id, u.name, u.email, u.bio, u.connections, u.followers, u.createdAt))
  }

  /** The posts whose author is `author`, newest first. The author need not exist. */
  function UserPosts(st: Store, author: UserId): (r: seq<(PostId, Post)>)
    ensures SortedDesc(r, PostTime)
    ensures forall e :: multiset(r)[e] ==
                        (if e.0 in st.posts && st.posts[e.0] == e.1 && e.1.author == author then 1 else 0)
  {
    SortDesc(Filter(Entries(st.posts), (e: (PostId, Post)) => e.1.author == author), PostTime)
  }

  /** The bio passes the route's length check, or is absent. */
  predicate ValidBio(bio: Option<string>) {
    bio.None? || ValidatorLength(bio.value) <= MaxBioLength
  }

  /** Sets the caller's name, and the bio only when one is sent. */
  function UpdateProfile(st: Store, caller: UserId, name: string, bio: Option<string>): (r: Result<Reply<User>>)
    ensures name == [] || (bio.Some? && ValidatorLength(bio.value) > MaxBioLength) ==> r == Err(Validation)
    ensures name != [] && ValidBio(bio) && caller !in st.users ==> r == Err(NotFound)
    ensures name != [] && ValidBio(bio) && caller in st.users ==> r.Ok?
    ensures r.Ok? ==>
      var u, u' := st.users[caller], r.value.body;
      && u'.name == name
      && u'.bio == (if bio.Some? then bio.value else u.bio)
      && u'.email == u.email && u'.password == u.password && u'.createdAt == u.createdAt
      && u'.connections == u.connections && u'.followers == u.followers
      && r.value.store.users.Keys == st.users.Keys
      && r.value.store.users[caller] == u'
      && (forall other :: other in st.users && other != caller ==> r.value.store.users[other] == st.users[other])
      && r.value.store.posts == st.posts
  {
    if name == [] || !ValidBio(bio) then Err(Validation)
    else if caller !in st.users then Err(NotFound)
    else
      var u := st.users[caller];
      var u' := u.(name := name, bio := if bio.Some? then bio.value else u.bio);
      Ok(Reply(st.(users := st.users[caller := u']), u'))
  }

  /** One side of the connect toggle: when `was`, every entry equal to `x`
      leaves `s` (`filter`); otherwise `x` is pushed onto it (`push`). */
  function ToggleSide(s: seq<UserId>, x: UserId, was: bool): (r: seq<UserId>)
    ensures was ==> multiset(r) == multiset(s)[x := 0]
    ensures !was ==> r == s + [x]
    ensures forall v :: v in r <==> if was then v in s && v != x else v in s || v == x
  {
    if was then DropAll(s, x) else s + [x]
  }

  /** Toggling a duplicate-free list on the entry's presence keeps it duplicate-free. */
  lemma ToggleSideNoDup(s: seq<UserId>, x: UserId, was: bool)
    requires NoDup(s)
    requires was <==> x in s
    ensures NoDup(ToggleSide(s, x, was))
  {
    var r := ToggleSide(s, x, was);
    if was {
      assert forall v :: v in multiset(r) ==> multiset(r)[v] <= multiset(s)[v];
    } else {
      AppendNoDup(s, x);
    }
  }

  /** The connect route once both users are known to exist and differ: the
      caller's `connections` and the target's `followers` are toggled, and
      nothing else changes. */
  function Link(st: Store, caller: UserId, target: UserId): (r: Reply<Connection>)
    requires caller in st.users && target in st.users && caller != target
    ensures
      var me, them := st.users[caller], st.users[target];
      var was := target in me.connections;
      && r.body.isConnected == !was
      && r.store.users.Keys == st.users.Keys
      && r.body.user == r.store.users[caller]
      && r.store.users[caller] == me.(connections := ToggleSide(me.connections, target, was))
      && r.store.users[target] == them.(followers := ToggleSide(them.followers, caller, was))
      && (forall u :: u in st.users && u != caller && u != target ==> r.store.users[u] == st.users[u])
      && r.store.posts == st.posts && r.store.clock == st.clock && r.store.nextPostId == st.nextPostId
  {
    var me, them := st.users[caller], st.users[target];
    var was := target in me.connections;
    var me' := me.(connections := ToggleSide(me.connections, target, was));
    var them' := them.(followers := ToggleSide(them.followers, caller, was));
    Reply(st.(users := st.users[caller := me'][target := them']), Connection(me', !was))
  }

  /** The connect route. The target's existence is checked first, then
      self-connection; a caller without a record makes the handler fail. */
  function Connect(st: Store, caller: UserId, target: UserId): (r: Result<Reply<Connection>>)
    ensures target !in st.users ==> r == Err(NotFound)
    ensures target in st.users && caller == target ==> r == Err(SelfConnect)
    ensures target in st.users && caller != target && caller !in st.users ==> r == Err(ServerError)
    ensures target in st.users && caller in st.users && caller != target ==> r == Ok(Link(st, caller, target))
  {
    if target !in st.users then Err(NotFound)
    else if caller == target then Err(SelfConnect)
    else if caller !in st.users then Err(ServerError)
    else Ok(Link(st, caller, target))
  }

  /** Whether the caller lists the target among its connections. The target
      is not looked up; a caller without a record makes the handler fail. */
  function ConnectionStatus(st: Store, caller: UserId, target: UserId): (r: Result<bool>)
    ensures r.Ok? <==> caller in st.users
    ensures r.Err? ==> r.error == ServerError
    ensures r.Ok? ==> (r.value <==> target in st.users[caller].connections)
  {
    if caller !in st.users then Err(ServerError)
    else Ok(target in st.users[caller].connections)
  }

  /** The search filter: with a non-empty query, the name or the email
      contains it ignoring case; with no query or an empty one, every user. */
  predicate Matches(query: Option<string>, u: User) {
    match query
    case None => true
    case Some(q) => q == [] || ContainsIgnoringCase(u.name, q) || ContainsIgnoringCase(u.email, q)
  }

  function UserTime(e: (UserId, User)): int {
    e.1.createdAt
  }

  function SummaryTime(s: UserSummary): int {
    s.createdAt
  }

  function Summarize(id: UserId, u: User): UserSummary {
    UserSummary(id, u.name, u.email, u.bio, u.createdAt)
  }

  /** The first entries of a ranking of distinct entries keep their order,
      are distinct, and every entry left out ranks no higher than the last
      one kept. */
  lemma TopOfRanking(ranked: seq<(UserId, User)>, top: seq<(UserId, User)>, users: map<UserId, User>)
    requires SortedDesc(ranked, UserTime)
    requires NoDup(ranked)
    requires forall e :: e in ranked ==> e.0 in users && users[e.0] == e.1
    requires |top| == if |ranked| < SearchLimit then |ranked| else SearchLimit
    requires forall i :: 0 <= i < |top| ==> top[i] == ranked[i]
    ensures SortedDesc(top, UserTime)
    ensures forall i, j :: 0 <= i < j < |top| ==> top[i].0 != top[j].0
    ensures forall e :: e in ranked ==>
      e in top || (|top| == SearchLimit && UserTime(e) <= UserTime(top[SearchLimit - 1]))
  {
    forall i, j | 0 <= i < j < |top|
      ensures top[i].0 != top[j].0
    {
      NoDupDistinct(ranked, i, j);
      assert ranked[i] in ranked && ranked[j] in ranked;
    }
    forall e | e in ranked
      ensures e in top || (|top| == SearchLimit && UserTime(e) <= UserTime(top[SearchLimit - 1]))
    {
      var k :| 0 <= k < |ranked| && ranked[k] == e;
      if k < |top| {
        assert top[k] == e;
      } else {
        assert UserTime(ranked[SearchLimit - 1]) >= UserTime(ranked[k]);
      }
    }
  }

  /** The matching users as entries, newest first. */
  function Ranked(st: Store, query: Option<string>): (ranked: seq<(UserId, User)>)
    ensures SortedDesc(ranked, UserTime)
    ensures NoDup(ranked)
    ensures forall e :: e in ranked ==> e.0 in st.users && st.users[e.0] == e.1 && Matches(query, e.1)
    ensures forall u :: u in st.users && Matches(query, st.users[u]) ==> (u, st.users[u]) in ranked
  {
    var hits := Filter(Entries(st.users), (e: (UserId, User)) => Matches(query, e.1));
    EntriesNoDup(st.users);
    FilterNoDup(Entries(st.users), (e: (UserId, User)) => Matches(query, e.1));
    var ranked := SortDesc(hits, UserTime);
    HitsAreMatches(st.users, query, hits);
    PermutationMembers(hits, ranked);
    ranked
  }

  /** The matching entries are exactly the stored entries whose user matches. */
  lemma HitsAreMatches(users: map<UserId, User>, query: Option<string>, hits: seq<(UserId, User)>)
    requires hits == Filter(Entries(users), (e: (UserId, User)) => Matches(query, e.1))
    ensures forall e :: e in hits ==> e.0 in users && users[e.0] == e.1 && Matches(query, e.1)
    ensures forall u :: u in users && Matches(query, users[u]) ==> (u, users[u]) in hits
  {
    EntriesMembers(users);
  }

  /** `found` is an answer to the user search: at most `SearchLimit` users
      keyed by `Key`, newest registered first, each stored as found and
      matching the query, none twice; a matching user is left out only when the
      limit is reached by users registered no earlier. */
  ghost predicate SearchAnswer<T>(users: map<UserId, User>, query: Option<string>, found: seq<T>,
                                  Key: T -> UserId, Time: T -> int)
  {
    && |found| <= SearchLimit
    && SortedDesc(found, Time)
    && (forall i :: 0 <= i < |found| ==>
          Key(found[i]) in users && Time(found[i]) == users[Key(found[i])].createdAt && Matches(query, users[Key(found[i])]))
    && (forall i, j :: 0 <= i < j < |found| ==> Key(found[i]) != Key(found[j]))
    && (forall u :: u in users && Matches(query, users[u]) ==>
          (exists i :: 0 <= i < |found| && Key(found[i]) == u)
          || (|found| == SearchLimit && users[u].createdAt <= Time(found[SearchLimit - 1])))
  }

  function EntryId(e: (UserId, User)): UserId {
    e.0
  }

  function SummaryId(s: UserSummary): UserId {
    s.id
  }

  /** The at most `SearchLimit` newest users matching the query, as entries
      holding the stored record. */
  function TopMatches(st: Store, query: Option<string>): (top: seq<(UserId, User)>)
    ensures SearchAnswer(st.users, query, top, EntryId, UserTime)
    ensures forall e :: e in top ==> e.0 in st.users && st.users[e.0] == e.1
  {
    var ranked := Ranked(st, query);
    var top := Take(ranked, SearchLimit);
    TopOfRanking(ranked, top, st.users);
    TopAnswers(st.users, query, ranked, top);
    top
  }

  /** The first `SearchLimit` entries of the ranking answer the search. */
  lemma TopAnswers(users: map<UserId, User>, query: Option<string>, ranked: seq<(UserId, User)>, top: seq<(UserId, User)>)
    requires forall e :: e in ranked ==> e.0 in users && users[e.0] == e.1 && Matches(query, e.1)
    requires forall u :: u in users && Matches(query, users[u]) ==> (u, users[u]) in ranked
    requires |top| <= SearchLimit && |top| <= |ranked|
    requires forall i :: 0 <= i < |top| ==> top[i] == ranked[i]
    requires SortedDesc(top, UserTime)
    requires forall i, j :: 0 <= i < j < |top| ==> top[i].0 != top[j].0
    requires forall e :: e in ranked ==>
      e in top || (|top| == SearchLimit && UserTime(e) <= UserTime(top[SearchLimit - 1]))
    ensures SearchAnswer(users, query, top, EntryId, UserTime)
    ensures forall e :: e in top ==> e.0 in users && users[e.0] == e.1
  {
    forall i | 0 <= i < |top|
      ensures top[i] in ranked
    {
      assert top[i] == ranked[i];
    }
    forall u | u in users && Matches(query, users[u]) && (u, users[u]) in top
      ensures exists i :: 0 <= i < |top| && EntryId(top[i]) == u
    {
      var i :| 0 <= i < |top| && top[i] == (u, users[u]);
      assert EntryId(top[i]) == u;
    }
  }

  /** Each entry's record without the password hash. */
  function Summaries(top: seq<(UserId, User)>): (r: seq<UserSummary>)
    ensures |r| == |top|
    ensures forall i :: 0 <= i < |top| ==> r[i] == Summarize(top[i].0, top[i].1)
  {
    seq(|top|, i requires 0 <= i < |top| => Summarize(top[i].0, top[i].1))
  }

  /** The user search: the top matches, each without the password hash. */
  function Search(st: Store, query: Option<string>): (r: seq<UserSummary>)
    ensures SearchAnswer(st.users, query, r, SummaryId, SummaryTime)
    ensures forall i :: 0 <= i < |r| ==> r[i] == Summarize(r[i].id, st.users[r[i].id])
  {
    var top := TopMatches(st, query);
    var r := Summaries(top);
    SummariesAnswer(st.users, query, top, r);
    r
  }

  /** Summarizing the answer entry by entry is again an answer. */
  lemma SummariesAnswer(users: map<UserId, User>, query: Option<string>, top: seq<(UserId, User)>, r: seq<UserSummary>)
    requires SearchAnswer(users, query, top, EntryId, UserTime)
    requires forall e :: e in top ==> e.0 in users && users[e.0] == e.1
    requires |r| == |top|
    requires forall i :: 0 <= i < |top| ==> r[i] == Summarize(top[i].0, top[i].1)
    ensures SearchAnswer(users, query, r, SummaryId, SummaryTime)
    ensures forall i :: 0 <= i < |r| ==> r[i].id in users && r[i] == Summarize(r[i].id, users[r[i].id])
  {
    forall i | 0 <= i < |r|
      ensures r[i].id in users && r[i] == Summarize(r[i].id, users[r[i].id])
    {
      assert top[i] in top;
    }
    AnswerTransfers(users, query, top, EntryId, UserTime, r, SummaryId, SummaryTime);
  }

  /** A list with the same keys and times, position by position, as an answer
      is an answer too. */
  lemma AnswerTransfers<S, T>(users: map<UserId, User>, query: Option<string>,
                              a: seq<S>, KeyA: S -> UserId, TimeA: S -> int,
                              b: seq<T>, KeyB: T -> UserId, TimeB: T -> int)
    requires SearchAnswer(users, query, a, KeyA, TimeA)
    requires |b| == |a|
    requires forall i :: 0 <= i < |a| ==> KeyB(b[i]) == KeyA(a[i]) && TimeB(b[i]) == TimeA(a[i])
    ensures SearchAnswer(users, query, b, KeyB, TimeB)
  {
    forall u | u in users && Matches(query, users[u]) && exists i :: 0 <= i < |a| && KeyA(a[i]) == u
      ensures exists i :: 0 <= i < |b| && KeyB(b[i]) == u
    {
      var i :| 0 <= i < |a| && KeyA(a[i]) == u;
      assert KeyB(b[i]) == u;
    }
  }

  /** The ids of the users matching the query. */
  ghost function MatchingIds(users: map<UserId, User>, query: Option<string>): set<UserId> {
    set u | u in users && Matches(query, users[u])
  }

  /** The ids a list carries under `Key`. */
  ghost function KeySet<T>(s: seq<T>, Key: T -> UserId): set<UserId> {
    set i | 0 <= i < |s| :: Key(s[i])
  }

  /** A list whose keys are pairwise distinct has as many keys as entries. */
  lemma {:induction false} DistinctKeys<T>(s: seq<T>, Key: T -> UserId)
    requires forall i, j :: 0 <= i < j < |s| ==> Key(s[i]) != Key(s[j])
    ensures |KeySet(s, Key)| == |s|
  {
    if |s| > 0 {
      var init := s[..|s| - 1];
      DistinctKeys(init, Key);
      assert KeySet(s, Key) == KeySet(init, Key) + {Key(s[|s| - 1])};
      assert Key(s[|s| - 1]) !in KeySet(init, Key);
    }
  }

  /** The search answers with exactly `SearchLimit` users when at least that
      many match, and with every matching user otherwise. */
  lemma SearchSize(st: Store, query: Option<string>)
    ensures
      var n := |MatchingIds(st.users, query)|;
      |Search(st, query)| == if n < SearchLimit then n else SearchLimit
  {
    var r := Search(st, query);
    var found, matching := KeySet(r, SummaryId), MatchingIds(st.users, query);
    DistinctKeys(r, SummaryId);
    assert found <= matching;
    CardinalityOfSubset(found, matching);
    if |r| < SearchLimit {
      assert matching <= found;
      CardinalityOfSubset(matching, found);
    }
  }

  /** A subset is no larger than its superset. */
  lemma CardinalityOfSubset(a: set<UserId>, b: set<UserId>)
    requires a <= b
    ensures |a| <= |b|
  {
    assert b == a + (b - a);
  }

  // ---------------------------------------------------------------------------
  // Properties of the connect toggle

  /** Connect keeps the users collection valid: lists stay duplicate-free,
      free of their owner and of unknown ids, and the two sides stay mirrored. */
  lemma ConnectPreservesValid(st: Store, caller: UserId, target: UserId)
    requires Valid(st)
    requires Connect(st, caller, target).Ok?
    ensures Valid(Connect(st, caller, target).value.store)
  {
    LinkKeepsLists(st, caller, target);
    LinkKeepsClosure(st, caller, target);
    LinkKeepsMirror(st, caller, target);
  }

  /** After the toggle every relationship list is duplicate-free and free of
      its owner. */
  lemma LinkKeepsLists(st: Store, caller: UserId, target: UserId)
    requires UsersValid(st.users)
    requires caller in st.users && target in st.users && caller != target
    ensures
      var users' := Link(st, caller, target).store.users;
      forall u :: u in users' ==>
        && NoDup(users'[u].connections) && NoDup(users'[u].followers)
        && u !in users'[u].connections && u !in users'[u].followers
  {
    var users, users' := st.users, Link(st, caller, target).store.users;
    var was := target in users[caller].connections;
    assert was <==> caller in users[target].followers;
    ToggleSideNoDup(users[caller].connections, target, was);
    ToggleSideNoDup(users[target].followers, caller, was);
    LinkChangesTwoLists(st, caller, target);
    forall u | u in users'
      ensures NoDup(users'[u].connections) && u !in users'[u].connections
    {
      if u != caller {
        assert users'[u].connections == users[u].connections;
      }
    }
    forall u | u in users'
      ensures NoDup(users'[u].followers) && u !in users'[u].followers
    {
      if u != target {
        assert users'[u].followers == users[u].followers;
      }
    }
  }

  /** After the toggle every relationship list refers only to existing users. */
  lemma LinkKeepsClosure(st: Store, caller: UserId, target: UserId)
    requires UsersValid(st.users)
    requires caller in st.users && target in st.users && caller != target
    ensures
      var users' := Link(st, caller, target).store.users;
      && (forall a, b :: a in users' && b in users'[a].connections ==> b in users')
      && (forall a, b :: a in users' && b in users'[a].followers ==> b in users')
  {
    var users, users' := st.users, Link(st, caller, target).store.users;
    LinkChangesTwoLists(st, caller, target);
    forall a, b | a in users' && b in users'[a].connections
      ensures b in users'
    {
      assert b in users[a].connections || b == target;
    }
    forall a, b | a in users' && b in users'[a].followers
      ensures b in users'
    {
      assert b in users[a].followers || b == caller;
    }
  }

  /** The toggle changes only the caller's `connections` and the target's
      `followers`, each by at most the other party. */
  lemma LinkChangesTwoLists(st: Store, caller: UserId, target: UserId)
    requires caller in st.users && target in st.users && caller != target
    ensures
      var users, users' := st.users, Link(st, caller, target).store.users;
      && users'.Keys == users.Keys
      && (forall u :: u in users' && u != caller ==> users'[u].connections == users[u].connections)
      && (forall u :: u in users' && u != target ==> users'[u].followers == users[u].followers)
      && (forall v :: v in users'[caller].connections ==> v in users[caller].connections || v == target)
      && (forall v :: v in users'[target].followers ==> v in users[target].followers || v == caller)
  {
  }

  /** After the toggle the caller follows the target exactly when the target
      lists the caller as a follower, and every other pair is as before. */
  lemma LinkKeepsMirror(st: Store, caller: UserId, target: UserId)
    requires UsersValid(st.users)
    requires caller in st.users && target in st.users && caller != target
    ensures Mirrored(Link(st, caller, target).store.users)
  {
    var users, users' := st.users, Link(st, caller, target).store.users;
    var was := target in users[caller].connections;
    assert was <==> caller in users[target].followers;
    forall a, b | a in users' && b in users'
      ensures b in users'[a].connections <==> a in users'[b].followers
    {
      assert users'[a].connections == users[a].connections || a == caller;
      assert users'[b].followers == users[b].followers || b == target;
    }
  }

  /** Two connect calls in a row: the second answer is the original state,
      both lists regain their members, and when the caller did not follow the
      target the users collection is restored exactly. */
  lemma ConnectTwice(st: Store, caller: UserId, target: UserId)
    requires Valid(st)
    requires caller in st.users && target in st.users && caller != target
    ensures
      var r1 := Connect(st, caller, target).value;
      var r2 := Connect(r1.store, caller, target).value;
      var was := target in st.users[caller].connections;
      && r1.body.isConnected == !was
      && r2.body.isConnected == was
      && (forall v :: v in r2.store.users[caller].connections <==> v in st.users[caller].connections)
      && (forall v :: v in r2.store.users[target].followers <==> v in st.users[target].followers)
      && (!was ==> r2.store.users == st.users)
  {
    var me, them := st.users[caller], st.users[target];
    var was := target in me.connections;
    assert was <==> caller in them.followers;
    if !was {
      LinkUndone(st, caller, target);
    }
  }

  /** Following and then unfollowing restores every user record exactly. */
  lemma LinkUndone(st: Store, caller: UserId, target: UserId)
    requires caller in st.users && target in st.users && caller != target
    requires target !in st.users[caller].connections
    requires caller !in st.users[target].followers
    ensures Link(Link(st, caller, target).store, caller, target).store.users == st.users
  {
    var me, them := st.users[caller], st.users[target];
    var me1 := me.(connections := me.connections + [target]);
    var them1 := them.(followers := them.followers + [caller]);
    var st1 := Link(st, caller, target).store;
    assert st1.users == st.users[caller := me1][target := them1];
    DropAllAfterAppend(me.connections, target);
    DropAllAfterAppend(them.followers, caller);
    assert Link(st1, caller, target).store.users == st1.users[caller := me][target := them];
    RestoreTwo(st.users, caller, target, me1, them1);
  }

  /** Overwriting two entries and then writing back their old values restores the map. */
  lemma RestoreTwo(m: map<UserId, User>, a: UserId, b: UserId, x: User, y: User)
    requires a in m && b in m && a != b
    ensures m[a := x][b := y][a := m[a]][b := m[b]] == m
  {
    var m' := m[a := x][b := y][a := m[a]][b := m[b]];
    assert m'.Keys == m.Keys;
  }

  /** After a connect, the status read reports what the connect answered. */
  lemma StatusAfterConnect(st: Store, caller: UserId, target: UserId)
    requires Connect(st, caller, target).Ok?
    ensures
      var reply := Connect(st, caller, target).value;
      ConnectionStatus(reply.store, caller, target) == Ok(reply.body.isConnected)
  {
    var reply := Connect(st, caller, target).value;
    var was := target in st.users[caller].connections;
    if was {
      assert target !in multiset(reply.store.users[caller].connections);
    }
  }

  /** The status read and the connect route disagree on unknown targets: the
      read answers "not connected", the toggle answers NotFound. */
  lemma StatusOfUnknownTarget(st: Store, caller: UserId, target: UserId)
    requires Valid(st)
    requires caller in st.users && target !in st.users
    ensures ConnectionStatus(st, caller, target) == Ok(false)
    ensures Connect(st, caller, target) == Err(NotFound)
  {
  }

  /** A user's posts are exactly the feed entries written by that user. */
  lemma UserPostsFromFeed(st: Store, author: UserId)
    ensures forall e :: e in UserPosts(st, author) <==> e in Feed(st) && e.1.author == author
  {
    FeedListsPosts(st);
    var mine := UserPosts(st, author);
    assert forall e :: e in mine <==> e in multiset(mine);
  }

  /** After a profile update the profile read shows the new name and bio. */
  lemma ProfileAfterUpdate(st: Store, caller: UserId, name: string, bio: Option<string>)
    requires UpdateProfile(st, caller, name, bio).Ok?
    ensures
      var profile := GetProfile(UpdateProfile(st, caller, name, bio).value.store, caller);
      && profile.Ok?
      && profile.value.name == name
      && profile.value.bio == (if bio.Some? then bio.value else st.users[caller].bio)
  {
  }

  /** A profile update keeps the users collection valid. */
  lemma UpdateProfilePreservesValid(st: Store, caller: UserId, name: string, bio: Option<string>)
    requires Valid(st)
    requires UpdateProfile(st, caller, name, bio).Ok?
    ensures Valid(UpdateProfile(st, caller, name, bio).value.store)
  {
    var users' := UpdateProfile(st, caller, name, bio).value.store.users;
    assert forall u :: u in users' ==>
      users'[u].connections == st.users[u].connections && users'[u].followers == st.users[u].followers;
  }

  /** Sending the same profile update twice has the effect of sending it once. */
  lemma UpdateProfileIdempotent(st: Store, caller: UserId, name: string, bio: Option<string>)
    requires UpdateProfile(st, caller, name, bio).Ok?
    ensures
      var once := UpdateProfile(st, caller, name, bio).value;
      UpdateProfile(once.store, caller, name, bio) == Ok(once)
  {
    var once := UpdateProfile(st, caller, name, bio).value;
    var twice := UpdateProfile(once.store, caller, name, bio).value;
    assert twice.body == once.body;
    assert twice.store.users == once.store.users;
  }
}
