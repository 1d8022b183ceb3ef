/** The post routes: create, feed, read one, delete by the author, the like
    toggle, and comments. Each handler is a function from the store, the
    caller's id and the request fields to the new store and the response. */
module Posts {
  import opened Lists
  import opened Ordering
  import opened Schema

  /** Validates the content, then stores a new post by the caller under a
      fresh id, stamped with the current time. Content the route lets through
      but the schema's `maxlength` refuses makes the save throw, which the
      handler answers with 500. */
  function CreatePost(st: Store, caller: UserId, content: string): (r: Result<Reply<(PostId, Post)>>)
    ensures r == Err(Validation) <==> !RouteAccepts(content, MaxContentLength)
    ensures r == Err(ServerError) <==> RouteAccepts(content, MaxContentLength) && !ValidContent(content)
    ensures r.Ok? <==> ValidContent(content)
    ensures r.Ok? && PostsValid(st) ==> r.value.body.0 !in st.posts
    ensures r.Ok? ==>
      var id, p := r.value.body.0, r.value.body.1;
      && p.content == content && p.author == caller
      && p.likes == [] && p.comments == []
      && p.createdAt == p.updatedAt == st.clock
      && r.value.store.posts.Keys == st.posts.Keys + {id}
      && r.value.store.posts[id] == p
      && (forall other :: other in st.posts && other != id ==> r.value.store.posts[other] == st.posts[other])
      && r.value.store.users == st.users
      && r.value.store.clock > st.clock
  {
    if !RouteAccepts(content, MaxContentLength) then Err(Validation)
    else if !ValidContent(content) then Err(ServerError)
    else
      var id := st.nextPostId;
      var p := NewPost(content, caller, st.clock);
      Ok(Reply(st.(posts := st.posts[id := p], clock := st.clock + 1, nextPostId := id + 1), (id, p)))
  }

  /** The public feed: every post, newest first. */
  function Feed(st: Store): (r: seq<(PostId, Post)>)
    ensures SortedDesc(r, PostTime)
    ensures forall e :: multiset(r)[e] == if e.0 in st.posts && st.posts[e.0] == e.1 then 1 else 0
  {
    SortDesc(Entries(st.posts), PostTime)
  }

  /** The feed lists exactly the stored posts. */
  lemma FeedListsPosts(st: Store)
    ensures forall e :: e in Feed(st) <==> e.0 in st.posts && st.posts[e.0] == e.1
  {
    EntriesMembers(st.posts);
    PermutationMembers(Entries(st.posts), Feed(st));
  }

  /** The feed of a collection holding one post is that post alone. */
  lemma FeedOfOne(st: Store, id: PostId, p: Post)
    requires st.posts == map[id := p]
    ensures Feed(st) == [(id, p)]
  {
    var feed := Feed(st);
    assert multiset(feed) == multiset{(id, p)};
    assert |feed| == |multiset(feed)| == 1;
    assert feed[0] in multiset(feed);
  }

  /** The feed of an empty collection is empty. */
  lemma FeedOfNone(st: Store)
    requires st.posts == map[]
    ensures Feed(st) == []
  {
    assert |Feed(st)| == |multiset(Feed(st))| == 0;
  }

  /** A single post, or NotFound. */
  function GetPost(st: Store, id: PostId): (r: Result<Post>)
    ensures r.Ok? <==> id in st.posts
    ensures r.Ok? ==> r.value == st.posts[id]
    ensures r.Err? ==> r.error == NotFound
  {
    if id in st.posts then Ok(st.posts[id]) else Err(NotFound)
  }

  /** Removes a post; only its author may. */
  function DeletePost(st: Store, caller: UserId, id: PostId): (r: Result<Store>)
    ensures id !in st.posts ==> r == Err(NotFound)
    ensures id in st.posts && st.posts[id].author != caller ==> r == Err(Unauthorized)
    ensures id in st.posts && st.posts[id].author == caller ==>
      && r.Ok?
      && r.value.posts.Keys == st.posts.Keys - {id}
      && (forall other :: other in r.value.posts ==> r.value.posts[other] == st.posts[other])
      && r.value.users == st.users
      && r.value.clock == st.clock && r.value.nextPostId == st.nextPostId
  {
    if id !in st.posts then Err(NotFound)
    else if st.posts[id].author != caller then Err(Unauthorized)
    else Ok(st.(posts := st.posts - {id}))
  }

  /** The like toggle on a `likes` array: a user who is listed loses the first
      entry naming them (`findIndex` then `splice`); otherwise the user is
      appended (`push`). */
  function ToggleLikeList(likes: seq<UserId>, user: UserId): (r: seq<UserId>)
    ensures user !in likes ==> r == likes + [user]
    ensures user in likes ==>
      exists i :: 0 <= i < |likes| && likes[i] == user && user !in likes[..i]
                  && r == likes[..i] + likes[i + 1..]
    ensures user in likes ==> multiset(r) == multiset(likes) - multiset{user}
    ensures NoDup(likes) ==> NoDup(r)
  {
    var i := FindIndex(likes, user);
    if i > -1 then
      assert RemoveAt(likes, i) == likes[..i] + likes[i + 1..];
      RemoveAt(likes, i)
    else likes + [user]
  }

  /** The like route: NotFound for an unknown post; otherwise the post's
      `likes` toggle for the caller and the post is saved. */
  function ToggleLike(st: Store, caller: UserId, id: PostId): (r: Result<Reply<Post>>)
    ensures id !in st.posts ==> r == Err(NotFound)
    ensures id in st.posts ==> r.Ok?
    ensures id in st.posts ==>
      var p, p' := st.posts[id], r.value.body;
      && (caller !in p.likes ==> p'.likes == p.likes + [caller])
      && (caller in p.likes ==>
            |p'.likes| == |p.likes| - 1 && multiset(p'.likes) == multiset(p.likes) - multiset{caller})
      && p'.likes == ToggleLikeList(p.likes, caller)
      && p' == p.(likes := p'.likes, updatedAt := st.clock)
      && r.value.store.posts == st.posts[id := p']
      && r.value.store.users == st.users
      && r.value.store.clock > st.clock && r.value.store.nextPostId == st.nextPostId
  {
    if id !in st.posts then Err(NotFound)
    else
      var p := st.posts[id];
      var p' := p.(likes := ToggleLikeList(p.likes, caller), updatedAt := st.clock);
      Ok(Reply(st.(posts := st.posts[id := p'], clock := st.clock + 1), p'))
  }

  /** The comment route: the text is validated before the post is looked up;
      the new comment goes to the front of the post's `comments` (`unshift`).
      Text the route lets through but the schema's `maxlength` refuses makes
      the save throw, which the handler answers with 500. */
  function AddComment(st: Store, caller: UserId, id: PostId, text: string): (r: Result<Reply<Post>>)
    ensures !RouteAccepts(text, MaxCommentLength) ==> r == Err(Validation)
    ensures RouteAccepts(text, MaxCommentLength) && id !in st.posts ==> r == Err(NotFound)
    ensures RouteAccepts(text, MaxCommentLength) && id in st.posts && !ValidCommentText(text) ==>
      r == Err(ServerError)
    ensures ValidCommentText(text) && id in st.posts ==> r.Ok?
    ensures ValidCommentText(text) && id in st.posts ==>
      var p, p' := st.posts[id], r.value.body;
      && p'.comments == [Comment(caller, text, st.clock)] + p.comments
      && p' == p.(comments := p'.comments, updatedAt := st.clock)
      && r.value.store.posts == st.posts[id := p']
      && r.value.store.users == st.users
      && r.value.store.clock > st.clock && r.value.store.nextPostId == st.nextPostId
  {
    if !RouteAccepts(text, MaxCommentLength) then Err(Validation)
    else if id !in st.posts then Err(NotFound)
    else if !ValidCommentText(text) then Err(ServerError)
    else
      var p := st.posts[id];
      var p' := p.(comments := [Comment(caller, text, st.clock)] + p.comments, updatedAt := st.clock);
      Ok(Reply(st.(posts := st.posts[id := p'], clock := st.clock + 1), p'))
  }

  // ---------------------------------------------------------------------------
  // Properties of the like toggle

  /** Liking and then unliking, starting from a `likes` without the user,
      gives back exactly the original array. */
  lemma ToggleLikeListTwiceFromAbsent(likes: seq<UserId>, user: UserId)
    requires user !in likes
    ensures ToggleLikeList(ToggleLikeList(likes, user), user) == likes
  {
    var once := ToggleLikeList(likes, user);
    assert once == likes + [user];
    assert user in once;
    var i :| 0 <= i < |once| && once[i] == user && user !in once[..i]
             && ToggleLikeList(once, user) == once[..i] + once[i + 1..];
    assert forall k :: 0 <= k < |likes| ==> once[k] == likes[k];
    assert i == |likes|;
    assert once[..i] == likes;
  }

  /** On a duplicate-free `likes`, toggling twice restores who has liked. */
  lemma ToggleLikeListTwiceMembership(likes: seq<UserId>, user: UserId)
    requires NoDup(likes)
    ensures forall v :: v in ToggleLikeList(ToggleLikeList(likes, user), user) <==> v in likes
  {
    if user !in likes {
      ToggleLikeListTwiceFromAbsent(likes, user);
    } else {
      var once := ToggleLikeList(likes, user);
      assert multiset(likes)[user] == 1;
      assert user !in multiset(once);
      var twice := ToggleLikeList(once, user);
      assert twice == once + [user];
      forall v
        ensures v in twice <==> v in likes
      {
        if v != user {
          assert v in once <==> v in multiset(likes);
        }
      }
    }
  }

  /** Without the duplicate-free invariant the membership round trip fails:
      two entries for the same user both disappear after two toggles. */
  lemma ToggleLikeListTwiceWithDuplicate(user: UserId)
    ensures ToggleLikeList(ToggleLikeList([user, user], user), user) == []
  {
    assert [user, user][..0] == [];
    assert [user][..0] == [];
  }

  /** The effect of one like toggle on the multiset of ids: the user's
      entry is taken away when present and added when absent. */
  ghost predicate LikeStep(before: seq<UserId>, after: seq<UserId>, user: UserId) {
    if user in before then multiset(after) == multiset(before) - multiset{user}
    else multiset(after) == multiset(before) + multiset{user}
  }

  /** Every like toggle makes one such step. */
  lemma ToggleLikeListStep(likes: seq<UserId>, user: UserId)
    ensures LikeStep(likes, ToggleLikeList(likes, user), user)
  {
    if user !in likes {
      assert multiset(likes + [user]) == multiset(likes) + multiset{user};
    }
  }

  /** `runs` lists the successive `likes` arrays of repeated toggles by the
      same user. */
  ghost predicate ToggleRun(runs: seq<seq<UserId>>, user: UserId) {
    forall k :: 0 <= k < |runs| - 1 ==> LikeStep(runs[k], runs[k + 1], user)
  }

  /** Starting without the user, after an even number of toggles the user is
      absent and after an odd number present exactly once; nobody else's
      entries change. */
  lemma {:induction false} ToggleLikeListParity(runs: seq<seq<UserId>>, user: UserId, n: nat)
    requires ToggleRun(runs, user)
    requires n < |runs|
    requires user !in runs[0]
    ensures multiset(runs[n])[user] == n % 2
    ensures forall v :: v != user ==> multiset(runs[n])[v] == multiset(runs[0])[v]
  {
    if n > 0 {
      ToggleLikeListParity(runs, user, n - 1);
      assert LikeStep(runs[n - 1], runs[n], user);
    }
  }

  /** The `likes` arrays after 0, 1, ..., n toggles by the same user. */
  function Toggles(likes: seq<UserId>, user: UserId, n: nat): (runs: seq<seq<UserId>>)
    ensures |runs| == n + 1 && runs[0] == likes
    ensures forall k :: 0 <= k < n ==> runs[k + 1] == ToggleLikeList(runs[k], user)
  {
    if n == 0 then [likes]
    else
      var prev := Toggles(likes, user, n - 1);
      prev + [ToggleLikeList(prev[n - 1], user)]
  }

  /** Repeated toggles form a run of like steps. */
  lemma TogglesRun(likes: seq<UserId>, user: UserId, n: nat)
    ensures ToggleRun(Toggles(likes, user, n), user)
  {
    var runs := Toggles(likes, user, n);
    forall k | 0 <= k < |runs| - 1
      ensures LikeStep(runs[k], runs[k + 1], user)
    {
      ToggleLikeListStep(runs[k], user);
    }
  }

  /** A user who had not liked a post and toggles `n` times has liked it
      exactly when `n` is odd; nobody else's likes change. */
  lemma RepeatedLikes(likes: seq<UserId>, user: UserId, n: nat)
    requires user !in likes
    ensures multiset(Toggles(likes, user, n)[n])[user] == n % 2
    ensures forall v :: v != user ==> multiset(Toggles(likes, user, n)[n])[v] == multiset(likes)[v]
  {
    TogglesRun(likes, user, n);
    ToggleLikeListParity(Toggles(likes, user, n), user, n);
  }

  /** The like route applied twice by the same caller: only the post's `likes`
      and timestamps change, membership is restored when `likes` holds no
      duplicate, and the array itself is restored when the caller had not
      liked the post. */
  lemma ToggleLikeTwice(st: Store, caller: UserId, id: PostId)
    requires id in st.posts
    requires NoDup(st.posts[id].likes)
    ensures
      var r1 := ToggleLike(st, caller, id).value;
      var r2 := ToggleLike(r1.store, caller, id).value;
      var p, p2 := st.posts[id], r2.body;
      && r2.store.posts == st.posts[id := p2]
      && p2 == p.(likes := p2.likes, updatedAt := p2.updatedAt)
      && (forall v :: v in p2.likes <==> v in p.likes)
      && (caller !in p.likes ==> p2.likes == p.likes)
  {
    var p := st.posts[id];
    var r1 := ToggleLike(st, caller, id).value;
    assert r1.body == p.(likes := ToggleLikeList(p.likes, caller), updatedAt := st.clock);
    var r2 := ToggleLike(r1.store, caller, id).value;
    assert r2.body == p.(likes := ToggleLikeList(r1.body.likes, caller), updatedAt := r1.store.clock);
    assert r2.store.posts == st.posts[id := r1.body][id := r2.body];
    OverwriteTwice(st.posts, id, r1.body, r2.body);
    ToggleLikeListTwiceMembership(p.likes, caller);
    if caller !in p.likes {
      ToggleLikeListTwiceFromAbsent(p.likes, caller);
    }
  }

  /** A second write to the same key overrides the first. */
  lemma OverwriteTwice(m: map<PostId, Post>, k: PostId, a: Post, b: Post)
    ensures m[k := a][k := b] == m[k := b]
  {
    assert m[k := a][k := b].Keys == m[k := b].Keys;
  }

  // ---------------------------------------------------------------------------
  // The store invariant is kept by every write

  /** A post valid at some time stays valid later. */
  lemma PostValidLater(p: Post, now: nat, later: nat)
    requires PostValid(p, now)
    requires now <= later
    ensures PostValid(p, later)
  {
  }

  /** Every post valid at `st.clock` is valid at `later`. */
  lemma PostsValidLater(st: Store, later: nat)
    requires PostsValid(st)
    requires st.clock <= later
    ensures forall id :: id in st.posts ==> PostValid(st.posts[id], later)
  {
    forall id | id in st.posts
      ensures PostValid(st.posts[id], later)
    {
      PostValidLater(st.posts[id], st.clock, later);
    }
  }

  /** Creating a post keeps the store valid. */
  lemma CreatePostPreservesValid(st: Store, caller: UserId, content: string)
    requires Valid(st)
    requires CreatePost(st, caller, content).Ok?
    ensures Valid(CreatePost(st, caller, content).value.store)
  {
    var reply := CreatePost(st, caller, content).value;
    PostsValidLater(st, reply.store.clock);
  }

  /** A created post gets a fresh id and is strictly newer than every stored post. */
  lemma CreatedPostIsNewest(st: Store, caller: UserId, content: string)
    requires PostsValid(st)
    requires CreatePost(st, caller, content).Ok?
    ensures
      var reply := CreatePost(st, caller, content).value;
      && reply.body.0 !in st.posts
      && (forall other :: other in st.posts ==> st.posts[other].createdAt < reply.body.1.createdAt)
  {
  }

  /** A new post heads the feed. */
  lemma CreatedPostLeadsFeed(st: Store, caller: UserId, content: string)
    requires PostsValid(st)
    requires CreatePost(st, caller, content).Ok?
    ensures
      var reply := CreatePost(st, caller, content).value;
      |Feed(reply.store)| > 0 && Feed(reply.store)[0] == reply.body
  {
    var reply := CreatePost(st, caller, content).value;
    CreatedPostIsNewest(st, caller, content);
    var feed := Feed(reply.store);
    FeedListsPosts(reply.store);
    NewestLeads(reply.store.posts, feed, reply.body.0);
  }

  /** In a newest-first listing of a collection, a post strictly newer than
      every other one comes first. */
  lemma NewestLeads(posts: map<PostId, Post>, feed: seq<(PostId, Post)>, id: PostId)
    requires SortedDesc(feed, PostTime)
    requires forall e :: e in feed <==> e.0 in posts && posts[e.0] == e.1
    requires id in posts
    requires forall k :: k in posts && k != id ==> posts[k].createdAt < posts[id].createdAt
    ensures |feed| > 0 && feed[0] == (id, posts[id])
  {
    assert (id, posts[id]) in feed;
    HeadIsLargest(feed, PostTime);
    assert feed[0] in feed;
  }

  /** A created post can be read back under the id it was answered with. */
  lemma ReadCreatedPost(st: Store, caller: UserId, content: string)
    requires CreatePost(st, caller, content).Ok?
    ensures
      var reply := CreatePost(st, caller, content).value;
      GetPost(reply.store, reply.body.0) == Ok(reply.body.1)
  {
  }

  /** Deleting a post keeps the store valid. */
  lemma DeletePostPreservesValid(st: Store, caller: UserId, id: PostId)
    requires Valid(st)
    requires DeletePost(st, caller, id).Ok?
    ensures Valid(DeletePost(st, caller, id).value)
  {
  }

  /** After a successful delete the post is gone: the feed no longer lists it,
      every other post is still listed, and deleting it again is NotFound. */
  lemma DeletedPostIsGone(st: Store, caller: UserId, id: PostId)
    requires DeletePost(st, caller, id).Ok?
    ensures
      var st' := DeletePost(st, caller, id).value;
      && DeletePost(st', caller, id) == Err(NotFound)
      && GetPost(st', id) == Err(NotFound)
      && (forall e :: e in Feed(st') ==> e.0 != id)
      && (forall other :: other in st.posts && other != id ==> (other, st.posts[other]) in Feed(st'))
  {
    var st' := DeletePost(st, caller, id).value;
    forall other | other in st.posts && other != id
      ensures (other, st.posts[other]) in Feed(st')
    {
      assert multiset(Feed(st'))[(other, st.posts[other])] == 1;
    }
  }

  /** The like toggle keeps the store valid. */
  lemma ToggleLikePreservesValid(st: Store, caller: UserId, id: PostId)
    requires Valid(st)
    requires id in st.posts
    ensures Valid(ToggleLike(st, caller, id).value.store)
  {
    var p := st.posts[id];
    var p' := p.(likes := ToggleLikeList(p.likes, caller), updatedAt := st.clock);
    assert ToggleLike(st, caller, id).value.store == st.(posts := st.posts[id := p'], clock := st.clock + 1);
    assert PostValid(p, st.clock);
    PostValidLater(p, st.clock, st.clock + 1);
    SavePostKeepsValid(st, id, p');
  }

  /** Saving a post valid at the next tick, under an existing id, keeps the
      store valid. */
  lemma SavePostKeepsValid(st: Store, id: PostId, p': Post)
    requires Valid(st)
    requires id in st.posts
    requires PostValid(p', st.clock + 1)
    ensures Valid(st.(posts := st.posts[id := p'], clock := st.clock + 1))
  {
    PostsValidLater(st, st.clock + 1);
  }

  /** Adding a comment keeps the store valid, in particular every post's
      comments stay newest first. */
  lemma AddCommentPreservesValid(st: Store, caller: UserId, id: PostId, text: string)
    requires Valid(st)
    requires AddComment(st, caller, id, text).Ok?
    ensures Valid(AddComment(st, caller, id, text).value.store)
  {
    var p := st.posts[id];
    var c := Comment(caller, text, st.clock);
    var p' := p.(comments := [c] + p.comments, updatedAt := st.clock);
    assert AddComment(st, caller, id, text).value.store == st.(posts := st.posts[id := p'], clock := st.clock + 1);
    assert PostValid(p, st.clock);
    PrependSorted(c, p.comments, CommentTime);
    SavePostKeepsValid(st, id, p');
  }

  /** Two comments added one after the other are listed latest first, in
      front of the older ones. */
  lemma CommentsNewestFirst(st: Store, id: PostId, first: UserId, text1: string, second: UserId, text2: string)
    requires id in st.posts
    requires ValidCommentText(text1) && ValidCommentText(text2)
    ensures
      var st1 := AddComment(st, first, id, text1).value.store;
      var st2 := AddComment(st1, second, id, text2).value.store;
      && st2.posts[id].comments
         == [Comment(second, text2, st1.clock), Comment(first, text1, st.clock)] + st.posts[id].comments
      && st1.clock > st.clock
  {
  }
}
