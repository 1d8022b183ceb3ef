/** Concrete request sequences against a small store of two users, worked
    through the route functions. */
module Scenarios {
  import opened Lists
  import opened Text
  import opened Schema
  import opened Posts
  import opened Users

  const Alice: User := User("Alice", "alice@example.com", "hash-a", "", [], [], 1)
  const Bob: User := User("Bob", "bob@example.com", "hash-b", "", [], [], 2)

  /** Two users, no posts, the clock at 10. */
  const Start: Store := Store(map[1 := Alice, 2 := Bob], map[], 10, 0)

  /** Alice's post "Hello" as created, and the store after each request of
      the scenarios below: create, like, unlike, comment. */
  const Hello: Post := Post("Hello", 1, [], [], 10, 10)
  const Posted: Store := Store(Start.users, map[0 := Hello], 11, 1)
  const Liked: Store := Store(Start.users, map[0 := Hello.(likes := [2], updatedAt := 11)], 12, 1)
  const Unliked: Store := Store(Start.users, map[0 := Hello.(updatedAt := 12)], 13, 1)
  const Discussed: Store :=
    Store(Start.users, map[0 := Hello.(comments := [Comment(2, "Nice", 13)], updatedAt := 13)], 14, 1)

  /** Alice posts "Hello": the post is stored under id 0 and sent back. */
  lemma CreateScenario()
    ensures CreatePost(Start, 1, "Hello") == Ok(Reply(Posted, (0, Hello)))
  {
  }

  /** Bob likes the post and then unlikes it; each request answers with the
      saved post. */
  lemma LikeScenario()
    ensures ToggleLike(Posted, 2, 0) == Ok(Reply(Liked, Liked.posts[0]))
    ensures ToggleLike(Liked, 2, 0) == Ok(Reply(Unliked, Unliked.posts[0]))
  {
    assert ToggleLikeList([], 2) == [2] by {
      assert [] + [2] == [2];
    }
    assert Posted.posts[0 := Liked.posts[0]] == Liked.posts;
    assert ToggleLikeList([2], 2) == [] by {
      assert FindIndex([2], 2) == 0;
      assert RemoveAt([2], 0) == [];
    }
    assert Liked.posts[0 := Unliked.posts[0]] == Unliked.posts;
  }

  /** Bob comments "Nice"; the comment is stamped with the save time. */
  lemma CommentScenario()
    ensures AddComment(Unliked, 2, 0, "Nice") == Ok(Reply(Discussed, Discussed.posts[0]))
  {
    assert ValidCommentText("Nice");
    assert [Comment(2, "Nice", 13)] + [] == [Comment(2, "Nice", 13)];
    assert Unliked.posts[0 := Discussed.posts[0]] == Discussed.posts;
  }

  /** Bob may not delete Alice's post, Alice may, and afterwards it reads as NotFound. */
  lemma DeleteScenario()
    ensures DeletePost(Discussed, 2, 0) == Err(Unauthorized)
    ensures DeletePost(Discussed, 1, 0).Ok?
    ensures GetPost(DeletePost(Discussed, 1, 0).value, 0) == Err(NotFound)
  {
  }

  /** After Alice's first post the feed holds exactly that post; after she
      deletes it the feed is empty and a second delete is NotFound. */
  lemma FeedScenario()
    ensures CreatePost(Start, 1, "hello").Ok?
    ensures
      var created := CreatePost(Start, 1, "hello").value;
      && Feed(created.store) == [(0, Post("hello", 1, [], [], 10, 10))]
      && DeletePost(created.store, 1, 0).Ok?
      && Feed(DeletePost(created.store, 1, 0).value) == []
      && DeletePost(DeletePost(created.store, 1, 0).value, 1, 0) == Err(NotFound)
  {
    var created := CreatePost(Start, 1, "hello").value;
    assert created.store.posts == map[0 := Post("hello", 1, [], [], 10, 10)];
    FeedOfOne(created.store, 0, Post("hello", 1, [], [], 10, 10));
    var gone := DeletePost(created.store, 1, 0).value;
    assert gone.posts == map[];
    FeedOfNone(gone);
  }

  /** Content of exactly 1000 characters is accepted, 1001 and the empty
      content are refused. */
  lemma ContentLengthBoundary()
    ensures CreatePost(Start, 1, seq(1000, i => 'a')).Ok?
    ensures CreatePost(Start, 1, seq(1001, i => 'a')) == Err(Validation)
    ensures CreatePost(Start, 1, "") == Err(Validation)
  {
    PlainTextLengths(seq(1000, i => 'a'));
    PlainTextLengths(seq(1001, i => 'a'));
  }

  /** A comment of exactly 500 characters is accepted, 501 is refused, and
      the text is checked before the post is looked up. */
  lemma CommentLengthBoundary()
    ensures
      var st := CreatePost(Start, 1, "Hello").value.store;
      && AddComment(st, 2, 0, seq(500, i => 'b')).Ok?
      && AddComment(st, 2, 0, seq(501, i => 'b')) == Err(Validation)
      && AddComment(st, 2, 7, seq(501, i => 'b')) == Err(Validation)
      && AddComment(st, 2, 7, "Hi") == Err(NotFound)
  {
    assert ValidContent("Hello");
    var created := CreatePost(Start, 1, "Hello").value;
    assert 0 in created.store.posts && 7 !in created.store.posts;
    PlainTextLengths(seq(500, i => 'b'));
    PlainTextLengths(seq(501, i => 'b'));
  }

  /** Text the route's count lets through but the schema's UTF-16 count
      refuses makes the save fail: 500 emoji are 1000 code units, more than a
      comment may hold, and 1001 presentation selectors count as nothing for
      the route but as 1001 units for the schema. 250 emoji fit a comment. */
  lemma SchemaLengthScenario()
    ensures AddComment(Posted, 2, 0, seq(500, i => '\U{1F600}')) == Err(ServerError)
    ensures AddComment(Posted, 2, 0, seq(250, i => '\U{1F600}')).Ok?
    ensures CreatePost(Start, 1, seq(501, i => '\U{1F600}')) == Err(ServerError)
    ensures CreatePost(Start, 1, seq(1001, i => '\U{FE0F}')) == Err(ServerError)
  {
    Utf16LengthExtremes(seq(500, i => '\U{1F600}'));
    Utf16LengthExtremes(seq(250, i => '\U{1F600}'));
    Utf16LengthExtremes(seq(501, i => '\U{1F600}'));
    Utf16LengthExtremes(seq(1001, i => '\U{FE0F}'));
    ValidatorLengthExtremes(seq(500, i => '\U{1F600}'));
    ValidatorLengthExtremes(seq(501, i => '\U{1F600}'));
    ValidatorLengthExtremes(seq(1001, i => '\U{FE0F}'));
  }

  /** Alice follows Bob, then unfollows him; self-connection and unknown
      targets are refused. */
  lemma ConnectScenario()
    ensures
      var first := Connect(Start, 1, 2).value;
      var second := Connect(first.store, 1, 2).value;
      && first.body.isConnected
      && first.store.users[1].connections == [2]
      && first.store.users[2].followers == [1]
      && ConnectionStatus(first.store, 1, 2) == Ok(true)
      && !second.body.isConnected
      && second.store.users == Start.users
      && ConnectionStatus(second.store, 1, 2) == Ok(false)
    ensures Connect(Start, 1, 1) == Err(SelfConnect)
    ensures Connect(Start, 1, 7) == Err(NotFound)
    ensures Connect(Start, 7, 1) == Err(ServerError)
  {
    var first := Connect(Start, 1, 2).value;
    assert first.store.users[1].connections == [2];
    DropAllAfterAppend([], 2);
    DropAllAfterAppend([], 1);
    LinkUndone(Start, 1, 2);
  }

  /** A profile update without a bio keeps the bio; an empty name is refused. */
  lemma UpdateProfileScenario()
    ensures
      var updated := UpdateProfile(Start, 2, "Robert", None).value;
      && updated.body.name == "Robert"
      && updated.body.bio == Bob.bio
      && updated.body.connections == Bob.connections
    ensures UpdateProfile(Start, 2, "", Some("bio")) == Err(Validation)
    ensures UpdateProfile(Start, 9, "Nobody", None) == Err(NotFound)
  {
  }
}
