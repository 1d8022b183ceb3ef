/** The document store behind the routes: the Post schema with its embedded
    comments, the user records the routes read and write, the limits the
    schema and the request validators impose, and the invariants the route
    handlers keep. */
module Schema {
  import opened Lists
  import opened Ordering
  import opened Text

  /** Document ids. Every id is well-formed; one that names no document resolves to nothing. */
  type UserId = nat
  type PostId = nat

  /** Post content: `maxlength: 1000` in the schema, `isLength({ max: 1000 })` in the route.
      The two count differently (`Utf16Length`, `ValidatorLength`). */
  const MaxContentLength: nat := 1000
  /** Comment text: `maxlength: 500` in the schema, `isLength({ max: 500 })` in the route. */
  const MaxCommentLength: nat := 500
  /** Profile bio: `isLength({ max: 500 })` in the profile-update route. */
  const MaxBioLength: nat := 500
  /** The user search returns at most this many users (`limit(20)`). */
  const SearchLimit: nat := 20

  /** A request field that may be absent (`undefined`). */
  datatype Option<T> = None | Some(value: T)

  /** An entry of a post's `comments` array. */
  datatype Comment = Comment(user: UserId, text: string, createdAt: nat)

  /** A Post document; `createdAt`/`updatedAt` come from `timestamps: true`. */
  datatype Post = Post(
    content: string,
    author: UserId,
    likes: seq<UserId>,
    comments: seq<Comment>,
    createdAt: nat,
    updatedAt: nat)

  /** A User document, with the fields the routes touch. */
  datatype User = User(
    name: string,
    email: string,
    password: string,
    bio: string,
    connections: seq<UserId>,
    followers: seq<UserId>,
    createdAt: nat)

  /** Both collections, the clock that stamps saves, and the next fresh post id. */
  datatype Store = Store(
    users: map<UserId, User>,
    posts: map<PostId, Post>,
    clock: nat,
    nextPostId: PostId)

  /** The outcomes the handlers answer with instead of the updated record:
      400 with validation errors, 404, 401, 400 on self-connection, and 500. */
  datatype ApiError = NotFound | Unauthorized | Validation | SelfConnect | ServerError

  datatype Result<T> = Ok(value: T) | Err(error: ApiError)

  /** A successful write: the store after it and the record sent back. */
  datatype Reply<R> = Reply(store: Store, body: R)

  /** Text the route's validators let through: `not().isEmpty()` and
      `isLength({ max })`, measured by the validator's count. */
  predicate RouteAccepts(text: string, max: nat) {
    text != [] && ValidatorLength(text) <= max
  }

  /** Text the schema accepts on save: `required` and `maxlength: max`,
      measured in UTF-16 code units. Such text always passes the route too. */
  predicate SchemaAccepts(text: string, max: nat)
    ensures SchemaAccepts(text, max) ==> RouteAccepts(text, max)
  {
    text != [] && Utf16Length(text) <= max
  }

  /** Post content the schema accepts. */
  predicate ValidContent(content: string) {
    SchemaAccepts(content, MaxContentLength)
  }

  /** Comment text the schema accepts. */
  predicate ValidCommentText(text: string) {
    SchemaAccepts(text, MaxCommentLength)
  }

  /** A new post as the schema builds it: empty `likes` and `comments`, both
      timestamps set to the save time. */
  function NewPost(content: string, author: UserId, now: nat): Post {
    Post(content, author, [], [], now, now)
  }

  /** Ordering keys of the listings. */
  function PostTime(e: (PostId, Post)): int {
    e.1.createdAt
  }

  function CommentTime(c: Comment): int {
    c.createdAt
  }

  /** A post as the schema accepts it, stamped before `now`, its comments newest first. */
  ghost predicate PostValid(p: Post, now: nat) {
    && ValidContent(p.content)
    && (forall c :: c in p.comments ==> ValidCommentText(c.text) && c.createdAt < now)
    && SortedDesc(p.comments, CommentTime)
    && p.createdAt <= p.updatedAt < now
    && NoDup(p.likes)
  }

  /** Every stored post is valid and has an id below the next fresh one. */
  ghost predicate PostsValid(st: Store) {
    forall id :: id in st.posts ==> id < st.nextPostId && PostValid(st.posts[id], st.clock)
  }

  /** `b` follows `a` exactly when `a` lists `b` among its followers. */
  ghost predicate Mirrored(users: map<UserId, User>) {
    forall a, b :: a in users && b in users ==>
      (b in users[a].connections <==> a in users[b].followers)
  }

  /** Relationship lists refer to existing users, hold no duplicate and never
      the owner, and the two sides mirror each other. */
  ghost predicate UsersValid(users: map<UserId, User>) {
    && (forall u :: u in users ==>
          && NoDup(users[u].connections) && NoDup(users[u].followers)
          && u !in users[u].connections && u !in users[u].followers)
    && (forall a, b :: a in users && b in users[a].connections ==> b in users)
    && (forall a, b :: a in users && b in users[a].followers ==> b in users)
    && Mirrored(users)
  }

  ghost predicate Valid(st: Store) {
    PostsValid(st) && UsersValid(st.users)
  }
}
