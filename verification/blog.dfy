/** Both collections together, as the two modules are meant to share them:
    `Author.posts` reading the array the post mutations change, and
    `Post.author` the one the author mutations change. (As loaded, the
    mutual `require` at posts.js:2 and author.js:2 leaves one of the two
    bindings `undefined`, because each module fills its exports only at its
    end; the model follows the intended wiring instead.) A `Store` holds the
    pair, and `Apply` runs one mutation of either module on it. */
module Blog {
  import opened Results
  import opened Collections
  import opened Records
  import Posts
  import Authors

  datatype Store = Store(authors: seq<Author>, posts: seq<Post>)

  /** The seeded arrays both modules start from. */
  const Seed: Store := Store(Authors.Seed, Posts.Seed)

  /** The mutation fields the two resolver maps implement, with their
      arguments. */
  datatype Mutation =
    | CreateAuthor(firstName: string, lastName: string)
    | DeleteAuthor(authorId: int)
    | CreatePost(title: string, authorId: int)
    | DeletePost(postId: int)
    | UpvotePost(postId: int)

  /** What a mutation returns: an `Author`, a `Post` or a `Boolean`. */
  datatype Payload = AuthorPayload(author: Author) | PostPayload(post: Post) | BoolPayload(ok: bool)

  /** Ids ascend in both arrays, as in the seed, and no post has negative votes. */
  predicate Valid(s: Store) {
    && StrictlyAscending(s.authors, AuthorId)
    && StrictlyAscending(s.posts, PostId)
    && forall i :: 0 <= i < |s.posts| ==> s.posts[i].votes >= 0
  }

  function Wrap<T>(r: Result<T>, f: T -> Payload): Result<Payload> {
    match r
    case Ok(v) => Ok(f(v))
    case Err(e) => Err(e)
  }

  /** One mutation: author mutations leave the posts alone, post mutations
      leave the authors alone, and a thrown error changes nothing. */
  function Apply(s: Store, m: Mutation): (r: Step<Store, Payload>)
    ensures m.CreateAuthor? || m.DeleteAuthor? ==> r.state.posts == s.posts
    ensures m.CreatePost? || m.DeletePost? || m.UpvotePost? ==> r.state.authors == s.authors
    ensures r.result.Err? ==> r.state == s
    ensures m.DeleteAuthor? || m.DeletePost? ==> r.result == Ok(BoolPayload(true))
  {
    match m
    case CreateAuthor(firstName, lastName) =>
      var step := Authors.CreateAuthor(s.authors, firstName, lastName);
      Step(s.(authors := step.state), Wrap(step.result, a => AuthorPayload(a)))
    case DeleteAuthor(authorId) =>
      var step := Authors.DeleteAuthor(s.authors, authorId);
      Step(s.(authors := step.state), Wrap(step.result, b => BoolPayload(b)))
    case CreatePost(title, authorId) =>
      var step := Posts.CreatePost(s.posts, title, authorId);
      Step(s.(posts := step.state), Wrap(step.result, p => PostPayload(p)))
    case DeletePost(postId) =>
      var step := Posts.DeletePost(s.posts, postId);
      Step(s.(posts := step.state), Wrap(step.result, b => BoolPayload(b)))
    case UpvotePost(postId) =>
      var step := Posts.UpvotePost(s.posts, postId);
      Step(s.(posts := step.state), Wrap(step.result, p => PostPayload(p)))
  }

  lemma SeedIsValid()
    ensures Valid(Seed)
  {
  }

  /** Every mutation keeps ids ascending (so unique, and the next created id
      fresh) and votes non-negative. */
  lemma ApplyPreservesValid(s: Store, m: Mutation)
    requires Valid(s)
    ensures Valid(Apply(s, m).state)
  {
    match m
    case CreateAuthor(firstName, lastName) =>
      Authors.CreateAuthorKeepsIdsAscending(s.authors, firstName, lastName);
    case DeleteAuthor(authorId) =>
      Authors.DeleteAuthorKeepsIdsAscending(s.authors, authorId);
    case CreatePost(title, authorId) =>
      Posts.CreatePostKeepsIdsAscending(s.posts, title, authorId);
    case DeletePost(postId) =>
      var after := Apply(s, m).state.posts;
      Posts.DeletePostKeepsIdsAscending(s.posts, postId);
      Posts.DeletePostKeepsOrder(s.posts, postId);
      forall i | 0 <= i < |after| ensures after[i].votes >= 0 {
        SubsequenceElement(after, s.posts, i);
      }
    case UpvotePost(postId) =>
      Posts.UpvotePostKeepsIds(s.posts, postId);
  }

  /** A post is among `Author.posts(a)` exactly when `Post.author` of it is
      `a`, provided author ids are unique. */
  lemma AuthorPostsAgreeWithPostAuthor(authors: seq<Author>, posts: seq<Post>, a: Author, p: Post)
    requires UniqueKeys(authors, AuthorId) && a in authors
    ensures p in Authors.AuthorPosts(posts, a) <==> p in posts && Posts.PostAuthor(authors, p) == Some(a)
  {
    var r := Posts.PostAuthor(authors, p);
    if r.Some? {
      var k :| 0 <= k < |authors| && authors[k] == a;
      var i :| 0 <= i < |authors| && authors[i] == r.value;
      if r.value.id == a.id {
        assert AuthorId(authors[i]) == AuthorId(authors[k]);
      }
    }
  }

  /** Deleting an author does not cascade: the posts stay, and with unique
      author ids the posts that named it now resolve to no author. */
  lemma DeleteAuthorOrphansPosts(s: Store, authorId: int)
    requires UniqueKeys(s.authors, AuthorId)
    ensures Apply(s, DeleteAuthor(authorId)).state.posts == s.posts
    ensures HasKey(s.authors, AuthorId, authorId) ==>
      forall p :: p in s.posts && p.authorId == authorId ==>
        Posts.PostAuthor(Apply(s, DeleteAuthor(authorId)).state.authors, p) == None
  {
    if HasKey(s.authors, AuthorId, authorId) {
      var i := FindIndex(s.authors, AuthorId, authorId);
      var after := Apply(s, DeleteAuthor(authorId)).state.authors;
      assert after == RemoveAt(s.authors, i);
      forall j | 0 <= j < |after| ensures after[j].id != authorId {
        if j >= i {
          assert after[j] == s.authors[j + 1];
          assert AuthorId(s.authors[j + 1]) != AuthorId(s.authors[i]);
        }
      }
    }
  }

  /** A post created for an existing author's id resolves back to that
      author and is listed last among that author's posts. */
  lemma CreatePostLinksAuthor(s: Store, title: string, a: Author)
    requires Valid(s) && |s.posts| > 0 && a in s.authors
    ensures var r := Apply(s, CreatePost(title, a.id));
      && r.result.Ok?
      && Posts.PostAuthor(r.state.authors, r.result.value.post) == Some(a)
      && Authors.AuthorPosts(r.state.posts, a) == Authors.AuthorPosts(s.posts, a) + [r.result.value.post]
  {
    var step := Posts.CreatePost(s.posts, title, a.id);
    AscendingKeysAreUnique(s.authors, AuthorId);
    AuthorPostsAgreeWithPostAuthor(s.authors, step.state, a, step.result.value);
    FilterAppend(s.posts, step.result.value, PostAuthorId, a.id);
    assert PostAuthorId(step.result.value) == a.id;
    assert step.state == s.posts + [step.result.value];
  }

  /** Id reuse re-parents orphans: a post written for author 4 is orphaned
      by `deleteAuthor(4)`, and the next `createAuthor` takes id 4 again, so
      the post now resolves to the newcomer. */
  lemma DeleteAuthorThenCreateReparents()
    ensures Apply(Seed, CreatePost("x", 4)).state == Store(Authors.Seed, Posts.Seed + [Post(5, 4, "x", 0)])
    ensures Apply(Store(Authors.Seed, Posts.Seed + [Post(5, 4, "x", 0)]), DeleteAuthor(4)).state
      == Store(Authors.Seed[..3], Posts.Seed + [Post(5, 4, "x", 0)])
    ensures Posts.PostAuthor(Authors.Seed[..3], Post(5, 4, "x", 0)) == None
    ensures Apply(Store(Authors.Seed[..3], Posts.Seed + [Post(5, 4, "x", 0)]), CreateAuthor("A", "B")).state.authors
      == Authors.Seed[..3] + [Author(4, "A", "B")]
    ensures Posts.PostAuthor(Authors.Seed[..3] + [Author(4, "A", "B")], Post(5, 4, "x", 0)) == Some(Author(4, "A", "B"))
  {
    assert IsFirstWithKey(Authors.Seed, AuthorId, 4, 3);
    assert IsFirstWithKey(Authors.Seed[..3] + [Author(4, "A", "B")], AuthorId, 4, 3);
  }

  /** With counter-issued author ids a creation never adopts an orphan: a
      post naming an already-issued id that no author carries still
      resolves to no author afterwards. */
  lemma CreateAuthorFreshKeepsOrphans(t: Authors.AuthorTable, p: Post, firstName: string, lastName: string)
    requires p.authorId <= t.lastIssued && Posts.PostAuthor(t.authors, p) == None
    ensures Posts.PostAuthor(Authors.CreateAuthorFresh(t, firstName, lastName).state.authors, p) == None
  {
    var after := Authors.CreateAuthorFresh(t, firstName, lastName).state.authors;
    forall i | 0 <= i < |after| ensures after[i].id != p.authorId {
      if i < |t.authors| {
        assert after[i] == t.authors[i];
      }
    }
  }

  const Ada: Author := Author(5, "Ada", "Lovelace")
  const Hello: Post := Post(5, 5, "Hello", 0)

  /** A run from the seed, step by step: a new author gets id 5, a post
      for them gets id 5 with no votes, an upvote gives it one vote, the
      post resolves to the new author, and an upvote of an unknown id fails. */
  lemma ScenarioCreateAuthor()
    ensures Apply(Seed, CreateAuthor("Ada", "Lovelace"))
      == Step(Store(Authors.Seed + [Ada], Posts.Seed), Ok(AuthorPayload(Ada)))
  {
  }

  lemma ScenarioCreatePost()
    ensures Apply(Store(Authors.Seed + [Ada], Posts.Seed), CreatePost("Hello", 5))
      == Step(Store(Authors.Seed + [Ada], Posts.Seed + [Hello]), Ok(PostPayload(Hello)))
  {
  }

  lemma ScenarioUpvote()
    ensures Apply(Store(Authors.Seed + [Ada], Posts.Seed + [Hello]), UpvotePost(5))
      == Step(Store(Authors.Seed + [Ada], Posts.Seed + [Hello.(votes := 1)]), Ok(PostPayload(Hello.(votes := 1))))
  {
    var posts := Posts.Seed + [Hello];
    assert IsFirstWithKey(posts, PostId, 5, 4);
    assert posts[4 := Hello.(votes := 1)] == Posts.Seed + [Hello.(votes := 1)];
  }

  lemma ScenarioPostAuthor()
    ensures Posts.PostAuthor(Authors.Seed + [Ada], Hello.(votes := 1)) == Some(Ada)
  {
    assert IsFirstWithKey(Authors.Seed + [Ada], AuthorId, 5, 4);
  }

  lemma ScenarioUpvoteMissing()
    ensures Apply(Store(Authors.Seed + [Ada], Posts.Seed + [Hello.(votes := 1)]), UpvotePost(999)).result
      == Err(PostNotFound(999))
  {
    var upvoted := Posts.Seed + [Hello.(votes := 1)];
    assert !HasKey(upvoted, PostId, 999) by {
      forall j | 0 <= j < |upvoted| ensures PostId(upvoted[j]) != 999 {
      }
    }
  }
}
