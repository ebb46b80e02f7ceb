/** The post resolvers of posts.js over an explicit post collection: the
    mutations `createPost`, `deletePost` and `upvotePost`, and the field
    resolver `Post.author`, which reads the author collection. */
module Posts {
  import opened Results
  import opened Collections
  import opened Records
  import Decimal

  /** The initial contents of the post array (posts.js:60-65). */
  const Seed: seq<Post> := [
    Post(1, 1, "Introduction to GraphQL", 2),
    Post(2, 2, "Welcome to Apollo", 3),
    Post(3, 2, "Advanced GraphQL", 1),
    Post(4, 3, "Launchpad is Cool", 7)
  ]

  const NotFoundPrefix: string := "Couldn't find post with id "

  /** The message of the error `upvotePost` throws for a missing id: the
      fixed prefix followed by the id, from which the id can be read back.
      The suffix is canonical, so by `Decimal.CanonicalIsToDecimal` it is
      the one text `${postId}` produces. */
  function NotFoundMessage(postId: int): (m: string)
    ensures |m| > |NotFoundPrefix| && m[..|NotFoundPrefix|] == NotFoundPrefix
    ensures Decimal.ParseDecimal(m[|NotFoundPrefix|..]) == Some(postId)
    ensures Decimal.Canonical(m[|NotFoundPrefix|..])
  {
    Decimal.ToDecimalRoundTrip(postId);
    var m := NotFoundPrefix + Decimal.ToDecimal(postId);
    assert m[|NotFoundPrefix|..] == Decimal.ToDecimal(postId);
    m
  }

  /** The text a thrown error carries. A missing post yields the
      `upvotePost` message; reading `.id` of `undefined` yields the
      runtime's TypeError text. `AuthorNotFound` arises only from the
      corrected author deletion, which no source resolver has, so its text
      is this model's own, patterned on the post message. */
  function ErrorMessage(e: BlogError): (m: string)
    ensures e.PostNotFound? ==>
      && |m| > |NotFoundPrefix| && m[..|NotFoundPrefix|] == NotFoundPrefix
      && Decimal.ParseDecimal(m[|NotFoundPrefix|..]) == Some(e.postId)
      && Decimal.Canonical(m[|NotFoundPrefix|..])
  {
    match e
    case PostNotFound(postId) => NotFoundMessage(postId)
    case AuthorNotFound(authorId) => "Couldn't find author with id " + Decimal.ToDecimal(authorId)
    case LastRecordUndefined => "Cannot read properties of undefined (reading 'id')"
  }

  /** `createPost(title, authorId)`: appends a post whose id is one more
      than the last post's, with no votes, and returns it. Reading the last
      post of an empty array throws. */
  function CreatePost(posts: seq<Post>, title: string, authorId: int): (r: Step<seq<Post>, Post>)
    ensures r.result.Err? <==> |posts| == 0
    ensures r.result.Err? ==> r.state == posts && r.result.error == LastRecordUndefined
    ensures r.result.Ok? ==>
      && r.result.value.id == posts[|posts| - 1].id + 1
      && r.result.value.title == title
      && r.result.value.authorId == authorId
      && r.result.value.votes == 0
      && |r.state| == |posts| + 1
      && r.state[..|posts|] == posts
      && r.state[|posts|] == r.result.value
  {
    if |posts| == 0 then Step(posts, Err(LastRecordUndefined))
    else
      var post := Post(posts[|posts| - 1].id + 1, authorId, title, 0);
      Step(posts + [post], Ok(post))
  }

  /** `deletePost(postId)` as written: `splice` at the index `findIndex`
      reports. A present id loses its first record; an absent one makes the
      index -1, which removes the last record. The result is always true. */
  function DeletePost(posts: seq<Post>, postId: int): (r: Step<seq<Post>, bool>)
    ensures r.result == Ok(true)
    ensures forall i :: IsFirstWithKey(posts, PostId, postId, i) ==> r.state == RemoveAt(posts, i)
    ensures !HasKey(posts, PostId, postId) ==> r.state == DropLast(posts)
  {
    Step(SpliceOne(posts, FindIndex(posts, PostId, postId)), Ok(true))
  }

  /** `deletePost(postId)` as evidently intended: remove the first record
      with the id, or report that there is none and change nothing. */
  function DeletePostChecked(posts: seq<Post>, postId: int): (r: Step<seq<Post>, bool>)
    ensures r.result.Err? <==> !HasKey(posts, PostId, postId)
    ensures r.result.Err? ==> r.state == posts && r.result.error == PostNotFound(postId)
    ensures r.result.Ok? ==> r.result.value && exists i :: IsFirstWithKey(posts, PostId, postId, i) && r.state == RemoveAt(posts, i)
  {
    var i := FindIndex(posts, PostId, postId);
    if i == -1 then Step(posts, Err(PostNotFound(postId)))
    else Step(RemoveAt(posts, i), Ok(true))
  }

  /** `upvotePost(postId)`: the first post with the id gets one more vote
      and is returned; without one, the call throws `PostNotFound(postId)`,
      whose text is `ErrorMessage`'s, and nothing changes. */
  function UpvotePost(posts: seq<Post>, postId: int): (r: Step<seq<Post>, Post>)
    ensures r.result.Err? <==> !HasKey(posts, PostId, postId)
    ensures r.result.Err? ==> r.state == posts && r.result.error == PostNotFound(postId)
    ensures |r.state| == |posts|
    ensures forall i :: IsFirstWithKey(posts, PostId, postId, i) ==>
      && r.result == Ok(r.state[i])
      && r.state[i].votes == posts[i].votes + 1
      && r.state[i].id == posts[i].id
      && r.state[i].title == posts[i].title
      && r.state[i].authorId == posts[i].authorId
      && forall j :: 0 <= j < |posts| && j != i ==> r.state[j] == posts[j]
  {
    var i := FindIndex(posts, PostId, postId);
    if i == -1 then Step(posts, Err(PostNotFound(postId)))
    else
      var post := posts[i].(votes := posts[i].votes + 1);
      Step(posts[i := post], Ok(post))
  }

  /** The post array one `upvotePost(postId)` leaves behind, on its own so
      that repeated calls can be reasoned about without the result part. */
  function Upvoted(posts: seq<Post>, postId: int): seq<Post> {
    var i := FindIndex(posts, PostId, postId);
    if i == -1 then posts else posts[i := posts[i].(votes := posts[i].votes + 1)]
  }

  /** The post collection after `n` calls of `upvotePost(postId)` in a row. */
  function UpvoteTimes(posts: seq<Post>, postId: int, n: nat): seq<Post>
    decreases n
  {
    if n == 0 then posts else UpvoteTimes(Upvoted(posts, postId), postId, n - 1)
  }

  /** `Post.author(post)`: the first author whose id is the post's
      `authorId`, or nothing when no author has it. */
  function PostAuthor(authors: seq<Author>, post: Post): (r: Option<Author>)
    ensures r.None? <==> forall i :: 0 <= i < |authors| ==> authors[i].id != post.authorId
    ensures r.Some? ==> exists i ::
      && 0 <= i < |authors|
      && authors[i] == r.value
      && r.value.id == post.authorId
      && forall j :: 0 <= j < i ==> authors[j].id != post.authorId
  {
    Find(authors, AuthorId, post.authorId)
  }

  /** Ascending ids stay ascending after a creation, and the new id is one
      no earlier post carries. */
  lemma CreatePostKeepsIdsAscending(posts: seq<Post>, title: string, authorId: int)
    requires StrictlyAscending(posts, PostId)
    ensures StrictlyAscending(CreatePost(posts, title, authorId).state, PostId)
    ensures CreatePost(posts, title, authorId).result.Ok? ==>
      !HasKey(posts, PostId, CreatePost(posts, title, authorId).result.value.id)
  {
  }

  /** Without ascending ids the id `createPost` picks may already be taken. */
  lemma CreatePostCanReuseId()
    ensures var posts := [Post(2, 1, "b", 0), Post(1, 1, "a", 0)];
      && CreatePost(posts, "c", 1).result == Ok(Post(2, 1, "c", 0))
      && HasKey(posts, PostId, 2)
  {
    var posts := [Post(2, 1, "b", 0), Post(1, 1, "a", 0)];
    assert PostId(posts[0]) == 2;
  }

  /** Taking last id + 1 reuses the id of a deleted last post: on the seed,
      `deletePost(4)` then `createPost` issues id 4 again. */
  lemma DeleteThenCreateReusesId()
    ensures DeletePost(Seed, 4).state == Seed[..3]
    ensures CreatePost(Seed[..3], "x", 1).result == Ok(Post(4, 1, "x", 0))
    ensures Seed[3].id == 4
  {
    assert IsFirstWithKey(Seed, PostId, 4, 3);
  }

  /** The post array with the highest id ever issued, as a store-assigned,
      monotonic id needs. */
  datatype PostTable = PostTable(posts: seq<Post>, lastIssued: int)

  /** Every post's id was issued already. */
  predicate IssuedIds(t: PostTable) {
    forall i :: 0 <= i < |t.posts| ==> t.posts[i].id <= t.lastIssued
  }

  /** `createPost` as evidently intended: the id comes from the issue
      counter, so it exceeds every id handed out before, deleted or not. */
  function CreatePostFresh(t: PostTable, title: string, authorId: int): (r: Step<PostTable, Post>)
    ensures r.result.Ok?
    ensures r.result.value.id > t.lastIssued && r.state.lastIssued == r.result.value.id
    ensures r.result.value.title == title && r.result.value.authorId == authorId && r.result.value.votes == 0
    ensures r.state.posts == t.posts + [r.result.value]
    ensures IssuedIds(t) ==> IssuedIds(r.state) && !HasKey(t.posts, PostId, r.result.value.id)
  {
    var post := Post(t.lastIssued + 1, authorId, title, 0);
    Step(PostTable(t.posts + [post], post.id), Ok(post))
  }

  /** With the counter, a deletion followed by a creation never hands out
      an id that any post carried before the deletion. */
  lemma DeleteThenCreateFreshIsNew(t: PostTable, postId: int, title: string, authorId: int)
    requires IssuedIds(t)
    ensures var afterDelete := t.(posts := DeletePost(t.posts, postId).state);
      !HasKey(t.posts, PostId, CreatePostFresh(afterDelete, title, authorId).result.value.id)
  {
  }

  /** Deleting never reorders: the remaining posts are a subsequence, and
      with a present id exactly its first record is gone. */
  lemma DeletePostKeepsOrder(posts: seq<Post>, postId: int)
    ensures IsSubsequence(DeletePost(posts, postId).state, posts)
    ensures HasKey(posts, PostId, postId) ==>
      multiset(DeletePost(posts, postId).state) + multiset{posts[FindIndex(posts, PostId, postId)]} == multiset(posts)
  {
    var i := FindIndex(posts, PostId, postId);
    if i != -1 {
      assert DeletePost(posts, postId).state == RemoveAt(posts, i);
      RemoveAtIsSubsequence(posts, i);
      RemoveAtMultiset(posts, i);
    } else if |posts| > 0 {
      RemoveAtIsSubsequence(posts, |posts| - 1);
    } else {
      SubsequenceOfSelf(posts);
    }
  }

  lemma DeletePostKeepsIdsAscending(posts: seq<Post>, postId: int)
    requires StrictlyAscending(posts, PostId)
    ensures StrictlyAscending(DeletePost(posts, postId).state, PostId)
  {
    DeletePostKeepsOrder(posts, postId);
    SubsequenceAscending(DeletePost(posts, postId).state, posts, PostId);
  }

  /** The sharp edge of `splice(-1, 1)`: deleting an id that is absent from
      the seed data removes post 4. */
  lemma DeleteAbsentPostRemovesLast()
    ensures !HasKey(Seed, PostId, 999)
    ensures DeletePost(Seed, 999).state == Seed[..3]
    ensures DeletePost(Seed, 999).result == Ok(true)
  {
  }

  /** With unique ids the corrected deletion leaves no post with the id and
      changes nothing when there was none. */
  lemma DeletePostCheckedRemovesId(posts: seq<Post>, postId: int)
    requires UniqueKeys(posts, PostId)
    ensures !HasKey(DeletePostChecked(posts, postId).state, PostId, postId)
    ensures |DeletePostChecked(posts, postId).state| == if HasKey(posts, PostId, postId) then |posts| - 1 else |posts|
  {
    var i := FindIndex(posts, PostId, postId);
    if i != -1 {
      var s := DeletePostChecked(posts, postId).state;
      forall j | 0 <= j < |s| ensures s[j].id != postId {
        if j < i {
          assert s[j] == posts[j];
        } else {
          assert s[j] == posts[j + 1];
          assert PostId(posts[j + 1]) != PostId(posts[i]);
        }
      }
    }
  }

  lemma UpvotePostKeepsIds(posts: seq<Post>, postId: int)
    ensures forall j :: 0 <= j < |posts| ==> UpvotePost(posts, postId).state[j].id == posts[j].id
    ensures forall j :: 0 <= j < |posts| ==> UpvotePost(posts, postId).state[j].votes >= posts[j].votes
  {
  }

  /** `Upvoted` is exactly the array `upvotePost` leaves behind. */
  lemma UpvotedIsUpvoteState(posts: seq<Post>, postId: int)
    ensures UpvotePost(posts, postId).state == Upvoted(posts, postId)
  {
  }

  /** One upvote on a present id bumps the first match in place, which
      stays the first match. */
  lemma UpvoteOnce(posts: seq<Post>, postId: int, i: int)
    requires IsFirstWithKey(posts, PostId, postId, i)
    ensures Upvoted(posts, postId) == posts[i := posts[i].(votes := posts[i].votes + 1)]
    ensures IsFirstWithKey(Upvoted(posts, postId), PostId, postId, i)
  {
    assert FindIndex(posts, PostId, postId) == i;
    var next := posts[i := posts[i].(votes := posts[i].votes + 1)];
    forall j | 0 <= j < i ensures PostId(next[j]) != postId {
      assert next[j] == posts[j];
    }
  }

  /** One more vote followed by `n - 1` more is `n` more. */
  lemma BumpTwice(posts: seq<Post>, i: int, n: nat, next: seq<Post>)
    requires 0 <= i < |posts| && n >= 1
    requires next == posts[i := posts[i].(votes := posts[i].votes + 1)]
    ensures next[i := next[i].(votes := next[i].votes + (n - 1))] == posts[i := posts[i].(votes := posts[i].votes + n)]
  {
    var bumped := posts[i].(votes := posts[i].votes + n);
    assert next[i].(votes := next[i].votes + (n - 1)) == bumped;
    UpdateTwice(posts, i, posts[i].(votes := posts[i].votes + 1), bumped);
  }

  /** After `n` upvotes the first match carries `n` more votes and every
      other position is as before. */
  lemma {:induction false} UpvoteTimesClosedForm(posts: seq<Post>, postId: int, n: nat, i: int)
    requires IsFirstWithKey(posts, PostId, postId, i)
    ensures UpvoteTimes(posts, postId, n) == posts[i := posts[i].(votes := posts[i].votes + n)]
    decreases n
  {
    if n == 0 {
      assert posts[i := posts[i].(votes := posts[i].votes + 0)] == posts;
    } else {
      var next := Upvoted(posts, postId);
      UpvoteOnce(posts, postId, i);
      UpvoteTimesClosedForm(next, postId, n - 1, i);
      BumpTwice(posts, i, n, next);
    }
  }

  /** `n` upvotes in a row add exactly `n` votes to the first post with the
      id and touch nothing else. */
  lemma UpvoteTimesAddsN(posts: seq<Post>, postId: int, n: nat, i: int)
    requires IsFirstWithKey(posts, PostId, postId, i)
    ensures |UpvoteTimes(posts, postId, n)| == |posts|
    ensures IsFirstWithKey(UpvoteTimes(posts, postId, n), PostId, postId, i)
    ensures UpvoteTimes(posts, postId, n)[i] == posts[i].(votes := posts[i].votes + n)
    ensures forall j :: 0 <= j < |posts| && j != i ==> UpvoteTimes(posts, postId, n)[j] == posts[j]
  {
    UpvoteTimesClosedForm(posts, postId, n, i);
    var q := UpvoteTimes(posts, postId, n);
    forall j | 0 <= j < i ensures PostId(q[j]) != postId {
      assert q[j] == posts[j];
    }
  }

  /** On an absent id every one of the `n` upvotes fails and nothing changes. */
  lemma {:induction false} UpvoteTimesAbsent(posts: seq<Post>, postId: int, n: nat)
    requires !HasKey(posts, PostId, postId)
    ensures UpvoteTimes(posts, postId, n) == posts
    decreases n
  {
    if n > 0 {
      UpvoteTimesAbsent(posts, postId, n - 1);
    }
  }
}
