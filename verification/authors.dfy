/** The author resolvers of author.js over an explicit author collection:
    the mutations `createAuthor` and `deleteAuthor`, and the field resolver
    `Author.posts`, which reads the post collection. */
module Authors {
  import opened Results
  import opened Collections
  import opened Records

  /** The initial contents of the author array (author.js:49-54). */
  const Seed: seq<Author> := [
    Author(1, "Tom", "Coleman"),
    Author(2, "Sashko", "Stubailo"),
    Author(3, "Mikhail", "Novikov"),
    Author(4, "Ben", "Payne")
  ]

  /** `createAuthor(firstName, lastName)`: appends an author whose id is one
      more than the last author's and returns it. Reading the last author of
      an empty array throws. */
  function CreateAuthor(authors: seq<Author>, firstName: string, lastName: string): (r: Step<seq<Author>, Author>)
    ensures r.result.Err? <==> |authors| == 0
    ensures r.result.Err? ==> r.state == authors && r.result.error == LastRecordUndefined
    ensures r.result.Ok? ==>
      && r.result.value.id == authors[|authors| - 1].id + 1
      && r.result.value.firstName == firstName
      && r.result.value.lastName == lastName
      && |r.state| == |authors| + 1
      && r.state[..|authors|] == authors
      && r.state[|authors|] == r.result.value
  {
    if |authors| == 0 then Step(authors, Err(LastRecordUndefined))
    else
      var author := Author(authors[|authors| - 1].id + 1, firstName, lastName);
      Step(authors + [author], Ok(author))
  }

  /** `deleteAuthor(authorId)` as written: the same `findIndex`/`splice`
      pair as `deletePost`, so an absent id removes the last author. The
      result is always true. */
  function DeleteAuthor(authors: seq<Author>, authorId: int): (r: Step<seq<Author>, bool>)
    ensures r.result == Ok(true)
    ensures forall i :: IsFirstWithKey(authors, AuthorId, authorId, i) ==> r.state == RemoveAt(authors, i)
    ensures !HasKey(authors, AuthorId, authorId) ==> r.state == DropLast(authors)
  {
    Step(SpliceOne(authors, FindIndex(authors, AuthorId, authorId)), Ok(true))
  }

  /** `deleteAuthor(authorId)` as evidently intended: remove the first
      author with the id, or report that there is none and change nothing. */
  function DeleteAuthorChecked(authors: seq<Author>, authorId: int): (r: Step<seq<Author>, bool>)
    ensures r.result.Err? <==> !HasKey(authors, AuthorId, authorId)
    ensures r.result.Err? ==> r.state == authors && r.result.error == AuthorNotFound(authorId)
    ensures r.result.Ok? ==> r.result.value && exists i :: IsFirstWithKey(authors, AuthorId, authorId, i) && r.state == RemoveAt(authors, i)
  {
    var i := FindIndex(authors, AuthorId, authorId);
    if i == -1 then Step(authors, Err(AuthorNotFound(authorId)))
    else Step(RemoveAt(authors, i), Ok(true))
  }

  /** `Author.posts(author)`: the posts whose `authorId` is the author's id,
      in collection order; empty, never missing, when there are none. */
  function AuthorPosts(posts: seq<Post>, author: Author): (r: seq<Post>)
    ensures forall p :: p in r <==> p in posts && p.authorId == author.id
    ensures forall p :: multiset(r)[p] == if p.authorId == author.id then multiset(posts)[p] else 0
    ensures IsSubsequence(r, posts)
    ensures |r| == 0 <==> forall i :: 0 <= i < |posts| ==> posts[i].authorId != author.id
  {
    FilterMultiset(posts, PostAuthorId, author.id);
    Filter(posts, PostAuthorId, author.id)
  }

  lemma CreateAuthorKeepsIdsAscending(authors: seq<Author>, firstName: string, lastName: string)
    requires StrictlyAscending(authors, AuthorId)
    ensures StrictlyAscending(CreateAuthor(authors, firstName, lastName).state, AuthorId)
    ensures CreateAuthor(authors, firstName, lastName).result.Ok? ==>
      !HasKey(authors, AuthorId, CreateAuthor(authors, firstName, lastName).result.value.id)
  {
  }

  /** Looking up the id `createAuthor` returned finds the author just
      created. */
  lemma CreateAuthorThenFind(authors: seq<Author>, firstName: string, lastName: string)
    requires StrictlyAscending(authors, AuthorId) && |authors| > 0
    ensures var r := CreateAuthor(authors, firstName, lastName);
      Find(r.state, AuthorId, r.result.value.id) == Some(r.result.value)
  {
    var r := CreateAuthor(authors, firstName, lastName);
    var k := r.result.value.id;
    assert FindIndex(r.state, AuthorId, k) == |authors| by {
      forall j | 0 <= j < |authors| ensures AuthorId(r.state[j]) != k {
        assert r.state[j] == authors[j];
      }
      assert IsFirstWithKey(r.state, AuthorId, k, |authors|);
    }
  }

  lemma DeleteAuthorKeepsIdsAscending(authors: seq<Author>, authorId: int)
    requires StrictlyAscending(authors, AuthorId)
    ensures StrictlyAscending(DeleteAuthor(authors, authorId).state, AuthorId)
  {
    var i := FindIndex(authors, AuthorId, authorId);
    var s := DeleteAuthor(authors, authorId).state;
    if i != -1 {
      RemoveAtIsSubsequence(authors, i);
    } else if |authors| > 0 {
      RemoveAtIsSubsequence(authors, |authors| - 1);
    } else {
      SubsequenceOfSelf(authors);
    }
    SubsequenceAscending(s, authors, AuthorId);
  }

  /** The `splice(-1, 1)` edge on the seed: deleting an absent author id
      removes author 4. */
  lemma DeleteAbsentAuthorRemovesLast()
    ensures !HasKey(Seed, AuthorId, 999)
    ensures DeleteAuthor(Seed, 999).state == Seed[..3]
  {
  }

  /** With unique ids the corrected deletion leaves no author with the id. */
  lemma DeleteAuthorCheckedRemovesId(authors: seq<Author>, authorId: int)
    requires UniqueKeys(authors, AuthorId)
    ensures !HasKey(DeleteAuthorChecked(authors, authorId).state, AuthorId, authorId)
    ensures |DeleteAuthorChecked(authors, authorId).state| == if HasKey(authors, AuthorId, authorId) then |authors| - 1 else |authors|
  {
    var i := FindIndex(authors, AuthorId, authorId);
    if i != -1 {
      var s := DeleteAuthorChecked(authors, authorId).state;
      forall j | 0 <= j < |s| ensures s[j].id != authorId {
        if j < i {
          assert s[j] == authors[j];
        } else {
          assert s[j] == authors[j + 1];
          assert AuthorId(authors[j + 1]) != AuthorId(authors[i]);
        }
      }
    }
  }

  /** The author array with the highest id ever issued. */
  datatype AuthorTable = AuthorTable(authors: seq<Author>, lastIssued: int)

  /** Every author's id was issued already. */
  predicate IssuedIds(t: AuthorTable) {
    forall i :: 0 <= i < |t.authors| ==> t.authors[i].id <= t.lastIssued
  }

  /** `createAuthor` as evidently intended: the id comes from the issue
      counter, so it exceeds every id handed out before, deleted or not. */
  function CreateAuthorFresh(t: AuthorTable, firstName: string, lastName: string): (r: Step<AuthorTable, Author>)
    ensures r.result.Ok?
    ensures r.result.value.id > t.lastIssued && r.state.lastIssued == r.result.value.id
    ensures r.result.value.firstName == firstName && r.result.value.lastName == lastName
    ensures r.state.authors == t.authors + [r.result.value]
    ensures IssuedIds(t) ==> IssuedIds(r.state) && !HasKey(t.authors, AuthorId, r.result.value.id)
  {
    var author := Author(t.lastIssued + 1, firstName, lastName);
    Step(AuthorTable(t.authors + [author], author.id), Ok(author))
  }
}
