# Blog store resolvers, modelled in Dafny

This project models the in-memory blog store of a small GraphQL content API.
Two resolver modules each keep one array of records. `posts.js` holds posts
(`id`, `authorId`, `title`, `votes`) and `author.js` holds authors (`id`,
`firstName`, `lastName`). The modules implement these mutations:

- `createPost` and `createAuthor` append a record whose id is the last record's id plus one.
- `deletePost` and `deleteAuthor` run `findIndex` followed by `splice(index, 1)`, and always answer `true`.
- `upvotePost` adds one vote to the post with the given id, or throws `Couldn't find post with id <id>`.

They also implement two field resolvers that join the collections:

- `Post.author` finds the author whose id is the post's `authorId`.
- `Author.posts` filters the posts by `authorId`.

The model has no mutable globals. Each resolver is a pure function from the
collection it changes (plus its arguments) to a `Step`: the collection
afterwards, together with either the resolver's value or the error it throws.
The two modules `require` each other's arrays. The model instead passes both
collections explicitly, and `Blog.Store` holds the pair.

Files, one module each:

- `results.dfy`: `Option`, `Result`, `Step` and the thrown errors (`BlogError`).
- `collections.dfy`: the array primitives on sequences. These are `findIndex`, lodash `find`/`filter` with the `{ field: value }` shorthand, and `splice(start, 1)` with ECMA-262's negative-index rule. It also holds subsequence and key-order facts.
- `decimal.dfy`: how `${n}` renders an integer, and the matching parser.
- `records.dfy`: the `Post` and `Author` records and the fields that lookups compare.
- `posts.dfy`: the posts.js resolvers and seed data.
- `authors.dfy`: the author.js resolvers and seed data.
- `blog.dfy`: both collections together, every mutation as one transition, and the cross-module properties.

The model follows the code as written, including where its behaviour looks unintended:

- `deletePost` never reports a missing id. On an absent id the index is -1, and `splice(-1, 1)` removes the last post. In the same file `upvotePost` reports a missing id as an error (posts.js:21-23), so `deletePost` evidently should too. Both behaviours are modelled, as the Findings section below explains.
- `createPost` does not check that `authorId` names an existing author.
- `deleteAuthor` has no cascade. The posts of a deleted author stay, and `Post.author` then resolves them to nothing, until a later `createAuthor` reuses the deleted id (see Findings).
- `createPost` and `createAuthor` on an empty array read `.id` of `undefined`, which throws a TypeError. The model returns the error `LastRecordUndefined` for this case instead of forbidding it.

## Model

| member | source | states |
|---|---|---|
| Collections.FindIndex | posts.js:14 | `findIndex` returns -1 exactly when no element has the key; otherwise it returns the first position that has it |
| Collections.Find | posts.js:20 | lodash `find` with `{ id: k }` returns nothing exactly when no element has the key; otherwise it returns the element at the first matching position |
| Collections.Filter | author.js:20 | lodash `filter` keeps exactly the elements with the key, as a subsequence of the input; the result is empty exactly when nothing matches |
| Collections.FilterMultiset | author.js:20 | `filter` keeps every matching occurrence (same multiplicity) and nothing else |
| Collections.SpliceOne | posts.js:15 | `splice(start, 1)` removes position `start` when it is in range and position `len + start` for a start from -len to -1; a start below -len removes position 0; a start at or past len, or an empty array, removes nothing |
| Collections.RemoveAtIsSubsequence | posts.js:15 | removing one position keeps the others in their relative order |
| Collections.RemoveAtMultiset | posts.js:15 | removing one position takes away exactly that one element |
| Collections.FilterAppend | author.js:20 | filtering a collection with one record appended gives the old filter result, plus that record when it matches |
| Collections.SubsequenceAscending | posts.js:60-65 | any subsequence of an id-ascending collection is id-ascending |
| Decimal.ToDecimalRoundTrip | posts.js:22 | the id rendered into the error message parses back to the same id |
| Decimal.ToDecimalInjective | posts.js:22 | distinct ids render to distinct message suffixes |
| Decimal.ToDecimal | posts.js:22 | `${postId}` renders as a non-empty string that starts with '-' exactly for a negative id and is all digits otherwise, with no leading zero (only 0 itself renders as "0") |
| Decimal.CanonicalIsToDecimal | posts.js:22 | a digit string without leading zeros (optionally negated) that parses to n is exactly the rendering of n, so the rendering is the only canonical spelling of an id |
| Posts.NotFoundMessage | posts.js:22 | the thrown message is "Couldn't find post with id " followed by text that reads back as the requested id and has no leading zero, i.e. exactly the `${postId}` text |
| Posts.ErrorMessage | posts.js:21-23 | the text of the error `PostNotFound(id)` that `upvotePost` throws is the fixed prefix followed by a suffix that reads back as that id and has no leading zero |
| Posts.CreatePost | posts.js:7-12 | on an empty collection the call throws and nothing changes; otherwise it appends exactly one post with id = last id + 1, the given title and authorId, and 0 votes, keeps every earlier post, and returns the new post |
| Posts.CreatePostKeepsIdsAscending | posts.js:7-12 | if ids ascend strictly, they still do after a creation, and the new id is carried by no earlier post |
| Posts.CreatePostCanReuseId | posts.js:8-9 | without ascending ids, the id picked from the last post can already be taken |
| Posts.DeleteThenCreateReusesId | posts.js:8-15 | on the seed, `deletePost(4)` followed by `createPost` issues id 4 again, the id of the deleted post |
| Posts.CreatePostFresh | posts.js:7-12 | corrected creation: it always succeeds; the new id exceeds every id issued before and becomes the new high-water mark; the post has the given fields and 0 votes and is appended; when all ids were issued, the new id is carried by no earlier post |
| Posts.DeleteThenCreateFreshIsNew | posts.js:8-15 | with counter-issued ids, a deletion followed by a creation never issues an id that any post carried before the deletion |
| Posts.DeletePost | posts.js:13-17 | the result is always true; a present id removes exactly its first post; an absent id removes the last post, and leaves an empty collection empty |
| Posts.DeletePostKeepsOrder | posts.js:14-15 | the remaining posts keep their relative order; with a present id, the multiset loses exactly the first matching post |
| Posts.DeletePostKeepsIdsAscending | posts.js:14-15 | deletion keeps ids strictly ascending |
| Posts.DeleteAbsentPostRemovesLast | posts.js:14-16 | on the seed, deleting id 999 (absent) removes post 4 and answers true |
| Posts.DeletePostChecked | posts.js:13-17 | corrected deletion: it fails with not-found exactly when the id is absent, and then changes nothing; otherwise it removes the first matching post and answers true |
| Posts.DeletePostCheckedRemovesId | posts.js:13-17 | with unique ids, after corrected deletion no post has the id, and the length drops by one only when the id was present |
| Posts.UpvotePost | posts.js:19-26 | it fails with PostNotFound(id) exactly when no post has the id, and then nothing changes; otherwise the first matching post gets exactly one more vote, its other fields and all other posts are unchanged, and the updated post is returned |
| Posts.UpvotePostKeepsIds | posts.js:24 | an upvote changes no id and never lowers a vote count |
| Posts.UpvotedIsUpvoteState | posts.js:19-26 | the post array that one `upvotePost` call leaves behind is the one the repetition model steps through |
| Posts.UpvoteTimesClosedForm | posts.js:19-26 | n upvotes in a row on the id of the first match at index i equal one update of that post adding n votes |
| Posts.UpvoteTimesAddsN | posts.js:19-26 | n upvotes in a row on a present id add exactly n votes to the first matching post and change nothing else |
| Posts.UpvoteTimesAbsent | posts.js:20-23 | upvotes on an absent id leave the collection unchanged |
| Posts.PostAuthor | posts.js:29 | `Post.author` returns nothing exactly when no author has the post's authorId; otherwise it returns the first author with that id |
| Authors.CreateAuthor | author.js:7-12 | on an empty collection the call throws and nothing changes; otherwise it appends exactly one author with id = last id + 1 and the given names, keeps every earlier author, and returns the new author |
| Authors.CreateAuthorKeepsIdsAscending | author.js:7-12 | if author ids ascend strictly, they still do after a creation, and the new id is fresh |
| Authors.CreateAuthorThenFind | author.js:7-12 | looking up the returned id in the new collection finds the author just created |
| Authors.DeleteAuthor | author.js:13-17 | the result is always true; a present id removes exactly its first author; an absent id removes the last author |
| Authors.DeleteAuthorKeepsIdsAscending | author.js:14-15 | author deletion keeps ids strictly ascending |
| Authors.DeleteAbsentAuthorRemovesLast | author.js:14-16 | on the seed, deleting author id 999 (absent) removes author 4 |
| Authors.DeleteAuthorChecked | author.js:13-17 | corrected deletion: it fails with not-found exactly when the id is absent, and then changes nothing; otherwise it removes the first matching author |
| Authors.DeleteAuthorCheckedRemovesId | author.js:13-17 | with unique ids, after corrected deletion no author has the id |
| Authors.CreateAuthorFresh | author.js:7-12 | corrected creation: it always succeeds; the new author id exceeds every id issued before, the author has the given names and is appended |
| Authors.AuthorPosts | author.js:20 | `Author.posts` holds exactly the posts whose authorId is the author's id, with the same multiplicity and in collection order; it is empty exactly when none match |
| Blog.Apply | author.js:6-18 | the post mutations of posts.js:6-27 and the author mutations, dispatched one at a time: author mutations leave the post array untouched, and post mutations leave the author array untouched; a thrown error changes nothing; deletions always answer true |
| Blog.SeedIsValid | posts.js:60-65 | the seeded post array and the seeded author array of author.js:49-54 have strictly ascending ids and non-negative votes |
| Blog.ApplyPreservesValid | posts.js:6-27 | every mutation of either module keeps ids strictly ascending in both arrays and votes non-negative |
| Blog.AuthorPostsAgreeWithPostAuthor | author.js:20 | with unique author ids, a post is in `Author.posts(a)` exactly when it is in the collection and `Post.author` of it is `a` |
| Blog.DeleteAuthorOrphansPosts | author.js:13-17 | deleting an author keeps all posts; with unique ids, its former posts then resolve to no author |
| Blog.CreatePostLinksAuthor | posts.js:7-12 | a post created with an existing author's id resolves to that author, and it is appended to the end of that author's posts |
| Blog.DeleteAuthorThenCreateReparents | author.js:8-15 | on the seed, a post for author 4 is orphaned by `deleteAuthor(4)`, and the next `createAuthor("A", "B")` takes id 4 again, so the post then resolves to that new author |
| Blog.CreateAuthorFreshKeepsOrphans | author.js:7-12 | with counter-issued author ids, a post that names an issued id no author carries still resolves to no author after a creation |
| Blog.ScenarioCreateAuthor | author.js:7-12 | from the seed, `createAuthor("Ada", "Lovelace")` returns author 5 with those names, appends it and leaves the posts alone |
| Blog.ScenarioCreatePost | posts.js:7-12 | after that, `createPost("Hello", 5)` returns post 5 by author 5 with 0 votes and appends it, leaving the authors alone |
| Blog.ScenarioUpvote | posts.js:19-26 | starting from the seed plus a new post 5 with 0 votes, `upvotePost(5)` returns that post with 1 vote |
| Blog.ScenarioPostAuthor | posts.js:29 | the new post 5 resolves to the new author 5 |
| Blog.ScenarioUpvoteMissing | posts.js:20-23 | `upvotePost(999)` fails with PostNotFound(999) |

## Left out

- The query resolvers `author`, `posts` and `post` are left out. They exist only in the `controllers/` revisions, which delegate to a Sequelize data layer that this model does not include and refer to undefined identifiers.
- The query resolver `authors` is left out because it is defined nowhere in the repository. The tests expect it (test/author.test.js:29, test/typedefs.test.js:88), but neither author.js nor controllers/author.js declares it.
- `updatePost` and `updateAuthor` are left out. They are declared in the schema text but have no resolver.
- The schema definition strings and their merge into one executable schema are left out. That merge uses lodash `merge` and `makeExecutableSchema`, which are library calls.
- `index.js` (the HTTP server and GraphQL endpoint) and `models/` (table declarations) are left out.
- The circular `require` between the two modules (posts.js:2, author.js:2) is replaced by passing both collections explicitly. As loaded, whichever module is required second sees the other's exports still empty, so one of `Author.posts` and `Post.author` reads an `undefined` array and always finds nothing. The model follows the intended wiring, not the loaded one. Blog.AuthorPostsAgreeWithPostAuthor, Blog.CreatePostLinksAuthor, Blog.DeleteAuthorOrphansPosts and Blog.ScenarioPostAuthor depend on that wiring.
- Promises, concurrency and the lost-update race on concurrent upvotes are left out. The in-memory resolvers are synchronous.
- Posts.CreatePost: ids and votes are unbounded integers. JavaScript numbers lose integer precision above 2^53, and the model does not follow that.
- Authors.CreateAuthor: the same unbounded-integer simplification applies to author ids.
- Posts.UpvotePost: the same unbounded-integer simplification applies to vote counts.
- GraphQL argument coercion is left out. Arguments are taken as already-typed integers and strings, as `Int!` and `String!` guarantee.

## Findings

| source | as written | input that shows it | evidently intended | confidence | as-written member | corrected member |
|---|---|---|---|---|---|---|
| posts.js:14-15 | `splice` receives `findIndex`'s -1 for an absent id, and `splice(-1, 1)` deletes the last post | `deletePost(999)` on the seed removes post 4 and answers true | an absent id changes nothing and is reported as not found, as `upvotePost` does | high; not executed | Posts.DeleteAbsentPostRemovesLast | Posts.DeletePostCheckedRemovesId |
| author.js:14-15 | the same `findIndex`/`splice(-1, 1)` pair deletes the last author for an absent id | `deleteAuthor(999)` on the seed removes author 4 | an absent id changes nothing and is reported as not found | high; not executed | Authors.DeleteAbsentAuthorRemovesLast | Authors.DeleteAuthorCheckedRemovesId |
| posts.js:9 | the new id is the current last post's id + 1 | `deletePost(4)` then `createPost("x", 1)` on the seed issues id 4 again | an id is never issued twice | medium; not executed | Posts.DeleteThenCreateReusesId | Posts.DeleteThenCreateFreshIsNew |
| author.js:9 | the new id is the current last author's id + 1 | `createPost("x", 4)`, `deleteAuthor(4)`, `createAuthor("A", "B")` on the seed makes the orphaned post resolve to the new author "A B" | an id is never issued twice, so an orphaned post stays orphaned | medium; not executed | Blog.DeleteAuthorThenCreateReparents | Blog.CreateAuthorFreshKeepsOrphans |

The corrected creations are `Posts.CreatePostFresh` and `Authors.CreateAuthorFresh`. Each keeps a counter of the highest id ever issued, so an id is never reused. With that counter, creation on an empty collection also succeeds.

`Blog.Apply` and its lemmas model the deletions and creations as written (`Posts.DeletePost`, `Authors.DeleteAuthor`, `Posts.CreatePost`, `Authors.CreateAuthor`), so they describe the code's actual behaviour. The corrected deletions are `Posts.DeletePostChecked` and `Authors.DeleteAuthorChecked`. Each is proved to leave the collection unchanged for an absent id, and to remove the id when ids are unique.
