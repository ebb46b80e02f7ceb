/** The two record shapes the resolvers keep in their arrays. Both modules
    read each other's records (a post names its author by id, an author's
    posts are found by that id), so the shapes live apart from either. */
module Records {

  /** `{ id, firstName, lastName }` as built by `createAuthor` (author.js:9). */
  datatype Author = Author(id: int, firstName: string, lastName: string)

  /** `{ id, title, authorId, votes }` as built by `createPost` (posts.js:9). */
  datatype Post = Post(id: int, authorId: int, title: string, votes: int)

  /** The field compared by `find(authors, { id: … })`. */
  function AuthorId(a: Author): int { a.id }

  /** The field compared by `findIndex(post => post.id === …)` and `find(posts, { id: … })`. */
  function PostId(p: Post): int { p.id }

  /** The field compared by `filter(posts, { authorId: … })`. */
  function PostAuthorId(p: Post): int { p.authorId }
}
