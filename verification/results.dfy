/** Outcome types shared by the post and author resolvers.

    The resolvers either return a value, return `undefined` (a lookup that
    matched nothing) or throw. `Option` stands for the first two, `Result`
    for the last, and `Step` pairs a result with the collection the call
    leaves behind, so that every mutation is a pure state transition. */
module Results {

  /** A lookup that may come back empty (`undefined` in the resolvers). */
  datatype Option<+T> = None | Some(value: T)

  /** The conditions under which a resolver throws. */
  datatype BlogError =
    /** `upvotePost` on an id that no post carries (posts.js:21-23). */
    | PostNotFound(postId: int)
    /** `deleteAuthor` on an id that no author carries; only the corrected
        deletion reports it (the resolver as written never fails). */
    | AuthorNotFound(authorId: int)
    /** `createPost`/`createAuthor` on an empty collection: the last record is
        `undefined` and reading its `id` throws a TypeError. */
    | LastRecordUndefined

  /** What a resolver hands back to the dispatcher: a value or a thrown error. */
  datatype Result<+T> = Ok(value: T) | Err(error: BlogError)

  /** One resolver call: the collection afterwards together with its result. */
  datatype Step<+S, +T> = Step(state: S, result: Result<T>)
}
