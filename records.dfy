/** The three row kinds of the database, as the handlers read them.
    Timestamps are modelled as integers that compare like `created_at`. */
module Records {

  /** A row of `users`. `deleted` is the `del_flg` column (1 = banned). */
  datatype User = User(
    id: int,
    accountName: string,
    passhash: string,
    authority: int,
    deleted: bool)

  /** A row of `posts`; the image bytes live on disk and are not modelled. */
  datatype Post = Post(
    id: int,
    userId: int,
    mime: string,
    body: string,
    createdAt: int)

  /** A row of `comments`. */
  datatype Comment = Comment(
    id: int,
    postId: int,
    userId: int,
    text: string,
    createdAt: int)
}
