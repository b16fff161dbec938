/** The per-user pages: the comment filter shared by `get '/notify'` and
    `get '/mypage'`, and the mypage loop that interleaves posts and comments
    (webapp/ruby/app.rb). The loop is modelled as written, including its
    index stepping and its repeated pushes of the remaining posts; the
    handler empties `posts` before the loop, so the page it renders always
    receives an empty `mixed`. */
module UserPages {
  import opened Records
  import opened Seqs

  // ---------------------------------------------------------------------
  // The comment filter
  // ---------------------------------------------------------------------

  function ByUserTest(userId: int): Comment -> bool {
    (c: Comment) => c.userId == userId
  }

  /** The comments written by `userId`, in query order. */
  function CommentsBy(cs: seq<Comment>, userId: int): seq<Comment> {
    Filter(cs, ByUserTest(userId))
  }

  /** Exactly the session user's comments are kept, and in the order the
      query returned them. */
  lemma CommentsByExact(cs: seq<Comment>, userId: int)
    ensures forall c: Comment :: c in CommentsBy(cs, userId) <==> c in cs && c.userId == userId
    ensures IsSubsequence(CommentsBy(cs, userId), cs)
  {
    var r := CommentsBy(cs, userId);
    forall c: Comment | c in r ensures c in cs && c.userId == userId {
      var i :| 0 <= i < |r| && r[i] == c;
      assert ByUserTest(userId)(r[i]);
    }
    forall c: Comment | c in cs && c.userId == userId ensures c in r {
      var i :| 0 <= i < |cs| && cs[i] == c;
      assert ByUserTest(userId)(cs[i]);
    }
    FilterIsSubsequence(cs, ByUserTest(userId));
  }

  /** The `push` loop over the queried comments. */
  method SelectCommentsBy(cs: seq<Comment>, userId: int) returns (selected: seq<Comment>)
    ensures selected == CommentsBy(cs, userId)
  {
    selected := [];
    for i := 0 to |cs|
      invariant selected == CommentsBy(cs[..i], userId)
    {
      FilterSnoc(cs[..i], cs[i], ByUserTest(userId));
      assert cs[..i + 1] == cs[..i] + [cs[i]];
      if cs[i].userId == userId {
        selected := selected + [cs[i]];
      }
    }
    assert cs[..|cs|] == cs;
  }

  // ---------------------------------------------------------------------
  // The mypage merge loop
  // ---------------------------------------------------------------------

  /** An element of `mixed`: `{type: :post, ...}` or `{type: :comment, ...}`. */
  datatype Entry = PostEntry(post: Post) | CommentEntry(comment: Comment)

  datatype MergeState = MergeState(mixed: seq<Entry>, index: int)

  function PostEntries(ps: seq<Post>): (r: seq<Entry>)
    ensures |r| == |ps|
    ensures forall i :: 0 <= i < |ps| ==> r[i] == PostEntry(ps[i])
  {
    seq(|ps|, i requires 0 <= i < |ps| => PostEntry(ps[i]))
  }

  /** Where `index` stands after `k` iterations: it advances once per
      iteration until it reaches the last comment (or stays 0 when there
      are no comments). */
  function IndexAfter(k: nat, commentCount: nat): int {
    var last := if commentCount > 0 then commentCount - 1 else 0;
    if k < last then k else last
  }

  /** Iteration `pi` of the loop: push the current comment if it is newer
      than post `pi`, else the post; then advance `index`, or, once it is
      on the last comment, push every post from `pi` to the end. */
  function MergeStep(posts: seq<Post>, comments: seq<Comment>, pi: nat, s: MergeState): MergeState
    requires pi < |posts|
    requires 0 <= s.index && (|comments| > 0 ==> s.index < |comments|)
  {
    var first :=
      if |comments| > 0 && comments[s.index].createdAt > posts[pi].createdAt
      then CommentEntry(comments[s.index])
      else PostEntry(posts[pi]);
    var mixed := s.mixed + [first];
    if s.index < |comments| - 1 then MergeState(mixed, s.index + 1)
    else MergeState(mixed + PostEntries(posts[pi..]), s.index)
  }

  /** The state after the first `k` iterations; `index` never leaves the
      comment list. */
  function MergeUpTo(posts: seq<Post>, comments: seq<Comment>, k: nat): (s: MergeState)
    requires k <= |posts|
    ensures s.index == IndexAfter(k, |comments|)
    ensures 0 <= s.index && (|comments| > 0 ==> s.index < |comments|)
  {
    if k == 0 then MergeState([], 0)
    else MergeStep(posts, comments, k - 1, MergeUpTo(posts, comments, k - 1))
  }

  /** `mixed` once the loop over all posts has finished. */
  function Merged(posts: seq<Post>, comments: seq<Comment>): seq<Entry> {
    MergeUpTo(posts, comments, |posts|).mixed
  }

  /** Every entry pushed is one of the given posts or comments. */
  lemma {:induction false} MergedFromInputs(posts: seq<Post>, comments: seq<Comment>, k: nat)
    requires k <= |posts|
    ensures forall e :: e in MergeUpTo(posts, comments, k).mixed ==>
      (e.PostEntry? && e.post in posts) || (e.CommentEntry? && e.comment in comments)
  {
    if k > 0 {
      MergedFromInputs(posts, comments, k - 1);
      var tail := PostEntries(posts[k - 1..]);
      forall e | e in tail ensures e.PostEntry? && e.post in posts {
        var i :| 0 <= i < |tail| && tail[i] == e;
        assert e.post == posts[k - 1 + i];
      }
    }
  }

  /** The inner loop: push every post from `pi` to the end. */
  method PushRemaining(mixed: seq<Entry>, posts: seq<Post>, pi: nat) returns (pushed: seq<Entry>)
    requires pi <= |posts|
    ensures pushed == mixed + PostEntries(posts[pi..])
  {
    pushed := mixed;
    for i := pi to |posts|
      invariant pushed == mixed + PostEntries(posts[pi..i])
    {
      assert PostEntries(posts[pi..i + 1]) == PostEntries(posts[pi..i]) + [PostEntry(posts[i])];
      pushed := pushed + [PostEntry(posts[i])];
    }
    assert posts[pi..|posts|] == posts[pi..];
  }

  /** The loop over `(0..(posts.length - 1))`. */
  method MergeTimeline(posts: seq<Post>, comments: seq<Comment>) returns (mixed: seq<Entry>)
    ensures mixed == Merged(posts, comments)
  {
    mixed := [];
    var index := 0;
    for pi := 0 to |posts|
      invariant MergeState(mixed, index) == MergeUpTo(posts, comments, pi)
    {
      if |comments| > 0 && comments[index].createdAt > posts[pi].createdAt {
        mixed := mixed + [CommentEntry(comments[index])];
      } else {
        mixed := mixed + [PostEntry(posts[pi])];
      }
      if index < |comments| - 1 {
        index := index + 1;
      } else {
        mixed := PushRemaining(mixed, posts, pi);
      }
    }
  }

  /** Without comments, iteration `pi` pushes post `pi` once and then all
      posts from `pi` on: `n` posts give `n + n(n+1)/2` entries. */
  lemma {:induction false} MergedLengthWithoutComments(posts: seq<Post>, k: nat)
    requires k <= |posts|
    ensures 2 * |MergeUpTo(posts, [], k).mixed| == 2 * k + 2 * k * |posts| - k * (k - 1)
  {
    if k > 0 {
      MergedLengthWithoutComments(posts, k - 1);
      var n := |posts|;
      var prev := MergeUpTo(posts, [], k - 1);
      assert |MergeUpTo(posts, [], k).mixed| == |prev.mixed| + 1 + (n - (k - 1));
      LengthStep(k, n);
    }
  }

  lemma LengthStep(k: int, n: int)
    ensures 2 * k * n - k * (k - 1) == 2 * (k - 1) * n - (k - 1) * (k - 2) + 2 * n - 2 * (k - 1)
  {
  }

  /** The first post is pushed twice in a row when there are no comments:
      once as the current post, once at the head of the remaining posts. */
  lemma LeadingPostRepeated(posts: seq<Post>)
    requires |posts| > 0
    ensures |Merged(posts, [])| >= 2
    ensures Merged(posts, [])[0] == PostEntry(posts[0]) == Merged(posts, [])[1]
  {
    var first := MergeUpTo(posts, [], 1).mixed;
    assert MergeUpTo(posts, [], 0) == MergeState([], 0);
    assert posts[0..] == posts;
    assert [] + [PostEntry(posts[0])] == [PostEntry(posts[0])];
    assert first == [PostEntry(posts[0])] + PostEntries(posts);
    MergedPrefix(posts, [], 1, |posts|);
  }

  /** Later iterations only append to `mixed`. */
  lemma {:induction false} MergedPrefix(posts: seq<Post>, comments: seq<Comment>, k: nat, k': nat)
    requires k <= k' <= |posts|
    ensures MergeUpTo(posts, comments, k).mixed <= MergeUpTo(posts, comments, k').mixed
  {
    if k < k' {
      MergedPrefix(posts, comments, k, k' - 1);
    }
  }

  /** Two posts and no comments: each post is pushed more than once. */
  lemma TwoPostsNoComments(p: Post, q: Post)
    ensures Merged([p, q], []) == [PostEntry(p), PostEntry(p), PostEntry(q), PostEntry(q), PostEntry(q)]
  {
    var posts := [p, q];
    assert MergeUpTo(posts, [], 1).mixed == [PostEntry(p), PostEntry(p), PostEntry(q)];
    assert posts[1..] == [q];
  }

  // ---------------------------------------------------------------------
  // The handlers
  // ---------------------------------------------------------------------

  /** `get '/notify'`: all comments, newest first, filtered to the session
      user's own. */
  method Notify(comments: seq<Comment>, userId: int) returns (notifies: seq<Comment>)
    ensures notifies == CommentsBy(comments, userId)
    ensures forall c: Comment :: c in notifies <==> c in comments && c.userId == userId
    ensures IsSubsequence(notifies, comments)
  {
    notifies := SelectCommentsBy(comments, userId);
    CommentsByExact(comments, userId);
  }

  /** `get '/mypage'`: the session user's posts, the comments on them (no
      query when there are no posts), then `posts` reset to `[]` before the
      merge, which therefore pushes nothing. */
  method Mypage(userId: int, postsAll: seq<Post>, commentsQueried: seq<Comment>)
    returns (mixed: seq<Entry>)
    ensures mixed == []
  {
    var commentsAll := if |postsAll| > 0 then commentsQueried else [];
    var posts: seq<Post> := [];
    var comments := SelectCommentsBy(commentsAll, userId);
    mixed := MergeTimeline(posts, comments);
  }
}
