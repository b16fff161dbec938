/** The data preparation of `get '/'` (webapp/ruby/app.rb): the comments of
    the listed posts grouped by post, the author ids to fetch, the fetched
    users indexed by id, and the viewer (a signed-in user or the guest
    sentinel `{id: 0}`). Query results are inputs, in whatever order the
    database returned them. */
module Timeline {
  import opened Wrappers
  import opened Records
  import opened Seqs
  import Accounts

  // ---------------------------------------------------------------------
  // Grouping comments by post
  // ---------------------------------------------------------------------

  function OnPostTest(postId: int): Comment -> bool {
    (c: Comment) => c.postId == postId
  }

  /** The comments on one post, in arrival order. */
  function OnPost(cs: seq<Comment>, postId: int): seq<Comment> {
    Filter(cs, OnPostTest(postId))
  }

  function PostIdsOf(cs: seq<Comment>): set<int> {
    set c | c in cs :: c.postId
  }

  /** The `comments` hash once the grouping loop has run: one bucket per
      post that has comments, holding that post's comments in order. */
  function GroupByPost(cs: seq<Comment>): map<int, seq<Comment>> {
    map pid | pid in PostIdsOf(cs) :: OnPost(cs, pid)
  }

  /** No bucket is empty, and every comment is in the bucket of its own
      post and in no other. */
  lemma GroupingPartitions(cs: seq<Comment>)
    ensures var g := GroupByPost(cs);
            forall pid :: pid in g ==> g[pid] != []
    ensures var g := GroupByPost(cs);
            forall i :: 0 <= i < |cs| ==> cs[i].postId in g && cs[i] in g[cs[i].postId]
    ensures var g := GroupByPost(cs);
            forall pid, c :: pid in g && c in g[pid] ==> c.postId == pid && c in cs
  {
    var g := GroupByPost(cs);
    forall pid | pid in g ensures g[pid] != [] {
      var c :| c in cs && c.postId == pid;
      var i :| 0 <= i < |cs| && cs[i] == c;
      assert OnPostTest(pid)(cs[i]);
    }
    forall i | 0 <= i < |cs| ensures cs[i].postId in g && cs[i] in g[cs[i].postId] {
      assert OnPostTest(cs[i].postId)(cs[i]);
    }
    forall pid, c: Comment | pid in g && c in g[pid] ensures c.postId == pid && c in cs {
      var i :| 0 <= i < |g[pid]| && g[pid][i] == c;
    }
  }

  /** Every bucket lists its comments in the order they arrived. */
  lemma {:induction false} BucketsKeepArrivalOrder(cs: seq<Comment>)
    ensures forall pid :: pid in GroupByPost(cs) ==> IsSubsequence(GroupByPost(cs)[pid], cs)
  {
    forall pid | pid in GroupByPost(cs) ensures IsSubsequence(GroupByPost(cs)[pid], cs) {
      FilterIsSubsequence(cs, OnPostTest(pid));
    }
  }

  lemma OnPostEmpty(cs: seq<Comment>, pid: int)
    requires pid !in PostIdsOf(cs)
    ensures OnPost(cs, pid) == []
  {
    forall i | 0 <= i < |cs| ensures !OnPostTest(pid)(cs[i]) {
      assert cs[i] in cs;
    }
    FilterKeepsNone(cs, OnPostTest(pid));
  }

  /** One more comment: its bucket is created or extended at the end. */
  lemma GroupByPostSnoc(cs: seq<Comment>, c: Comment)
    ensures var g := GroupByPost(cs);
            GroupByPost(cs + [c])
              == g[c.postId := (if c.postId in g then g[c.postId] else []) + [c]]
  {
    var g := GroupByPost(cs);
    var l := GroupByPost(cs + [c]);
    var r := g[c.postId := (if c.postId in g then g[c.postId] else []) + [c]];
    assert PostIdsOf(cs + [c]) == PostIdsOf(cs) + {c.postId} by {
      forall x | x in cs + [c] ensures x in cs || x == c { }
    }
    forall pid | pid in l ensures l[pid] == r[pid] {
      FilterSnoc(cs, c, OnPostTest(pid));
      if pid !in PostIdsOf(cs) {
        OnPostEmpty(cs, pid);
      }
    }
  }

  /** The loop that fills the `comments` hash. */
  method GroupComments(cs: seq<Comment>) returns (grouped: map<int, seq<Comment>>)
    ensures grouped == GroupByPost(cs)
  {
    grouped := map[];
    for i := 0 to |cs|
      invariant grouped == GroupByPost(cs[..i])
    {
      var c := cs[i];
      GroupByPostSnoc(cs[..i], c);
      assert cs[..i + 1] == cs[..i] + [c];
      if c.postId !in grouped {
        assert [] + [c] == [c];
        grouped := grouped[c.postId := [c]];
      } else {
        grouped := grouped[c.postId := grouped[c.postId] + [c]];
      }
    }
    assert cs[..|cs|] == cs;
  }

  // ---------------------------------------------------------------------
  // The author ids to fetch
  // ---------------------------------------------------------------------

  function PostIdSeq(cs: seq<Comment>): seq<int> {
    seq(|cs|, i requires 0 <= i < |cs| => cs[i].postId)
  }

  /** The post ids, each once, meant to follow the insertion order in which a
      Ruby Hash yields its keys; only its element set is used in the proofs. */
  function KeyOrder(cs: seq<Comment>): seq<int> {
    Uniq(PostIdSeq(cs))
  }

  /** The buckets of the given keys, concatenated in key order:
      `comments.map { |k, v| v }` flattened. */
  function Flatten(cs: seq<Comment>, keys: seq<int>): (r: seq<Comment>)
    ensures forall i :: 0 <= i < |r| ==> r[i] in cs && r[i].postId in keys
    ensures forall i :: 0 <= i < |cs| && cs[i].postId in keys ==> cs[i] in r
  {
    if keys == [] then []
    else OnPost(cs, keys[0]) + Flatten(cs, keys[1..])
  }

  function PostAuthors(posts: seq<Post>): seq<int> {
    seq(|posts|, i requires 0 <= i < |posts| => posts[i].userId)
  }

  function CommentAuthors(cs: seq<Comment>): seq<int> {
    seq(|cs|, i requires 0 <= i < |cs| => cs[i].userId)
  }

  /** Flattening the buckets in hash order loses no comment. */
  lemma FlattenKeepsAll(cs: seq<Comment>)
    ensures forall i :: 0 <= i < |cs| ==> cs[i] in Flatten(cs, KeyOrder(cs))
  {
    forall i | 0 <= i < |cs| ensures cs[i] in Flatten(cs, KeyOrder(cs)) {
      assert PostIdSeq(cs)[i] == cs[i].postId;
    }
  }

  lemma SameCommentAuthors(cs: seq<Comment>, flat: seq<Comment>)
    requires forall i :: 0 <= i < |flat| ==> flat[i] in cs
    requires forall i :: 0 <= i < |cs| ==> cs[i] in flat
    ensures forall x :: x in CommentAuthors(flat) <==> x in CommentAuthors(cs)
  {
    forall x | x in CommentAuthors(flat) ensures x in CommentAuthors(cs) {
      var i :| 0 <= i < |flat| && CommentAuthors(flat)[i] == x;
      var j :| 0 <= j < |cs| && cs[j] == flat[i];
      assert CommentAuthors(cs)[j] == x;
    }
    forall x | x in CommentAuthors(cs) ensures x in CommentAuthors(flat) {
      var j :| 0 <= j < |cs| && CommentAuthors(cs)[j] == x;
      var i :| 0 <= i < |flat| && flat[i] == cs[j];
      assert CommentAuthors(flat)[i] == x;
    }
  }

  /** `user_ids`: post authors, then the authors of the grouped comments in
      hash order, duplicates removed. */
  function TimelineUserIds(posts: seq<Post>, cs: seq<Comment>): (ids: seq<int>)
    ensures NoDuplicates(ids)
    ensures forall x :: x in ids <==> x in PostAuthors(posts) || x in CommentAuthors(cs)
  {
    var flat := Flatten(cs, KeyOrder(cs));
    FlattenKeepsAll(cs);
    SameCommentAuthors(cs, flat);
    var all := PostAuthors(posts) + CommentAuthors(flat);
    var ids := Uniq(all);
    assert forall x :: x in ids <==> x in all by {
      forall x ensures x in ids <==> x in all {
        if x in ids {
          var i :| 0 <= i < |ids| && ids[i] == x;
        }
        if x in all {
          var i :| 0 <= i < |all| && all[i] == x;
        }
      }
    }
    ids
  }

  // ---------------------------------------------------------------------
  // Indexing the fetched users by id
  // ---------------------------------------------------------------------

  /** `u` is the last row of `raw` whose id is `k`. */
  ghost predicate LastWithId(raw: seq<User>, k: int, u: User) {
    exists j :: 0 <= j < |raw| && raw[j] == u && u.id == k &&
                forall j' :: j < j' < |raw| ==> raw[j'].id != k
  }

  /** The `users` hash: each fetched id maps to its row, a later row with
      the same id overwriting an earlier one. */
  function IndexById(raw: seq<User>): map<int, User> {
    if raw == [] then map[]
    else IndexById(raw[..|raw| - 1])[raw[|raw| - 1].id := raw[|raw| - 1]]
  }

  /** The index has exactly the fetched ids as keys, and each key maps to
      the last fetched row with that id. */
  lemma {:induction false} IndexByIdMeaning(raw: seq<User>)
    ensures forall k :: k in IndexById(raw) <==> exists j :: 0 <= j < |raw| && raw[j].id == k
    ensures forall k :: k in IndexById(raw) ==> LastWithId(raw, k, IndexById(raw)[k])
  {
    if raw != [] {
      var prefix := raw[..|raw| - 1];
      var last := raw[|raw| - 1];
      IndexByIdMeaning(prefix);
      var m := IndexById(raw);
      assert m == IndexById(prefix)[last.id := last];
      forall k | k in m && k != last.id ensures LastWithId(raw, k, m[k]) {
        assert m[k] == IndexById(prefix)[k];
        assert LastWithId(prefix, k, IndexById(prefix)[k]);
        var j :| 0 <= j < |prefix| && prefix[j] == m[k] && m[k].id == k &&
                 forall j' :: j < j' < |prefix| ==> prefix[j'].id != k;
        assert raw[j] == m[k];
      }
      assert LastWithId(raw, last.id, m[last.id]) by {
        assert raw[|raw| - 1] == last;
      }
      forall k | exists j :: 0 <= j < |raw| && raw[j].id == k ensures k in m {
        var j :| 0 <= j < |raw| && raw[j].id == k;
        if j < |raw| - 1 {
          assert prefix[j].id == k;
          assert k in IndexById(prefix);
        }
      }
      forall k | k in m ensures exists j :: 0 <= j < |raw| && raw[j].id == k {
        if k != last.id {
          var j :| 0 <= j < |prefix| && prefix[j].id == k;
          assert raw[j].id == k;
        } else {
          assert raw[|raw| - 1].id == k;
        }
      }
    }
  }

  /** When the fetched rows are exactly the table's rows for the requested
      ids (the `WHERE id IN (...)` query), the index is the table restricted
      to those ids. */
  lemma IndexOfQueriedRows(raw: seq<User>, rows: map<int, User>, ids: seq<int>)
    requires forall j :: 0 <= j < |raw| ==>
      raw[j].id in rows && rows[raw[j].id] == raw[j] && raw[j].id in ids
    requires forall id :: id in ids && id in rows ==> exists j :: 0 <= j < |raw| && raw[j].id == id
    ensures IndexById(raw) == map id | id in ids && id in rows :: rows[id]
  {
    var m := IndexById(raw);
    var want := map id | id in ids && id in rows :: rows[id];
    IndexByIdMeaning(raw);
    forall k | k in m ensures k in want {
      var j :| 0 <= j < |raw| && raw[j].id == k;
    }
    forall k | k in want ensures k in m {
      assert k in ids && k in rows;
      var j :| 0 <= j < |raw| && raw[j].id == k;
    }
    assert m.Keys == want.Keys;
    forall k | k in m ensures m[k] == want[k] {
      assert LastWithId(raw, k, m[k]);
    }
  }

  /** The loop that fills the `users` hash. */
  method IndexUsers(raw: seq<User>) returns (users: map<int, User>)
    ensures users == IndexById(raw)
  {
    users := map[];
    for i := 0 to |raw|
      invariant users == IndexById(raw[..i])
    {
      assert raw[..i + 1][..i] == raw[..i];
      users := users[raw[i].id := raw[i]];
    }
    assert raw[..|raw|] == raw;
  }

  // ---------------------------------------------------------------------
  // The viewer
  // ---------------------------------------------------------------------

  /** The `user` local: the guest sentinel `{id: 0}` for a visitor without
      a session, else the row of the session's user id, which may be
      absent (the query then yields nil). */
  datatype Viewer = Guest | SignedIn(user: User) | UnknownSession(id: int)

  const GuestId := 0

  function ViewerId(v: Viewer): int {
    match v
    case Guest => GuestId
    case SignedIn(u) => u.id
    case UnknownSession(id) => id
  }

  /** The session's user id is looked up without the `del_flg` filter, so a
      banned user with a live session is still shown as signed in. */
  function ViewerFor(session: Option<int>, rows: map<int, User>): (v: Viewer)
    ensures session.None? <==> v == Guest
    ensures v.SignedIn? <==> session.Some? && session.value in rows
    ensures v.SignedIn? ==> v.user == rows[session.value]
    ensures session.Some? && session.value !in rows ==> v == UnknownSession(session.value)
  {
    match session
    case None => Guest
    case Some(id) => if id in rows then SignedIn(rows[id]) else UnknownSession(id)
  }

  /** The guest sentinel's id belongs to no stored user: ids start at 1. */
  lemma GuestIsNoUser(rows: map<int, User>, nextId: int, session: Option<int>)
    requires Accounts.TableValid(rows, nextId)
    ensures GuestId !in rows
    ensures ViewerFor(session, rows).SignedIn? ==> ViewerId(ViewerFor(session, rows)) != GuestId
  {
  }

  // ---------------------------------------------------------------------
  // The whole handler
  // ---------------------------------------------------------------------

  /** With no posts the handler builds `WHERE post_id IN ()`, which the
      database rejects as a syntax error. */
  datatype HomeError = EmptyIdList

  datatype HomePage = HomePage(
    posts: seq<Post>,
    comments: map<int, seq<Comment>>,
    users: map<int, User>,
    viewer: Viewer)

  /** `get '/'`: `posts` is the newest-first page, `cs` the comments on
      those posts, `usersRaw` the rows the `id IN (user_ids)` query
      returned from the table `rows`. */
  method Home(posts: seq<Post>, cs: seq<Comment>, usersRaw: seq<User>,
              session: Option<int>, rows: map<int, User>)
    returns (r: Result<HomePage, HomeError>)
    requires forall j :: 0 <= j < |usersRaw| ==>
      usersRaw[j].id in rows && rows[usersRaw[j].id] == usersRaw[j] &&
      usersRaw[j].id in TimelineUserIds(posts, cs)
    requires forall id :: id in TimelineUserIds(posts, cs) && id in rows ==>
      exists j :: 0 <= j < |usersRaw| && usersRaw[j].id == id
    ensures r.Failure? <==> posts == []
    ensures r.Success? ==> r.value.posts == posts && r.value.comments == GroupByPost(cs)
    ensures r.Success? ==>
      r.value.users == map id | id in TimelineUserIds(posts, cs) && id in rows :: rows[id]
    ensures r.Success? ==> r.value.viewer == ViewerFor(session, rows)
  {
    if posts == [] {
      return Failure(EmptyIdList);
    }
    var grouped := GroupComments(cs);
    var viewer := ViewerFor(session, rows);
    var users := IndexUsers(usersRaw);
    IndexOfQueriedRows(usersRaw, rows, TimelineUserIds(posts, cs));
    r := Success(HomePage(posts, grouped, users, viewer));
  }
}
