/** The posts collection endpoint: `POST` validates a JSON body and appends
    a post to the store; `GET` returns a cursor-paginated page, newest first.
    The database is a store object holding the posts in id order; ids are
    handed out by an autoincrement counter. */
module PostsApi {
  import opened Wrappers
  import opened Text

  /** A stored post; timestamps are integer milliseconds. */
  datatype Post = Post(id: int, handle: string, title: string, content: string, createdAt: int, updatedAt: int)

  /** One field of the parsed request body: missing, a string, or a value of
      some other JSON type. */
  datatype Field = Absent | Str(s: string) | NotString

  /** The request body: either it could not be read as a JSON object with
      fields (the body is not JSON, or it is `null`), or these are its fields. */
  datatype Body = Unreadable | Fields(handle: Field, title: Field, content: Field)

  /** An error response: HTTP status, optional error code, message. */
  datatype ApiError = ApiError(status: int, code: Option<string>, message: string)

  datatype CreateResponse = Created(post: Post) | Rejected(error: ApiError)

  const MAX_CONTENT_LENGTH: nat := 10000

  const HANDLE_INVALID := ApiError(400, Some("INVALID_INPUT"), "Handle is invalid.")
  const TITLE_REQUIRED := ApiError(400, Some("INVALID_INPUT"), "Title is required.")
  const CONTENT_REQUIRED := ApiError(400, Some("INVALID_INPUT"), "Content is required.")
  const CONTENT_TOO_LONG := ApiError(400, None, "Content is too long (max 10,000 characters).")
  const SERVER_ERROR := ApiError(500, Some("SERVER_ERROR"), "Internal server error.")

  /** The status the handler answers with. */
  function Status(r: CreateResponse): int {
    if r.Created? then 201 else r.error.status
  }

  /** The server's handle rule: a string of at least two code units; it is
      neither trimmed nor checked against a character set. */
  predicate HandleAccepted(f: Field) {
    f.Str? && |f.s| >= 2
  }

  /** Title and content must be strings that are not blank, that is, whose
      trim is not empty (`Trim` states the equivalence). */
  predicate TextPresent(f: Field) {
    f.Str? && !IsBlank(f.s)
  }

  /** The POST checks in order (handle, title, content, length); the first
      that fails decides the error. The length limit counts the untrimmed content. */
  function CreateCheck(handle: Field, title: Field, content: Field): (r: Option<ApiError>)
    ensures r == Some(HANDLE_INVALID) <==> !HandleAccepted(handle)
    ensures r == Some(TITLE_REQUIRED) <==> HandleAccepted(handle) && !TextPresent(title)
    ensures r == Some(CONTENT_REQUIRED) <==>
              HandleAccepted(handle) && TextPresent(title) && !TextPresent(content)
    ensures r == Some(CONTENT_TOO_LONG) <==>
              HandleAccepted(handle) && TextPresent(title) && TextPresent(content)
              && |content.s| > MAX_CONTENT_LENGTH
    ensures r == None <==>
              HandleAccepted(handle) && TextPresent(title) && TextPresent(content)
              && |content.s| <= MAX_CONTENT_LENGTH
  {
    if !(handle.Str? && |handle.s| >= 2) then Some(HANDLE_INVALID)
    else if !(title.Str? && title.s != [] && !IsBlank(title.s)) then Some(TITLE_REQUIRED)
    else if !(content.Str? && content.s != [] && !IsBlank(content.s)) then Some(CONTENT_REQUIRED)
    else if |content.s| > 10000 then Some(CONTENT_TOO_LONG)
    else None
  }

  /** What every post accepted by `POST` satisfies. */
  predicate StoredPostOk(p: Post) {
    && |p.handle| >= 2
    && !IsBlank(p.title)
    && !IsBlank(p.content)
    && |p.content| <= MAX_CONTENT_LENGTH
  }

  predicate AscendingIds(ps: seq<Post>) {
    forall a, b :: 0 <= a < b < |ps| ==> ps[a].id < ps[b].id
  }

  /** The posts table. */
  class PostStore {
    var posts: seq<Post>
    var nextId: int

    ghost predicate Valid()
      reads this
    {
      && nextId >= 1
      && AscendingIds(posts)
      && (forall k :: 0 <= k < |posts| ==> 1 <= posts[k].id < nextId)
      && (forall k :: 0 <= k < |posts| ==> StoredPostOk(posts[k]))
    }

    constructor ()
      ensures Valid() && posts == [] && nextId == 1
    {
      posts := [];
      nextId := 1;
    }

    /** `POST /api/posts` at time `now`: on success the post is stored with
        the raw, untrimmed handle, title and content and answered with 201;
        on any failure nothing is stored. */
    method Create(body: Body, now: int) returns (resp: CreateResponse)
      requires Valid()
      modifies this
      ensures Valid()
      ensures body.Unreadable? ==>
                resp == Rejected(SERVER_ERROR) && posts == old(posts) && nextId == old(nextId)
      ensures body.Fields? && CreateCheck(body.handle, body.title, body.content).Some? ==>
                && resp == Rejected(CreateCheck(body.handle, body.title, body.content).value)
                && posts == old(posts) && nextId == old(nextId)
      ensures body.Fields? && CreateCheck(body.handle, body.title, body.content).None? ==>
                && resp == Created(Post(old(nextId), body.handle.s, body.title.s, body.content.s, now, now))
                && posts == old(posts) + [resp.post]
                && nextId == old(nextId) + 1
    {
      if body.Unreadable? {
        return Rejected(SERVER_ERROR);
      }
      var check := CreateCheck(body.handle, body.title, body.content);
      if check.Some? {
        return Rejected(check.value);
      }
      var post := Post(nextId, body.handle.s, body.title.s, body.content.s, now, now);
      posts := posts + [post];
      nextId := nextId + 1;
      resp := Created(post);
    }

    /** `GET /api/posts` on the current table. */
    method List(limitParam: Option<nat>, cursorParam: Option<int>) returns (page: Page)
      requires Valid()
      ensures page == ListPosts(posts, limitParam, cursorParam)
    {
      page := ListPosts(posts, limitParam, cursorParam);
    }
  }

  /** A two-character handle and a title with surrounding spaces pass the
      server's checks; `Create` then stores the title with its spaces. */
  lemma PaddedTitleAccepted()
    ensures CreateCheck(Str("ab"), Str(" Hi "), Str("body")) == None
  {
    assert !IsWhitespace(" Hi "[1]);
    assert !IsWhitespace("body"[0]);
  }

  /** Content of exactly 10,000 code units is accepted; 10,001 is refused
      with the code-less length error. */
  lemma ContentLengthBoundary(handle: string, title: string, content: string)
    requires |handle| >= 2 && Trim(title) != [] && Trim(content) != []
    ensures |content| == 10000 ==> CreateCheck(Str(handle), Str(title), Str(content)) == None
    ensures |content| == 10001 ==>
              CreateCheck(Str(handle), Str(title), Str(content)) == Some(CONTENT_TOO_LONG)
  {
  }

  // ---------------------------------------------------------------------
  // Listing

  datatype Page = Page(items: seq<Post>, nextCursor: Option<int>, hasMore: bool)

  /** `limit ? Math.min(limit, 50) : 20` on an already parsed limit. */
  function EffectiveLimit(limitParam: Option<nat>): (n: nat)
    ensures limitParam.None? ==> n == 20
    ensures limitParam.Some? ==> n <= 50 && n <= limitParam.value
    ensures limitParam.Some? ==> n == limitParam.value || n == 50
  {
    match limitParam
    case None => 20
    case Some(l) => if l < 50 then l else 50
  }

  /** The id filter: a missing cursor and a cursor of 0 (falsy) both mean none. */
  function CursorFilter(cursorParam: Option<int>): (c: Option<int>)
    ensures c.Some? <==> cursorParam.Some? && cursorParam.value != 0
    ensures c.Some? ==> c.value == cursorParam.value
  {
    match cursorParam
    case None => None
    case Some(v) => if v == 0 then None else Some(v)
  }

  predicate Below(p: Post, cursor: Option<int>) {
    cursor.None? || p.id < cursor.value
  }

  /** The posts passing the cursor filter, in descending id order. */
  function NewestFirst(ps: seq<Post>, cursor: Option<int>): seq<Post> {
    if ps == [] then []
    else
      var last := ps[|ps| - 1];
      (if Below(last, cursor) then [last] else []) + NewestFirst(ps[..|ps| - 1], cursor)
  }

  function Take(s: seq<Post>, n: nat): (r: seq<Post>)
    ensures |r| == if |s| <= n then |s| else n
    ensures r == s[..|r|]
  {
    if |s| <= n then s else s[..n]
  }

  /** `findMany({ where: id < cursor, orderBy: id desc, take: limit })`. */
  function FindPage(ps: seq<Post>, cursor: Option<int>, limit: nat): seq<Post> {
    Take(NewestFirst(ps, cursor), limit)
  }

  lemma {:induction false} NewestFirstMember(ps: seq<Post>, cursor: Option<int>, p: Post)
    ensures p in NewestFirst(ps, cursor) <==> p in ps && Below(p, cursor)
  {
    if ps != [] {
      var init := ps[..|ps| - 1];
      NewestFirstMember(init, cursor, p);
      assert ps == init + [ps[|ps| - 1]];
    }
  }

  lemma {:induction false} NewestFirstDescending(ps: seq<Post>, cursor: Option<int>)
    requires AscendingIds(ps)
    ensures forall a, b :: 0 <= a < b < |NewestFirst(ps, cursor)| ==>
              NewestFirst(ps, cursor)[a].id > NewestFirst(ps, cursor)[b].id
  {
    if ps != [] {
      var init := ps[..|ps| - 1];
      var last := ps[|ps| - 1];
      NewestFirstDescending(init, cursor);
      var rest := NewestFirst(init, cursor);
      forall q | q in rest ensures q.id < last.id {
        NewestFirstMember(init, cursor, q);
      }
    }
  }

  /** `GET /api/posts`: the page, `nextCursor` (the last item's id, or null
      for an empty page) and `hasMore` (the page is exactly `limit` long). */
  function ListPosts(ps: seq<Post>, limitParam: Option<nat>, cursorParam: Option<int>): (r: Page)
    requires AscendingIds(ps)
    ensures |r.items| <= EffectiveLimit(limitParam)
    ensures forall i :: 0 <= i < |r.items| ==> r.items[i] in ps && Below(r.items[i], CursorFilter(cursorParam))
    ensures forall a, b :: 0 <= a < b < |r.items| ==> r.items[a].id > r.items[b].id
    ensures forall p :: p in ps && Below(p, CursorFilter(cursorParam)) && p !in r.items ==>
              && |r.items| == EffectiveLimit(limitParam)
              && (r.items != [] ==> p.id < r.items[|r.items| - 1].id)
    ensures r.nextCursor == if r.items == [] then None else Some(r.items[|r.items| - 1].id)
    ensures r.hasMore <==> |r.items| == EffectiveLimit(limitParam)
  {
    var limit := EffectiveLimit(limitParam);
    var cursor := CursorFilter(cursorParam);
    var items := FindPage(ps, cursor, limit);
    PageProperties(ps, cursor, limit);
    Page(items, if |items| > 0 then Some(items[|items| - 1].id) else None, |items| == limit)
  }

  lemma PageProperties(ps: seq<Post>, cursor: Option<int>, limit: nat)
    requires AscendingIds(ps)
    ensures var items := FindPage(ps, cursor, limit);
      && (forall i :: 0 <= i < |items| ==> items[i] in ps && Below(items[i], cursor))
      && (forall a, b :: 0 <= a < b < |items| ==> items[a].id > items[b].id)
      && (forall p :: p in ps && Below(p, cursor) && p !in items ==>
            |items| == limit && (items != [] ==> p.id < items[|items| - 1].id))
  {
    var all := NewestFirst(ps, cursor);
    var items := FindPage(ps, cursor, limit);
    NewestFirstDescending(ps, cursor);
    forall i | 0 <= i < |items| ensures items[i] in ps && Below(items[i], cursor) {
      assert items[i] in all;
      NewestFirstMember(ps, cursor, items[i]);
    }
    forall p | p in ps && Below(p, cursor) && p !in items
      ensures |items| == limit && (items != [] ==> p.id < items[|items| - 1].id)
    {
      NewestFirstMember(ps, cursor, p);
      var k :| 0 <= k < |all| && all[k] == p;
      assert k >= |items|;
    }
  }

  /** A cursor of 0 is ignored exactly like a missing cursor. */
  lemma ZeroCursorIsNoCursor(ps: seq<Post>, limitParam: Option<nat>)
    requires AscendingIds(ps)
    ensures ListPosts(ps, limitParam, Some(0)) == ListPosts(ps, limitParam, None)
  {
  }

  /** A limit of 0 yields an empty page that still reports `hasMore`. */
  lemma ZeroLimitQuirk(ps: seq<Post>, cursorParam: Option<int>)
    requires AscendingIds(ps)
    ensures ListPosts(ps, Some(0), cursorParam) == Page([], None, true)
  {
  }

  /** Without a cursor every post is listed. */
  lemma {:induction false} NewestFirstLength(ps: seq<Post>)
    ensures |NewestFirst(ps, None)| == |ps|
  {
    if ps != [] {
      NewestFirstLength(ps[..|ps| - 1]);
    }
  }

  /** A cursor above every id filters nothing. */
  lemma {:induction false} CursorAboveAll(ps: seq<Post>, c: int)
    requires forall k :: 0 <= k < |ps| ==> ps[k].id < c
    ensures NewestFirst(ps, Some(c)) == NewestFirst(ps, None)
  {
    if ps != [] {
      CursorAboveAll(ps[..|ps| - 1], c);
    }
  }

  /** Continuing from the id of the k-th listed post yields exactly the posts
      after it: cursor pagination neither skips nor repeats a post. */
  lemma {:induction false} ResumeAfter(ps: seq<Post>, k: nat)
    requires AscendingIds(ps)
    requires k < |NewestFirst(ps, None)|
    ensures NewestFirst(ps, Some(NewestFirst(ps, None)[k].id)) == NewestFirst(ps, None)[k + 1..]
  {
    var init := ps[..|ps| - 1];
    var last := ps[|ps| - 1];
    assert NewestFirst(ps, None) == [last] + NewestFirst(init, None);
    if k == 0 {
      CursorAboveAll(init, last.id);
    } else {
      var c := NewestFirst(init, None)[k - 1].id;
      assert NewestFirst(init, None)[k - 1] in NewestFirst(init, None);
      NewestFirstMember(init, None, NewestFirst(init, None)[k - 1]);
      ResumeAfter(init, k - 1);
    }
  }

  // ---------------------------------------------------------------------
  // A worked example: ids 1 to n

  predicate IdsOneTo(ps: seq<Post>) {
    forall k :: 0 <= k < |ps| ==> ps[k].id == k + 1
  }

  /** With ids 1..n and cursor c (at least 1), the posts below the cursor in
      descending order are min(n, c - 1) down to 1; without a cursor, n down to 1. */
  lemma {:induction false} NewestFirstOfConsecutive(ps: seq<Post>, cursor: Option<int>)
    requires IdsOneTo(ps)
    requires cursor.Some? ==> cursor.value >= 1
    ensures var top := if cursor.Some? && cursor.value - 1 < |ps| then cursor.value - 1 else |ps|;
      && |NewestFirst(ps, cursor)| == top
      && forall k :: 0 <= k < top ==> NewestFirst(ps, cursor)[k].id == top - k
  {
    if ps != [] {
      var init := ps[..|ps| - 1];
      NewestFirstOfConsecutive(init, cursor);
    }
  }

  /** Ids 1..25, limit 20: the first page is 25..6 with `nextCursor` 6 and
      `hasMore`; the page after cursor 6 is 5..1 without `hasMore`. */
  lemma TwentyFivePostsExample(ps: seq<Post>)
    requires |ps| == 25 && IdsOneTo(ps)
    ensures AscendingIds(ps)
    ensures var first := ListPosts(ps, Some(20), None);
      && |first.items| == 20
      && (forall k :: 0 <= k < 20 ==> first.items[k].id == 25 - k)
      && first.nextCursor == Some(6) && first.hasMore
    ensures var second := ListPosts(ps, Some(20), Some(6));
      && |second.items| == 5
      && (forall k :: 0 <= k < 5 ==> second.items[k].id == 5 - k)
      && second.nextCursor == Some(1) && !second.hasMore
  {
    NewestFirstOfConsecutive(ps, None);
    NewestFirstOfConsecutive(ps, Some(6));
  }
}
