/** The server-rendered home page: the ten newest posts plus the paging state
    handed to the infinite-scroll list. */
module HomePage {
  import opened Wrappers
  import opened PostsApi

  const PAGE_SIZE: nat := 10

  /** The initial props of the post list. */
  datatype FirstPageState = FirstPageState(posts: seq<Post>, nextCursor: Option<int>, hasMore: bool)

  /** The ten newest posts, newest first; `nextCursor` and `hasMore` are set
      only when the page came back full. */
  function FirstPage(ps: seq<Post>): (r: FirstPageState)
    requires AscendingIds(ps)
    ensures r.posts == ListPosts(ps, Some(PAGE_SIZE), None).items
    ensures r.hasMore <==> |r.posts| == PAGE_SIZE
    ensures r.nextCursor.Some? <==> r.hasMore
    ensures r.hasMore ==> r.nextCursor == Some(r.posts[PAGE_SIZE - 1].id)
  {
    var items := FindPage(ps, None, PAGE_SIZE);
    FirstPageState(items, if |items| == PAGE_SIZE then Some(items[|items| - 1].id) else None,
                   |items| == PAGE_SIZE)
  }

  /** On a full page the home page agrees with `GET /api/posts?limit=10`. */
  lemma FullPageMatchesApi(ps: seq<Post>)
    requires AscendingIds(ps)
    requires FirstPage(ps).hasMore
    ensures var api := ListPosts(ps, Some(PAGE_SIZE), None);
      FirstPage(ps) == FirstPageState(api.items, api.nextCursor, api.hasMore)
  {
  }

  /** On a short, non-empty table the two differ: the API reports the last id
      as `nextCursor`, the home page reports none. */
  lemma ShortPageDiffersFromApi(ps: seq<Post>)
    requires AscendingIds(ps)
    requires 0 < |ps| < PAGE_SIZE
    ensures FirstPage(ps).posts == ListPosts(ps, Some(PAGE_SIZE), None).items
    ensures FirstPage(ps).nextCursor == None && !FirstPage(ps).hasMore
    ensures ListPosts(ps, Some(PAGE_SIZE), None).nextCursor.Some?
  {
    NewestFirstLength(ps);
  }
}
