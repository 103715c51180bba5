/** The client-side infinite-scroll list: it starts from the home page's
    first page and, each time the sentinel comes into view, asks the posts
    endpoint for the next ten posts after the current cursor. */
module PostList {
  import opened Wrappers
  import opened Text
  import opened PostsApi
  import HomePage

  const PAGE_SIZE: nat := 10

  const LOAD_FAILED := "Failed to load more posts."
  const LOAD_THREW := "An unexpected error occurred while loading more posts."

  /** The query string of a page request: `cursor` and `limit`. */
  datatype PageRequest = PageRequest(cursor: int, limit: nat)

  /** How the request ended. `Loaded` carries the body of a 2xx answer, whose
      `nextCursor` and `hasMore` may be missing; `HttpError` an error answer
      with its `error.message`, if any; `Threw` a network or parse failure. */
  datatype LoadOutcome =
    | Loaded(items: seq<Post>, nextCursor: Option<int>, hasMore: Option<bool>)
    | HttpError(message: Option<string>)
    | Threw

  /** `value ?? false`. */
  function OrFalse(b: Option<bool>): (r: bool)
    ensures r <==> b == Some(true)
  {
    match b
    case None => false
    case Some(v) => v
  }

  /** The message shown after a failed load: the server's message when it is
      a non-empty string, otherwise a fixed fallback. */
  function FailureMessage(outcome: LoadOutcome): (m: string)
    requires !outcome.Loaded?
    ensures m != []
    ensures outcome.Threw? ==> m == LOAD_THREW
    ensures outcome.HttpError? && outcome.message.Some? && outcome.message.value != [] ==>
              m == outcome.message.value
    ensures outcome.HttpError? && (outcome.message.None? || outcome.message.value == []) ==>
              m == LOAD_FAILED
  {
    match outcome
    case Threw => LOAD_THREW
    case HttpError(msg) => MessageOr(msg, LOAD_FAILED)
  }

  class PostListState {
    var posts: seq<Post>
    var nextCursor: Option<int>
    var hasMore: bool
    var loadingMore: bool
    var loadError: Option<string>

    constructor (initialPosts: seq<Post>, initialNextCursor: Option<int>, initialHasMore: bool)
      ensures posts == initialPosts && nextCursor == initialNextCursor && hasMore == initialHasMore
      ensures !loadingMore && loadError == None
    {
      posts := initialPosts;
      nextCursor := initialNextCursor;
      hasMore := initialHasMore;
      loadingMore := false;
      loadError := None;
    }

    /** The guard of `loadMore`: no load in flight, more to load, and a
        truthy cursor (present and not 0). */
    predicate CanLoad()
      reads this
    {
      !loadingMore && hasMore && nextCursor.Some? && nextCursor.value != 0
    }

    /** One `loadMore` call. When the guard fails nothing happens and no
        request is made. Otherwise the request asks for ten posts after the
        current cursor; a successful answer appends its items and replaces
        the cursor and `hasMore`; a failure only sets the error message.
        Either way `loadingMore` is false afterwards. */
    method LoadMore(outcome: LoadOutcome) returns (request: Option<PageRequest>)
      modifies this
      ensures request.Some? <==> old(CanLoad())
      ensures !old(CanLoad()) ==> unchanged(this)
      ensures old(CanLoad()) ==> request.value == PageRequest(old(nextCursor).value, PAGE_SIZE)
      ensures old(CanLoad()) ==> !loadingMore
      ensures old(CanLoad()) && outcome.Loaded? ==>
                && posts == old(posts) + outcome.items
                && nextCursor == outcome.nextCursor
                && hasMore == OrFalse(outcome.hasMore)
                && loadError == None
      ensures old(CanLoad()) && !outcome.Loaded? ==>
                && posts == old(posts) && nextCursor == old(nextCursor) && hasMore == old(hasMore)
                && loadError == Some(FailureMessage(outcome))
    {
      if loadingMore || !hasMore || nextCursor.None? || nextCursor.value == 0 {
        return None;
      }
      loadingMore := true;
      loadError := None;
      request := Some(PageRequest(nextCursor.value, PAGE_SIZE));
      match outcome {
        case Loaded(items, cursor, more) =>
          posts := posts + items;
          nextCursor := cursor;
          hasMore := OrFalse(more);
        case HttpError(_) =>
          loadError := Some(FailureMessage(outcome));
        case Threw =>
          loadError := Some(FailureMessage(outcome));
      }
      loadingMore := false;
    }
  }

  /** The endpoint's answer to a request, as `LoadMore` receives it. */
  function Answer(ps: seq<Post>, request: PageRequest): (o: LoadOutcome)
    requires AscendingIds(ps)
    ensures o.Loaded? && o.hasMore.Some?
  {
    var page := ListPosts(ps, Some(request.limit), Some(request.cursor));
    Loaded(page.items, page.nextCursor, Some(page.hasMore))
  }

  /** Scrolling once past a full first page, against the endpoint over the
      same table, shows exactly the twenty newest posts, newest first. */
  lemma {:induction false} SecondLoadContinuesFirstPage(ps: seq<Post>)
    requires AscendingIds(ps)
    requires forall k :: 0 <= k < |ps| ==> ps[k].id >= 1
    requires HomePage.FirstPage(ps).hasMore
    ensures var first := HomePage.FirstPage(ps);
      var o := Answer(ps, PageRequest(first.nextCursor.value, PAGE_SIZE));
      first.posts + o.items == Take(NewestFirst(ps, None), 2 * PAGE_SIZE)
  {
    var first := HomePage.FirstPage(ps);
    var all := NewestFirst(ps, None);
    assert first.posts == all[..PAGE_SIZE];
    var c := all[PAGE_SIZE - 1].id;
    assert all[PAGE_SIZE - 1] in all;
    NewestFirstMember(ps, None, all[PAGE_SIZE - 1]);
    ResumeAfter(ps, PAGE_SIZE - 1);
    var rest := NewestFirst(ps, Some(c));
    assert rest == all[PAGE_SIZE..];
    var o := Answer(ps, PageRequest(c, PAGE_SIZE));
    assert o.items == Take(rest, PAGE_SIZE);
    TakeInTwo(all, PAGE_SIZE);
  }

  /** Taking `n` and then `n` more of what follows is taking `2 * n`. */
  lemma TakeInTwo(all: seq<Post>, n: nat)
    requires n <= |all|
    ensures all[..n] + Take(all[n..], n) == Take(all, 2 * n)
  {
    if |all| <= 2 * n {
      assert all == all[..n] + all[n..];
    } else {
      assert all[..2 * n] == all[..n] + all[n..][..n];
    }
  }
}
