/** The "Write a new post" page: per-field checks on the trimmed inputs,
    then a `POST /api/posts` with the trimmed values and a redirect to the
    new post. */
module NewPostPage {
  import opened Wrappers
  import opened Text
  import opened Validation
  import PostsApi

  const HANDLE_REQUIRED := "Handle is required."
  const HANDLE_CHARSET := "Handle can only contain letters, numbers, '_' and '-' (no spaces)."
  const HANDLE_LENGTH := "Handle must be 3\U{2013}24 characters long."
  const TITLE_REQUIRED := "Title is required."
  const CONTENT_REQUIRED := "Content is required."
  const CREATE_FAILED := "Failed to create post."
  const INVALID_RESPONSE := "Invalid response from server."
  const UNEXPECTED := "An unexpected error occurred."

  /** The three inputs of the form; also the JSON body that is sent. */
  datatype PostFields = PostFields(handle: string, title: string, content: string)

  /** The per-field messages; a missing entry means the field is fine. */
  datatype FieldErrors = FieldErrors(handle: Option<string>, title: Option<string>, content: Option<string>)

  const NO_ERRORS := FieldErrors(None, None, None)

  predicate HasAny(e: FieldErrors) {
    e.handle.Some? || e.title.Some? || e.content.Some?
  }

  function Trimmed(f: PostFields): PostFields {
    PostFields(Trim(f.handle), Trim(f.title), Trim(f.content))
  }

  function HandleMessage(p: HandleProblem): string {
    match p
    case HandleRequired => HANDLE_REQUIRED
    case HandleCharset => HANDLE_CHARSET
    case HandleLength => HANDLE_LENGTH
  }

  /** The handle entry: the message for the first handle check that fails. */
  function HandleError(handle: string): (e: Option<string>)
    ensures e.Some? ==> e.value in [HANDLE_REQUIRED, HANDLE_CHARSET, HANDLE_LENGTH]
    ensures e.None? ==> !IsBlank(handle)
  {
    var p := CheckHandle(Trim(handle));
    if p.None? then None else Some(HandleMessage(p.value))
  }

  /** The handle checks run in order (required, then the character class,
      then 3 to 24) and at most one message results. */
  lemma HandleErrorOrder(handle: string)
    ensures HandleError(handle) == None <==> MatchesHandlePattern(Trim(handle)) && 3 <= |Trim(handle)| <= 24
    ensures HandleError(handle) == Some(HANDLE_REQUIRED) <==> IsBlank(handle)
    ensures HandleError(handle) == Some(HANDLE_CHARSET) <==> !IsBlank(handle) && !MatchesHandlePattern(Trim(handle))
    ensures HandleError(handle) == Some(HANDLE_LENGTH) <==>
              MatchesHandlePattern(Trim(handle)) && (|Trim(handle)| < 3 || |Trim(handle)| > 24)
  {
  }

  /** The field errors of one submission. */
  function FieldErrorsFor(f: PostFields): (e: FieldErrors)
    ensures HasAny(e) <==> HandleError(f.handle).Some? || IsBlank(f.title) || IsBlank(f.content)
  {
    FieldErrors(
      HandleError(f.handle),
      if IsBlank(f.title) then Some(TITLE_REQUIRED) else None,
      if IsBlank(f.content) then Some(CONTENT_REQUIRED) else None)
  }

  /** Each field is checked on its own, so several may be reported at once;
      title and content are only required to be non-blank, with no length limit. */
  lemma FieldErrorsIndependent(f: PostFields)
    ensures FieldErrorsFor(f).handle == HandleError(f.handle)
    ensures FieldErrorsFor(f).title.Some? <==> IsBlank(f.title)
    ensures FieldErrorsFor(f).title.Some? ==> FieldErrorsFor(f).title.value == TITLE_REQUIRED
    ensures FieldErrorsFor(f).content.Some? <==> IsBlank(f.content)
    ensures FieldErrorsFor(f).content.Some? ==> FieldErrorsFor(f).content.value == CONTENT_REQUIRED
  {
  }

  /** A trimmed text that is not empty is left as it is by another trim. */
  lemma TrimTwice(s: string)
    ensures Trim(Trim(s)) == Trim(s)
  {
    TrimUntouched(Trim(s));
  }

  /** Whatever passes the page's checks also passes the server's, except the
      server's length limit, which the page does not check: the only refusal
      a clean form can still receive is "content too long". */
  lemma ClientValidMeetsServer(f: PostFields)
    requires !HasAny(FieldErrorsFor(f))
    ensures var t := Trimmed(f);
      PostsApi.CreateCheck(PostsApi.Str(t.handle), PostsApi.Str(t.title), PostsApi.Str(t.content))
        == if |t.content| > PostsApi.MAX_CONTENT_LENGTH then Some(PostsApi.CONTENT_TOO_LONG) else None
  {
    var t := Trimmed(f);
    assert CheckHandle(t.handle).None?;
    assert PostsApi.HandleAccepted(PostsApi.Str(t.handle));
    TrimTwice(f.title);
    assert PostsApi.TextPresent(PostsApi.Str(t.title));
    TrimTwice(f.content);
    assert PostsApi.TextPresent(PostsApi.Str(t.content));
  }

  /** The `id` of the success body, by its JavaScript type. */
  datatype ResponseId = NumberId(n: int) | StringId(s: string) | OtherId

  /** The page of a post, `/posts/${id}`. */
  function PostPath(id: ResponseId): (p: string)
    requires !id.OtherId?
    ensures |p| >= 7 && p[..7] == "/posts/"
    ensures id.NumberId? ==> p[7..] == IntToDecimal(id.n)
    ensures id.StringId? ==> p[7..] == id.s
  {
    "/posts/" + (if id.NumberId? then IntToDecimal(id.n) else id.s)
  }

  /** How the request ended. A 2xx answer comes in three kinds: a JSON value
      other than `null`, with the type of its `id`; the JSON value `null`; or
      a body that is not JSON at all. Otherwise the answer was an error, with
      its message if any, or the request itself threw (network failure). */
  datatype SubmitOutcome =
    | Answered(id: ResponseId)
    | AnsweredNull
    | AnsweredNotJson
    | Refused(message: Option<string>)
    | Threw

  /** The server answered with a 2xx status (`res.ok`). */
  predicate Succeeded(outcome: SubmitOutcome) {
    outcome.Answered? || outcome.AnsweredNull? || outcome.AnsweredNotJson?
  }

  /** The page error after a request that was sent, by how it ended: none
      for a usable id, otherwise the server's message or a fallback. Reading
      the body of a 2xx answer is not guarded here: a body that is not JSON
      makes `res.json()` reject, and `data.id` on `null` throws, so both end
      in the catch-all message. */
  function OutcomeError(outcome: SubmitOutcome): (e: Option<string>)
    ensures e.None? <==> outcome.Answered? && !outcome.id.OtherId?
    ensures outcome.Answered? && outcome.id.OtherId? ==> e == Some(INVALID_RESPONSE)
    ensures outcome.Refused? ==> e == Some(MessageOr(outcome.message, CREATE_FAILED))
    ensures outcome.Threw? || outcome.AnsweredNull? || outcome.AnsweredNotJson? ==> e == Some(UNEXPECTED)
  {
    match outcome
    case Answered(id) => if id.OtherId? then Some(INVALID_RESPONSE) else None
    case Refused(message) => Some(MessageOr(message, CREATE_FAILED))
    case _ => Some(UNEXPECTED)
  }

  /** Where the page goes after a request that was sent: the new post's page
      when the answer carries an id of type number or string, nowhere otherwise. */
  function OutcomeNavigation(outcome: SubmitOutcome): (nav: Option<string>)
    ensures nav.Some? <==> outcome.Answered? && !outcome.id.OtherId?
    ensures nav.Some? ==> nav.value == PostPath(outcome.id)
  {
    if outcome.Answered? && !outcome.id.OtherId? then Some(PostPath(outcome.id)) else None
  }

  /** A page error and a navigation never come together. */
  lemma ErrorOrNavigation(outcome: SubmitOutcome)
    ensures OutcomeError(outcome).Some? <==> OutcomeNavigation(outcome).None?
  {
  }

  class NewPostPageState {
    var fields: PostFields
    var submitting: bool
    var error: Option<string>
    var fieldErrors: FieldErrors

    constructor ()
      ensures fields == PostFields([], [], []) && !submitting && error == None && fieldErrors == NO_ERRORS
    {
      fields := PostFields([], [], []);
      submitting := false;
      error := None;
      fieldErrors := NO_ERRORS;
    }

    /** Submitting the form. Any field error is shown and nothing is sent.
        Otherwise the trimmed fields are posted and the outcome decides the
        page error and the navigation; `submitting` is off again afterwards. */
    method Submit(outcome: SubmitOutcome) returns (request: Option<PostFields>, navigateTo: Option<string>)
      modifies this
      ensures fields == old(fields)
      ensures fieldErrors == FieldErrorsFor(old(fields))
      ensures HasAny(fieldErrors) ==>
                request == None && navigateTo == None && error == None && submitting == old(submitting)
      ensures !HasAny(fieldErrors) ==>
                && request == Some(Trimmed(old(fields))) && !submitting
                && error == OutcomeError(outcome) && navigateTo == OutcomeNavigation(outcome)
    {
      error := None;
      fieldErrors := FieldErrorsFor(fields);
      if HasAny(fieldErrors) {
        return None, None;
      }
      submitting := true;
      request := Some(Trimmed(fields));
      error, navigateTo := OutcomeError(outcome), OutcomeNavigation(outcome);
      submitting := false;
    }
  }
}
