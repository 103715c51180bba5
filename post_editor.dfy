/** The shared post editor, in create mode (a new post) or edit mode (an
    existing post): mode-dependent field checks, the missing-id guard, the
    request it sends, where it redirects and the label of its submit button. */
module PostEditor {
  import opened Wrappers
  import opened Text
  import opened NewPostPage

  datatype Mode = Create | Edit

  const MISSING_ID := "Missing post id."
  const SAVE_FAILED := "Failed to save the post."

  /** The optional `initialPost` prop; `id` is absent for a post not yet saved. */
  datatype InitialPost = InitialPost(id: Option<int>, handle: string, title: string, content: string)

  /** The field errors of one submission: the handle is checked only when
      creating, title and content in both modes. */
  function EditorFieldErrors(mode: Mode, f: PostFields): (e: FieldErrors)
    ensures mode.Edit? ==> e.handle == None
    ensures mode.Create? ==> (e.handle.None? <==> MatchesHandlePattern(Trim(f.handle)) && 3 <= |Trim(f.handle)| <= 24)
    ensures e.title.None? <==> !IsBlank(f.title)
    ensures e.content.None? <==> !IsBlank(f.content)
    ensures !HasAny(e) <==> (mode.Edit? || e.handle.None?) && !IsBlank(f.title) && !IsBlank(f.content)
  {
    FieldErrors(
      if mode.Edit? then None else HandleError(f.handle),
      if IsBlank(f.title) then Some(TITLE_REQUIRED) else None,
      if IsBlank(f.content) then Some(CONTENT_REQUIRED) else None)
  }

  /** In create mode the editor reports exactly what the new-post page does. */
  lemma CreateChecksLikeNewPage(f: PostFields)
    ensures EditorFieldErrors(Create, f) == FieldErrorsFor(f)
  {
  }

  /** In edit mode the handle is never reported and has no influence on the
      other entries, whatever it holds. */
  lemma EditIgnoresHandle(f: PostFields, h: string)
    ensures EditorFieldErrors(Edit, f).handle == None
    ensures EditorFieldErrors(Edit, f) == EditorFieldErrors(Edit, f.(handle := h))
  {
  }

  /** `!initialPost?.id`: no id, or the falsy id 0. */
  predicate MissingId(id: Option<int>)
    ensures !MissingId(id) ==> id.Some? && id.value != 0
    ensures MissingId(id) ==> id == None || id == Some(0)
  {
    id.None? || id.value == 0
  }

  /** The request the editor sends: a `PATCH /api/posts/{id}` with the trimmed
      title and content, or a `POST /api/posts` with all three trimmed fields. */
  datatype EditorRequest = PatchPost(id: int, title: string, content: string) | CreatePost(body: PostFields)

  function RequestFor(mode: Mode, id: Option<int>, t: PostFields): (r: EditorRequest)
    requires mode.Edit? ==> id.Some?
    ensures r.PatchPost? <==> mode.Edit?
    ensures r.PatchPost? ==> r.id == id.value && r.title == t.title && r.content == t.content
    ensures r.CreatePost? ==> r.body == t
  {
    if mode.Edit? then PatchPost(id.value, t.title, t.content) else CreatePost(t)
  }

  /** An edit request carries the post's own id and never the handle. */
  lemma EditRequestOmitsHandle(id: int, t: PostFields, h: string)
    ensures RequestFor(Edit, Some(id), t) == RequestFor(Edit, Some(id), t.(handle := h))
    ensures RequestFor(Edit, Some(id), t).PatchPost? && RequestFor(Edit, Some(id), t).id == id
  {
  }

  /** The id the editor redirects to: the `id` of the answer when creating,
      the id it was given when editing. */
  function RedirectId(mode: Mode, initialId: Option<int>, answered: ResponseId): (r: ResponseId)
    ensures mode.Create? ==> r == answered
    ensures mode.Edit? ==> (r.OtherId? <==> initialId.None?)
    ensures mode.Edit? && initialId.Some? ==> r == NumberId(initialId.value)
  {
    if mode.Create? then answered
    else if initialId.Some? then NumberId(initialId.value)
    else OtherId
  }

  /** The id the editor redirects with after a 2xx answer, or `None` when
      reading it throws. The body is read with `res.json().catch(() => ({}))`,
      so a body that is not JSON reads as `{}`, whose `id` is undefined. A
      `null` body is read as is; `data.id` on it throws, but only in create
      mode, because edit mode never looks at the body. */
  function AnsweredId(mode: Mode, initialId: Option<int>, outcome: SubmitOutcome): (r: Option<ResponseId>)
    requires Succeeded(outcome)
    ensures r.None? <==> mode.Create? && outcome.AnsweredNull?
    ensures mode.Create? && outcome.Answered? ==> r == Some(outcome.id)
    ensures mode.Create? && outcome.AnsweredNotJson? ==> r == Some(OtherId)
    ensures mode.Edit? ==> r == Some(RedirectId(Edit, initialId, OtherId))
  {
    match outcome
    case Answered(id) => Some(RedirectId(mode, initialId, id))
    case AnsweredNotJson => Some(RedirectId(mode, initialId, OtherId))
    case AnsweredNull => if mode.Create? then None else Some(RedirectId(mode, initialId, OtherId))
  }

  /** The page error once a request was sent, by how it ended. */
  function SaveError(mode: Mode, initialId: Option<int>, outcome: SubmitOutcome): (e: Option<string>)
    ensures outcome.Refused? ==> e == Some(MessageOr(outcome.message, SAVE_FAILED))
    ensures outcome.Threw? ==> e == Some(UNEXPECTED)
    ensures mode.Create? && outcome.AnsweredNull? ==> e == Some(UNEXPECTED)
    ensures mode.Create? && outcome.Answered? ==> (e.None? <==> !outcome.id.OtherId?)
    ensures mode.Create? && outcome.Answered? && outcome.id.OtherId? ==> e == Some(INVALID_RESPONSE)
    ensures mode.Edit? && Succeeded(outcome) ==>
              e == (if initialId.Some? then None else Some(INVALID_RESPONSE))
    ensures e.Some? ==> e.value != []
  {
    match outcome
    case Refused(message) => Some(MessageOr(message, SAVE_FAILED))
    case Threw => Some(UNEXPECTED)
    case _ =>
      var id := AnsweredId(mode, initialId, outcome);
      if id.None? then Some(UNEXPECTED)
      else if id.value.OtherId? then Some(INVALID_RESPONSE)
      else None
  }

  /** Where the editor goes once a request was sent: the page of the redirect
      id after a successful answer that yields a usable id. */
  function SaveNavigation(mode: Mode, initialId: Option<int>, outcome: SubmitOutcome): (n: Option<string>)
    ensures n.Some? ==> Succeeded(outcome)
    ensures mode.Create? && outcome.Answered? && !outcome.id.OtherId? ==> n == Some(PostPath(outcome.id))
    ensures mode.Edit? && Succeeded(outcome) && initialId.Some? ==> n == Some(PostPath(NumberId(initialId.value)))
    ensures n.Some? ==> |n.value| >= 7 && n.value[..7] == "/posts/"
  {
    if Succeeded(outcome) && AnsweredId(mode, initialId, outcome).Some?
       && !AnsweredId(mode, initialId, outcome).value.OtherId? then
      Some(PostPath(AnsweredId(mode, initialId, outcome).value))
    else None
  }

  /** A successful edit always returns to the edited post, whatever the body:
      an id of another type, `null` or no JSON at all. */
  lemma EditReturnsToPost(id: int, outcome: SubmitOutcome)
    requires Succeeded(outcome)
    ensures SaveNavigation(Edit, Some(id), outcome) == Some(PostPath(NumberId(id)))
    ensures SaveError(Edit, Some(id), outcome) == None
  {
  }

  /** Creating through the editor navigates exactly as the new-post page does
      and shows the same error, with two exceptions. A refusal without a
      message falls back to a different text. A 2xx body that is not JSON
      reads as `{}` in the editor ("Invalid response from server."), while
      the new-post page's `res.json()` throws ("An unexpected error occurred."). */
  lemma CreateEndsLikeNewPage(initialId: Option<int>, outcome: SubmitOutcome)
    ensures SaveNavigation(Create, initialId, outcome) == OutcomeNavigation(outcome)
    ensures !outcome.Refused? && !outcome.AnsweredNotJson? ==>
              SaveError(Create, initialId, outcome) == OutcomeError(outcome)
    ensures outcome.Refused? && outcome.message.Some? && outcome.message.value != [] ==>
              SaveError(Create, initialId, outcome) == OutcomeError(outcome)
    ensures outcome.Refused? && (outcome.message.None? || outcome.message.value == []) ==>
              SaveError(Create, initialId, outcome) == Some(SAVE_FAILED)
              && OutcomeError(outcome) == Some(CREATE_FAILED)
    ensures outcome.AnsweredNotJson? ==>
              SaveError(Create, initialId, outcome) == Some(INVALID_RESPONSE)
              && OutcomeError(outcome) == Some(UNEXPECTED)
  {
  }

  /** Exactly one of a page error and a navigation follows a sent request. */
  lemma ErrorOrNavigationInEditor(mode: Mode, initialId: Option<int>, outcome: SubmitOutcome)
    ensures SaveError(mode, initialId, outcome).Some? <==> SaveNavigation(mode, initialId, outcome).None?
  {
  }

  /** The label of the submit button: it ends in an ellipsis exactly while a
      request is in flight, and starts with `S` (for "Save") exactly in edit mode. */
  function SubmitLabel(mode: Mode, submitting: bool): (text: string)
    ensures |text| >= 3
    ensures submitting <==> text[|text| - 3..] == "..."
    ensures mode.Edit? <==> text[0] == 'S'
  {
    if submitting then (if mode.Edit? then "Saving..." else "Publishing...")
    else if mode.Edit? then "Save changes" else "Publish"
  }

  /** The four labels are distinct, so the label tells both the mode and
      whether a request is under way. */
  lemma SubmitLabelDistinct(m1: Mode, s1: bool, m2: Mode, s2: bool)
    requires SubmitLabel(m1, s1) == SubmitLabel(m2, s2)
    ensures m1 == m2 && s1 == s2
  {
    var l := SubmitLabel(m1, s1);
    if !s1 && m1.Create? { assert |l| == 7; }
    else if !s1 { assert |l| == 12; }
    else if m1.Create? { assert |l| == 13; }
    else { assert |l| == 9; }
  }

  class PostEditorState {
    const mode: Mode
    const initialId: Option<int>
    var fields: PostFields
    var submitting: bool
    var error: Option<string>
    var fieldErrors: FieldErrors

    /** The fields start from `initialPost` when given, empty otherwise. */
    constructor (mode: Mode, initial: Option<InitialPost>)
      ensures this.mode == mode
      ensures initial.None? ==> initialId == None && fields == PostFields([], [], [])
      ensures initial.Some? ==>
                && initialId == initial.value.id
                && fields == PostFields(initial.value.handle, initial.value.title, initial.value.content)
      ensures !submitting && error == None && fieldErrors == NO_ERRORS
    {
      this.mode := mode;
      if initial.Some? {
        initialId := initial.value.id;
        fields := PostFields(initial.value.handle, initial.value.title, initial.value.content);
      } else {
        initialId := None;
        fields := PostFields([], [], []);
      }
      submitting := false;
      error := None;
      fieldErrors := NO_ERRORS;
    }

    /** Submitting the editor. Field errors stop it before anything else. In
        edit mode without a usable id the page shows "Missing post id." and
        sends nothing. Otherwise the request is sent and its outcome decides
        the page error and the navigation; `submitting` is off afterwards. */
    method Submit(outcome: SubmitOutcome) returns (request: Option<EditorRequest>, navigateTo: Option<string>)
      modifies this
      ensures fields == old(fields)
      ensures fieldErrors == EditorFieldErrors(mode, old(fields))
      ensures HasAny(fieldErrors) ==>
                request == None && navigateTo == None && error == None && submitting == old(submitting)
      ensures !HasAny(fieldErrors) && mode.Edit? && MissingId(initialId) ==>
                request == None && navigateTo == None && error == Some(MISSING_ID) && !submitting
      ensures !HasAny(fieldErrors) && !(mode.Edit? && MissingId(initialId)) ==>
                && request == Some(RequestFor(mode, initialId, Trimmed(old(fields)))) && !submitting
                && error == SaveError(mode, initialId, outcome)
                && navigateTo == SaveNavigation(mode, initialId, outcome)
    {
      error := None;
      fieldErrors := EditorFieldErrors(mode, fields);
      if HasAny(fieldErrors) {
        return None, None;
      }
      submitting := true;
      if mode.Edit? && MissingId(initialId) {
        error := Some(MISSING_ID);
        submitting := false;
        return None, None;
      }
      request := Some(RequestFor(mode, initialId, Trimmed(fields)));
      error, navigateTo := SaveError(mode, initialId, outcome), SaveNavigation(mode, initialId, outcome);
      submitting := false;
    }
  }
}
