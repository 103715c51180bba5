/** The comments block under a post: the comment list, the top-level form,
    the shared reply form state, soft deletion and the derived reply tree.
    The comment length limit and its display label come from the shared
    constants and are fixed when the section is created. */
module CommentSection {
  import opened Wrappers
  import opened Text
  import opened Validation
  import opened CommentTree
  import opened Outcomes

  const HANDLE_REQUIRED := "Handle is required."
  const HANDLE_RULE := "Handle must be 3\U{2013}24 characters and contain only letters, numbers, '_' and '-'."
  const CONTENT_REQUIRED := "Content is required."
  const ADD_COMMENT_FAILED := "Failed to add comment."
  const ADD_REPLY_FAILED := "Failed to add reply."
  const DELETE_FAILED := "Failed to delete comment."
  const UNEXPECTED := "An unexpected error occurred."

  function TooLongMessage(maxLengthLabel: string): string {
    "Content exceeds maximum length of " + maxLengthLabel + " characters."
  }

  /** The checks of the comment and reply forms on the raw field values, in
      order: handle present, handle pattern and length (one shared message),
      content present, content length. The first failure is the message. */
  function FormError(handle: string, content: string, maxLength: nat, maxLengthLabel: string): (r: Option<string>)
    ensures r.None? <==>
              CheckHandle(Trim(handle)).None? && CheckCommentContent(Trim(content), maxLength).None?
    ensures CheckHandle(Trim(handle)) == Some(HandleRequired) ==> r == Some(HANDLE_REQUIRED)
    ensures CheckHandle(Trim(handle)) == Some(HandleCharset) ==> r == Some(HANDLE_RULE)
    ensures CheckHandle(Trim(handle)) == Some(HandleLength) ==> r == Some(HANDLE_RULE)
    ensures CheckHandle(Trim(handle)).None? && CheckCommentContent(Trim(content), maxLength) == Some(ContentRequired) ==>
              r == Some(CONTENT_REQUIRED)
    ensures CheckHandle(Trim(handle)).None? && CheckCommentContent(Trim(content), maxLength) == Some(ContentTooLong) ==>
              r == Some(TooLongMessage(maxLengthLabel))
  {
    var h := Trim(handle);
    if IsBlank(handle) then Some(HANDLE_REQUIRED)
    else if !MatchesHandlePattern(h) || |h| < 3 || |h| > 24 then Some(HANDLE_RULE)
    else if IsBlank(content) then Some(CONTENT_REQUIRED)
    else if |Trim(content)| > maxLength then Some(TooLongMessage(maxLengthLabel))
    else None
  }

  /** The JSON body sent to `POST /api/posts/:id/comments`. */
  datatype CommentRequest = CommentRequest(handle: string, content: string, parentId: Option<int>)

  /** How a create request ended: the created comment, an error answer with
      its message if any, or a thrown failure. */
  datatype CreateOutcome = Created(comment: Comment) | Refused(message: Option<string>) | Threw

  /** The soft delete applied locally: the comment with that id is flagged
      deleted; every other comment and every other field stays as it was. */
  function MarkDeleted(cs: seq<Comment>, id: int): (r: seq<Comment>)
    ensures |r| == |cs|
    ensures forall i :: 0 <= i < |cs| ==> r[i].isDeleted == (cs[i].isDeleted || cs[i].id == id)
    ensures forall i :: 0 <= i < |cs| ==> r[i] == cs[i].(isDeleted := r[i].isDeleted)
  {
    seq(|cs|, i requires 0 <= i < |cs| => if cs[i].id == id then cs[i].(isDeleted := true) else cs[i])
  }

  /** Deleting the same comment twice is the same as deleting it once. */
  lemma MarkDeletedIdempotent(cs: seq<Comment>, id: int)
    ensures MarkDeleted(MarkDeleted(cs, id), id) == MarkDeleted(cs, id)
  {
    var once := MarkDeleted(cs, id);
    var twice := MarkDeleted(once, id);
    forall i | 0 <= i < |cs| ensures twice[i] == once[i] {
      assert once[i].id == cs[i].id;
    }
  }

  /** Soft deletion keeps ids and parent links, so the reply tree keeps its
      shape: same ids, same roots, same replies under every parent. */
  lemma {:induction false} MarkDeletedKeepsLinks(cs: seq<Comment>, id: int, ids: set<int>, p: int)
    ensures IdSet(MarkDeleted(cs, id)) == IdSet(cs)
    ensures RootsIn(MarkDeleted(cs, id), ids) == RootsIn(cs, ids)
    ensures RepliesOf(MarkDeleted(cs, id), p) == RepliesOf(cs, p)
  {
    var r := MarkDeleted(cs, id);
    if cs != [] {
      var init := cs[..|cs| - 1];
      MarkDeletedKeepsLinks(init, id, ids, p);
      assert r[..|r| - 1] == MarkDeleted(init, id);
      assert r == MarkDeleted(init, id) + [r[|r| - 1]];
      assert cs == init + [cs[|cs| - 1]];
      IdSetStep(MarkDeleted(init, id), r[|r| - 1]);
      IdSetStep(init, cs[|cs| - 1]);
    }
  }

  /** The tree built after a delete has the same roots, nodes and replies as
      before; only the deleted comment's node is flagged. */
  lemma DeleteKeepsTreeShape(cs: seq<Comment>, id: int, before: Forest, after: Forest)
    requires IsTreeOf(before, cs) && IsTreeOf(after, MarkDeleted(cs, id))
    ensures after.roots == before.roots
    ensures after.nodes.Keys == before.nodes.Keys
    ensures forall k :: k in before.nodes ==> after.nodes[k].replies == before.nodes[k].replies
    ensures forall k :: k in before.nodes ==>
              after.nodes[k].comment == before.nodes[k].comment.(isDeleted := before.nodes[k].comment.isDeleted || k == id)
  {
    var r := MarkDeleted(cs, id);
    MarkDeletedKeepsLinks(cs, id, IdSet(cs), 0);
    forall k | k in before.nodes
      ensures after.nodes[k].replies == before.nodes[k].replies
      ensures after.nodes[k].comment == before.nodes[k].comment.(isDeleted := before.nodes[k].comment.isDeleted || k == id)
    {
      var j := IdIndex(cs, k);
      MarkDeletedKeepsLinks(cs, id, IdSet(cs), k);
      assert r[j].id == k;
    }
  }

  /** A reply appended to the list lands last among its parent's replies and
      changes no other reply list. */
  lemma ReplyLandsLast(cs: seq<Comment>, c: Comment, p: int)
    requires c.parentId.Some?
    ensures RepliesOf(cs + [c], c.parentId.value) == RepliesOf(cs, c.parentId.value) + [c.id]
    ensures p != c.parentId.value ==> RepliesOf(cs + [c], p) == RepliesOf(cs, p)
  {
    RepliesStep(cs, c, c.parentId.value);
    RepliesStep(cs, c, p);
  }

  /** Appending a comment whose id is new keeps the ids distinct. */
  lemma AppendKeepsDistinct(cs: seq<Comment>, c: Comment)
    requires DistinctIds(cs) && c.id !in IdSet(cs)
    ensures DistinctIds(cs + [c])
  {
    var r := cs + [c];
    forall i, j | 0 <= i < j < |r|
      ensures r[i].id != r[j].id
    {
      if j == |cs| {
        assert r[i] in cs;
      }
    }
  }

  /** The fields of one form (top-level or reply): the handle and content
      inputs, whether a request is in flight, and the error shown above it. */
  datatype FormFields = FormFields(handle: string, content: string, submitting: bool, error: Option<string>)

  const EMPTY_FORM := FormFields([], [], false, None)

  class CommentSectionState {
    const maxLength: nat
    const maxLengthLabel: string

    var comments: seq<Comment>
    /** The top-level comment form. */
    var form: FormFields
    /** The comment whose reply form is open, if any. */
    var replyTargetId: Option<int>
    /** The reply form, shared by every comment of the section. */
    var reply: FormFields

    /** The list holds each id once, as the database's generated ids do;
        the tree is built on that assumption. */
    predicate Valid()
      reads this
    {
      DistinctIds(comments)
    }

    constructor (maxLength: nat, maxLengthLabel: string)
      ensures Valid()
      ensures this.maxLength == maxLength && this.maxLengthLabel == maxLengthLabel
      ensures comments == [] && form == EMPTY_FORM && replyTargetId == None && reply == EMPTY_FORM
    {
      this.maxLength := maxLength;
      this.maxLengthLabel := maxLengthLabel;
      comments := [];
      form := EMPTY_FORM;
      replyTargetId := None;
      reply := EMPTY_FORM;
    }

    /** `tree`: the forest built from the current list. */
    method Tree() returns (forest: Forest)
      requires Valid()
      ensures IsTreeOf(forest, comments)
    {
      forest := BuildCommentTree(comments);
    }

    /** Submitting the top-level form. A form error is shown and no request
        is sent; otherwise the trimmed handle and content are posted. The
        created comment is appended and the content field cleared; a failed
        request only shows a message. The handle field and the reply form are
        never touched. */
    method CreateComment(outcome: CreateOutcome) returns (request: Option<CommentRequest>)
      requires Valid()
      requires outcome.Created? ==> outcome.comment.id !in IdSet(comments)
      modifies this
      ensures Valid()
      ensures var err := FormError(old(form.handle), old(form.content), maxLength, maxLengthLabel);
        && (request.Some? <==> err.None?)
        && (err.Some? ==> comments == old(comments) && form == old(form).(error := err))
        && (err.None? ==>
              request == Some(CommentRequest(Trim(old(form.handle)), Trim(old(form.content)), None)))
      ensures request.Some? && outcome.Created? ==>
                && comments == old(comments) + [outcome.comment]
                && form == old(form).(content := [], submitting := false, error := None)
      ensures request.Some? && outcome.Refused? ==>
                && comments == old(comments)
                && form == old(form).(submitting := false, error := Some(MessageOr(outcome.message, ADD_COMMENT_FAILED)))
      ensures request.Some? && outcome.Threw? ==>
                comments == old(comments) && form == old(form).(submitting := false, error := Some(UNEXPECTED))
      ensures replyTargetId == old(replyTargetId) && reply == old(reply)
    {
      form := form.(error := None);
      var err := FormError(form.handle, form.content, maxLength, maxLengthLabel);
      if err.Some? {
        form := form.(error := err);
        return None;
      }
      form := form.(submitting := true);
      request := Some(CommentRequest(Trim(form.handle), Trim(form.content), None));
      match outcome {
        case Created(c) =>
          AppendKeepsDistinct(comments, c);
          comments := comments + [c];
          form := form.(content := []);
        case Refused(message) =>
          form := form.(error := Some(MessageOr(message, ADD_COMMENT_FAILED)));
        case Threw =>
          form := form.(error := Some(UNEXPECTED));
      }
      form := form.(submitting := false);
    }

    /** Submitting the reply form under comment `parentId`: the same checks in
        the same order on the reply fields. The created reply is appended, the
        reply content cleared and the reply target reset; a failed request only
        shows a message. The top-level form is never touched. */
    method CreateReply(parentId: int, outcome: CreateOutcome) returns (request: Option<CommentRequest>)
      requires Valid()
      requires outcome.Created? ==> outcome.comment.id !in IdSet(comments)
      modifies this
      ensures Valid()
      ensures var err := FormError(old(reply.handle), old(reply.content), maxLength, maxLengthLabel);
        && (request.Some? <==> err.None?)
        && (err.Some? ==>
              comments == old(comments) && replyTargetId == old(replyTargetId)
              && reply == old(reply).(error := err))
        && (err.None? ==>
              request == Some(CommentRequest(Trim(old(reply.handle)), Trim(old(reply.content)), Some(parentId))))
      ensures request.Some? && outcome.Created? ==>
                && comments == old(comments) + [outcome.comment]
                && replyTargetId == None
                && reply == old(reply).(content := [], submitting := false, error := None)
      ensures request.Some? && outcome.Refused? ==>
                && comments == old(comments) && replyTargetId == old(replyTargetId)
                && reply == old(reply).(submitting := false, error := Some(MessageOr(outcome.message, ADD_REPLY_FAILED)))
      ensures request.Some? && outcome.Threw? ==>
                && comments == old(comments) && replyTargetId == old(replyTargetId)
                && reply == old(reply).(submitting := false, error := Some(UNEXPECTED))
      ensures form == old(form)
    {
      reply := reply.(error := None);
      var err := FormError(reply.handle, reply.content, maxLength, maxLengthLabel);
      if err.Some? {
        reply := reply.(error := err);
        return None;
      }
      reply := reply.(submitting := true);
      request := Some(CommentRequest(Trim(reply.handle), Trim(reply.content), Some(parentId)));
      match outcome {
        case Created(c) =>
          AppendKeepsDistinct(comments, c);
          comments := comments + [c];
          reply := reply.(content := []);
          replyTargetId := None;
        case Refused(message) =>
          reply := reply.(error := Some(MessageOr(message, ADD_REPLY_FAILED)));
        case Threw =>
          reply := reply.(error := Some(UNEXPECTED));
      }
      reply := reply.(submitting := false);
    }

    /** The Cancel button of the reply form: closes it and clears its error. */
    method CancelReply()
      modifies this
      ensures replyTargetId == None && reply == old(reply).(error := None)
      ensures comments == old(comments) && form == old(form)
    {
      replyTargetId := None;
      reply := reply.(error := None);
    }

    /** Deleting comment `id`. Declining the confirmation does nothing; a
        failed request raises an alert; success flags the comment deleted in
        place. Nothing but the list changes. */
    method DeleteComment(id: int, confirmed: bool, outcome: DeleteOutcome) returns (alertMessage: Option<string>)
      requires Valid()
      modifies this
      ensures Valid()
      ensures !confirmed ==> alertMessage == None && comments == old(comments)
      ensures confirmed && outcome.Deleted? ==> alertMessage == None && comments == MarkDeleted(old(comments), id)
      ensures confirmed && !outcome.Deleted? ==>
                alertMessage == DeleteFailure(outcome, DELETE_FAILED, UNEXPECTED) && comments == old(comments)
      ensures form == old(form) && replyTargetId == old(replyTargetId) && reply == old(reply)
    {
      if !confirmed {
        return None;
      }
      if outcome.Deleted? {
        comments := MarkDeleted(comments, id);
      }
      alertMessage := DeleteFailure(outcome, DELETE_FAILED, UNEXPECTED);
    }
  }
}
