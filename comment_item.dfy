/** One comment of the thread: what it displays, which controls it offers,
    and its inline edit form. The reply target and reply fields it reads and
    sets belong to the enclosing comment section. */
module CommentItem {
  import opened Wrappers
  import opened Text
  import opened CommentTree
  import CommentSection

  const DELETED_MARK := "[deleted]"
  const EDIT_CONTENT_REQUIRED := "Content is required."
  const EDIT_FAILED := "Failed to update comment."

  /** The handle shown: masked once the comment is deleted. */
  function DisplayHandle(c: Comment): (h: string)
    ensures c.isDeleted ==> h == DELETED_MARK
    ensures !c.isDeleted ==> h == c.handle
  {
    if c.isDeleted then DELETED_MARK else c.handle
  }

  /** The text shown: masked once the comment is deleted. */
  function DisplayContent(c: Comment): (t: string)
    ensures c.isDeleted ==> t == DELETED_MARK
    ensures !c.isDeleted ==> t == c.content
  {
    if c.isDeleted then DELETED_MARK else c.content
  }

  predicate IsEdited(c: Comment) {
    c.updatedAt != c.createdAt
  }

  /** The "[edited]" tag: edited and not deleted. */
  predicate EditedTagShown(c: Comment) {
    IsEdited(c) && !c.isDeleted
  }

  /** Reply, edit and delete controls: only on comments not deleted. */
  predicate ControlsShown(c: Comment) {
    !c.isDeleted
  }

  /** The inline reply form sits under the target comment, unless deleted. */
  predicate ReplyFormShown(c: Comment, replyTargetId: Option<int>) {
    replyTargetId == Some(c.id) && !c.isDeleted
  }

  /** Only top-level comments are rendered without indentation. */
  predicate Indented(depth: nat) {
    depth != 0
  }

  /** A deleted comment reveals neither its author nor its text, and carries
      no tag, no controls and no reply form; a live one shows its own fields. */
  lemma DeletedRevealsNothing(c: Comment, replyTargetId: Option<int>)
    ensures c.isDeleted ==>
              && DisplayHandle(c) == DELETED_MARK && DisplayContent(c) == DELETED_MARK
              && !EditedTagShown(c) && !ControlsShown(c) && !ReplyFormShown(c, replyTargetId)
    ensures !c.isDeleted ==> DisplayHandle(c) == c.handle && DisplayContent(c) == c.content
    ensures !c.isDeleted ==> (EditedTagShown(c) <==> c.updatedAt != c.createdAt)
  {
  }

  /** With one shared reply target, at most one comment of a list of distinct
      comments shows the reply form. */
  lemma AtMostOneReplyForm(cs: seq<Comment>, replyTargetId: Option<int>, i: int, j: int)
    requires DistinctIds(cs) && 0 <= i < |cs| && 0 <= j < |cs|
    requires ReplyFormShown(cs[i], replyTargetId) && ReplyFormShown(cs[j], replyTargetId)
    ensures i == j
  {
  }

  /** The children of a node at `depth`: its replies in order, one level
      deeper, each therefore indented. */
  function ChildLayout(replies: seq<int>, depth: nat): (r: seq<(int, nat)>)
    ensures |r| == |replies|
    ensures forall k :: 0 <= k < |r| ==> r[k].0 == replies[k] && r[k].1 == depth + 1 && Indented(r[k].1)
  {
    if replies == [] then [] else [(replies[0], depth + 1)] + ChildLayout(replies[1..], depth)
  }

  /** The outcome of the edit callback: success, failure with an optional
      message, or a rejected promise. The last is what the shipped section
      produces, since it passes no callback and calling `undefined` throws. */
  datatype EditResult = EditOk | EditFailed(message: Option<string>) | EditThrew

  /** The local state of one comment's edit form. */
  class CommentItemState {
    const node: Comment
    var isEditing: bool
    var editValue: string
    var editError: Option<string>
    var editSubmitting: bool

    constructor (node: Comment)
      ensures this.node == node
      ensures !isEditing && editValue == node.content && editError == None && !editSubmitting
    {
      this.node := node;
      isEditing := false;
      editValue := node.content;
      editError := None;
      editSubmitting := false;
    }

    /** "Reply": this comment becomes the reply target, and its handle is
        offered as the reply handle only when that field is still empty. */
    method ClickReply(section: CommentSection.CommentSectionState)
      modifies section
      ensures section.replyTargetId == Some(node.id)
      ensures old(section.reply.handle) == [] ==> section.reply == old(section.reply).(handle := node.handle)
      ensures old(section.reply.handle) != [] ==> section.reply == old(section.reply)
      ensures section.comments == old(section.comments) && section.form == old(section.form)
    {
      section.replyTargetId := Some(node.id);
      if section.reply.handle == [] {
        section.reply := section.reply.(handle := node.handle);
      }
    }

    /** "Edit": refused on a deleted comment; otherwise the form opens on the
        stored content with no error, and any open reply form is closed. */
    method EnterEdit(section: CommentSection.CommentSectionState)
      modifies this, section
      ensures node.isDeleted ==> isEditing == old(isEditing) && editValue == old(editValue)
                                 && editError == old(editError) && section.replyTargetId == old(section.replyTargetId)
      ensures !node.isDeleted ==> isEditing && editValue == node.content && editError == None
                                  && section.replyTargetId == None
      ensures editSubmitting == old(editSubmitting)
      ensures section.comments == old(section.comments) && section.form == old(section.form)
      ensures section.reply == old(section.reply)
    {
      if node.isDeleted {
        return;
      }
      editValue := node.content;
      editError := None;
      isEditing := true;
      section.replyTargetId := None;
    }

    /** "Cancel": leaves edit mode and restores the stored content. The button
        is disabled while a save is in flight, and a click then does nothing. */
    method CancelEdit()
      modifies this
      ensures old(editSubmitting) ==>
                isEditing == old(isEditing) && editError == old(editError) && editValue == old(editValue)
      ensures !old(editSubmitting) ==> !isEditing && editError == None && editValue == node.content
      ensures editSubmitting == old(editSubmitting)
    {
      if editSubmitting {
        return;
      }
      isEditing := false;
      editError := None;
      editValue := node.content;
    }

    /** "Save": blank input is refused locally and the callback is not called;
        otherwise the callback receives the trimmed text. Only a successful
        result leaves edit mode; a failure shows its message or a fallback.
        A throwing callback aborts the handler after `setEditSubmitting(true)`:
        the form stays in edit mode with no error, and since Save, Cancel and
        the text area are disabled while submitting, it cannot be left. */
    method SaveEdit(result: EditResult) returns (submitted: Option<string>)
      modifies this
      ensures old(editSubmitting) ==>
                && submitted == None && editSubmitting
                && isEditing == old(isEditing) && editError == old(editError)
      ensures !old(editSubmitting) && IsBlank(old(editValue)) ==>
                && submitted == None && isEditing == old(isEditing)
                && editError == Some(EDIT_CONTENT_REQUIRED) && editSubmitting == old(editSubmitting)
      ensures !old(editSubmitting) && !IsBlank(old(editValue)) ==> submitted == Some(Trim(old(editValue)))
      ensures !old(editSubmitting) && !IsBlank(old(editValue)) ==> (editSubmitting <==> result.EditThrew?)
      ensures !old(editSubmitting) && !IsBlank(old(editValue)) && result.EditOk? ==> !isEditing && editError == None
      ensures !old(editSubmitting) && !IsBlank(old(editValue)) && result.EditFailed? ==>
                && isEditing == old(isEditing)
                && editError == Some(if result.message.Some? then result.message.value else EDIT_FAILED)
      ensures !old(editSubmitting) && !IsBlank(old(editValue)) && result.EditThrew? ==>
                isEditing == old(isEditing) && editError == None
      ensures editValue == old(editValue)
    {
      if editSubmitting {
        return None;
      }
      editError := None;
      var trimmed := Trim(editValue);
      if trimmed == [] {
        editError := Some(EDIT_CONTENT_REQUIRED);
        return None;
      }
      editSubmitting := true;
      submitted := Some(trimmed);
      if result.EditThrew? {
        return;
      }
      editSubmitting := false;
      match result {
        case EditOk =>
          isEditing := false;
        case EditFailed(message) =>
          editError := Some(if message.Some? then message.value else EDIT_FAILED);
      }
    }
  }
}
