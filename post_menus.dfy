/** The three-day edit window shared by the post menus. */
module EditWindow {
  import opened Text

  /** The edit page of a post: `/posts/`, the post's id, `/edit`. */
  function EditPath(postId: int): (p: string)
    ensures |p| > 12 && p[..7] == "/posts/" && p[|p| - 5..] == "/edit"
    ensures p[7..|p| - 5] == IntToDecimal(postId)
  {
    "/posts/" + IntToDecimal(postId) + "/edit"
  }

  /** Different posts have different edit pages. */
  lemma EditPathInjective(a: int, b: int)
    requires EditPath(a) == EditPath(b)
    ensures a == b
  {
    assert IntToDecimal(a) == EditPath(a)[7..|EditPath(a)| - 5];
    assert IntToDecimal(b) == EditPath(b)[7..|EditPath(b)| - 5];
    IntToDecimalInjective(a, b);
  }

  /** A post may be edited while no more than `window` milliseconds have
      passed since it was created; the boundary itself is still allowed. */
  predicate CanEdit(now: int, createdAt: int, window: int) {
    now - createdAt <= window
  }

  /** Exactly `window` after creation editing is allowed, one millisecond
      later it is not, and a creation time in the future never blocks it. */
  lemma CanEditBoundary(createdAt: int, window: nat, now: int)
    ensures CanEdit(createdAt + window, createdAt, window)
    ensures !CanEdit(createdAt + window + 1, createdAt, window)
    ensures now <= createdAt ==> CanEdit(now, createdAt, window)
  {
  }

  /** Once the window has closed it stays closed. */
  lemma ExpiryIsFinal(createdAt: int, window: int, now: int, later: int)
    requires now <= later && !CanEdit(now, createdAt, window)
    ensures !CanEdit(later, createdAt, window)
  {
  }
}

/** The kebab menu on a post card: edit (inside the window) and delete
    behind a confirmation dialog. */
module PostActionsMenu {
  import opened Wrappers
  import opened Text
  import opened EditWindow
  import opened Outcomes

  /** Three days in milliseconds. */
  const EDIT_WINDOW_MS: int := 3 * 24 * 60 * 60 * 1000

  const DELETE_FAILED := "Failed to delete the post."
  const DELETE_THREW := "An unexpected error occurred while deleting this post."

  lemma EditWindowValue()
    ensures EDIT_WINDOW_MS == 259200000
  {
  }

  /** Clicking "Edit": navigates to the edit page inside the window and does
      nothing outside it. */
  function EditClick(now: int, createdAt: int, postId: int): (nav: Option<string>)
    ensures nav.Some? <==> now - createdAt <= 259200000
    ensures nav.Some? ==> nav.value == EditPath(postId)
  {
    if CanEdit(now, createdAt, EDIT_WINDOW_MS) then Some(EditPath(postId)) else None
  }

  class ActionsMenuState {
    /** Whether the delete confirmation dialog is open. */
    var open: bool
    var loading: bool
    var error: Option<string>

    constructor ()
      ensures !open && !loading && error == None
    {
      open := false;
      loading := false;
      error := None;
    }

    /** The menu's Delete item opens the confirmation dialog. */
    method OpenDelete()
      modifies this
      ensures open && loading == old(loading) && error == old(error)
    {
      open := true;
    }

    /** The dialog is dismissed (its Cancel button or `onOpenChange(false)`);
        an error shown in it is kept for the next time it opens. */
    method CloseDialog()
      modifies this
      ensures !open && loading == old(loading) && error == old(error)
    {
      open := false;
    }

    /** The confirm button is pressed: loading, previous error cleared. The
        button is disabled while loading, so a second press starts nothing. */
    method StartDelete() returns (started: bool)
      modifies this
      ensures started <==> !old(loading)
      ensures started ==> loading && error == None && open == old(open)
      ensures !started ==> loading && error == old(error) && open == old(open)
    {
      if loading {
        return false;
      }
      started := true;
      loading := true;
      error := None;
    }

    /** The request has ended: loading is off whatever the outcome; success
        navigates home and refreshes; failure shows the server's message or
        a fallback and stays put. */
    method FinishDelete(outcome: DeleteOutcome) returns (navigateTo: Option<string>)
      modifies this
      ensures !loading && open == old(open)
      ensures outcome.Deleted? ==> navigateTo == Some("/") && error == old(error)
      ensures !outcome.Deleted? ==>
                navigateTo == None && error == DeleteFailure(outcome, DELETE_FAILED, DELETE_THREW)
      ensures !outcome.Deleted? ==> error.Some? && error.value != []
    {
      if outcome.Deleted? {
        navigateTo := Some("/");
      } else {
        navigateTo := None;
        error := DeleteFailure(outcome, DELETE_FAILED, DELETE_THREW);
      }
      loading := false;
    }
  }
}

/** The right-click menu on a post: edit (inside the window, with an
    "expired" tag outside it), share and delete. */
module PostContextMenu {
  import opened Wrappers
  import opened Text
  import opened EditWindow
  import opened Outcomes

  const DELETE_FAILED := "Failed to delete this post."
  const DELETE_THREW := "An unexpected error occurred while deleting the post."

  /** The "expired" tag on the Edit item. */
  predicate ExpiredTagShown(now: int, createdAt: int, window: int) {
    !CanEdit(now, createdAt, window)
  }

  /** Clicking "Edit" with the window from the shared constants. */
  function EditClick(now: int, createdAt: int, window: int, postId: int): (nav: Option<string>)
    ensures nav.Some? <==> now - createdAt <= window
    ensures nav.Some? ==> nav.value == EditPath(postId)
  {
    if CanEdit(now, createdAt, window) then Some(EditPath(postId)) else None
  }

  /** The tag is shown exactly when the item does nothing. */
  lemma ExpiredTagMeansNoOp(now: int, createdAt: int, window: int, postId: int)
    ensures ExpiredTagShown(now, createdAt, window) <==> EditClick(now, createdAt, window, postId).None?
  {
  }

  /** The link put in the share dialog: the public base URL (empty when not
      configured) followed by the post's path. */
  function ShareUrl(base: Option<string>, postId: int): (url: string)
    ensures var b := if base.Some? then base.value else "";
      && |url| > |b| + 7
      && url[..|b|] == b
      && url[|b|..|b| + 7] == "/posts/"
      && url[|b| + 7..] == IntToDecimal(postId)
  {
    (if base.Some? then base.value else "") + "/posts/" + IntToDecimal(postId)
  }

  /** Different posts get different share links. */
  lemma ShareUrlInjective(base: Option<string>, a: int, b: int)
    requires ShareUrl(base, a) == ShareUrl(base, b)
    ensures a == b
  {
    var prefix := (if base.Some? then base.value else "") + "/posts/";
    assert ShareUrl(base, a) == prefix + IntToDecimal(a);
    assert ShareUrl(base, b) == prefix + IntToDecimal(b);
    assert IntToDecimal(a) == ShareUrl(base, a)[|prefix|..];
    assert IntToDecimal(b) == ShareUrl(base, b)[|prefix|..];
    IntToDecimalInjective(a, b);
  }

  /** The effects of the confirm handler besides the dialog state. */
  datatype DeleteEffects = DeleteEffects(alertMessage: Option<string>, onDeletedCalled: bool)

  class ContextMenuState {
    var deleteOpen: bool
    var shareOpen: bool
    var shareUrl: string

    constructor ()
      ensures !deleteOpen && !shareOpen && shareUrl == []
    {
      deleteOpen := false;
      shareOpen := false;
      shareUrl := [];
    }

    method ClickShare(base: Option<string>, postId: int)
      modifies this
      ensures shareUrl == ShareUrl(base, postId) && shareOpen && deleteOpen == old(deleteOpen)
    {
      shareUrl := ShareUrl(base, postId);
      shareOpen := true;
    }

    method ClickDelete()
      modifies this
      ensures deleteOpen && shareOpen == old(shareOpen) && shareUrl == old(shareUrl)
    {
      deleteOpen := true;
    }

    /** Confirming in the dialog: on success the dialog closes and then
        `onDeleted` is called when the parent passed one (`onDeleted?.()`);
        on failure an alert is raised, the dialog stays as it was and
        `onDeleted` is not called. */
    method ConfirmDelete(outcome: DeleteOutcome, hasOnDeleted: bool) returns (effects: DeleteEffects)
      modifies this
      ensures shareOpen == old(shareOpen) && shareUrl == old(shareUrl)
      ensures outcome.Deleted? ==> !deleteOpen && effects == DeleteEffects(None, hasOnDeleted)
      ensures !outcome.Deleted? ==>
                && deleteOpen == old(deleteOpen)
                && effects == DeleteEffects(DeleteFailure(outcome, DELETE_FAILED, DELETE_THREW), false)
      ensures !outcome.Deleted? ==> effects.alertMessage.Some? && effects.alertMessage.value != []
    {
      if outcome.Deleted? {
        deleteOpen := false;
        effects := DeleteEffects(None, hasOnDeleted);
      } else {
        effects := DeleteEffects(DeleteFailure(outcome, DELETE_FAILED, DELETE_THREW), false);
      }
    }
  }
}
