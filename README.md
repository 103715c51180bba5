# my-board, modelled in Dafny

my-board is a small bulletin board written with Next.js. Visitors write
posts under a handle, page through them newest first with infinite scroll,
and discuss each post in threaded comments. A comment can be replied to,
edited and soft-deleted, in which case it shows as `[deleted]`.

This project models the rules in that code which can be stated precisely:

- the comment tree builder (`buildCommentTree`). It turns the flat,
  creation-ordered comment list into roots plus per-comment reply lists;
- the `POST` and `GET` handlers of `/api/posts`:
  - the first-failure validation chain and the append to the store;
  - cursor pagination, with its limit and cursor quirks;
- the home page's first page of ten posts;
- the infinite-scroll list's `loadMore` state machine;
- the content preview;
- client-side validation, which appears three times:
  - the new-post page;
  - the post editor in create and edit mode, with its missing-id guard, request body, redirect id and button label;
  - the comment and reply forms;
- the comment section's list updates: append on create and reply, soft delete;
- the comment item's display masking, visibility rules and edit sub-state machine;
- the post menus:
  - the edit-window predicate;
  - the edit guard;
  - the share URL;
  - what follows a delete.

Components that own state are classes whose fields are the component's
`useState` variables. Their methods are the event handlers and their
`ensures` give the whole new state. Network answers are parameters, as are
confirmation dialogs and the outcome of server calls: each handler receives
how the request ended (answered, refused with an optional message, or
threw) and returns what it would send or where it would navigate. The
database is a `PostStore` object holding the posts in id order.

Strings are `seq<char>`, with one `char` standing for one UTF-16 code unit,
so lengths agree with JavaScript's `length`. Whitespace for `trim` is
ECMAScript's WhiteSpace plus LineTerminator set. Timestamps are integer
milliseconds.

Files:

- `text.dfy`: `trim`, the handle pattern `^[a-zA-Z0-9_-]+$`, decimal rendering of ids and the `message || fallback` idiom.
- `validation.dfy`: the handle and comment-content checks shared by the forms.
- `outcomes.dfy`: how a `DELETE` request ends and the message each component then shows.
- `posts_api.dfy`: `POST`/`GET /api/posts` and the store.
- `home_page.dfy`: the server-rendered first page.
- `post_list.dfy`: the infinite-scroll list.
- `post_preview.dfy`: the 100-character preview.
- `post_menus.dfy`: the edit window, the actions menu and the context menu.
- `new_post_page.dfy`: the new-post page.
- `post_editor.dfy`: the shared create/edit editor.
- `comment_tree.dfy`: `buildCommentTree` and its placement, count, order and reachability properties.
- `comment_section.dfy`: the comment section's validation and list updates.
- `comment_item.dfy`: one rendered comment.

## Model

| member | source | states |
|---|---|---|
| Text.Trim | src/app/posts/new/page.tsx:43-45 | the trimmed string is never longer than the input, and it is empty exactly when every code unit of the input is whitespace |
| Text.TrimIsInfix | src/app/posts/new/page.tsx:43-45 | `trim` removes exactly the maximal whitespace prefix and suffix: the result is the contiguous middle of the input, everything before and after it is whitespace, and a non-empty result starts and ends with non-whitespace |
| Text.TrimUntouched | src/components/comments/comment-section.tsx:81-82 | a string that neither starts nor ends with whitespace is its own trim |
| Text.NatToDecimal | src/components/mnu/post-context-menu.tsx:99 | the decimal rendering of a natural number is non-empty and all digits, has a leading `0` only for zero, and is one digit long exactly below ten |
| Text.IntToDecimal | src/components/mnu/post-context-menu.tsx:99 | an id rendered into a template string is non-empty and starts with `-` exactly when it is negative |
| Text.NatToDecimalValue | src/components/mnu/post-context-menu.tsx:99 | the digits of the rendering of n denote n (read by Horner's rule) |
| Text.IntToDecimalValue | src/app/posts/new/page.tsx:103 | a negative id renders as `-` followed by the rendering of its magnitude, whose digits denote the magnitude; a non-negative id renders as its own digits, which denote it |
| Text.NatToDecimalInjective | src/components/mnu/post-context-menu.tsx:99 | distinct natural numbers render to distinct decimal strings |
| Text.IntToDecimalInjective | src/components/mnu/post-context-menu.tsx:99 | distinct ids render to distinct strings, so a path built from an id names that id alone |
| Text.MessageOr | src/app/posts/new/page.tsx:93-95 | `data?.error?.message \|\| fallback` yields the server's message when it is a non-empty string and the fallback when it is missing or empty |
| Validation.CheckHandle | src/app/posts/new/page.tsx:54-61 | the handle checks in order (required, then charset, then length 3..24): each error is reported exactly under its condition, and there is no error exactly when the handle matches the pattern and has length 3..24 |
| Validation.CheckCommentContent | src/components/comments/comment-section.tsx:99-109 | content is required first and bounded by the maximum second; no error exactly when it is non-empty and at most the maximum |
| Validation.HandleTooShortExample | src/components/comments/comment-section.tsx:88-97 | `"ab"` fails on length |
| Validation.HandleWithSpaceExample | src/components/comments/comment-section.tsx:88-97 | `"ab c"` fails on the character set |
| Validation.HandleMinimalExample | src/components/comments/comment-section.tsx:88-97 | `"abc"` passes |
| Validation.HandleBlankExample | src/components/comments/comment-section.tsx:84-87 | a whitespace-only handle is reported as required |
| Validation.CommentContentBoundary | src/components/comments/comment-section.tsx:104-109 | content of exactly the maximum length passes and one more code unit is too long |
| PostsApi.CreateCheck | src/app/api/posts/route.ts:10-35 | the POST checks in order, with each error under exactly its condition: the handle must be a string of length at least 2 (no trim, no charset); title and content must be strings that are not blank; untrimmed content must be at most 10,000. The first failure decides the 400 error, and the length error carries no code |
| PostsApi.PostStore.constructor | src/app/api/posts/route.ts:37-39 | the table starts empty and the next id is 1 |
| PostsApi.PostStore.Create | src/app/api/posts/route.ts:4-49 | an unreadable body gives the 500 error; a failed check gives that check's error; in both cases the store is unchanged. Otherwise the post is appended with the raw, untrimmed handle, title and content under the next id, and returned as `Created` (status 201) |
| PostsApi.PostStore.List | src/app/api/posts/route.ts:51-69 | the listing of the current table is `ListPosts` on it |
| PostsApi.PaddedTitleAccepted | src/app/api/posts/route.ts:16-39 | a two-character handle and a title with surrounding spaces pass, so the title is stored with its spaces |
| PostsApi.ContentLengthBoundary | src/app/api/posts/route.ts:29-35 | content of exactly 10,000 code units is accepted and 10,001 is refused with the length error |
| PostsApi.EffectiveLimit | src/app/api/posts/route.ts:56 | the limit is 20 when absent, and otherwise the requested value capped at 50 |
| PostsApi.CursorFilter | src/app/api/posts/route.ts:57 | a cursor filters exactly when it is present and non-zero, by its own value |
| PostsApi.Take | src/app/api/posts/route.ts:62 | `take: n` keeps the first `min(n, length)` posts |
| PostsApi.NewestFirstMember | src/app/api/posts/route.ts:59-61 | a post is in the filtered list exactly when it is stored and below the cursor |
| PostsApi.NewestFirstDescending | src/app/api/posts/route.ts:61 | the filtered list is in strictly descending id order |
| PostsApi.NewestFirstLength | src/app/api/posts/route.ts:59-61 | without a cursor every post is listed |
| PostsApi.ListPosts | src/app/api/posts/route.ts:51-69 | the page contains at most the effective limit of stored posts below the cursor, in strictly descending id order. Any such post left out means the page is full and the left-out post's id is below the last item's. `nextCursor` is the last item's id, or none on an empty page. `hasMore` holds exactly when the page size equals the limit |
| PostsApi.PageProperties | src/app/api/posts/route.ts:59-63 | the found page is drawn from the table, below the cursor, strictly descending, and holds the largest such ids |
| PostsApi.ZeroCursorIsNoCursor | src/app/api/posts/route.ts:57-60 | cursor 0 gives the same answer as no cursor |
| PostsApi.ZeroLimitQuirk | src/app/api/posts/route.ts:56-66 | limit 0 returns an empty page with no cursor and `hasMore` true |
| PostsApi.CursorAboveAll | src/app/api/posts/route.ts:60 | a cursor above every id filters nothing |
| PostsApi.ResumeAfter | src/app/api/posts/route.ts:60-65 | asking again with the id at position k as cursor lists exactly what followed position k |
| PostsApi.NewestFirstOfConsecutive | src/app/api/posts/route.ts:59-63 | with ids 1..n, the list below cursor c is c-1 down to 1 (all n when there is no cursor, or when c is above n) |
| PostsApi.TwentyFivePostsExample | src/app/api/posts/route.ts:51-69 | with ids 1..25 and limit 20: the first page is 25..6 with `nextCursor` 6 and `hasMore`; cursor 6 then gives 5..1 with `nextCursor` 1 and no more |
| HomePage.FirstPage | src/app/page.tsx:10-16 | the home page shows the API's first page of 10. `hasMore` holds exactly when 10 came back. `nextCursor` is set exactly when `hasMore` holds, and it is then the last post's id |
| HomePage.FullPageMatchesApi | src/app/page.tsx:10-16 | on a full page the home page's state equals `GET /api/posts?limit=10` |
| HomePage.ShortPageDiffersFromApi | src/app/page.tsx:15-16 | on a short non-empty table the home page reports no cursor and no more, while the API would report the last id |
| PostPreview.Preview | src/components/post-preview-card.tsx:35-38 | content of at most 100 code units is shown unchanged. Longer content becomes its first 100 units plus `...`. The preview never exceeds 103 units and always starts with the first `min(100, length)` units of the content |
| PostPreview.PreviewIdempotent | src/components/post-list.tsx:123-126 | previewing a preview changes nothing |
| PostPreview.PreviewSeesOnlyPrefix | src/components/post-list.tsx:123-126 | long contents with the same first 100 units have the same preview |
| PostList.OrFalse | src/components/post-list.tsx:72 | `hasMore ?? false` is true exactly when the answer says true |
| PostList.FailureMessage | src/components/post-list.tsx:60-75 | a failed load shows the server's non-empty message, or the fixed fallback, or the unexpected-error message after a throw |
| PostList.PostListState.constructor | src/components/post-list.tsx:36-40 | the list starts from the first page's posts, cursor and `hasMore`, not loading and without error |
| PostList.PostListState.LoadMore | src/components/post-list.tsx:44-79 | nothing happens (no request, no state change) while loading, without more, or with a missing or 0 cursor. Otherwise it requests the current cursor with limit 10. On success the items are appended and the cursor and `hasMore` replaced (`?? null`, `?? false`). On failure the list, cursor and `hasMore` are kept and the message set. Loading is off afterwards |
| PostList.Answer | src/components/post-list.tsx:51-58 | the endpoint always answers the list's request with a page carrying `hasMore` |
| PostList.SecondLoadContinuesFirstPage | src/components/post-list.tsx:44-79 | after a full first page, one load from the endpoint over the same table shows exactly the 20 newest posts, newest first |
| PostList.TakeInTwo | src/components/post-list.tsx:70 | appending the next n posts after the first n is taking 2n |
| EditWindow.EditPath | src/components/post-actions-menu.tsx:78 | the edit route is `/posts/`, then exactly the decimal rendering of the post's id, then `/edit` |
| EditWindow.EditPathInjective | src/components/mnu/post-context-menu.tsx:81 | different posts have different edit routes |
| EditWindow.CanEdit | src/components/post-actions-menu.tsx:39 | a post is editable while the time since its creation is at most the window; the boundary and permanence are stated by CanEditBoundary and ExpiryIsFinal |
| EditWindow.CanEditBoundary | src/components/post-actions-menu.tsx:37-39 | editing is allowed at exactly the window's end, not 1 ms later, and always for a creation time in the future |
| EditWindow.ExpiryIsFinal | src/components/post-actions-menu.tsx:39 | once the window has passed it stays passed |
| PostActionsMenu.EditWindowValue | src/components/post-actions-menu.tsx:29 | the window is 3·24·60·60·1000 = 259,200,000 ms |
| PostActionsMenu.EditClick | src/components/post-actions-menu.tsx:74-79 | the edit item navigates exactly when `now - createdAt` is within the window, and then to the post's edit route |
| PostActionsMenu.ActionsMenuState.constructor | src/components/post-actions-menu.tsx:33-35 | closed, not loading, no error |
| Outcomes.DeleteFailure | src/components/post-actions-menu.tsx:50-61 | a delete shows no message exactly on success; a refusal shows the server's non-empty message or the component's fallback, a throw the component's own text; with non-empty fallbacks every failure message is non-empty |
| PostActionsMenu.ActionsMenuState.OpenDelete | src/components/post-actions-menu.tsx:87-89 | the Delete item opens the confirmation dialog and changes nothing else |
| PostActionsMenu.ActionsMenuState.CloseDialog | src/components/post-actions-menu.tsx:97 | dismissing the dialog closes it and keeps loading and the shown error |
| PostActionsMenu.ActionsMenuState.StartDelete | src/components/post-actions-menu.tsx:41-43 | a press while not loading starts the delete: loading on, error cleared. While loading the Delete button is disabled (:118), so a press starts nothing and changes nothing |
| PostActionsMenu.ActionsMenuState.FinishDelete | src/components/post-actions-menu.tsx:45-64 | loading is off after every outcome. A success navigates to `/`. A refusal sets the server message or the default and a throw the unexpected-error message; either failure leaves a non-empty error on screen and does not navigate |
| PostContextMenu.EditClick | src/components/mnu/post-context-menu.tsx:77-82 | the edit item navigates exactly when `now - createdAt` is within the window, and then to the edit route |
| PostContextMenu.ExpiredTagMeansNoOp | src/components/mnu/post-context-menu.tsx:86-90 | the "expired" tag is shown exactly when the edit item does nothing |
| PostContextMenu.ShareUrl | src/components/mnu/post-context-menu.tsx:98-99 | the share URL is the base (default empty), then `/posts/`, then the decimal id |
| PostContextMenu.ShareUrlInjective | src/components/mnu/post-context-menu.tsx:98-99 | under one base, distinct posts get distinct share URLs |
| PostContextMenu.ContextMenuState.constructor | src/components/mnu/post-context-menu.tsx:40-42 | both dialogs closed, empty share URL |
| PostContextMenu.ContextMenuState.ClickShare | src/components/mnu/post-context-menu.tsx:95-101 | the share URL is set and the share dialog opened; the delete dialog is untouched |
| PostContextMenu.ContextMenuState.ClickDelete | src/components/mnu/post-context-menu.tsx:111-115 | the delete dialog opens and nothing else changes |
| PostContextMenu.ContextMenuState.ConfirmDelete | src/components/mnu/post-context-menu.tsx:50-70 | a success closes the dialog and then calls `onDeleted` exactly when the parent passed one. A refusal alerts the server message or the default, a throw the unexpected-error message; either failure alerts a non-empty message, leaves the dialog open and does not call `onDeleted` |
| NewPostPage.HandleError | src/app/posts/new/page.tsx:54-61 | the handle entry is one of the three handle messages, and is never absent for a blank handle; which one, and when, is stated by HandleErrorOrder |
| NewPostPage.FieldErrorsFor | src/app/posts/new/page.tsx:47-71 | some field error is reported exactly when the handle fails its checks or the title or content is blank |
| NewPostPage.HandleErrorOrder | src/app/posts/new/page.tsx:53-61 | the handle error is "required" exactly when the handle is blank, else "charset" exactly when the trimmed handle fails the pattern, else "length" exactly outside 3..24; none otherwise |
| NewPostPage.FieldErrorsIndependent | src/app/posts/new/page.tsx:63-71 | the title error and the content error are set exactly when that field is blank, independently of each other and of the handle |
| NewPostPage.TrimTwice | src/app/posts/new/page.tsx:43-45 | trimming is idempotent |
| NewPostPage.ClientValidMeetsServer | src/app/posts/new/page.tsx:84-89 | a payload the page lets through passes the server's handle, title and content checks; the only refusal it can still meet is the server's 10,000-unit content limit, which the page does not check |
| NewPostPage.PostPath | src/app/posts/new/page.tsx:102-103 | the post route is `/posts/` followed by the id's text |
| NewPostPage.OutcomeError | src/app/posts/new/page.tsx:92-109 | no error exactly after an answer whose id is a number or string. "Invalid response from server." for another id. The server message or "Failed to create post." for a refusal. The unexpected-error message for a throw, and also for a 2xx body that is `null` or not JSON, since reading it throws |
| NewPostPage.OutcomeNavigation | src/app/posts/new/page.tsx:99-106 | navigation happens exactly after an answer whose id is a number or string, to that post |
| NewPostPage.ErrorOrNavigation | src/app/posts/new/page.tsx:92-109 | every sent request ends in exactly one of an error and a navigation |
| NewPostPage.NewPostPageState.constructor | src/app/posts/new/page.tsx:25-36 | empty fields, not submitting, no errors |
| NewPostPage.NewPostPageState.Submit | src/app/posts/new/page.tsx:38-113 | the field errors are those of the current fields. If any exists, no request is made and the page error is cleared. Otherwise the trimmed fields are sent, and the outcome decides the error and the navigation. `submitting` is off afterwards |
| PostEditor.EditorFieldErrors | src/components/post-editor.tsx:100-118 | edit mode never reports the handle; create mode reports none exactly when the trimmed handle matches the pattern with length 3..24; the title and content entries are absent exactly for non-blank text; the form is clean exactly when all its checked fields pass |
| PostEditor.MissingId | src/components/post-editor.tsx:129-133 | `!initialPost?.id` holds for an absent id and for the falsy id 0, and for no other |
| PostEditor.RequestFor | src/components/post-editor.tsx:135-157 | edit mode sends a PATCH to the given id with the trimmed title and content only; create mode POSTs all three trimmed fields |
| PostEditor.RedirectId | src/components/post-editor.tsx:169-173 | creating redirects with the answered id; editing ignores the answer and uses the known id, which is only unusable when absent |
| PostEditor.AnsweredId | src/components/post-editor.tsx:167-173 | after a 2xx answer the redirect id is unreadable only for a `null` body in create mode; a non-JSON body reads as `{}` with no usable id; edit mode never looks at the body |
| PostEditor.SaveError | src/components/post-editor.tsx:160-183 | a refusal shows the server message or "Failed to save the post."; a throw and a `null` create answer show the unexpected-error text; a create answer without a number or string id shows "Invalid response from server."; a successful edit with a known id shows nothing; every shown error is non-empty |
| PostEditor.SaveNavigation | src/components/post-editor.tsx:174-176 | navigation only follows a 2xx answer, always to a `/posts/` path: the answered id when creating, the known id when editing |
| PostEditor.CreateChecksLikeNewPage | src/components/post-editor.tsx:101-118 | in create mode the editor's field errors are the new-post page's |
| PostEditor.EditIgnoresHandle | src/components/post-editor.tsx:100-110 | in edit mode the handle is never reported and does not influence the other errors |
| PostEditor.EditRequestOmitsHandle | src/components/post-editor.tsx:137-146 | the edit request targets the post's own id and does not depend on the handle |
| PostEditor.EditReturnsToPost | src/components/post-editor.tsx:167-176 | a successful edit navigates to the edited post whatever the body holds: an id of any type, `null`, or no JSON at all |
| PostEditor.CreateEndsLikeNewPage | src/components/post-editor.tsx:160-183 | creating through the editor navigates as the new-post page does, and shows the same error with two exceptions. A refusal without a message falls back to "Failed to save the post." against "Failed to create post.". A 2xx body that is not JSON gives "Invalid response from server." against "An unexpected error occurred." |
| PostEditor.ErrorOrNavigationInEditor | src/components/post-editor.tsx:160-183 | every sent request ends in exactly one of an error and a navigation |
| PostEditor.SubmitLabel | src/components/post-editor.tsx:192-198 | the label ends in `...` exactly while a request is in flight and starts with `S` exactly in edit mode |
| PostEditor.SubmitLabelDistinct | src/components/post-editor.tsx:192-198 | the four button labels are distinct, so the label determines both the mode and whether a save is under way |
| PostEditor.PostEditorState.constructor | src/components/post-editor.tsx:46-50 | the fields start from `initialPost` or empty, not submitting, no errors |
| PostEditor.PostEditorState.Submit | src/components/post-editor.tsx:85-186 | field errors (the handle only in create mode) stop submission before a request. In edit mode a missing or 0 id sets "Missing post id." and sends nothing. Otherwise it sends the PATCH with trimmed title and content (edit) or the POST with all three trimmed fields (create). It redirects to the given id (edit) or the answered id (create), or sets the error. `submitting` is off afterwards |
| CommentTree.NewNodeMap | src/components/comments/types.ts:23-25 | the first pass maps every input id to a node holding exactly that comment and no replies |
| CommentTree.BuildCommentTree | src/components/comments/types.ts:19-42 | the result is the tree of the input: every id has its own node, whose replies are the ids of its children in input order, and the roots are, in input order, the comments whose parent is null or absent |
| CommentTree.RootStep | src/components/comments/types.ts:29-37 | pushing a parentless or orphaned comment onto the roots keeps the partial tree exact |
| CommentTree.AttachStep | src/components/comments/types.ts:32-34 | pushing a comment onto its parent's replies keeps the partial tree exact |
| CommentTree.RootsMember | src/components/comments/types.ts:29-37 | an id is a root exactly when some input comment with that id has a null or absent parent |
| CommentTree.RepliesMember | src/components/comments/types.ts:32-34 | an id is among p's replies exactly when some input comment with that id has parent p |
| CommentTree.RootsCount | src/components/comments/types.ts:27-39 | with distinct ids, each root comment occurs exactly once in the roots and any other comment not at all |
| CommentTree.RepliesCount | src/components/comments/types.ts:27-39 | with distinct ids, each child of p occurs exactly once in p's replies and any other comment not at all |
| CommentTree.RootPlacement | src/components/comments/types.ts:29-37 | a comment with a null parent is a root, one whose parent is missing from the input is a root, and one whose parent is present is not |
| CommentTree.ReplyPlacement | src/components/comments/types.ts:32-34 | a comment whose parent is present is in that parent's replies |
| CommentTree.PlacedExactlyOnce | src/components/comments/types.ts:23-39 | with distinct ids every comment is placed exactly once, even with cyclic parent links: a root occurs once in the roots and in no reply list; a child occurs once in its parent's replies, not in the roots, and in no other list |
| CommentTree.RootsKeepInputOrder | src/components/comments/types.ts:27-39 | roots appear in the order of the input |
| CommentTree.RepliesKeepInputOrder | src/components/comments/types.ts:27-39 | each reply list follows the order of the input |
| CommentTree.CountsAddUp | src/components/comments/types.ts:27-39 | root count plus reply count is the number of comments processed |
| CommentTree.ReplyTotalMatches | src/components/comments/types.ts:27-39 | the reply lists in the built tree have the lengths the input dictates |
| CommentTree.InputCountsAddUp | src/components/comments/types.ts:23-39 | over the whole input, roots plus replies number the comments |
| CommentTree.PlacementCount | src/components/comments/types.ts:23-39 | the number of roots plus the sum of all reply-list lengths equals the input length |
| CommentTree.ReachableFromRoot | src/components/comments/types.ts:27-41 | if the parent links are acyclic (ranked), every comment is reached by a path from a root through reply lists |
| CommentTree.ReachableInCreationOrder | src/components/comments/types.ts:27-41 | if every parent precedes its children in the input, every comment is reachable from a root |
| CommentSection.FormError | src/components/comments/comment-section.tsx:84-109 | the comment form's first error in order (required handle, the one combined handle rule, required content, too long), and none exactly when all four checks pass |
| CommentSection.MarkDeleted | src/components/comments/comment-section.tsx:217-219 | soft delete keeps length and order, marks exactly the matching comment, and changes no other field |
| CommentSection.MarkDeletedIdempotent | src/components/comments/comment-section.tsx:217-219 | deleting twice equals deleting once |
| CommentSection.MarkDeletedKeepsLinks | src/components/comments/comment-section.tsx:217-219 | soft delete changes neither the ids nor the roots nor any reply list |
| CommentSection.DeleteKeepsTreeShape | src/components/comments/comment-section.tsx:75 | the tree rebuilt after a soft delete has the same roots and reply lists, and each node's comment differs only in the deleted flag |
| CommentSection.ReplyLandsLast | src/components/comments/comment-section.tsx:189 | appending a reply puts it last among its parent's replies and leaves other reply lists alone |
| CommentSection.CommentSectionState.constructor | src/components/comments/comment-section.tsx:21-35 | no comments, empty forms, no reply target |
| CommentSection.AppendKeepsDistinct | src/components/comments/comment-section.tsx:129 | appending a comment with a new id keeps every id in the list distinct |
| CommentSection.CommentSectionState.Tree | src/components/comments/comment-section.tsx:75 | the rendered tree is the tree of the current list; the class invariant (distinct ids) is what the builder needs |
| CommentSection.CommentSectionState.CreateComment | src/components/comments/comment-section.tsx:77-137 | a validation error is shown with no request and no list change. A request carries the trimmed fields. Success appends the returned comment and clears the content. A refusal or throw keeps the list and shows the message. The reply form is untouched. The ids stay distinct when the server's id is new |
| CommentSection.CommentSectionState.CreateReply | src/components/comments/comment-section.tsx:139-198 | the same rules for the reply form. Success also clears the reply content and resets the reply target. The top-level form is untouched |
| CommentSection.CommentSectionState.CancelReply | src/components/comments/comment-item.tsx:276-279 | the reply target and the reply error are cleared |
| CommentSection.CommentSectionState.DeleteComment | src/components/comments/comment-section.tsx:200-224 | without confirmation nothing changes. A success soft-deletes the comment, keeping the ids distinct. A refusal or throw keeps the list and alerts the server message, "Failed to delete comment." or the unexpected-error message |
| CommentItem.DisplayHandle | src/components/comments/comment-item.tsx:86 | a deleted comment shows `[deleted]` as handle, others their own |
| CommentItem.DisplayContent | src/components/comments/comment-item.tsx:85 | a deleted comment shows `[deleted]` as content, others their own |
| CommentItem.EditedTagShown | src/components/comments/comment-item.tsx:118 | the "[edited]" tag shows on a live comment whose timestamps differ; stated with the other display rules by DeletedRevealsNothing |
| CommentItem.ControlsShown | src/components/comments/comment-item.tsx:124 | the reply, edit and delete controls show only on a live comment; stated by DeletedRevealsNothing |
| CommentItem.ReplyFormShown | src/components/comments/comment-item.tsx:258 | the reply form shows under the reply target unless it is deleted; stated by DeletedRevealsNothing and AtMostOneReplyForm |
| CommentItem.Indented | src/components/comments/comment-item.tsx:90 | every depth but 0 is indented; ChildLayout states that children are |
| CommentItem.DeletedRevealsNothing | src/components/comments/comment-item.tsx:85-124 | a deleted comment shows neither handle nor content, no "[edited]" tag, no controls and no reply form. Otherwise the tag is shown exactly when `updatedAt` differs from `createdAt` |
| CommentItem.AtMostOneReplyForm | src/components/comments/comment-item.tsx:88 | with distinct ids the reply form is open under at most one comment |
| CommentItem.ChildLayout | src/components/comments/comment-item.tsx:320-337 | children render in reply order at depth + 1, all indented |
| CommentItem.CommentItemState.constructor | src/components/comments/comment-item.tsx:80-83 | not editing, the edit value is the comment's content, no error |
| CommentItem.CommentItemState.ClickReply | src/components/comments/comment-item.tsx:129-134 | the reply target becomes this comment; the handle is prefilled with the comment's handle only when the reply handle is empty |
| CommentItem.CommentItemState.EnterEdit | src/components/comments/comment-item.tsx:150-157 | a non-deleted comment enters edit mode with its content and no error and clears the reply target; a deleted one changes nothing |
| CommentItem.CommentItemState.CancelEdit | src/components/comments/comment-item.tsx:199-205 | leaves edit mode, clears the error, restores the comment's content. While a save is in flight the button is disabled (:200) and a press changes nothing |
| CommentItem.CommentItemState.SaveEdit | src/components/comments/comment-item.tsx:214-237 | a blank value sets "Content is required." without calling the callback. Otherwise the callback gets the trimmed value, and only success leaves edit mode. A failure shows its message or the default. A throwing callback leaves the form submitting (Save disabled), in edit mode and with no error; `editSubmitting` stays set exactly in that case. While a save is in flight Save is disabled (:213) and a press sends nothing and changes nothing, so after a throw the form cannot be left |

## Left out

- `fetch`, JSON parsing and the router are not modelled. Neither are `alert`, `confirm` and `console.error`. Each request's outcome is a parameter of the handler that sends it, and the handler returns the request, the navigation or the alert text instead of performing it.
- The database (`prisma`): the store is a sequence of posts with an autoincrement counter. The only server failure modelled is a body that cannot be read as a JSON object; other database errors on the 500 path are not.
- `Number()` and `URLSearchParams` parsing in `GET /api/posts` are not modelled. The limit arrives as an optional natural number, with an empty or missing parameter as none. The cursor arrives as an optional integer. Negative and NaN limits and non-numeric cursors are not modelled; limit 0 is, as written.
- Ids are integers and not floating-point numbers.
- `MAX_COMMENT_LENGTH`, its `toLocaleString()` label and the context menu's `EDIT_WINDOW_MS` come from src/lib/constants, which is not part of this model, so they are parameters.
- `Date` parsing: timestamps are integer milliseconds and `now` is a parameter.
- Characters outside the Basic Multilingual Plane are not modelled: one `char` stands for one UTF-16 code unit.
- The post PATCH/DELETE routes and all comment routes are not part of this model. Their source is outside the modelled files.
- The comment-loading effect of the comment section and its cancellation flag (src/components/comments/comment-section.tsx:37-73) are not modelled: its point is an async race.
- The comment section never passes `onEditSubmit` to its items, so calling it throws. `SaveEdit` takes the callback's result as a parameter, including that throw (`EditThrew`).
- CommentItem.ChildLayout: recursive rendering is stated one level at a time (the children of one node at depth + 1), not as a whole rendered tree.
- CommentTree.BuildCommentTree requires distinct ids. With a repeated id the source overwrites the first map entry, so both comments share the later one's node, and that node is pushed twice. This case is not modelled: `CommentSectionState` keeps distinct ids as its invariant, and its create methods take the server's new id to be fresh, as the database's autoincrement ids are.
- CommentSection.CommentSectionState.CreateComment and CreateReply require a created comment's id to be absent from the list. The source relies on the database's autoincrement ids for this and does not check it.
- Buttons disabled while a request is in flight are modelled as handlers that do nothing in that state where the in-flight state is visible in the model: the edit form's Cancel and Save and the actions menu's Delete. The text area's `disabled` is not modelled, since typing is not. The other submit buttons (new-post page, editor, comment and reply forms) are disabled while submitting too, but their handlers are modelled as one step from request to outcome, so no press can fall in between.
- PostActionsMenu.ActionsMenuState.CloseDialog: the dialog's Cancel button is disabled while loading, but `onOpenChange` (Escape or a click outside) still closes it, so `CloseDialog` is not gated.
- PostActionsMenu.ActionsMenuState.StartDelete: `handleDelete` is split into `StartDelete` and `FinishDelete` around the request. The intermediate `loading` state is therefore visible between them.
- `IntersectionObserver`, `ResizeObserver`, the editor's preview toggle, the clipboard and timers are not modelled. Neither are markdown rendering, layout, class names or ARIA attributes.
- `router.refresh()` after a deleted post is not modelled: it only reloads server data.
