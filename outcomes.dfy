/** How a `DELETE` request ends, and the message a component shows for it.
    The post actions menu, the post context menu and the comment section all
    follow the same pattern, each with its own fallback texts. */
module Outcomes {
  import opened Wrappers
  import opened Text

  /** The request succeeded, was refused with the error body's message if
      any, or threw (network failure). */
  datatype DeleteOutcome = Deleted | DeleteRefused(message: Option<string>) | DeleteThrew

  /** The message after the request: none on success; after a refusal the
      server's message or the component's fallback; after a throw the
      component's own text. */
  function DeleteFailure(outcome: DeleteOutcome, fallback: string, threw: string): (m: Option<string>)
    ensures m.None? <==> outcome.Deleted?
    ensures outcome.DeleteRefused? ==> m == Some(MessageOr(outcome.message, fallback))
    ensures outcome.DeleteThrew? ==> m == Some(threw)
    ensures m.Some? && fallback != [] && threw != [] ==> m.value != []
  {
    match outcome
    case Deleted => None
    case DeleteRefused(message) => Some(MessageOr(message, fallback))
    case DeleteThrew => Some(threw)
  }
}
