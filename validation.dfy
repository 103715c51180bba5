/** The client-side field rules shared by the new-post page, the post editor
    and the comment forms. Every rule is applied to the trimmed input. */
module Validation {
  import opened Wrappers
  import opened Text

  /** Why a (trimmed) handle is refused, in the order the forms test it. */
  datatype HandleProblem = HandleRequired | HandleCharset | HandleLength

  /** The three-step handle test: present, then `^[a-zA-Z0-9_-]+$`, then a
      length of 3 to 24. At most one problem is reported, the first that applies. */
  function CheckHandle(h: string): (r: Option<HandleProblem>)
    ensures r == None <==> MatchesHandlePattern(h) && 3 <= |h| <= 24
    ensures r == Some(HandleRequired) <==> h == []
    ensures r == Some(HandleCharset) <==> h != [] && !MatchesHandlePattern(h)
    ensures r == Some(HandleLength) <==> MatchesHandlePattern(h) && (|h| < 3 || |h| > 24)
  {
    if h == [] then Some(HandleRequired)
    else if !MatchesHandlePattern(h) then Some(HandleCharset)
    else if |h| < 3 || |h| > 24 then Some(HandleLength)
    else None
  }

  /** Why (trimmed) comment content is refused. */
  datatype ContentProblem = ContentRequired | ContentTooLong

  /** Comment content must be present and at most `maxLength` code units. */
  function CheckCommentContent(c: string, maxLength: nat): (r: Option<ContentProblem>)
    ensures r == None <==> c != [] && |c| <= maxLength
    ensures r == Some(ContentRequired) <==> c == []
    ensures r == Some(ContentTooLong) <==> c != [] && |c| > maxLength
  {
    if c == [] then Some(ContentRequired)
    else if |c| > maxLength then Some(ContentTooLong)
    else None
  }

  /** Two characters are too few for a handle. */
  lemma HandleTooShortExample()
    ensures CheckHandle(Trim("ab")) == Some(HandleLength)
  {
    TrimUntouched("ab");
  }

  /** A space inside a handle is outside the pattern. */
  lemma HandleWithSpaceExample()
    ensures CheckHandle(Trim("ab c")) == Some(HandleCharset)
  {
    TrimUntouched("ab c");
    assert !IsHandleChar("ab c"[2]);
  }

  /** Three letters make a valid handle. */
  lemma HandleMinimalExample()
    ensures CheckHandle(Trim("abc")) == None
  {
    TrimUntouched("abc");
  }

  /** A handle of spaces only is reported as missing. */
  lemma HandleBlankExample()
    ensures CheckHandle(Trim("   ")) == Some(HandleRequired)
  {
    assert IsBlank("   ");
  }

  /** Content of exactly the maximum length passes; one more is refused. */
  lemma CommentContentBoundary(c: string, maxLength: nat)
    requires c != []
    ensures |c| == maxLength ==> CheckCommentContent(c, maxLength) == None
    ensures |c| == maxLength + 1 ==> CheckCommentContent(c, maxLength) == Some(ContentTooLong)
  {
  }
}
