/** The content preview shown on post cards and in the post list. */
module PostPreview {

  const PREVIEW_LENGTH: nat := 100

  function Min(a: nat, b: nat): nat {
    if a < b then a else b
  }

  /** Content longer than 100 code units is cut to its first 100 followed by
      "..."; shorter content is shown whole. */
  function Preview(content: string): (r: string)
    ensures |r| <= PREVIEW_LENGTH + 3
    ensures |content| <= PREVIEW_LENGTH ==> r == content
    ensures |content| > PREVIEW_LENGTH ==> |r| == PREVIEW_LENGTH + 3 && r[PREVIEW_LENGTH..] == "..."
    ensures r[..Min(PREVIEW_LENGTH, |content|)] == content[..Min(PREVIEW_LENGTH, |content|)]
  {
    if |content| > 100 then content[..100] + "..." else content
  }

  /** Previewing a preview changes nothing. */
  lemma PreviewIdempotent(content: string)
    ensures Preview(Preview(content)) == Preview(content)
  {
    var p := Preview(content);
    if |content| > PREVIEW_LENGTH {
      assert p[..PREVIEW_LENGTH] == content[..PREVIEW_LENGTH];
      assert Preview(p) == p[..PREVIEW_LENGTH] + "...";
      assert p == p[..PREVIEW_LENGTH] + p[PREVIEW_LENGTH..];
    }
  }

  /** Two contents longer than 100 that agree on their first 100 code units
      have the same preview. */
  lemma PreviewSeesOnlyPrefix(a: string, b: string)
    requires |a| > PREVIEW_LENGTH && |b| > PREVIEW_LENGTH
    requires a[..PREVIEW_LENGTH] == b[..PREVIEW_LENGTH]
    ensures Preview(a) == Preview(b)
  {
    assert Preview(a) == a[..PREVIEW_LENGTH] + Preview(a)[PREVIEW_LENGTH..];
    assert Preview(b) == b[..PREVIEW_LENGTH] + Preview(b)[PREVIEW_LENGTH..];
  }
}
