/** Publishing the updated CSV: after staging it, both scripts commit and
    push only when `git status --porcelain` printed something other than
    whitespace. Running git itself is outside the model. */
module Publisher {
  import opened Text

  /** `status.stdout.strip()` is non-empty. */
  function ShouldCommit(porcelain: string): (r: bool)
    ensures r <==> exists i :: 0 <= i < |porcelain| && !IsSpace(porcelain[i])
  {
    Strip(porcelain) != []
  }
}
