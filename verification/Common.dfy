/** What several parts share. */
module Common {
  datatype Option<+T> = None | Some(value: T)

  /** strings.TrimSpace leaves nothing, for texts without Unicode blanks. */
  predicate IsBlank(s: string) {
    forall i | 0 <= i < |s| :: s[i] == ' ' || '\t' <= s[i] <= '\r'
  }
}
