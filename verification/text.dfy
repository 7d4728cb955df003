/** ActiveSupport's `blank?` on possibly-nil strings (nil-to-"" is `Option.GetOr("")`). */
module Text {
  import opened Wrappers

  /** The ASCII characters of the POSIX `[[:space:]]` class. */
  predicate IsSpace(c: char)
  {
    c == ' ' || c == '\t' || c == '\n' || c == '\r' || c == '\U{000B}' || c == '\U{000C}'
  }

  /** A string is blank when it holds nothing but white space (the empty string included). */
  predicate IsBlankString(s: string)
  {
    forall i | 0 <= i < |s| :: IsSpace(s[i])
  }

  /** `nil.blank?` is true; a string is blank as above. */
  predicate IsBlank(v: Option<string>)
  {
    v.None? || IsBlankString(v.value)
  }

  /** A string with a non-space character at some position is not blank. */
  lemma NotBlankWitness(s: string, i: nat)
    requires i < |s| && !IsSpace(s[i])
    ensures !IsBlank(Some(s))
  {
  }
}
