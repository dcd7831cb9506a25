/** What several parts of the repository share about lists and bytes. */
module Sequences {

  type Byte = b: int | 0 <= b < 0x100

  ghost predicate NoDuplicates<T(!new)>(s: seq<T>)
  {
    forall i, j | 0 <= i < j < |s| :: s[i] != s[j]
  }
}
