/** What several parts of the model have in common. */
module Basics {

  datatype Option<T> = None | Some(value: T)

  type Byte = bv8

  const PAGE_SIZE: nat := 4096

  ghost predicate NoDuplicates<T>(s: seq<T>) {
    forall i, j :: 0 <= i < j < |s| ==> s[i] != s[j]
  }
}
