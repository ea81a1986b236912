/**
 Vocabulary shared by the models.
 */
module Basics {

  datatype Option<+T> = None | Some(value: T)

  type byte = b: int | 0 <= b < 256

  ghost predicate Distinct<T>(s: seq<T>) {
    forall i, j :: 0 <= i < j < |s| ==> s[i] != s[j]
  }
}
