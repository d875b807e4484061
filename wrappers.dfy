/** Option and Result carriers shared by every module of the model. */
module Wrappers {
  datatype Option<T> = None | Some(value: T)

  /** A C++ exception escaping an operation is a Failure carrying its message. */
  datatype Result<T> = Success(value: T) | Failure(error: string)

  /** The prefix of length j + 1 is the prefix of length j followed by element j. */
  lemma PrefixSnoc<T>(s: seq<T>, j: nat)
    requires j < |s|
    ensures s[..j + 1] == s[..j] + [s[j]]
    ensures s[..j + 1][..j] == s[..j] && s[..j + 1][j] == s[j]
  {
  }

  /** A non-empty sequence is its front followed by its last element. */
  lemma SnocMember<T>(s: seq<T>)
    requires s != []
    ensures s == s[..|s| - 1] + [s[|s| - 1]]
    ensures forall x :: x in s <==> x in s[..|s| - 1] || x == s[|s| - 1]
  {
    assert s == s[..|s| - 1] + [s[|s| - 1]];
  }

  lemma WholePrefix<T>(s: seq<T>)
    ensures s[..|s|] == s
  {
  }

  /** Concatenation regrouped. */
  lemma Append3<T>(a: seq<T>, b: seq<T>, c: seq<T>)
    ensures a + b + c == a + (b + c)
  {
  }
}
