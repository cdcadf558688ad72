/**
 * The optional value used wherever the extension returns `T | undefined`, and
 * the sequence facts the path and batch lemmas share.
 */
module Wrappers {

  datatype Option<+T> = None | Some(value: T)

  /** A sequence is what comes before index `k`, the element there, and what follows. */
  lemma TakeDrop<T>(s: seq<T>, k: nat)
    requires k < |s|
    ensures s[..k] + [s[k]] + s[k + 1..] == s
  {
  }

  /** Concatenation after a leading element regroups freely. */
  lemma Regroup<T>(x: T, a: seq<T>, b: seq<T>)
    ensures [x] + a + b == [x] + (a + b)
  {
  }

  lemma ConsAssociates<T>(x: T, r: seq<T>, t: seq<T>)
    ensures [x] + (r + t) == ([x] + r) + t
  {
  }

  lemma AppendEmpty<T>(a: seq<T>)
    ensures a + [] == a
  {
  }

  /** A non-empty sequence is its head followed by its rest, also after a prefix. */
  lemma HeadRest<T>(a: seq<T>, b: seq<T>)
    requires b != []
    ensures b == [b[0]] + b[1..]
    ensures a + b == a + [b[0]] + b[1..]
  {
  }

  /** Two sequences with the same first element compare as their tails do. */
  lemma SameHead<T>(a: seq<T>, b: seq<T>)
    requires a != [] && b != [] && a[0] == b[0]
    ensures a == b <==> a[1..] == b[1..]
    ensures a <= b <==> a[1..] <= b[1..]
    ensures a < b <==> a[1..] < b[1..]
  {
    assert a == [a[0]] + a[1..];
    assert b == [b[0]] + b[1..];
  }
}
