/**
  Identities of sequence concatenation shared by the other modules. Dafny
  knows each of them, but stating the one a proof step needs as a lemma
  call keeps that step from searching through every regrouping of a long
  concatenation.
 */
module SeqFacts {

  lemma EmptyAppend<T>(xs: seq<T>)
    ensures [] + xs == xs
  {
  }

  lemma AppendEmpty<T>(xs: seq<T>)
    ensures xs + [] == xs
  {
  }

  lemma Assoc<T>(a: seq<T>, b: seq<T>, c: seq<T>)
    ensures a + (b + c) == a + b + c
  {
  }

  /** A non-empty sequence is its head followed by its tail. */
  lemma ConsTail<T>(s: seq<T>)
    requires s != []
    ensures [s[0]] + s[1..] == s
  {
  }

  /** Three slices that tile a sequence. */
  lemma Tile<T>(s: seq<T>, i: nat, j: nat)
    requires i <= j <= |s|
    ensures s == s[..i] + s[i..j] + s[j..]
  {
  }

  lemma Regroup4<T>(a: seq<T>, b: seq<T>, c: seq<T>, d: seq<T>)
    ensures a + b + (c + d) == a + (b + c) + d
  {
  }

  lemma Regroup5<T>(a: seq<T>, b: seq<T>, c: seq<T>, d: seq<T>, e: seq<T>)
    ensures a + b + c + d + e == a + b + (c + d + e)
  {
  }

  /** A six-part concatenation whose second and fourth separators are the same. */
  lemma Regroup6<T>(l: seq<T>, x: seq<T>, c: seq<T>, y: seq<T>, q: seq<T>, r: seq<T>)
    ensures l + x + c + y + c + q + r == l + ((x + c + (y + c + q)) + r)
  {
  }
}
