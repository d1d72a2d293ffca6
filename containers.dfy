/**
 * The caller-supplied output containers of the codec (`std::vector<unsigned
 * int>` and `std::string`), reduced to the two operations it uses on them.
 */
module Containers {

  /** A growable sequence that the codec clears and then appends to. */
  class Vector<T> {
    var elems: seq<T>

    constructor ()
      ensures elems == []
    {
      elems := [];
    }

    method Clear()
      modifies this
      ensures elems == []
    {
      elems := [];
    }

    method PushBack(x: T)
      modifies this
      ensures elems == old(elems) + [x]
    {
      elems := elems + [x];
    }
  }

  // Appending elements one at a time appends them all at once.

  lemma PushedTwo<T>(s: seq<T>, a: T, b: T)
    ensures s + [a] + [b] == s + [a, b]
  {
    assert [a] + [b] == [a, b];
  }

  lemma PushedThree<T>(s: seq<T>, a: T, b: T, c: T)
    ensures s + [a] + [b] + [c] == s + [a, b, c]
  {
    PushedTwo(s, a, b);
    assert [a, b] + [c] == [a, b, c];
  }

  lemma PushedFour<T>(s: seq<T>, a: T, b: T, c: T, d: T)
    ensures s + [a] + [b] + [c] + [d] == s + [a, b, c, d]
  {
    PushedThree(s, a, b, c);
    assert [a, b, c] + [d] == [a, b, c, d];
  }

  lemma PushedFive<T>(s: seq<T>, a: T, b: T, c: T, d: T, e: T)
    ensures s + [a] + [b] + [c] + [d] + [e] == s + [a, b, c, d, e]
  {
    PushedFour(s, a, b, c, d);
    assert [a, b, c, d] + [e] == [a, b, c, d, e];
  }

  lemma PushedSix<T>(s: seq<T>, a: T, b: T, c: T, d: T, e: T, f: T)
    ensures s + [a] + [b] + [c] + [d] + [e] + [f] == s + [a, b, c, d, e, f]
  {
    PushedFive(s, a, b, c, d, e);
    assert [a, b, c, d, e] + [f] == [a, b, c, d, e, f];
  }
}
