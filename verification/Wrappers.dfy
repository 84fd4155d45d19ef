/** The optional value and the sequence shorthands shared by every other module. */
module Wrappers {

  datatype Option<+T> = None | Some(value: T)

  /** All elements but the last: runs are taken apart from their end. */
  function DropLast<T>(s: seq<T>): seq<T>
    requires s != []
  {
    s[..|s| - 1]
  }

  function Last<T>(s: seq<T>): T
    requires s != []
  {
    s[|s| - 1]
  }

  lemma SnocEnds<T>(a: seq<T>, x: T)
    ensures DropLast(a + [x]) == a && Last(a + [x]) == x
  {}

  lemma Assoc<T>(a: seq<T>, b: seq<T>, c: seq<T>)
    ensures a + b + c == a + (b + c)
  {}

  lemma ConcatEnds<T>(a: seq<T>, b: seq<T>)
    requires b != []
    ensures DropLast(a + b) == a + DropLast(b) && Last(a + b) == Last(b)
  {}
}
