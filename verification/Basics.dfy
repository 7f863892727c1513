/** What models of different parts of the library share. */
module Basics {

  datatype Option<T> = None | Some(value: T)

  /** The code point that stands for those that are not valid. */
  const REPLACEMENT := 0xfffd

  lemma Assoc<T>(a: seq<T>, b: seq<T>, c: seq<T>)
    ensures a + b + c == a + (b + c)
  {
  }
}
