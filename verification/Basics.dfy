/** Small notions several modules share. */
module Basics {

  function Least(a: int, b: int): int {
    if a < b then a else b
  }

  /** First place of an element in a sequence that has it. */
  function Find<T(==)>(s: seq<T>, a: T): (k: nat)
    requires a in s
    ensures k < |s| && s[k] == a
  {
    if s[0] == a then 0 else 1 + Find(s[1..], a)
  }
}
