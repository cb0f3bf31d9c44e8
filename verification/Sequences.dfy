/** Facts about sequences the solver needs to be told. */
module Sequences {
  lemma Assoc<T>(a: seq<T>, b: seq<T>, c: seq<T>)
    ensures a + b + c == a + (b + c)
  {
  }

  /** Continuing a copy of src[i..] at end. */
  lemma Resume<T>(out: seq<T>, src: seq<T>, i: nat, end: nat)
    requires i <= end <= |src|
    ensures out + src[i..end] + src[end..] == out + src[i..]
  {
  }
}
