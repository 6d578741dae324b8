/** What several of the modules need. */
module Prelude {

  function Min(x: int, y: int): int {
    if x < y then x else y
  }

  /** Splitting a sequence inside its front part. */
  lemma SplitFront<T>(front: seq<T>, rest: seq<T>, n: nat)
    requires n <= |front|
    ensures (front + rest)[..n] == front[..n] && (front + rest)[n..] == front[n..] + rest
  {
  }

  lemma Regroup<T>(a: seq<T>, b: seq<T>, c: seq<T>)
    ensures a + (b + c) == (a + b) + c
  {
  }
}
