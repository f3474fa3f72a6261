/** The keys of a batch of ids, and pipelines of deletes of which any may not be executed. */
module Deletes {

  function KeysOf<I>(assembleKey: I -> string, ids: seq<I>): (keys: seq<string>)
    ensures |keys| == |ids| && forall i :: 0 <= i < |ids| ==> keys[i] == assembleKey(ids[i])
  {
    seq(|ids|, i requires 0 <= i < |ids| => assembleKey(ids[i]))
  }

  /** One of the first n deletes is of this key, and executed. */
  predicate IsDropped(keys: seq<string>, executed: nat -> bool, n: int, key: string)
    requires n <= |keys|
  {
    exists i :: 0 <= i < n && executed(i) && keys[i] == key
  }

  lemma DroppedNext(keys: seq<string>, executed: nat -> bool, n: nat, key: string)
    requires n < |keys|
    ensures IsDropped(keys, executed, n + 1, key) <==>
            IsDropped(keys, executed, n, key) || (executed(n) && keys[n] == key)
  {
  }

  /** A store after the first n deletes of a pipeline. */
  function AllDropped<S>(drop: (S, string) -> S, s: S, keys: seq<string>, executed: nat -> bool, n: nat): S
    requires n <= |keys|
  {
    if n == 0 then s else
      var before := AllDropped(drop, s, keys, executed, n - 1);
      if executed(n - 1) then drop(before, keys[n - 1]) else before
  }
}
