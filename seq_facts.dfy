/** Facts about sequences that the folds on the last element share. */
module SeqFacts {
  /** Some element satisfies p exactly when some element of the front does or the last one does. */
  lemma ExistsSnoc<T>(s: seq<T>, front: seq<T>, p: T -> bool)
    requires s != [] && front == s[..|s| - 1]
    ensures (exists i :: 0 <= i < |s| && p(s[i])) <==>
      (exists i :: 0 <= i < |front| && p(front[i])) || p(s[|s| - 1])
  {
    if exists i :: 0 <= i < |s| && p(s[i]) {
      var i :| 0 <= i < |s| && p(s[i]);
      if i < |front| {
        assert p(front[i]);
      }
    }
    if exists i :: 0 <= i < |front| && p(front[i]) {
      var i :| 0 <= i < |front| && p(front[i]);
      assert p(s[i]);
    }
  }

  /** The suffix from m is its first element followed by the suffix from m + 1. */
  lemma DropCons<T>(s: seq<T>, m: nat)
    requires m < |s|
    ensures s[m..] == [s[m]] + s[m + 1..]
  {
  }
}
