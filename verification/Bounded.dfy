/** A bounded queue that drops its oldest entry to take a new one: the action journal and the sample window. */
module Bounded {

  function Appended<T>(bound: nat, entries: seq<T>, x: T): seq<T> {
    (if |entries| >= bound && entries != [] then entries[1..] else entries) + [x]
  }

  function AppendedAll<T>(bound: nat, entries: seq<T>, xs: seq<T>): seq<T> {
    if xs == [] then entries else Appended(bound, AppendedAll(bound, entries, xs[..|xs| - 1]), xs[|xs| - 1])
  }

  function Last<T>(xs: seq<T>, n: nat): seq<T> {
    if |xs| <= n then xs else xs[|xs| - n..]
  }

  lemma LastMovesOn<T>(bound: nat, front: seq<T>, x: T, keep: nat)
    requires keep == if bound == 0 then 1 else bound
    ensures Appended(bound, Last(front, keep), x) == Last(front + [x], keep)
  {
    if |front| >= keep {
      assert Last(front, keep)[1..] + [x] == Last(front + [x], keep);
    }
  }

  /** The queue always holds exactly the most recent entries, in order: as many as its bound, but one even when
      the bound is zero. */
  lemma {:induction false} KeepsTheMostRecent<T>(bound: nat, xs: seq<T>)
    ensures AppendedAll(bound, [], xs) == Last(xs, if bound == 0 then 1 else bound)
  {
    if xs != [] {
      var front, x := xs[..|xs| - 1], xs[|xs| - 1];
      KeepsTheMostRecent(bound, front);
      assert AppendedAll(bound, [], xs) == Appended(bound, AppendedAll(bound, [], front), x);
      LastMovesOn(bound, front, x, if bound == 0 then 1 else bound);
      assert xs == front + [x];
    }
  }
}
