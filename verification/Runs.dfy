/** Runs of a transition relation. */
module Runs {

  /** States that follow each other by moves, from an initial one. */
  ghost predicate Run<S(!new)>(run: seq<S>, init: S -> bool, moves: (S, S) -> bool) {
    && |run| > 0 && init(run[0])
    && forall i, j | 0 <= i && j == i + 1 && j < |run| :: moves(run[i], run[j])
  }

  /** What holds initially and is kept by every move holds in every state of every run. */
  lemma {:induction false} RunKeeps<S(!new)>(run: seq<S>, init: S -> bool, moves: (S, S) -> bool, inv: S -> bool,
                                             i: nat)
    requires Run(run, init, moves) && i < |run|
    requires forall s | init(s) :: inv(s)
    requires forall s, s' | inv(s) && moves(s, s') :: inv(s')
    ensures inv(run[i])
  {
    if i > 0 {
      RunKeeps(run, init, moves, inv, i - 1);
      assert moves(run[i - 1], run[i]);
    }
  }
}
