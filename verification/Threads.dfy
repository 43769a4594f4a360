/** Counting the threads that are at certain places of their calls. */
module Threads {

  function At<PC>(threads: map<nat, PC>, place: PC -> bool): set<nat> {
    set t | t in threads && place(threads[t])
  }

  function CountAt<PC>(threads: map<nat, PC>, place: PC -> bool): nat {
    |At(threads, place)|
  }

  lemma SplitOff(s: set<nat>, t: nat)
    ensures |s| == |s - {t}| + if t in s then 1 else 0
  {
    if t in s {
      assert s == (s - {t}) + {t};
    } else {
      assert s == s - {t};
    }
  }

  lemma AtElsewhere<PC>(threads: map<nat, PC>, t: nat, pc: PC, place: PC -> bool)
    ensures At(threads[t := pc], place) - {t} == At(threads, place) - {t}
  {
  }

  /** A thread that moves is counted where it goes to and no longer where it was. */
  lemma CountMove<PC>(threads: map<nat, PC>, t: nat, pc: PC, place: PC -> bool)
    requires t in threads
    ensures CountAt(threads[t := pc], place) + (if place(threads[t]) then 1 else 0)
            == CountAt(threads, place) + if place(pc) then 1 else 0
  {
    var before, after := At(threads, place), At(threads[t := pc], place);
    SplitOff(before, t);
    SplitOff(after, t);
    AtElsewhere(threads, t, pc, place);
    assert t in before <==> place(threads[t]);
    assert t in after <==> place(pc);
    hide At;
  }

  lemma CountSome<PC>(threads: map<nat, PC>, t: nat, place: PC -> bool)
    requires t in threads && place(threads[t])
    ensures CountAt(threads, place) > 0
  {
    assert t in At(threads, place);
  }

  lemma CountWitness<PC>(threads: map<nat, PC>, place: PC -> bool) returns (t: nat)
    requires CountAt(threads, place) > 0
    ensures t in threads && place(threads[t])
  {
    t :| t in At(threads, place);
  }

  lemma CountNone<PC>(threads: map<nat, PC>, place: PC -> bool)
    requires forall t | t in threads :: !place(threads[t])
    ensures CountAt(threads, place) == 0
  {
    assert At(threads, place) == {};
  }
}
