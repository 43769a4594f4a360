/**
  Calls and what they do. A call has a number, given out in order when it begins,
  and leaves at most one entry in a log. What a thread knows of its call is an
  Account: the number, what was asked, and the entry, if it has been made.
 */
module Calls {
  import opened Basics

  datatype Account<A, E> = Account(c: nat, asked: A, entry: Option<E>)

  /** What is on record: what each call asked for, and the entries, each with the number of its call. */
  datatype Book<A, E> = Book(calls: seq<A>, log: seq<(nat, E)>)

  ghost predicate Made<E(!new)>(log: seq<(nat, E)>, c: nat) {
    exists k :: 0 <= k < |log| && log[k].0 == c
  }

  /** The account says what its call asked, and the log has its entry and no other of that call. */
  ghost predicate True<A(!new), E(!new)>(b: Book<A, E>, a: Account<A, E>) {
    && a.c < |b.calls| && b.calls[a.c] == a.asked
    && match a.entry
       case None => !Made(b.log, a.c)
       case Some(e) => (a.c, e) in b.log
  }

  /** Each call made at most one entry, and one that fits what it asked for. */
  ghost predicate Once<A(!new), E(!new)>(b: Book<A, E>, fits: (A, E) -> bool) {
    && (forall k | 0 <= k < |b.log| :: b.log[k].0 < |b.calls| && fits(b.calls[b.log[k].0], b.log[k].1))
    && (forall j, k | 0 <= j < k < |b.log| :: b.log[j].0 != b.log[k].0)
  }

  /** All accounts are true, and no two threads are in the same call. */
  ghost predicate Kept<PC(!new), A(!new), E(!new)>(b: Book<A, E>, threads: map<nat, PC>,
                                                   account: PC -> Option<Account<A, E>>, fits: (A, E) -> bool) {
    && Once(b, fits)
    && (forall t | t in threads :: account(threads[t]).Some? ==> True(b, account(threads[t]).value))
    && (forall t, u | t in threads && u in threads && t != u
                      && account(threads[t]).Some? && account(threads[u]).Some? ::
          account(threads[t]).value.c != account(threads[u]).value.c)
  }

  /** How a thread may go on: begin the next call, end its call, make its entry, or neither. */
  ghost predicate GoesOn<A(!new), E(!new)>(b: Book<A, E>, b': Book<A, E>, before: Option<Account<A, E>>,
                                           after: Option<Account<A, E>>, fits: (A, E) -> bool) {
    || (b' == b && (after == before || after == None))
    || (|b'.calls| > 0 && b' == b.(calls := b.calls + [b'.calls[|b'.calls| - 1]]) && before == None
        && (after == None || after == Some(Account(|b.calls|, b'.calls[|b.calls|], None))))
    || (before.Some? && before.value.entry == None && after.Some? && after.value.entry.Some?
        && after.value == before.value.(entry := after.value.entry)
        && fits(before.value.asked, after.value.entry.value)
        && b' == b.(log := b.log + [(before.value.c, after.value.entry.value)]))
  }

  /** Nothing in the log of one call changes when another goes on. */
  lemma OthersTrue<A(!new), E(!new)>(b: Book<A, E>, b': Book<A, E>, before: Option<Account<A, E>>,
                                     after: Option<Account<A, E>>, fits: (A, E) -> bool, a: Account<A, E>)
    requires GoesOn(b, b', before, after, fits) && True(b, a) && (before.Some? ==> before.value.c != a.c)
    ensures True(b', a)
  {
    assert forall k | 0 <= k < |b'.log| && b'.log[k].0 == a.c :: k < |b.log| && b.log[k].0 == a.c;
  }

  lemma OwnTrue<A(!new), E(!new)>(b: Book<A, E>, b': Book<A, E>, before: Option<Account<A, E>>,
                                  after: Option<Account<A, E>>, fits: (A, E) -> bool)
    requires Once(b, fits) && GoesOn(b, b', before, after, fits) && (before.Some? ==> True(b, before.value))
    ensures Once(b', fits) && (after.Some? ==> True(b', after.value))
  {
    if b'.log != b.log {
      var n := |b.log|;
      assert b'.log[n] == (before.value.c, after.value.entry.value);
      forall j, k | 0 <= j < k < |b'.log|
        ensures b'.log[j].0 != b'.log[k].0
      {
        if k == n {
          assert b.log[j] == b'.log[j];
        }
      }
    }
  }

  /** A step of one thread keeps the book, if the others' accounts stay what they are. */
  lemma KeptStep<PC(!new), A(!new), E(!new)>(b: Book<A, E>, b': Book<A, E>, threads: map<nat, PC>,
                                             threads': map<nat, PC>, t: nat, account: PC -> Option<Account<A, E>>,
                                             fits: (A, E) -> bool)
    requires Kept(b, threads, account, fits) && t in threads && threads'.Keys == threads.Keys
    requires forall u | u in threads && u != t :: account(threads'[u]) == account(threads[u])
    requires GoesOn(b, b', account(threads[t]), account(threads'[t]), fits)
    ensures Kept(b', threads', account, fits)
  {
    OwnTrue(b, b', account(threads[t]), account(threads'[t]), fits);
    forall u | u in threads' && u != t && account(threads'[u]).Some?
      ensures True(b', account(threads'[u]).value)
      ensures account(threads'[t]).Some? ==> account(threads'[t]).value.c != account(threads'[u]).value.c
    {
      assert True(b, account(threads[u]).value);
      OthersTrue(b, b', account(threads[t]), account(threads'[t]), fits, account(threads[u]).value);
    }
  }

  /** The call of a thread asked what its account says, and made exactly the entry its account says, or none. */
  lemma AccountIs<PC(!new), A(!new), E(!new)>(b: Book<A, E>, threads: map<nat, PC>, t: nat,
                                              account: PC -> Option<Account<A, E>>, fits: (A, E) -> bool, e: E)
    requires Kept(b, threads, account, fits) && t in threads && account(threads[t]).Some?
    ensures var a := account(threads[t]).value;
            && a.c < |b.calls| && b.calls[a.c] == a.asked
            && ((a.c, e) in b.log <==> a.entry == Some(e))
            && (Made(b.log, a.c) <==> a.entry.Some?)
            && (a.entry.Some? ==> fits(a.asked, a.entry.value))
  {
    var a := account(threads[t]).value;
    assert True(b, a);
    if a.entry.Some? {
      var j :| 0 <= j < |b.log| && b.log[j] == (a.c, a.entry.value);
      assert forall k | 0 <= k < |b.log| && b.log[k].0 == a.c :: k == j;
    }
  }
}
