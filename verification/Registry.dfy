/** The server's list of client threads, as values: who is listed and who has been joined. */
module Registry {

  /** `reaped` lists the threads joined and freed, in that order. */
  datatype Registry<+T> = Registry(list: seq<T>, reaped: seq<T>)

  /** `Remove(seen)` is one walk over the list: `seen[i]` is whether thread `i` was found complete. */
  datatype Event<+T> = Insert(data: T) | Remove(seen: seq<bool>) | Shutdown

  /** The elements whose flag is false, in order. */
  function Kept<T>(xs: seq<T>, seen: seq<bool>): (ks: seq<T>)
    requires |seen| == |xs|
    ensures |ks| <= |xs|
  {
    if xs == [] then [] else
      var n := |xs| - 1;
      if seen[n] then Kept(xs[..n], seen[..n]) else Kept(xs[..n], seen[..n]) + [xs[n]]
  }

  /** The elements whose flag is true, in order. */
  function Dropped<T>(xs: seq<T>, seen: seq<bool>): (ds: seq<T>)
    requires |seen| == |xs|
    ensures |ds| <= |xs|
  {
    if xs == [] then [] else
      var n := |xs| - 1;
      if seen[n] then Dropped(xs[..n], seen[..n]) + [xs[n]] else Dropped(xs[..n], seen[..n])
  }

  lemma KeptSnoc<T>(xs: seq<T>, seen: seq<bool>, x: T, b: bool)
    requires |seen| == |xs|
    ensures Kept(xs + [x], seen + [b]) == if b then Kept(xs, seen) else Kept(xs, seen) + [x]
    ensures Dropped(xs + [x], seen + [b]) == if b then Dropped(xs, seen) + [x] else Dropped(xs, seen)
  {
    assert (xs + [x])[..|xs|] == xs && (seen + [b])[..|xs|] == seen;
  }

  predicate Enabled<T>(r: Registry<T>, e: Event<T>) {
    e.Remove? ==> |e.seen| == |r.list|
  }

  function Step<T>(r: Registry<T>, e: Event<T>): Registry<T>
    requires Enabled(r, e)
  {
    match e
    case Insert(data) => Registry(r.list + [data], r.reaped)
    case Remove(seen) => Registry(Kept(r.list, seen), r.reaped + Dropped(r.list, seen))
    case Shutdown => Registry([], r.reaped + r.list)
  }

  /** The events can follow one another from the empty list. */
  predicate IsRun<T>(es: seq<Event<T>>)
    decreases |es|, 0
  {
    es == [] || (IsRun(es[..|es| - 1]) && Enabled(State(es[..|es| - 1]), es[|es| - 1]))
  }

  function State<T>(es: seq<Event<T>>): Registry<T>
    requires IsRun(es)
    decreases |es|, 1
  {
    if es == [] then Registry([], []) else Step(State(es[..|es| - 1]), es[|es| - 1])
  }

  function Inserted<T>(es: seq<Event<T>>): seq<T> {
    if es == [] then [] else
      WithInserted(Inserted(es[..|es| - 1]), es[|es| - 1])
  }

  function WithInserted<T>(inserted: seq<T>, e: Event<T>): seq<T> {
    if e.Insert? then inserted + [e.data] else inserted
  }

  lemma {:induction false} KeptAndDropped<T>(xs: seq<T>, seen: seq<bool>)
    requires |seen| == |xs|
    ensures multiset(Kept(xs, seen)) + multiset(Dropped(xs, seen)) == multiset(xs)
  {
    if xs == [] {
    } else {
      var n := |xs| - 1;
      KeptAndDropped(xs[..n], seen[..n]);
      assert xs == xs[..n] + [xs[n]] && seen == seen[..n] + [seen[n]];
      KeptSnoc(xs[..n], seen[..n], xs[n], seen[n]);
    }
  }

  /** `list` is what remains of `xs` when some elements are left out, in the same order. */
  ghost predicate InOrder<T>(list: seq<T>, xs: seq<T>) {
    exists gone: seq<bool> :: |gone| == |xs| && Kept(xs, gone) == list
  }

  /** Leaving out again: the flags of both walks, merged into flags for the first list. */
  function Merge(gone: seq<bool>, seen: seq<bool>): (r: seq<bool>)
    ensures |r| == |gone|
    decreases |gone|
  {
    if gone == [] then [] else
      var n := |gone| - 1;
      if gone[n] || seen == [] then Merge(gone[..n], seen) + [true]
      else Merge(gone[..n], seen[..|seen| - 1]) + [seen[|seen| - 1]]
  }

  lemma {:induction false} KeptOfKept<T>(xs: seq<T>, gone: seq<bool>, seen: seq<bool>)
    requires |gone| == |xs| && |seen| == |Kept(xs, gone)|
    ensures Kept(xs, Merge(gone, seen)) == Kept(Kept(xs, gone), seen)
    decreases |xs|
  {
    if xs != [] {
      var n := |xs| - 1;
      var init, g := xs[..n], gone[..n];
      assert xs == init + [xs[n]];
      if gone[n] {
        KeptOfKept(init, g, seen);
        KeptSnoc(init, Merge(g, seen), xs[n], true);
      } else {
        var s, b := seen[..|seen| - 1], seen[|seen| - 1];
        assert seen == s + [b];
        KeptOfKept(init, g, s);
        KeptSnoc(init, Merge(g, s), xs[n], b);
        KeptSnoc(Kept(init, g), s, xs[n], b);
      }
    }
  }

  lemma InOrderKept<T>(list: seq<T>, xs: seq<T>, seen: seq<bool>)
    requires InOrder(list, xs) && |seen| == |list|
    ensures InOrder(Kept(list, seen), xs)
  {
    var gone: seq<bool> :| |gone| == |xs| && Kept(xs, gone) == list;
    KeptOfKept(xs, gone, seen);
  }

  lemma InOrderSnoc<T>(list: seq<T>, xs: seq<T>, x: T)
    requires InOrder(list, xs)
    ensures InOrder(list + [x], xs + [x])
  {
    var gone: seq<bool> :| |gone| == |xs| && Kept(xs, gone) == list;
    KeptSnoc(xs, gone, x, false);
    assert Kept(xs + [x], gone + [false]) == list + [x];
  }

  lemma {:induction false} NothingInOrder<T>(xs: seq<T>)
    ensures InOrder([], xs)
  {
    if xs == [] {
      assert Kept(xs, []) == [];
    } else {
      var n := |xs| - 1;
      NothingInOrder(xs[..n]);
      var gone: seq<bool> :| |gone| == n && Kept(xs[..n], gone) == [];
      KeptSnoc(xs[..n], gone, xs[n], true);
      assert xs == xs[..n] + [xs[n]];
      assert Kept(xs, gone + [true]) == [];
    }
  }

  lemma StepConserves<T>(r: Registry<T>, e: Event<T>, inserted: seq<T>)
    requires Enabled(r, e)
    requires multiset(r.list) + multiset(r.reaped) == multiset(inserted)
    ensures multiset(Step(r, e).list) + multiset(Step(r, e).reaped) == multiset(WithInserted(inserted, e))
  {
    if e.Remove? {
      KeptAndDropped(r.list, e.seen);
    }
  }

  lemma StepKeepsOrder<T>(r: Registry<T>, e: Event<T>, inserted: seq<T>)
    requires Enabled(r, e) && InOrder(r.list, inserted)
    ensures InOrder(Step(r, e).list, WithInserted(inserted, e))
  {
    match e
    case Insert(data) => InOrderSnoc(r.list, inserted, data);
    case Remove(seen) => InOrderKept(r.list, inserted, seen);
    case Shutdown => NothingInOrder(inserted);
  }

  /**
   Over any run of inserts, removal walks and shutdowns, every inserted thread is either in the list
   or joined and freed, exactly once, and the list keeps the order of insertion.
   */
  lemma {:induction false} ThreadsConserved<T>(es: seq<Event<T>>)
    requires IsRun(es)
    ensures multiset(State(es).list) + multiset(State(es).reaped) == multiset(Inserted(es))
    ensures InOrder(State(es).list, Inserted(es))
  {
    if es == [] {
      NothingInOrder<T>([]);
    } else {
      ThreadsConserved(es[..|es| - 1]);
      StepConserves(State(es[..|es| - 1]), es[|es| - 1], Inserted(es[..|es| - 1]));
      StepKeepsOrder(State(es[..|es| - 1]), es[|es| - 1], Inserted(es[..|es| - 1]));
    }
  }

  /** With distinct threads, listed and reaped are disjoint and neither holds a thread twice. */
  lemma EachThreadOnce<T>(es: seq<Event<T>>, d: T)
    requires IsRun(es)
    requires multiset(Inserted(es))[d] == 1
    ensures multiset(State(es).list)[d] + multiset(State(es).reaped)[d] == 1
  {
    ThreadsConserved(es);
  }

  /** After a run that ends in a shutdown, the list is empty and every thread ever inserted is joined. */
  lemma ShutdownReapsAll<T>(es: seq<Event<T>>)
    requires es != [] && es[|es| - 1].Shutdown? && IsRun(es)
    ensures State(es).list == [] && multiset(State(es).reaped) == multiset(Inserted(es))
  {
    ThreadsConserved(es);
  }
}
