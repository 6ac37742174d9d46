/** The server's main loop on the real list: accept, start a thread, list it, reap, at last shut down. */
module AcceptLoop {
  import opened Registry
  import opened ThreadList

  /**
   What one turn of the loop meets: `accept` fails, the thread cannot be created, or it runs. In the
   last two cases `progress` says which threads complete during the removal walk of the turn.
   */
  datatype Connection =
    | AcceptFails
    | CreateFails(progress: nat -> set<ThreadData>)
    | Accepted(progress: nat -> set<ThreadData>)

  /** Thread `d` completes in the removal walk of the turn. */
  ghost predicate LetsComplete(c: Connection, d: ThreadData) {
    !c.AcceptFails? && exists m :: d in c.progress(m)
  }

  function CountAccepted(cs: seq<Connection>): nat {
    if cs == [] then 0 else CountAccepted(cs[..|cs| - 1]) + if cs[|cs| - 1].Accepted? then 1 else 0
  }

  ghost predicate NoneTwice<T>(xs: seq<T>) {
    forall i, j :: 0 <= i < j < |xs| ==> xs[i] != xs[j]
  }

  /**
   The list is where the run `es` of the registry ends; the threads it inserted are those started, no
   two the same, and every thread still running is listed. All memory ever handed out was freed,
   except the nodes of the list and their threads' data.
   */
  ghost predicate Reached(server: Server, es: seq<Event<ThreadData>>)
    reads server, server.nodes, server.threads, server.heap
  {
    && server.Valid()
    && IsRun(es) && server.View() == State(es)
    && server.threads.started == Inserted(es) && NoneTwice(Inserted(es))
    && (forall d :: d in server.threads.running ==> d in DataOf(server.nodes))
    && server.heap.handedOut == server.heap.freed + Memory(server.nodes)
  }

  lemma RunStarts()
    ensures IsRun<ThreadData>([]) && State<ThreadData>([]) == Registry([], []) && Inserted<ThreadData>([]) == []
    ensures NoneTwice(Inserted<ThreadData>([]))
  {
  }

  lemma RunGoesOn(es: seq<Event<ThreadData>>, e: Event<ThreadData>)
    requires IsRun(es) && Enabled(State(es), e)
    ensures IsRun(es + [e]) && State(es + [e]) == Step(State(es), e)
    ensures Inserted(es + [e]) == WithInserted(Inserted(es), e)
  {
    assert (es + [e])[..|es|] == es;
  }

  /** Every thread inserted is listed or reaped. */
  lemma InsertedIsKnown(es: seq<Event<ThreadData>>, d: ThreadData)
    requires IsRun(es)
    ensures d in Inserted(es) <==> d in State(es).list || d in State(es).reaped
  {
    ThreadsConserved(es);
    assert d in Inserted(es) <==> d in multiset(Inserted(es));
    assert d in State(es).list <==> d in multiset(State(es).list);
    assert d in State(es).reaped <==> d in multiset(State(es).reaped);
  }

  lemma {:induction false} ThreadsAreData(nodes: seq<Node>, d: ThreadData)
    ensures d in ThreadsOf(nodes) <==> d in DataOf(nodes)
  {
    if nodes == [] {
    } else {
      var n := |nodes| - 1;
      ThreadsAreData(nodes[..n], d);
      DataOfSnoc(nodes[..n], nodes[n]);
      assert nodes == nodes[..n] + [nodes[n]];
    }
  }

  /** A thread that was listed before a walk and not reaped in it is listed after. */
  lemma SurvivorsListed(all: seq<Node>, seen: seq<bool>, d: ThreadData)
    requires |seen| == |all|
    requires d in DataOf(all) && d !in ThreadsOf(Dropped(all, seen))
    ensures d in Kept(DataOf(all), seen)
  {
    hide Kept, Dropped, DataOf, ThreadsOf;
    ThreadsAreData(Dropped(all, seen), d);
    DataOfKept(all, seen);
    KeptAndDropped(DataOf(all), seen);
    assert d in multiset(DataOf(all));
    assert d !in multiset(Dropped(DataOf(all), seen));
    assert d in multiset(Kept(DataOf(all), seen));
  }

  lemma {:induction false} MemoryKept(nodes: seq<Node>, seen: seq<bool>)
    requires |seen| == |nodes|
    ensures Memory(nodes) == Memory(Kept(nodes, seen)) + Memory(Dropped(nodes, seen))
  {
    if nodes == [] {
    } else {
      var n := |nodes| - 1;
      MemoryKept(nodes[..n], seen[..n]);
      assert nodes == nodes[..n] + [nodes[n]] && seen == seen[..n] + [seen[n]];
      KeptSnoc(nodes[..n], seen[..n], nodes[n], seen[n]);
      MemorySnoc(Kept(nodes[..n], seen[..n]), nodes[n]);
      MemorySnoc(Dropped(nodes[..n], seen[..n]), nodes[n]);
    }
  }

  lemma {:induction false} KeptHas<T>(xs: seq<T>, seen: seq<bool>, j: nat)
    requires |seen| == |xs| && j < |xs| && !seen[j]
    ensures xs[j] in Kept(xs, seen)
  {
    var n := |xs| - 1;
    if j < n {
      KeptHas(xs[..n], seen[..n], j);
    }
  }

  /** No walk removes a thread that was not complete before it and that nothing lets complete. */
  lemma UnfinishedKept(ds: seq<ThreadData>, was: seq<bool>, progress: nat -> set<ThreadData>, seen: seq<bool>, j: nat)
    requires FoundRight(ds, was, progress, seen) && |seen| == |ds| && j < |ds|
    requires !was[j] && forall m :: ds[j] !in progress(m)
    ensures ds[j] in Kept(ds, seen)
  {
    FoundBounds(ds, was, progress, seen, j);
    KeptHas(ds, seen, j);
  }

  /** The removal walk of a turn. */
  method Walk(server: Server, progress: nat -> set<ThreadData>, ghost es: seq<Event<ThreadData>>)
    returns (ghost e: Event<ThreadData>)
    requires Reached(server, es)
    modifies server`head, server`nodes, server`reaped, NodeSet(server.nodes)`next
    modifies server.heap`freed, server.threads`running, server.threads.running`isComplete
    ensures Reached(server, es + [e]) && e.Remove? && Inserted(es + [e]) == Inserted(es)
    ensures FoundRight(old(DataOf(server.nodes)), old(FlagsOf(server.nodes)), progress, e.seen)
    ensures forall j :: 0 <= j < |old(server.nodes)| && !old(FlagsOf(server.nodes))[j] ==>
      var d := old(DataOf(server.nodes))[j];
      d in DataOf(server.nodes) || exists m :: d in progress(m)
    ensures NodeSet(server.nodes) <= NodeSet(old(server.nodes))
    ensures server.threads.running <= old(server.threads.running)
  {
    hide Server.Valid, Server.Owned, State, IsRun, Inserted, Kept, Dropped, FlagsRight, DataOf, FoundRight;
    hide Memory, ThreadsOf, NoneTwice, NodeSet, FlagsOf;
    ghost var all, was := server.nodes, FlagsOf(server.nodes);
    ghost var seen := server.RemoveCompletedThreads(progress);
    e := Remove(seen);
    RunGoesOn(es, e);
    MemoryKept(all, seen);
    forall d | d in server.threads.running ensures d in DataOf(server.nodes) {
      SurvivorsListed(all, seen, d);
    }
    forall j | 0 <= j < |all| && !was[j] && forall m :: DataOf(all)[j] !in progress(m)
      ensures DataOf(all)[j] in DataOf(server.nodes)
    {
      UnfinishedKept(DataOf(all), was, progress, seen, j);
    }
  }

  /** A thread is started and listed. */
  method Launch(server: Server, data: ThreadData, ghost es: seq<Event<ThreadData>>)
    requires server.Valid() && IsRun(es) && server.View() == State(es)
    requires server.threads.started == Inserted(es) && NoneTwice(Inserted(es))
    requires forall d :: d in server.threads.running ==> d in DataOf(server.nodes)
    requires data !in Inserted(es) && data !in server.heap.freed
    requires server.heap.handedOut == server.heap.freed + Memory(server.nodes) + {data}
    modifies server, NodeSet(server.nodes), server.threads, server.heap`handedOut
    ensures Reached(server, es + [Insert(data)]) && Inserted(es + [Insert(data)]) == Inserted(es) + [data]
    ensures DataOf(server.nodes) == old(DataOf(server.nodes)) + [data]
    ensures FlagsOf(server.nodes) == old(FlagsOf(server.nodes)) + [data.isComplete]
    ensures fresh(NodeSet(server.nodes) - NodeSet(old(server.nodes)))
    ensures server.threads.running == old(server.threads.running) + {data}
  {
    hide Server.Valid, Server.Owned, Step, State, IsRun, Inserted, DataOf, Memory, FlagsOf, NodeSet;
    InsertedIsKnown(es, data);
    server.threads.Start(data);
    server.StaysValid(data);
    ghost var nodes := server.nodes;
    var n := server.InsertNode(data);
    RunGoesOn(es, Insert(data));
    MemorySnoc(nodes, n);
    DataOfSnoc(nodes, n);
    FlagsOfSnoc(nodes, n);
    NodeSetSnoc(nodes, n);
  }

  /** A struct for a new thread: with the thread started it is listed, otherwise freed. */
  method Admit(server: Server, created: bool, ghost es: seq<Event<ThreadData>>)
    returns (ghost more: seq<Event<ThreadData>>)
    requires Reached(server, es)
    modifies server, NodeSet(server.nodes), server.heap, server.threads
    ensures Reached(server, es + more) && |Inserted(es + more)| == |Inserted(es)| + |more|
    ensures if created then
        && |more| == 1 && more[0].Insert? && fresh(more[0].data)
        && DataOf(server.nodes) == old(DataOf(server.nodes)) + [more[0].data]
        && FlagsOf(server.nodes) == old(FlagsOf(server.nodes)) + [false]
        && server.threads.running == old(server.threads.running) + {more[0].data}
      else
        && more == []
        && DataOf(server.nodes) == old(DataOf(server.nodes)) && FlagsOf(server.nodes) == old(FlagsOf(server.nodes))
        && server.threads.running == old(server.threads.running)
    ensures fresh(NodeSet(server.nodes) - NodeSet(old(server.nodes)))
  {
    hide Server.Valid, Server.Owned, Step, State, IsRun, Inserted, NoneTwice, DataOf, FlagsOf;
    more := [];
    assert es + more == es;
    ghost var known := server.threads.started;
    var data := new ThreadData(server.heap);
    server.StaysValid(data);
    if created {
      assert data !in known;
      Launch(server, data, es);
      more := [Insert(data)];
    } else {
      server.heap.Free(data);
      server.StaysValid(data);
    }
  }

  /**
   One turn of the loop in `main`: after every connection but a failed `accept` comes a walk. It finds
   a flag set just if the thread has completed by then; a thread just started has not. So a thread
   that nothing lets complete is still listed at the end of the turn.
   */
  method Turn(server: Server, c: Connection, ghost es: seq<Event<ThreadData>>)
    returns (ghost more: seq<Event<ThreadData>>)
    requires Reached(server, es)
    modifies server, NodeSet(server.nodes), server.heap, server.threads, server.threads.running
    ensures Reached(server, es + more)
    ensures var ds, was := old(DataOf(server.nodes)), old(FlagsOf(server.nodes));
      match c
      case AcceptFails => more == []
      case CreateFails(progress) =>
        |more| == 1 && more[0].Remove? && FoundRight(ds, was, progress, more[0].seen)
      case Accepted(progress) =>
        && |more| == 2 && more[0].Insert? && fresh(more[0].data) && more[1].Remove?
        && FoundRight(ds + [more[0].data], was + [false], progress, more[1].seen)
    ensures forall j :: 0 <= j < |old(server.nodes)| && !old(FlagsOf(server.nodes))[j] ==>
      var d := old(DataOf(server.nodes))[j];
      d in DataOf(server.nodes) || LetsComplete(c, d)
    ensures c.Accepted? ==> more[0].data in DataOf(server.nodes) || LetsComplete(c, more[0].data)
    ensures |Inserted(es + more)| == |Inserted(es)| + if c.Accepted? then 1 else 0
    ensures fresh(NodeSet(server.nodes) - NodeSet(old(server.nodes)))
    ensures fresh(server.threads.running - old(server.threads.running))
  {
    hide Server.Valid, Server.Owned, Step, State, IsRun, Inserted, NoneTwice, FoundRight, DataOf, FlagsOf, Memory;
    if c.AcceptFails? {
      more := [];
      assert es + more == es;
      return;
    }
    ghost var known := DataOf(server.nodes);
    more := Admit(server, c.Accepted?, es);
    ghost var ds, was := DataOf(server.nodes), FlagsOf(server.nodes);
    assert forall j :: 0 <= j < |known| ==> ds[j] == known[j];
    assert c.Accepted? ==> ds[|known|] == more[0].data && !was[|known|];
    ghost var e := Walk(server, c.progress, es + more);
    assert es + (more + [e]) == es + more + [e];
    more := more + [e];
  }

  /**
   The whole server: every thread started is listed while it runs. After the shutdown the list is
   empty and no thread is running; those started are one for every connection accepted, no two the
   same, and exactly they have been joined, each once (`Threads.Join` admits no second time), and
   freed; so has all other memory ever handed out. `ending` says which threads complete during the
   joins of the shutdown.
   */
  method Serve(cs: seq<Connection>, ending: nat -> set<ThreadData>)
    returns (server: Server, ghost es: seq<Event<ThreadData>>)
    ensures Reached(server, es) && server.head == null && server.View().list == []
    ensures server.threads.running == {}
    ensures |server.threads.started| == CountAccepted(cs) && NoneTwice(server.threads.started)
    ensures multiset(server.View().reaped) == multiset(server.threads.started)
    ensures forall d :: d in server.threads.started ==> d in server.heap.freed
    ensures server.heap.handedOut == server.heap.freed
  {
    hide Server.Valid, Step, State, Inserted, DataOf, FlagsOf, FoundRight, IsRun, NoneTwice, Server.Owned;
    var threads := new Threads();
    var heap := new Heap();
    server := new Server(threads, heap);
    es := [];
    RunStarts();
    for i := 0 to |cs|
      invariant Reached(server, es) && server.threads == threads && server.heap == heap
      invariant fresh(NodeSet(server.nodes)) && fresh(threads.running)
      invariant |Inserted(es)| == CountAccepted(cs[..i])
    {
      ghost var more := Turn(server, cs[i], es);
      es := es + more;
      assert cs[..i + 1][..i] == cs[..i];
    }
    assert cs[..|cs|] == cs;
    es := Finish(server, ending, es);
  }

  /** The shutdown that ends a run of the loop. */
  method Finish(server: Server, ending: nat -> set<ThreadData>, ghost es: seq<Event<ThreadData>>)
    returns (ghost es': seq<Event<ThreadData>>)
    requires Reached(server, es)
    modifies server`head, server`nodes, server`reaped, NodeSet(server.nodes)`next
    modifies server.heap`freed, server.threads`running, server.threads.running`isComplete
    ensures Reached(server, es') && server.head == null && server.View().list == []
    ensures server.threads.running == {} && Inserted(es') == Inserted(es)
    ensures multiset(server.View().reaped) == multiset(server.threads.started)
    ensures forall d :: d in server.threads.started ==> d in server.heap.freed
    ensures server.heap.handedOut == server.heap.freed
  {
    hide Server.Owned, Step, State, IsRun, Inserted, DataOf, Links, Distinct;
    ghost var all := server.nodes;
    server.DoShutdown(ending);
    RunGoesOn(es, Event<ThreadData>.Shutdown);
    es' := es + [Event<ThreadData>.Shutdown];
    ShutdownReapsAll(es');
    forall d | d in server.threads.running ensures false {
      ThreadsAreData(all, d);
    }
    forall d | d in server.threads.started ensures d in server.heap.freed {
      InsertedIsKnown(es', d);
    }
  }
}
