/** The server's linked list of client threads, relinked in place while the threads run. */
module ThreadList {
  import opened Registry

  /**
   The memory of thread structs and nodes: every constructor call is one `malloc`. `Free` excludes
   freeing twice, `Server.Owned` use after it.
   */
  class Heap {
    ghost var handedOut: set<object>
    ghost var freed: set<object>

    constructor ()
      ensures handedOut == {} && freed == {}
    {
      handedOut, freed := {}, {};
    }

    method Free(x: object)
      requires x in handedOut - freed
      modifies this`freed
      ensures freed == old(freed) + {x}
    {
      freed := freed + {x};
    }
  }

  /** thread_data_t */
  class ThreadData {
    /** Set by the thread itself near its end, without the list's mutex; it still reads this struct after. */
    var isComplete: bool

    constructor (heap: Heap)
      modifies heap`handedOut
      ensures !isComplete && heap.handedOut == old(heap.handedOut) + {this}
    {
      isComplete := false;
      new;
      heap.handedOut := heap.handedOut + {this};
    }
  }

  class Node {
    const data: ThreadData
    var next: Node?

    constructor (data: ThreadData, heap: Heap)
      modifies heap`handedOut
      ensures this.data == data && next == null && heap.handedOut == old(heap.handedOut) + {this}
    {
      this.data := data;
      next := null;
      new;
      heap.handedOut := heap.handedOut + {this};
    }
  }

  /** The threads started and not yet joined. They may complete at any time, and never go back. */
  class Threads {
    var running: set<ThreadData>
    /** All threads ever started, in that order. */
    ghost var started: seq<ThreadData>

    constructor ()
      ensures running == {} && started == []
    {
      running := {};
      started := [];
    }

    /** pthread_create, when it succeeds. */
    method Start(d: ThreadData)
      modifies this
      ensures running == old(running) + {d} && started == old(started) + [d]
    {
      running := running + {d};
      started := started + [d];
    }

    /** The threads in `progress` that are still running complete. */
    method Progress(progress: set<ThreadData>)
      modifies running`isComplete
      ensures forall d :: d in running ==> d.isComplete == (old(d.isComplete) || d in progress)
    {
      forall d | d in running && d in progress {
        d.isComplete := true;
      }
    }

    /** pthread_join: waits for `d`, which completes before it ends; others may complete meanwhile. */
    method Join(d: ThreadData, progress: set<ThreadData>)
      requires d in running
      modifies `running, running`isComplete
      ensures running == old(running) - {d}
      ensures forall x :: x in old(running) ==> (x.isComplete <==> old(x.isComplete) || x in progress || x == d)
    {
      Progress(progress + {d});
      running := running - {d};
    }
  }

  ghost function At(nodes: seq<Node>, i: nat): Node? {
    if i < |nodes| then nodes[i] else null
  }

  /** Following `next` from `head` visits `nodes` and stops. */
  ghost predicate Links(head: Node?, nodes: seq<Node>)
    reads nodes
  {
    && head == At(nodes, 0)
    && forall i :: 0 <= i < |nodes| ==> nodes[i].next == At(nodes, i + 1)
  }

  /** No node and no thread occurs twice. */
  ghost predicate Distinct(nodes: seq<Node>) {
    forall i, j :: 0 <= i < j < |nodes| ==> nodes[i] != nodes[j] && nodes[i].data != nodes[j].data
  }

  ghost function Without(nodes: seq<Node>, n: nat): (r: seq<Node>)
    requires n < |nodes|
    ensures |r| == |nodes| - 1
    ensures forall i :: 0 <= i < |r| ==> r[i] == if i < n then nodes[i] else nodes[i + 1]
  {
    nodes[..n] + nodes[n + 1..]
  }

  lemma WithoutDistinct(nodes: seq<Node>, n: nat)
    requires n < |nodes| && Distinct(nodes)
    ensures Distinct(Without(nodes, n))
    ensures nodes[n] !in Without(nodes, n)
    ensures forall i :: 0 <= i < |nodes| - 1 ==> Without(nodes, n)[i].data != nodes[n].data
    ensures forall x :: x in Without(nodes, n) ==> x in nodes
  {
  }

  lemma SnocDistinct(nodes: seq<Node>, n: Node)
    requires Distinct(nodes) && n !in nodes && n.data !in DataOf(nodes)
    ensures Distinct(nodes + [n])
    ensures DataOf(nodes + [n]) == DataOf(nodes) + [n.data]
  {
    forall i | 0 <= i < |nodes| ensures nodes[i].data != n.data {
      assert nodes[i].data == DataOf(nodes)[i];
    }
  }

  ghost function NodeSet(nodes: seq<Node>): set<Node> {
    set n | n in nodes
  }

  ghost function DataOf(nodes: seq<Node>): (ds: seq<ThreadData>)
    ensures |ds| == |nodes| && forall i :: 0 <= i < |nodes| ==> ds[i] == nodes[i].data
  {
    seq(|nodes|, i requires 0 <= i < |nodes| => nodes[i].data)
  }

  lemma DataOfSnoc(nodes: seq<Node>, n: Node)
    ensures DataOf(nodes + [n]) == DataOf(nodes) + [n.data]
  {
  }

  lemma {:induction false} DataOfKept(nodes: seq<Node>, seen: seq<bool>)
    requires |seen| == |nodes|
    ensures DataOf(Kept(nodes, seen)) == Kept(DataOf(nodes), seen)
    ensures DataOf(Dropped(nodes, seen)) == Dropped(DataOf(nodes), seen)
    decreases |nodes|, 0
  {
    if nodes == [] {
    } else {
      DataOfKeptSnoc(nodes[..|nodes| - 1], seen[..|nodes| - 1], nodes[|nodes| - 1], seen[|nodes| - 1]);
      assert nodes == nodes[..|nodes| - 1] + [nodes[|nodes| - 1]];
      assert seen == seen[..|nodes| - 1] + [seen[|nodes| - 1]];
    }
  }

  lemma {:induction false} DataOfKeptSnoc(nodes: seq<Node>, seen: seq<bool>, n: Node, b: bool)
    requires |seen| == |nodes|
    ensures DataOf(Kept(nodes + [n], seen + [b])) == Kept(DataOf(nodes + [n]), seen + [b])
    ensures DataOf(Dropped(nodes + [n], seen + [b])) == Dropped(DataOf(nodes + [n]), seen + [b])
    decreases |nodes|, 1
  {
    hide DataOf;
    DataOfKept(nodes, seen);
    DataOfSnoc(nodes, n);
    KeptSnoc(nodes, seen, n, b);
    KeptSnoc(DataOf(nodes), seen, n.data, b);
    DataOfSnoc(Kept(nodes, seen), n);
    DataOfSnoc(Dropped(nodes, seen), n);
  }

  ghost function FlagsOf(nodes: seq<Node>): (fs: seq<bool>)
    reads DataOf(nodes)
    ensures |fs| == |nodes| && forall i :: 0 <= i < |nodes| ==> fs[i] == nodes[i].data.isComplete
  {
    var ds := DataOf(nodes);
    seq(|ds|, i requires 0 <= i < |ds| reads ds => ds[i].isComplete)
  }

  lemma NodeSetSnoc(nodes: seq<Node>, n: Node)
    ensures NodeSet(nodes + [n]) == NodeSet(nodes) + {n}
  {
  }

  lemma FlagsOfSnoc(nodes: seq<Node>, n: Node)
    ensures FlagsOf(nodes + [n]) == FlagsOf(nodes) + [n.data.isComplete]
  {
    hide DataOf;
  }

  /**
   Thread `d` has completed by the time a walk has found the flags `seen`: before the walk, or with
   the threads that `progress` lets complete before a check (even numbers) or during a join (odd).
   */
  ghost predicate CompletedBy(d: ThreadData, was: bool, progress: nat -> set<ThreadData>, seen: seq<bool>) {
    if seen == [] then was else
      var n := |seen| - 1;
      CompletedBy(d, was, progress, seen[..n]) || d in progress(2 * n) || (seen[n] && d in progress(2 * n + 1))
  }

  /** A walk over the threads `ds` with the flags `was` finds a flag set just if that thread has completed by then. */
  ghost predicate FoundRight(ds: seq<ThreadData>, was: seq<bool>, progress: nat -> set<ThreadData>, seen: seq<bool>) {
    && |seen| <= |ds| == |was|
    && forall j :: 0 <= j < |seen| ==>
         (seen[j] <==> CompletedBy(ds[j], was[j], progress, seen[..j]) || ds[j] in progress(2 * j))
  }

  lemma CompletedSnoc(d: ThreadData, was: bool, progress: nat -> set<ThreadData>, seen: seq<bool>, b: bool)
    ensures CompletedBy(d, was, progress, seen + [b]) <==>
      CompletedBy(d, was, progress, seen) || d in progress(2 * |seen|) || (b && d in progress(2 * |seen| + 1))
  {
    assert (seen + [b])[..|seen|] == seen;
  }

  lemma FoundSnoc(ds: seq<ThreadData>, was: seq<bool>, progress: nat -> set<ThreadData>, seen: seq<bool>, b: bool)
    requires FoundRight(ds, was, progress, seen) && |seen| < |ds|
    requires b <==> CompletedBy(ds[|seen|], was[|seen|], progress, seen) || ds[|seen|] in progress(2 * |seen|)
    ensures FoundRight(ds, was, progress, seen + [b])
  {
    hide CompletedBy;
    assert (seen + [b])[..|seen|] == seen;
    assert forall j :: 0 <= j < |seen| ==> (seen + [b])[..j] == seen[..j];
  }

  /** A completed thread stays so, and no thread completes but those of `progress`. */
  lemma {:induction false} CompletedOnlyBy(d: ThreadData, was: bool, progress: nat -> set<ThreadData>, seen: seq<bool>)
    ensures was ==> CompletedBy(d, was, progress, seen)
    ensures CompletedBy(d, was, progress, seen) ==> was || exists m :: 0 <= m < 2 * |seen| && d in progress(m)
    ensures (exists i :: 0 <= i < |seen| && d in progress(2 * i)) ==> CompletedBy(d, was, progress, seen)
  {
    if seen == [] {
    } else {
      CompletedOnlyBy(d, was, progress, seen[..|seen| - 1]);
    }
  }

  /**
   What a walk does with one thread: one complete before the walk, or let complete before its check, is
   found so, and one found complete was complete before the walk or has been let complete since.
   */
  lemma FoundBounds(ds: seq<ThreadData>, was: seq<bool>, progress: nat -> set<ThreadData>, seen: seq<bool>, j: nat)
    requires FoundRight(ds, was, progress, seen) && j < |seen|
    ensures was[j] || (exists i :: 0 <= i <= j && ds[j] in progress(2 * i)) ==> seen[j]
    ensures seen[j] ==> was[j] || exists m :: 0 <= m <= 2 * j && ds[j] in progress(m)
  {
    hide CompletedBy;
    var d := ds[j];
    CompletedOnlyBy(d, was[j], progress, seen[..j]);
    if i: nat :| i <= j && d in progress(2 * i) {
      assert i < j || d in progress(2 * j);
    }
    assert d in progress(2 * j) ==> exists m :: 0 <= m <= 2 * j && d in progress(m);
  }

  /**
   `seen` are the flags found on the first nodes of `all`, `was` the flags of all nodes before the
   walk. What was complete or is found complete is so; the threads still running are complete just if
   they have been let complete by now.
   */
  ghost predicate FlagsRight(all: seq<Node>, was: seq<bool>, progress: nat -> set<ThreadData>,
                             running: set<ThreadData>, seen: seq<bool>)
    reads DataOf(all)
  {
    var ds := DataOf(all);
    && |seen| <= |was| == |all|
    && FoundRight(ds, was, progress, seen)
    && (forall j :: 0 <= j < |all| ==> (was[j] ==> ds[j].isComplete))
    && (forall j :: 0 <= j < |seen| ==> (seen[j] ==> ds[j].isComplete))
    && (forall j :: 0 <= j < |all| && ds[j] in running ==>
          (ds[j].isComplete <==> CompletedBy(ds[j], was[j], progress, seen)))
  }

  /** The same in the middle of a turn: `complete` is found, `joined` is whether a join has let threads complete. */
  ghost predicate FlagsMid(all: seq<Node>, was: seq<bool>, progress: nat -> set<ThreadData>,
                           running: set<ThreadData>, seen: seq<bool>, complete: bool, joined: bool)
    reads DataOf(all)
  {
    var ds, n := DataOf(all), |seen|;
    && n < |was| == |all|
    && FoundRight(ds, was, progress, seen + [complete])
    && (forall j :: 0 <= j < |all| ==> (was[j] ==> ds[j].isComplete))
    && (forall j :: 0 <= j < n ==> (seen[j] ==> ds[j].isComplete))
    && (complete ==> ds[n].isComplete)
    && (forall j :: 0 <= j < |all| && ds[j] in running ==>
          ds[j].isComplete == (CompletedBy(ds[j], was[j], progress, seen) ||
                               ds[j] in progress(2 * n) || (joined && ds[j] in progress(2 * n + 1))))
  }

  lemma FlagsOn(all: seq<Node>, was: seq<bool>, progress: nat -> set<ThreadData>,
                running: set<ThreadData>, seen: seq<bool>, complete: bool)
    requires FlagsMid(all, was, progress, running, seen, complete, complete)
    ensures FlagsRight(all, was, progress, running, seen + [complete])
  {
    hide CompletedBy, FoundRight, DataOf;
    forall j | 0 <= j < |all| {
      CompletedSnoc(DataOf(all)[j], was[j], progress, seen, complete);
    }
  }

  lemma FlagsStart(nodes: seq<Node>, progress: nat -> set<ThreadData>, running: set<ThreadData>)
    ensures FlagsRight(nodes, FlagsOf(nodes), progress, running, [])
  {
  }

  /** The memory of nodes and of their threads' data. */
  ghost function Memory(nodes: seq<Node>): set<object> {
    if nodes == [] then {} else
      var n := |nodes| - 1;
      Memory(nodes[..n]) + {nodes[n], nodes[n].data}
  }

  ghost function ThreadsOf(nodes: seq<Node>): set<ThreadData> {
    if nodes == [] then {} else ThreadsOf(nodes[..|nodes| - 1]) + {nodes[|nodes| - 1].data}
  }

  lemma MemorySnoc(nodes: seq<Node>, n: Node)
    ensures Memory(nodes + [n]) == Memory(nodes) + {n, n.data}
    ensures ThreadsOf(nodes + [n]) == ThreadsOf(nodes) + {n.data}
  {
    assert (nodes + [n])[..|nodes|] == nodes;
  }

  /** What a method finds: threads reaped, memory freed, threads running. */
  datatype Ledger = Ledger(reaped: seq<ThreadData>, freed: set<object>, running: set<ThreadData>)

  /** The same after the threads of `nodes` were joined, and they and their nodes freed. */
  ghost function After(l: Ledger, nodes: seq<Node>): Ledger {
    Ledger(l.reaped + DataOf(nodes), l.freed + Memory(nodes), l.running - ThreadsOf(nodes))
  }

  lemma AfterNone(l: Ledger)
    ensures After(l, []) == l
  {
    assert After(l, []).reaped == l.reaped;
    assert After(l, []).freed == l.freed;
    assert After(l, []).running == l.running;
  }

  lemma AfterSnoc(l: Ledger, nodes: seq<Node>, n: Node)
    ensures After(l, nodes + [n]) ==
      Ledger(After(l, nodes).reaped + [n.data], After(l, nodes).freed + {n, n.data}, After(l, nodes).running - {n.data})
  {
    MemorySnoc(nodes, n);
    DataOfSnoc(nodes, n);
  }

  /** A walk over `all` has found the flags `seen` so far; the list is now `nodes`, the next node in it the k-th. */
  ghost predicate Walked(all: seq<Node>, seen: seq<bool>, nodes: seq<Node>, k: nat) {
    && |seen| <= |all|
    && nodes == Kept(all[..|seen|], seen) + all[|seen|..]
    && k == |Kept(all[..|seen|], seen)|
  }

  /** The nodes a walk has removed. */
  ghost function Removed(all: seq<Node>, seen: seq<bool>): seq<Node>
    requires |seen| <= |all|
  {
    Dropped(all[..|seen|], seen)
  }

  lemma WalkStart(all: seq<Node>)
    ensures Walked(all, [], all, 0) && Removed(all, []) == []
  {
    assert all[..0] == [] && [] + all[0..] == all;
  }

  lemma WalkAt(all: seq<Node>, seen: seq<bool>, nodes: seq<Node>, k: nat)
    requires Walked(all, seen, nodes, k)
    ensures k <= |nodes| && At(nodes, k) == At(all, |seen|)
  {
  }

  lemma WalkOn(all: seq<Node>, seen: seq<bool>, nodes: seq<Node>, k: nat, b: bool)
    requires Walked(all, seen, nodes, k) && |seen| < |all|
    ensures k < |nodes|
    ensures if b then Walked(all, seen + [b], Without(nodes, k), k) else Walked(all, seen + [b], nodes, k + 1)
    ensures Removed(all, seen + [b]) == if b then Removed(all, seen) + [all[|seen|]] else Removed(all, seen)
  {
    hide Kept, Dropped;
    var i := |seen|;
    assert all[..i + 1] == all[..i] + [all[i]] && all[i..] == [all[i]] + all[i + 1..];
    KeptSnoc(all[..i], seen, all[i], b);
    if b {
      assert Without(nodes, k) == Kept(all[..i], seen) + all[i + 1..];
    } else {
      assert nodes == (Kept(all[..i], seen) + [all[i]]) + all[i + 1..];
    }
  }

  lemma WalkEnd(all: seq<Node>, seen: seq<bool>, nodes: seq<Node>, k: nat)
    requires Walked(all, seen, nodes, k) && |seen| == |all|
    ensures nodes == Kept(all, seen) && DataOf(nodes) == Kept(DataOf(all), seen)
    ensures Removed(all, seen) == Dropped(all, seen) && DataOf(Dropped(all, seen)) == Dropped(DataOf(all), seen)
  {
    assert all[..|seen|] == all && Kept(all, seen) + [] == Kept(all, seen);
    DataOfKept(all, seen);
  }

  /** The global list as the thread that holds `listMutex` sees it. */
  class Server {
    var head: Node?
    const threads: Threads
    const heap: Heap
    ghost var nodes: seq<Node>
    /** The threads joined and freed, in that order. */
    ghost var reaped: seq<ThreadData>

    ghost predicate Owned(n: Node)
      reads this, threads, heap
    {
      n in heap.handedOut - heap.freed && n.data in heap.handedOut - heap.freed && n.data in threads.running
    }

    /** Acyclic, nothing dangling, every listed thread not yet joined, every reaped one freed. */
    ghost predicate Valid()
      reads this, nodes, threads, heap
    {
      && Links(head, nodes)
      && Distinct(nodes)
      && (forall i :: 0 <= i < |nodes| ==> Owned(nodes[i]))
      && (forall i :: 0 <= i < |reaped| ==> reaped[i] in heap.freed && reaped[i] !in threads.running)
    }

    ghost function View(): Registry<ThreadData>
      reads this
    {
      Registry(DataOf(nodes), reaped)
    }

    ghost function Books(): Ledger
      reads this, threads, heap
    {
      Ledger(reaped, heap.freed, threads.running)
    }

    constructor (threads: Threads, heap: Heap)
      ensures Valid() && View() == Registry([], [])
      ensures this.threads == threads && this.heap == heap
    {
      head := null;
      this.threads := threads;
      this.heap := heap;
      nodes := [];
      reaped := [];
    }

    /** The walk to the last node. */
    method Last() returns (current: Node)
      requires Links(head, nodes) && head != null
      ensures nodes != [] && current == nodes[|nodes| - 1]
    {
      current := head;
      ghost var i := 0;
      while current.next != null
        invariant 0 <= i < |nodes| && current == nodes[i]
        decreases |nodes| - i
      {
        current := current.next;
        i := i + 1;
      }
    }

    /** A thread that is not listed may be started, or its memory freed. */
    twostate lemma StaysValid(new d: ThreadData)
      requires old(Valid()) && unchanged(this) && forall n :: n in nodes ==> unchanged(n)
      requires d !in DataOf(nodes) && d !in reaped
      requires old(threads.running) <= threads.running <= old(threads.running) + {d}
      requires old(heap.freed) <= heap.freed <= old(heap.freed) + {d}
      requires old(heap.handedOut) <= heap.handedOut
      ensures Valid()
    {
      hide Distinct;
      forall i | 0 <= i < |nodes| ensures Owned(nodes[i]) && nodes[i].next == At(nodes, i + 1) {
        assert old(Owned(nodes[i])) && nodes[i] in nodes && nodes[i].data == DataOf(nodes)[i];
      }
    }

    /** Hooks a node to the end of the list. */
    method Hook(newNode: Node)
      requires Links(head, nodes) && newNode.next == null && newNode !in nodes && Distinct(nodes)
      modifies `head, `nodes, NodeSet(nodes)`next
      ensures nodes == old(nodes) + [newNode] && Links(head, nodes)
    {
      if head == null {
        head := newNode;
      } else {
        var current := Last();
        current.next := newNode;
      }
      nodes := nodes + [newNode];
    }

    /** insertNode: appends a node for a thread that was started and is not listed. */
    method InsertNode(data: ThreadData) returns (newNode: Node)
      requires Valid()
      requires data in threads.running && data in heap.handedOut - heap.freed && data !in DataOf(nodes)
      modifies this, NodeSet(nodes), heap`handedOut
      ensures Valid() && View() == Step(old(View()), Insert(data))
      ensures fresh(NodeSet(nodes) - NodeSet(old(nodes)))
      ensures nodes == old(nodes) + [newNode] && newNode.data == data && fresh(newNode)
      ensures heap.handedOut == old(heap.handedOut) + {newNode}
    {
      hide Distinct, DataOf, Links;
      newNode := new Node(data, heap);
      SnocDistinct(nodes, newNode);
      Hook(newNode);
    }

    /** Unlinks node `n`; `prev` is the node before it. */
    method Unlink(ghost n: nat, prev: Node?, current: Node) returns (next: Node?)
      requires Links(head, nodes) && Distinct(nodes)
      requires n < |nodes| && current == nodes[n] && prev == if n == 0 then null else nodes[n - 1]
      modifies `head, `nodes, NodeSet(nodes)`next
      ensures Links(head, nodes) && Distinct(nodes)
      ensures nodes == Without(old(nodes), n)
      ensures next == At(nodes, n)
    {
      WithoutDistinct(nodes, n);
      if prev == null {
        head := current.next;
        next := head;
      } else {
        prev.next := current.next;
        next := prev.next;
      }
      nodes := Without(nodes, n);
    }

    lemma LinksAt(k: nat)
      requires Valid()
      ensures head == At(nodes, 0)
      ensures k < |nodes| ==> nodes[k].next == At(nodes, k + 1) && Owned(nodes[k])
    {
    }

    /** Frees an unlinked node and the data of its thread, which has been joined. */
    method Release(current: Node)
      requires Links(head, nodes) && Distinct(nodes)
      requires forall i :: 0 <= i < |nodes| ==> Owned(nodes[i]) && nodes[i] != current && nodes[i].data != current.data
      requires forall i :: 0 <= i < |reaped| ==> reaped[i] in heap.freed && reaped[i] !in threads.running
      requires current in heap.handedOut - heap.freed && current.data in heap.handedOut - heap.freed
      requires current.data !in threads.running
      modifies `reaped, heap`freed
      ensures Valid()
      ensures reaped == old(reaped) + [current.data]
      ensures heap.freed == old(heap.freed) + {current, current.data}
    {
      hide Links, Distinct;
      heap.Free(current.data);
      heap.Free(current);
      reaped := reaped + [current.data];
    }

    /** The thread of node `n` has just been joined; nothing else has changed. */
    ghost predicate Joined(n: nat)
      reads this, nodes, threads, heap
    {
      && n < |nodes|
      && Links(head, nodes)
      && Distinct(nodes)
      && (forall i :: 0 <= i < |nodes| && i != n ==> Owned(nodes[i]))
      && nodes[n] in heap.handedOut - heap.freed && nodes[n].data in heap.handedOut - heap.freed
      && nodes[n].data !in threads.running
      && (forall i :: 0 <= i < |reaped| ==> reaped[i] in heap.freed && reaped[i] !in threads.running)
    }

    /** pthread_join on the thread of node `n`. */
    method JoinNode(ghost n: nat, current: Node, progress: set<ThreadData>)
      requires Valid()
      requires n < |nodes| && current == nodes[n]
      modifies threads`running, threads.running`isComplete
      ensures Joined(n)
      ensures threads.running == old(threads.running) - {current.data} && current.data in old(threads.running)
      ensures forall d :: d in old(threads.running) ==>
        (d.isComplete <==> old(d.isComplete) || d in progress || d == current.data)
    {
      hide Links;
      assert Owned(nodes[n]);
      threads.Join(current.data, progress);
    }

    /** Unlinks node `n`, whose thread has been joined, and frees both. */
    method RemoveNode(ghost n: nat, prev: Node?, current: Node) returns (next: Node?)
      requires Joined(n)
      requires current == nodes[n] && prev == if n == 0 then null else nodes[n - 1]
      modifies `head, `nodes, `reaped, NodeSet(nodes)`next, heap`freed
      ensures Valid()
      ensures nodes == Without(old(nodes), n) && NodeSet(nodes) <= NodeSet(old(nodes))
      ensures next == At(nodes, n)
      ensures reaped == old(reaped) + [current.data]
      ensures heap.freed == old(heap.freed) + {current, current.data}
    {
      hide Links, Distinct, DataOf, At;
      WithoutDistinct(nodes, n);
      next := Unlink(n, prev, current);
      Release(current);
    }

    /**
     What a walk over `all` has established: the list is intact, `seen` are the flags found so far,
     `was` the flags before the walk; the threads seen complete, and no other, have been joined and
     freed since `start`. `current` is the node to look at next and `prev` the one before it.
     */
    ghost predicate Walking(all: seq<Node>, was: seq<bool>, progress: nat -> set<ThreadData>, start: Ledger,
                            seen: seq<bool>, k: nat, prev: Node?, current: Node?)
      reads this, nodes, threads, heap, DataOf(all)
    {
      && Valid()
      && FlagsRight(all, was, progress, threads.running, seen)
      && Walked(all, seen, nodes, k)
      && Books() == After(start, Removed(all, seen))
      && k <= |nodes|
      && current == At(nodes, k)
      && prev == if k == 0 then null else nodes[k - 1]
    }

    lemma WalkingStart(progress: nat -> set<ThreadData>)
      requires Valid()
      ensures Walking(nodes, FlagsOf(nodes), progress, Books(), [], 0, null, head)
    {
      hide Links, Distinct;
      FlagsStart(nodes, progress, threads.running);
      WalkStart(nodes);
      LinksAt(0);
      AfterNone(Books());
    }

    lemma WalkingEnd(all: seq<Node>, was: seq<bool>, progress: nat -> set<ThreadData>, start: Ledger,
                     seen: seq<bool>, k: nat, prev: Node?)
      requires Walking(all, was, progress, start, seen, k, prev, null)
      ensures Valid() && FlagsRight(all, was, progress, threads.running, seen) && |seen| == |all|
      ensures View() == Step(Registry(DataOf(all), start.reaped), Remove(seen))
      ensures Books() == After(start, Dropped(all, seen)) && nodes == Kept(all, seen)
    {
      hide Links, Distinct, Kept, Dropped, Walked;
      WalkAt(all, seen, nodes, k);
      WalkEnd(all, seen, nodes, k);
    }

    /** The next threads complete, then the flag of the node at position |seen| of `all` is read. */
    method Check(current: Node, i: nat, progress: nat -> set<ThreadData>,
                 ghost all: seq<Node>, ghost was: seq<bool>, ghost seen: seq<bool>)
      returns (complete: bool)
      requires Valid() && FlagsRight(all, was, progress, threads.running, seen)
      requires i == |seen| < |all| && all[i] == current && current.data in threads.running
      modifies threads.running`isComplete
      ensures Valid() && FlagsMid(all, was, progress, threads.running, seen, complete, false)
    {
      hide Links, Distinct, CompletedBy;
      threads.Progress(progress(2 * i));
      complete := current.data.isComplete;
      FoundSnoc(DataOf(all), was, progress, seen, complete);
    }

    /** A thread found complete is joined; its node is unlinked and both are freed. */
    method ReapFound(ghost k: nat, prev: Node?, current: Node, i: nat, progress: nat -> set<ThreadData>,
                     ghost all: seq<Node>, ghost was: seq<bool>, ghost seen: seq<bool>)
      returns (next: Node?)
      requires Valid() && FlagsMid(all, was, progress, threads.running, seen, true, false)
      requires i == |seen| && all[i] == current
      requires k < |nodes| && nodes[k] == current && prev == if k == 0 then null else nodes[k - 1]
      modifies `head, `nodes, `reaped, NodeSet(nodes)`next
      modifies heap`freed, threads`running, threads.running`isComplete
      ensures Valid() && FlagsRight(all, was, progress, threads.running, seen + [true])
      ensures nodes == Without(old(nodes), k) && NodeSet(nodes) <= NodeSet(old(nodes))
      ensures next == At(nodes, k)
      ensures reaped == old(reaped) + [current.data]
      ensures heap.freed == old(heap.freed) + {current, current.data}
      ensures threads.running == old(threads.running) - {current.data}
    {
      hide Valid, Joined, CompletedBy, FoundRight, Without, At;
      JoinNode(k, current, progress(2 * i + 1));
      FlagsOn(all, was, progress, threads.running, seen, true);
      next := RemoveNode(k, prev, current);
    }

    /**
     One turn of the walk: some threads complete, then the flag is checked; if it is set, the node is
     removed, and threads complete while this waits for the thread to end.
     */
    method Visit(ghost k: nat, prev: Node?, current: Node, i: nat, progress: nat -> set<ThreadData>,
                 ghost all: seq<Node>, ghost was: seq<bool>, ghost start: Ledger, ghost seen: seq<bool>)
      returns (complete: bool, next: Node?)
      requires Walking(all, was, progress, start, seen, k, prev, current) && i == |seen|
      modifies `head, `nodes, `reaped, NodeSet(nodes)`next
      modifies heap`freed, threads`running, threads.running`isComplete
      ensures Walking(all, was, progress, start, seen + [complete], if complete then k else k + 1,
                      if complete then prev else current, next)
      ensures threads.running <= old(threads.running) && NodeSet(nodes) <= NodeSet(old(nodes))
      ensures |seen| < |all|
    {
      hide Links, Distinct, Without, DataOf, Kept, Dropped, Walked, Removed, After, FlagsRight, FlagsMid, Joined;
      LinksAt(k);
      WalkAt(all, seen, nodes, k);
      complete := Check(current, i, progress, all, was, seen);
      WalkOn(all, seen, nodes, k, complete);
      if complete {
        AfterSnoc(start, Removed(all, seen), current);
        next := ReapFound(k, prev, current, i, progress, all, was, seen);
      } else {
        FlagsOn(all, was, progress, threads.running, seen, false);
        next := current.next;
      }
    }

    /**
     removeCompletedThreads. `progress` gives the threads that complete before each check (even
     numbers) and during each join (odd); `seen[i]` is whether the i-th thread was found complete,
     which is so just if it was complete before or has been let complete by then. Only those are
     joined and freed, with their nodes.
     */
    method RemoveCompletedThreads(progress: nat -> set<ThreadData>) returns (ghost seen: seq<bool>)
      requires Valid()
      modifies `head, `nodes, `reaped, NodeSet(nodes)`next
      modifies heap`freed, threads`running, threads.running`isComplete
      ensures Valid()
      ensures |seen| == |old(nodes)| && View() == Step(old(View()), Remove(seen))
      ensures FoundRight(old(DataOf(nodes)), old(FlagsOf(nodes)), progress, seen)
      ensures FlagsRight(old(nodes), old(FlagsOf(nodes)), progress, threads.running, seen)
      ensures Books() == After(old(Books()), Dropped(old(nodes), seen)) && nodes == Kept(old(nodes), seen)
      ensures NodeSet(nodes) <= NodeSet(old(nodes)) && threads.running <= old(threads.running)
    {
      hide Walking, Valid, NodeSet, DataOf, After, Kept, Dropped, CompletedBy, FoundRight;
      ghost var all, was, start := nodes, FlagsOf(nodes), Books();
      ghost var k := 0;
      seen := [];
      var current := head;
      var prev: Node? := null;
      var i := 0;
      WalkingStart(progress);
      while current != null
        invariant i == |seen| <= |all|
        invariant Walking(all, was, progress, start, seen, k, prev, current)
        invariant threads.running <= old(threads.running) && NodeSet(nodes) <= NodeSet(all)
        decreases |all| - i
      {
        var complete, next := Visit(k, prev, current, i, progress, all, was, start, seen);
        if !complete {
          prev := current;
          k := k + 1;
        }
        current := next;
        seen := seen + [complete];
        i := i + 1;
      }
      WalkingEnd(all, was, progress, start, seen, k, prev);
    }

    /** do_shutdown, the join loop: every listed thread is joined, unlinked and freed. */
    method DoShutdown(progress: nat -> set<ThreadData>)
      requires Valid()
      modifies `head, `nodes, `reaped, NodeSet(nodes)`next
      modifies heap`freed, threads`running, threads.running`isComplete
      ensures Valid() && head == null
      ensures View() == Step(old(View()), Event<ThreadData>.Shutdown)
      ensures Books() == After(old(Books()), old(nodes))
    {
      hide Links, Distinct, DataOf, NodeSet, Owned, Memory;
      ghost var all, start := nodes, Books();
      var current := head;
      var prev: Node? := null;
      var i := 0;
      LinksAt(0);
      assert all[..0] == [] && all[0..] == all;
      AfterNone(start);
      while current != null
        invariant Valid() && current == At(nodes, 0) && prev == null
        invariant i <= |all| && nodes == all[i..] && Books() == After(start, all[..i])
        invariant threads.running <= old(threads.running) && NodeSet(nodes) <= NodeSet(all)
        decreases |all| - i
      {
        AfterSnoc(start, all[..i], current);
        assert all[..i + 1] == all[..i] + [current] && Without(nodes, 0) == all[i + 1..];
        JoinNode(0, current, progress(i));
        current := RemoveNode(0, prev, current);
        i := i + 1;
      }
      LinksAt(0);
      assert all[..i] == all && nodes == [];
      assert After(start, all).reaped == start.reaped + DataOf(all);
    }
  }
}
