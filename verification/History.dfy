/**
 Whole runs of the device: for every sequence of calls by any number of open files, the ring holds
 the last ten packets of the stream of accepted bytes.
 */
module History {
  import opened Machine
  import opened RingSpec
  import opened Packets
  import opened Device

  /** The event is a write that gets as far as appending its chunk. */
  predicate Appends(s: Sys, e: Event) {
    && e.WriteEvent?
    && !s.dev.locked
    && RefusedEarly(e.data, e.env) == None
    && Grows(s.dev, e.data, e.env)
  }

  /** The packet the event publishes, if any. */
  function PublishedBy(s: Sys, e: Event): (ps: seq<seq<byte>>) {
    if Appends(s, e) && EndsInNewline(Chunk(e.data)) then [Base(s.dev.pending, e.env.junk) + Chunk(e.data)] else []
  }

  /** The bytes whose acceptance the event reports to its caller. */
  function AcceptedBy(s: Sys, e: Event): seq<byte>
    requires DevOk(s.dev)
  {
    var outcome := Step(s, e).1;
    if e.WriteEvent? && outcome.Returned? && 0 <= outcome.ret <= |e.data| then e.data[..outcome.ret] else []
  }

  /** All packets published in a run, oldest first. */
  function Published(es: seq<Event>): seq<seq<byte>> {
    if es == [] then [] else
      Published(es[..|es| - 1]) + PublishedBy(State(es[..|es| - 1]), es[|es| - 1])
  }

  /** All bytes accepted in a run, in the order of the lock. */
  function Stream(es: seq<Event>): seq<byte> {
    if es == [] then [] else
      Stream(es[..|es| - 1]) + AcceptedBy(State(es[..|es| - 1]), es[|es| - 1])
  }

  lemma Snoc(es: seq<Event>, e: Event)
    ensures var s := State(es);
      && State(es + [e]) == Step(s, e).0
      && Published(es + [e]) == Published(es) + PublishedBy(s, e)
      && Stream(es + [e]) == Stream(es) + AcceptedBy(s, e)
  {
    assert (es + [e])[..|es|] == es;
  }

  lemma AcceptedIsChunk(s: Sys, e: Event)
    requires DevOk(s.dev)
    ensures AcceptedBy(s, e) == if Appends(s, e) then Chunk(e.data) else []
  {
  }

  // ----- Ring: the last ten packets -----

  lemma StepAddsPublished(s: Sys, e: Event)
    requires DevOk(s.dev)
    ensures Step(s, e).0.dev.ring == AddPackets(s.dev.ring, PublishedBy(s, e))
  {
    var ps := PublishedBy(s, e);
    assert ps != [] ==> ps[..|ps| - 1] == [];
  }

  lemma {:induction false} RingFromPublished(es: seq<Event>)
    ensures State(es).dev.ring == AddPackets(Init([]), Published(es))
  {
    if es == [] {
    } else {
      var before, e := es[..|es| - 1], es[|es| - 1];
      RingFromPublished(before);
      StepAddsPublished(State(before), e);
      AddPacketsConcat(Init([]), Published(before), PublishedBy(State(before), e));
    }
  }

  function Entries(ps: seq<seq<byte>>): (es: seq<Entry<seq<byte>>>)
    ensures |es| == |ps|
    ensures forall i :: 0 <= i < |es| ==> es[i] == PacketEntry(ps[i])
  {
    seq(|ps|, i requires 0 <= i < |ps| => PacketEntry(ps[i]))
  }

  lemma {:induction false} AddPacketsIsAfterAdds(ps: seq<seq<byte>>)
    ensures AddPackets(Init([]), ps) == AfterAdds([], Entries(ps))
  {
    if ps == [] {
    } else {
      AddPacketsIsAfterAdds(ps[..|ps| - 1]);
      assert Entries(ps)[..|ps| - 1] == Entries(ps[..|ps| - 1]);
    }
  }

  lemma LastTenPayloads(ps: seq<seq<byte>>)
    ensures Payloads(LastTen(Entries(ps))) == LastTen(ps)
  {
  }

  lemma {:induction false} AddPacketsClosedForm(ps: seq<seq<byte>>)
    ensures var n, r := |ps|, AddPackets(Init([]), ps);
      && Payloads(Live(r)) == LastTen(ps)
      && r.inOffs == n % CAPACITY
      && r.outOffs == (if n < CAPACITY then 0 else n % CAPACITY)
      && (r.full <==> n >= CAPACITY)
  {
    AddPacketsIsAfterAdds(ps);
    ClosedForm([], Entries(ps));
    LastTenPayloads(ps);
  }

  /** After any run the device holds the last ten packets published, with these indices. */
  lemma {:induction false} HoldsLastTen(es: seq<Event>)
    ensures var n, d := |Published(es)|, State(es).dev;
      && HeldPackets(d) == LastTen(Published(es))
      && d.ring.inOffs == n % CAPACITY
      && d.ring.outOffs == (if n < CAPACITY then 0 else n % CAPACITY)
      && (d.ring.full <==> n >= CAPACITY)
  {
    RingFromPublished(es);
    AddPacketsClosedForm(Published(es));
  }

  // ----- Conservation: published and pending bytes are the accepted stream -----

  /** A failed `krealloc` drops the pending bytes but not their count. */
  predicate LosesPending(s: Sys, e: Event) {
    && e.WriteEvent?
    && !s.dev.locked
    && RefusedEarly(e.data, e.env) == None
    && !Grows(s.dev, e.data, e.env)
    && PendingSize(s.dev.pending) > 0
  }

  /** No event of the run loses pending bytes. */
  predicate NoLoss(es: seq<Event>) {
    es == [] || (NoLoss(es[..|es| - 1]) && !LosesPending(State(es[..|es| - 1]), es[|es| - 1]))
  }

  lemma NoLossSnoc(es: seq<Event>, e: Event)
    ensures NoLoss(es + [e]) <==> NoLoss(es) && !LosesPending(State(es), e)
  {
    assert (es + [e])[..|es|] == es;
  }

  /** Where the pending bytes go in one step. */
  lemma StepPending(s: Sys, e: Event)
    requires DevOk(s.dev)
    ensures Step(s, e).0.dev.pending ==
      if Appends(s, e) then
        Held(if EndsInNewline(Chunk(e.data)) then [] else Base(s.dev.pending, e.env.junk) + Chunk(e.data))
      else if LosesPending(s, e) then Lost(PendingSize(s.dev.pending))
      else s.dev.pending
  {
  }

  lemma StepConservesLength(s: Sys, e: Event)
    requires DevOk(s.dev)
    ensures |Flatten(PublishedBy(s, e))| + PendingSize(Step(s, e).0.dev.pending) ==
            PendingSize(s.dev.pending) + |AcceptedBy(s, e)|
  {
    AcceptedIsChunk(s, e);
    StepPending(s, e);
    if Appends(s, e) {
      FlattenOne(Base(s.dev.pending, e.env.junk) + Chunk(e.data));
    }
  }

  /** No run creates or forgets a byte: published and pending bytes number the accepted ones. */
  lemma {:induction false} LengthConserved(es: seq<Event>)
    ensures |Flatten(Published(es))| + PendingSize(State(es).dev.pending) == |Stream(es)|
  {
    if es == [] {
    } else {
      var before, e := es[..|es| - 1], es[|es| - 1];
      assert es == before + [e];
      LengthConserved(before);
      Snoc(before, e);
      StepConservesLength(State(before), e);
      FlattenConcat(Published(before), PublishedBy(State(before), e));
    }
  }

  /** While no allocation loses bytes, the device is the stream, read as lines. */
  ghost predicate MirrorsStream(es: seq<Event>) {
    && Published(es) == Split(Stream(es)).lines
    && State(es).dev.pending == Held(Split(Stream(es)).tail)
  }

  lemma StepMirrors(s: Sys, e: Event, stream: seq<byte>)
    requires DevOk(s.dev) && !LosesPending(s, e)
    requires s.dev.pending == Held(Split(stream).tail)
    ensures Split(stream + AcceptedBy(s, e)).lines == Split(stream).lines + PublishedBy(s, e)
    ensures Step(s, e).0.dev.pending == Held(Split(stream + AcceptedBy(s, e)).tail)
  {
    AcceptedIsChunk(s, e);
    StepPending(s, e);
    if Appends(s, e) {
      SplitIsCut(stream);
      SplitResumes(stream, Chunk(e.data));
      SplitTailAndChunk(Split(stream).tail, e.data);
    } else {
      assert stream + [] == stream;
    }
  }

  lemma {:induction false} NoLossMirrors(es: seq<Event>)
    requires NoLoss(es)
    ensures MirrorsStream(es)
  {
    if es == [] {
    } else {
      var before, e := es[..|es| - 1], es[|es| - 1];
      assert es == before + [e];
      NoLossSnoc(before, e);
      assert MirrorsStream(before) by { NoLossMirrors(before); }
      StepMirrors(State(before), e, Stream(before));
      Snoc(before, e);
    }
  }

  /**
   The device as its users see it, for any interleaving of calls in which no `krealloc` failed:
   the live packets are the last ten lines of the accepted stream, the pending bytes are what
   follows the last newline, and every newline accepted published one packet.
   */
  lemma {:induction false} StreamRefinement(es: seq<Event>)
    requires NoLoss(es)
    ensures var d, stream := State(es).dev, Stream(es);
      && HeldPackets(d) == LastTen(Split(stream).lines)
      && d.pending == Held(Split(stream).tail)
      && Flatten(Published(es)) + d.pending.bytes == stream
      && |Published(es)| == CountNewlines(stream)
    ensures forall i :: 0 <= i < |Published(es)| ==> IsPacket(Published(es)[i])
  {
    NoLossMirrors(es);
    HoldsLastTen(es);
    SplitIsCut(Stream(es));
    LinesAreNewlines(Stream(es));
  }

  // ----- Conservation of content: exactly the runs without loss -----

  ghost predicate Conserves(es: seq<Event>) {
    var p := State(es).dev.pending;
    p.Held? && Flatten(Published(es)) + p.bytes == Stream(es)
  }

  /** The same call, with every byte of fresh memory equal to `b`. */
  function FillEvent(e: Event, b: byte): Event {
    if e.WriteEvent? then e.(env := e.env.(junk := (k: nat) => b)) else e
  }

  function Fill(es: seq<Event>, b: byte): (r: seq<Event>)
    ensures |r| == |es|
  {
    if es == [] then [] else Fill(es[..|es| - 1], b) + [FillEvent(es[|es| - 1], b)]
  }

  lemma StepFill(s: Sys, e: Event, b: byte)
    requires DevOk(s.dev)
    requires s.dev.pending.Held?
    ensures Step(s, FillEvent(e, b)) == Step(s, e)
    ensures PublishedBy(s, FillEvent(e, b)) == PublishedBy(s, e)
    ensures AcceptedBy(s, FillEvent(e, b)) == AcceptedBy(s, e)
    ensures LosesPending(s, FillEvent(e, b)) == LosesPending(s, e)
  {
    hide Read, FileOffset, FixedSizeLlseek, AddEntry, SizeAfterAdd, Chunk, DevOk;
  }

  /** Two runs the device cannot tell apart. */
  ghost predicate SameRun(a: seq<Event>, b: seq<Event>) {
    State(a) == State(b) && Stream(a) == Stream(b) && Published(a) == Published(b)
  }

  lemma SameRunSnoc(a: seq<Event>, x: Event, b: seq<Event>, y: Event)
    requires SameRun(a, b)
    requires Step(State(a), x) == Step(State(a), y)
    requires PublishedBy(State(a), x) == PublishedBy(State(a), y)
    requires AcceptedBy(State(a), x) == AcceptedBy(State(a), y)
    ensures SameRun(a + [x], b + [y])
  {
    Snoc(a, x);
    Snoc(b, y);
  }

  /** Fresh memory only shows after a loss. */
  lemma {:induction false} FillInvisible(es: seq<Event>, b: byte)
    requires NoLoss(es)
    ensures SameRun(Fill(es, b), es) && NoLoss(Fill(es, b))
  {
    if es == [] {
    } else {
      var before, e := es[..|es| - 1], es[|es| - 1];
      assert es == before + [e];
      NoLossSnoc(before, e);
      FillInvisible(before, b);
      FillOneMore(before, e, b);
    }
  }

  lemma {:induction false} FillOneMore(es: seq<Event>, e: Event, b: byte)
    requires NoLoss(es) && !LosesPending(State(es), e)
    requires SameRun(Fill(es, b), es) && NoLoss(Fill(es, b))
    ensures SameRun(Fill(es, b) + [FillEvent(e, b)], es + [e]) && NoLoss(Fill(es, b) + [FillEvent(e, b)])
  {
    assert State(es).dev.pending.Held? by { NoLossMirrors(es); }
    StepFill(State(es), e, b);
    SameRunSnoc(Fill(es, b), FillEvent(e, b), es, e);
    NoLossSnoc(Fill(es, b), FillEvent(e, b));
  }

  lemma {:induction false} FillConserves(es: seq<Event>, b: byte)
    requires NoLoss(es)
    ensures Conserves(Fill(es, b))
  {
    FillInvisible(es, b);
    StreamRefinement(es);
  }

  /**
   Byte `i` of the stream was lost: in what was published (`h`) or is pending (`p`), where it
   should be, `b` is, or nothing yet.
   */
  ghost predicate DamagedAt(h: seq<byte>, p: Pending, stream: seq<byte>, i: nat, b: byte) {
    && i < |stream| == |h| + PendingSize(p)
    && stream[i] != b
    && (i < |h| ==> h[i] == b)
    && (i >= |h| && p.Held? ==> p.bytes[i - |h|] == b)
  }

  ghost predicate Damaged(es: seq<Event>, i: nat, b: byte) {
    DamagedAt(Flatten(Published(es)), State(es).dev.pending, Stream(es), i, b)
  }

  lemma DamagedMeansLost(es: seq<Event>, i: nat, b: byte)
    requires Damaged(es, i, b)
    ensures !Conserves(es)
  {
    hide State, Published, Stream, Flatten;
  }

  lemma StepKeepsDamage(s: Sys, f: Event, h: seq<byte>, stream: seq<byte>, i: nat, b: byte)
    requires DevOk(s.dev) && f == FillEvent(f, b)
    requires DamagedAt(h, s.dev.pending, stream, i, b)
    ensures DamagedAt(h + Flatten(PublishedBy(s, f)), Step(s, f).0.dev.pending, stream + AcceptedBy(s, f), i, b)
  {
    AcceptedIsChunk(s, f);
    StepPending(s, f);
    if Appends(s, f) {
      var base := Base(s.dev.pending, f.env.junk);
      assert i >= |h| ==> base[i - |h|] == b;
      FlattenOne(base + Chunk(f.data));
      assert (h + (base + Chunk(f.data)))[i] == b;
    }
  }

  lemma StepDamages(s: Sys, f: Event, h: seq<byte>, stream: seq<byte>, b: byte)
    requires DevOk(s.dev) && LosesPending(s, f)
    requires |h| + PendingSize(s.dev.pending) == |stream| && stream[|h|] != b
    ensures DamagedAt(h + Flatten(PublishedBy(s, f)), Step(s, f).0.dev.pending, stream + AcceptedBy(s, f), |h|, b)
  {
    AcceptedIsChunk(s, f);
    StepPending(s, f);
  }

  lemma {:induction false} DamagedSnoc(es: seq<Event>, f: Event, i: nat, b: byte)
    requires var s := State(es);
      DamagedAt(Flatten(Published(es)) + Flatten(PublishedBy(s, f)), Step(s, f).0.dev.pending,
                Stream(es) + AcceptedBy(s, f), i, b)
    ensures Damaged(es + [f], i, b)
  {
    Snoc(es, f);
    FlattenConcat(Published(es), PublishedBy(State(es), f));
  }

  lemma {:induction false} FirstLoss(es: seq<Event>, f: Event) returns (b: byte, i: nat)
    requires NoLoss(es) && LosesPending(State(es), f)
    ensures Damaged(Fill(es, b) + [FillEvent(f, b)], i, b)
  {
    i := |Flatten(Published(es))|;
    assert |Flatten(Published(es))| + PendingSize(State(es).dev.pending) == |Stream(es)| by { LengthConserved(es); }
    b := if Stream(es)[i] == 0 then 1 else 0;
    assert SameRun(Fill(es, b), es) by { FillInvisible(es, b); }
    StepDamages(State(es), FillEvent(f, b), Flatten(Published(es)), Stream(es), b);
    DamagedSnoc(Fill(es, b), FillEvent(f, b), i, b);
  }

  lemma LaterStep(es: seq<Event>, f: Event, i: nat, b: byte)
    requires Damaged(es, i, b)
    ensures Damaged(es + [FillEvent(f, b)], i, b)
  {
    StepKeepsDamage(State(es), FillEvent(f, b), Flatten(Published(es)), Stream(es), i, b);
    DamagedSnoc(es, FillEvent(f, b), i, b);
  }

  ghost predicate SomeDamage(es: seq<Event>) {
    exists b: byte, i: nat :: Damaged(Fill(es, b), i, b)
  }

  lemma DamageOneMore(es: seq<Event>, e: Event)
    requires !NoLoss(es + [e])
    requires !NoLoss(es) ==> SomeDamage(es)
    ensures SomeDamage(es + [e])
  {
    NoLossSnoc(es, e);
    var b: byte, i: nat;
    if NoLoss(es) {
      b, i := FirstLoss(es, e);
    } else {
      b, i :| Damaged(Fill(es, b), i, b);
      LaterStep(Fill(es, b), e, i, b);
    }
    assert (es + [e])[..|es|] == es;
    assert Damaged(Fill(es + [e], b), i, b);
  }

  lemma {:induction false} SomeLossDamages(es: seq<Event>)
    requires !NoLoss(es)
    ensures SomeDamage(es)
  {
    var before, e := es[..|es| - 1], es[|es| - 1];
    assert before + [e] == es;
    if !NoLoss(before) {
      SomeLossDamages(before);
    }
    DamageOneMore(before, e);
  }

  ghost predicate ConservesWith(es: seq<Event>, b: byte) {
    Conserves(Fill(es, b))
  }

  lemma {:induction false} SomeLossShows(es: seq<Event>) returns (b: byte)
    requires !NoLoss(es)
    ensures !ConservesWith(es, b)
  {
    SomeLossDamages(es);
    var i: nat;
    b, i :| Damaged(Fill(es, b), i, b);
    DamagedMeansLost(Fill(es, b), i, b);
  }

  /**
   The published and pending bytes are the accepted stream, whatever byte fills fresh memory, if
   and only if no `krealloc` failed on a non-empty pending buffer.
   */
  lemma ContentConservedIff(es: seq<Event>)
    ensures (forall b: byte :: ConservesWith(es, b)) <==> NoLoss(es)
  {
    if NoLoss(es) {
      forall b: byte ensures ConservesWith(es, b) {
        FillConserves(es, b);
      }
    } else {
      var b := SomeLossShows(es);
    }
  }

  // ----- Memory -----

  /** The event is a write that gets a new block for the pending bytes. */
  predicate NeedsBlock(s: Sys, e: Event) {
    Appends(s, e) && (s.dev.pending.Lost? || s.dev.pending.bytes == [])
  }

  /**
   The event leaves a block behind that nothing uses any more: a `krealloc` failed, and the driver
   forgot the block it could not grow; or an empty write got a block for no bytes.
   */
  predicate Orphans(s: Sys, e: Event) {
    || (LosesPending(s, e) && s.dev.pending.Held?)
    || (Appends(s, e) && Chunk(e.data) == [] && PendingSize(s.dev.pending) == 0)
  }

  function CountOrphans(es: seq<Event>): nat {
    if es == [] then 0 else
      CountOrphans(es[..|es| - 1]) + if Orphans(State(es[..|es| - 1]), es[|es| - 1]) then 1 else 0
  }

  /**
   How many blocks are allocated: one for every packet ever published, evicted or not, one for the
   pending bytes if there are any, and those left behind.
   */
  function Blocks(es: seq<Event>): nat {
    var p := State(es).dev.pending;
    |Published(es)| + (if p.Held? && p.bytes != [] then 1 else 0) + CountOrphans(es)
  }

  /** A write that gets a new block adds one to the account; nothing else changes it. */
  lemma {:induction false} BlocksOneMore(es: seq<Event>, e: Event)
    ensures Blocks(es + [e]) == Blocks(es) + if NeedsBlock(State(es), e) then 1 else 0
  {
    hide State, Published, Step, Chunk, Stream;
    Snoc(es, e);
    StepPending(State(es), e);
    assert (es + [e])[..|es|] == es;
  }

  /** Without a failed `krealloc` and without empty writes nothing is left behind. */
  lemma {:induction false} NoOrphans(es: seq<Event>)
    requires NoLoss(es) && forall k :: 0 <= k < |es| && es[k].WriteEvent? ==> es[k].data != []
    ensures CountOrphans(es) == 0
  {
    hide State, Grows;
    if es != [] {
      NoOrphans(es[..|es| - 1]);
    }
  }

  lemma NoBlocksYet()
    ensures Blocks([]) == 0
  {
  }

  // ----- Resubmitting the remainder -----

  /** A caller that resubmits what a write did not take; it stops on an error. */
  function WriteOut(d: Dev, data: seq<byte>, env: WriteEnv): (d': Dev)
    requires DevOk(d)
    ensures DevOk(d')
    decreases |data|
  {
    if data == [] then d else
      WriteKeepsOk(d, data, env);
      var (d', ret) := Write(d, data, env);
      if 0 < ret <= |data| then WriteOut(d', data[ret..], env) else d'
  }

  /** Every call of `WriteOut` gets the memory it asks for. */
  predicate AllGranted(d: Dev, data: seq<byte>, env: WriteEnv)
    requires DevOk(d)
    decreases |data|
  {
    data == [] ||
    (RefusedEarly(data, env) == None && Grows(d, data, env) &&
     (WriteKeepsOk(d, data, env); AllGranted(Write(d, data, env).0, data[|Chunk(data)|..], env)))
  }

  function StoreOf(d: Dev): Store
    requires d.pending.Held?
  {
    Store(d.ring, d.pending.bytes)
  }

  /** On the device, resubmission does what `Submit` does: it takes all of `data`. */
  lemma {:induction false} WriteOutSubmits(d: Dev, data: seq<byte>, env: WriteEnv)
    requires DevOk(d) && d.pending.Held? && AllGranted(d, data, env)
    ensures WriteOut(d, data, env).pending.Held?
    ensures StoreOf(WriteOut(d, data, env)) == Submit(StoreOf(d), data)
    decreases |data|
  {
    if data == [] {
    } else {
      WriteKeepsOk(d, data, env);
      var d' := Write(d, data, env).0;
      assert StoreOf(d') == Accept(StoreOf(d), data);
      WriteOutSubmits(d', data[|Chunk(data)|..], env);
    }
  }

  /** A caller that writes out several buffers, one after the other. */
  function WriteOutAll(d: Dev, cuts: seq<seq<byte>>, env: WriteEnv): (d': Dev)
    requires DevOk(d)
    ensures DevOk(d')
  {
    if cuts == [] then d else WriteOut(WriteOutAll(d, cuts[..|cuts| - 1], env), cuts[|cuts| - 1], env)
  }

  predicate AllCutsGranted(d: Dev, cuts: seq<seq<byte>>, env: WriteEnv)
    requires DevOk(d)
  {
    cuts == [] ||
    (AllCutsGranted(d, cuts[..|cuts| - 1], env) &&
     AllGranted(WriteOutAll(d, cuts[..|cuts| - 1], env), cuts[|cuts| - 1], env))
  }

  lemma {:induction false} WriteOutAllSubmits(d: Dev, cuts: seq<seq<byte>>, env: WriteEnv)
    requires DevOk(d) && d.pending.Held? && AllCutsGranted(d, cuts, env)
    ensures WriteOutAll(d, cuts, env).pending.Held?
    ensures StoreOf(WriteOutAll(d, cuts, env)) == SubmitAll(StoreOf(d), cuts)
  {
    if cuts == [] {
    } else {
      hide WriteOut, AllGranted, Submit;
      WriteOutAllSubmits(d, cuts[..|cuts| - 1], env);
      WriteOutSubmits(WriteOutAll(d, cuts[..|cuts| - 1], env), cuts[|cuts| - 1], env);
    }
  }

  /**
   On the device: two callers that cut the same bytes in any two ways, each call getting its memory,
   leave the same packets, indices and pending bytes behind.
   */
  lemma {:induction false} DeviceChunkingIndependent(d: Dev, cuts1: seq<seq<byte>>, env1: WriteEnv,
                                                     cuts2: seq<seq<byte>>, env2: WriteEnv)
    requires DevOk(d) && d.pending.Held? && NoNewline(d.pending.bytes)
    requires Flatten(cuts1) == Flatten(cuts2)
    requires AllCutsGranted(d, cuts1, env1) && AllCutsGranted(d, cuts2, env2)
    ensures var d1, d2 := WriteOutAll(d, cuts1, env1), WriteOutAll(d, cuts2, env2);
      d1.pending.Held? && d2.pending.Held? && StoreOf(d1) == StoreOf(d2)
  {
    hide WriteOutAll, AllCutsGranted, Submit, SubmitAll;
    WriteOutAllSubmits(d, cuts1, env1);
    WriteOutAllSubmits(d, cuts2, env2);
    ChunkingIndependent(StoreOf(d), cuts1);
    ChunkingIndependent(StoreOf(d), cuts2);
  }
}
