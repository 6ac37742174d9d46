/** Any sequence of file operations, on any number of open files of one device, in the code's own form. */
module Session {
  import opened Machine
  import opened RingSpec
  import opened Packets
  import opened Device
  import opened History
  import opened Client
  import opened Slab
  import opened Driver

  predicate IsCall(c: Call, n: nat) {
    c.h < n && (c.WriteCall? ==> c.beyond < SIZE_MOD)
  }

  /** The files of one device, numbered as the state machine numbers them. */
  ghost predicate Opened(dev: AesdDev, files: seq<File>) {
    forall i :: 0 <= i < |files| ==> files[i].dev == dev && files[i].id == i
  }

  /**
   The device and its files are where the run `es` of the state machine ends; as many blocks are
   allocated as the account of the run says.
   */
  ghost predicate Reached(dev: AesdDev, files: seq<File>, es: seq<Event>)
    reads dev, dev.circBuffer, dev.circBuffer.entry, dev.slab, dev.devBuffer, Pointers(dev.circBuffer.entry[..]), files
  {
    && Opened(dev, files)
    && dev.Valid()
    && dev.Abs() == State(es).dev
    && |dev.slab.live| == Blocks(es)
    && forall i :: 0 <= i < |files| ==> files[i].fPos == Pos(State(es), i)
  }

  /** What a call does to its own file's system carries over to the run with all files. */
  lemma RunGoesOn(es: seq<Event>, e: Event, d: Dev, pos: int, r: Outcome)
    requires (OneFile(d, e.h, pos), r) == Step(OneFile(State(es).dev, e.h, Pos(State(es), e.h)), e)
    ensures State(es + [e]).dev == d && r == Step(State(es), e).1
    ensures Pos(State(es + [e]), e.h) == pos
    ensures forall h :: h != e.h ==> Pos(State(es + [e]), h) == Pos(State(es), h)
  {
    hide State, Step;
    StepIsLocal(State(es), e);
    Snoc(es, e);
    assert Pos(OneFile(d, e.h, pos), e.h) == pos;
  }

  lemma WaitingChangesNothing(es: seq<Event>, e: Event)
    requires State(es).dev.locked && (e.WriteEvent? ==> RefusedEarly(e.data, e.env) == None)
    ensures State(es + [e]) == State(es) && Step(State(es), e).1 == Blocked
    ensures Blocks(es + [e]) == Blocks(es)
  {
    hide State, Blocks;
    Snoc(es, e);
    BlocksOneMore(es, e);
  }

  /** The account of blocks, as a call that does not wait changes it. */
  lemma BlocksGoOn(es: seq<Event>, e: Event, none: bool)
    requires e.WriteEvent? ==> Step(State(es), e).1.Returned?
    requires none <==> State(es).dev.pending.Lost? || State(es).dev.pending.bytes == []
    ensures Blocks(es + [e]) ==
      Blocks(es) + if e.WriteEvent? && Step(State(es), e).1.ret >= 0 && none then 1 else 0
  {
    hide State, Blocks, SizeAfterAdd, AddEntry;
    BlocksOneMore(es, e);
  }

  /** A call that waits for a lock nobody releases: the event, without effect. */
  ghost method Wait(dev: AesdDev, files: seq<File>, c: Call, es: seq<Event>) returns (e: Event)
    requires Reached(dev, files, es) && Waits(c, dev.locked)
    ensures IsEventOf(e, c)
    ensures Blocked == Step(State(es), e).1 && Reached(dev, files, es + [e])
  {
    hide State, Step, Blocks;
    var none := (k: nat) => 0 as byte;
    e := match c
      case WriteCall(h, data, granted, faulted, grown, _, beyond) =>
        WriteEvent(h, data, WriteEnv(granted, faulted, grown, none, beyond))
      case ReadCall(h, count, uncopied) => ReadEvent(h, count, uncopied)
      case LlseekCall(h, offset, whence) => LlseekEvent(h, offset, whence)
      case SeekToCall(h, cmd, cmdOffset, past) => SeekToEvent(h, cmd, cmdOffset, past);
    WaitingChangesNothing(es, e);
  }

  /** A call other than a write; the device's memory stays as it is. */
  method PerformOther(file: File, c: Call) returns (ghost e: Event, r: Outcome)
    requires file.dev.Valid() && !file.dev.locked && !c.WriteCall? && c.h == file.id
    modifies file`fPos, file.dev`locked
    ensures file.dev.Valid() && IsEventOf(e, c) && (file.System(), r) == Step(old(file.System()), e)
  {
    hide Step, LoadAll, Load, SlotsOk, DevOk, OneFile, Rotated, WellFormed;
    var dev := file.dev;
    var ret := 0;
    var got: seq<byte> := [];
    match c {
      case ReadCall(h, count, uncopied) =>
        var buf := new byte[count];
        dev.AbsStays();
        ret, got := AesdRead(file, buf, count, uncopied);
        e := ReadEvent(h, count, uncopied);
      case LlseekCall(h, offset, whence) =>
        ret := AesdLlseek(file, offset, whence);
        e := LlseekEvent(h, offset, whence);
      case SeekToCall(h, cmd, cmdOffset, past) =>
        ret := AesdFileOffset(file, cmd, cmdOffset, past);
        e := SeekToEvent(h, cmd, cmdOffset, past);
    }
    r := Returned(ret, got);
  }

  /** A write; of the allocations it keeps at most one more. */
  method PerformWrite(file: File, c: Call) returns (ghost e: Event, r: Outcome)
    requires file.dev.Valid() && c.WriteCall? && c.h == file.id && c.beyond < SIZE_MOD
    requires !Waits(c, file.dev.locked)
    modifies file`fPos, file.dev, file.dev.circBuffer, file.dev.circBuffer.entry, file.dev.slab
    modifies if file.dev.devBuffer != null then {file.dev.devBuffer} else {}
    ensures file.dev.Valid() && IsEventOf(e, c) && (file.System(), r) == Step(old(file.System()), e)
    ensures r.Returned?
    ensures |file.dev.slab.live| ==
            |old(file.dev.slab.live)| + (if r.ret >= 0 && old(file.dev.HasNoBlock()) then 1 else 0)
    ensures file.dev.devBuffer == null || file.dev.devBuffer == old(file.dev.devBuffer) || fresh(file.dev.devBuffer)
  {
    hide Step, LoadAll, Load, SlotsOk, DevOk, OneFile, Rotated, WellFormed;
    var buf := new byte[|c.data|](i requires 0 <= i < |c.data| => c.data[i]);
    assert buf[..|c.data|] == c.data;
    file.dev.AbsStays();
    var ret, junk := AesdWrite(file, buf, |c.data|, c.granted, c.faulted, c.grown, c.slack, c.beyond);
    e := WriteEvent(c.h, c.data, WriteEnv(c.granted, c.faulted, c.grown, junk, c.beyond));
    r := Returned(ret, []);
  }

  /** Runs one call that does not have to wait. User buffers are fresh arrays. */
  method Perform(dev: AesdDev, files: seq<File>, c: Call, ghost es: seq<Event>)
    returns (ghost e: Event, r: Outcome)
    requires Reached(dev, files, es) && IsCall(c, |files|) && !Waits(c, dev.locked)
    modifies dev, dev.circBuffer, dev.circBuffer.entry, dev.slab, files
    modifies if dev.devBuffer != null then {dev.devBuffer} else {}
    ensures IsEventOf(e, c)
    ensures r == Step(State(es), e).1
    ensures Reached(dev, files, es + [e])
    ensures dev.devBuffer == null || dev.devBuffer == old(dev.devBuffer) || fresh(dev.devBuffer)
  {
    hide State, Step, LoadAll, Load, SlotsOk, DevOk, OneFile, Rotated, WellFormed, Blocks, AesdDev.HasNoBlock;
    ghost var none := dev.HasNoBlock();
    dev.NoBlockAbs();
    var file := files[c.h];
    assert file.System() == OneFile(State(es).dev, c.h, Pos(State(es), c.h));
    if c.WriteCall? {
      e, r := PerformWrite(file, c);
    } else {
      e, r := PerformOther(file, c);
    }
    RunGoesOn(es, e, dev.Abs(), file.fPos, r);
    BlocksGoOn(es, e, none);
  }

  /** A device just initialised, with `n` files open. */
  method Boot(n: nat) returns (dev: AesdDev, files: seq<File>)
    ensures fresh(dev) && fresh(dev.circBuffer) && fresh(dev.circBuffer.entry) && fresh(dev.slab)
    ensures dev.devBuffer == null && fresh(set f | f in files)
    ensures |files| == n && Reached(dev, files, [])
  {
    hide Step, LoadAll, Load, SlotsOk, DevOk, Blocks;
    NoBlocksYet();
    var slab := new Slab();
    dev := new AesdDev(slab);
    files := [];
    for i := 0 to n
      invariant |files| == i && Reached(dev, files, []) && fresh(set f | f in files) && dev.devBuffer == null
    {
      label Before:
      var file := new File(dev, i);
      dev.AbsStays@Before();
      files := files + [file];
    }
  }

  lemma ReachedHolds(dev: AesdDev, files: seq<File>, es: seq<Event>)
    requires Reached(dev, files, es) && NoLoss(es)
    ensures HeldPackets(dev.Abs()) == LastTen(Split(Stream(es)).lines)
  {
    hide State, NoLoss, Stream;
    StreamRefinement(es);
  }

  /**
   Any calls on any files of a device in a reachable state, one after the other: buffers, slots,
   indices, lock and positions end where the run of the state machine ends, and each call returns
   what its step returns. So every theorem about runs is one about the code's own form; the last
   clause is the stream theorem.
   */
  method Serve(dev: AesdDev, files: seq<File>, calls: seq<Call>, ghost before: seq<Event>)
    returns (ghost es: seq<Event>, rs: seq<Outcome>)
    requires Reached(dev, files, before)
    requires forall k :: 0 <= k < |calls| ==> IsCall(calls[k], |files|)
    modifies dev, dev.circBuffer, dev.circBuffer.entry, dev.slab, files
    modifies if dev.devBuffer != null then {dev.devBuffer} else {}
    ensures |es| == |rs| == |calls|
    ensures forall k :: 0 <= k < |calls| ==>
      IsEventOf(es[k], calls[k]) && rs[k] == Step(State(before + es[..k]), es[k]).1
    ensures Reached(dev, files, before + es)
    ensures NoLoss(before + es) ==> HeldPackets(dev.Abs()) == LastTen(Split(Stream(before + es)).lines)
  {
    hide State, Step, NoLoss, Stream, IsEventOf, Reached;
    es, rs := [], [];
    assert before + es == before;
    for k := 0 to |calls|
      invariant |es| == |rs| == k && Reached(dev, files, before + es)
      invariant dev.devBuffer == null || dev.devBuffer == old(dev.devBuffer) || fresh(dev.devBuffer)
      invariant forall j :: 0 <= j < k ==>
        IsEventOf(es[j], calls[j]) && rs[j] == Step(State(before + es[..j]), es[j]).1
    {
      ghost var e;
      var r := Blocked;
      if Waits(calls[k], dev.locked) {
        e := Wait(dev, files, calls[k], before + es);
      } else {
        e, r := Perform(dev, files, calls[k], before + es);
      }
      assert (es + [e])[..k] == es && before + (es + [e]) == before + es + [e];
      assert forall j :: 0 <= j < k ==> (es + [e])[..j] == es[..j];
      es, rs := es + [e], rs + [r];
    }
    if NoLoss(before + es) {
      ReachedHolds(dev, files, before + es);
    }
  }

  /**
   What is left of a device and its files once the module is unloaded after the run `es`: slots,
   indices, counts, lock and positions as the run left them; the buffer of every live packet freed
   and no other, so a pending one, those of evicted packets and those left behind stay allocated.
   */
  ghost predicate Unloaded(dev: AesdDev, files: seq<File>, es: seq<Event>)
    reads dev, dev.circBuffer, dev.circBuffer.entry, dev.slab, Pointers(dev.circBuffer.entry[..]), files
  {
    var c, d := dev.circBuffer, State(es).dev;
    && Opened(dev, files)
    && (forall i :: 0 <= i < |files| ==> files[i].fPos == Pos(State(es), i))
    && c.Valid()
    && LoadAll(c.entry[..]) == d.ring.entry
    && c.inOffs as nat == |Published(es)| % CAPACITY
    && c.outOffs as nat == d.ring.outOffs && c.full == d.ring.full && c.size == d.size
    && dev.locked == d.locked && dev.bufferSize == PendingSize(d.pending)
    && (forall k :: 0 <= k < CAPACITY && Used(c.View(), k) ==>
          c.entry[k].buffptr != null && c.entry[k].buffptr !in dev.slab.live)
    && |dev.slab.live| + |HeldPackets(d)| == Blocks(es)
    && (dev.bufferSize > 0 && dev.devBuffer != null ==> dev.devBuffer in dev.slab.live)
  }

  method Unload(dev: AesdDev, files: seq<File>, ghost es: seq<Event>)
    requires Reached(dev, files, es)
    modifies dev.slab
    ensures Unloaded(dev, files, es)
  {
    hide State, Published, LoadAll, Load, DevOk, WellFormed, Rotated, Blocks;
    HoldsLastTen(es);
    assert PendingSize(dev.Pending()) == dev.bufferSize;
    AesdCleanup(dev);
    dev.LoadsStay();
  }

  /** What the calls and their answers say about the answers, and about where the files are. */
  lemma {:induction false} ClientsKnow(files: seq<File>, calls: seq<Call>, rs: seq<Outcome>, es: seq<Event>)
    requires Answers(calls, rs, es)
    requires forall i :: 0 <= i < |files| ==> files[i].fPos == Pos(State(es), i)
    ensures forall k :: 0 <= k < |calls| ==> Explained(calls, rs, k)
    ensures forall i :: 0 <= i < |files| && Certain(calls, rs, i) ==> files[i].fPos == Position(calls, rs, i)
  {
    hide Answers, State, Explained, Certain, Position, Pos;
    AnswersPrefix(calls, rs, es, 0);
    forall k | 0 <= k < |calls| {
      AllExplained(calls, rs, es, k);
    }
    forall i | 0 <= i < |files| && Certain(calls, rs, i) ensures files[i].fPos == Position(calls, rs, i) {
      PositionKnown(calls, rs, es, i);
    }
  }

  /** The blocks that are left once the live packets' are freed. */
  lemma {:induction false} MemoryLeft(left: nat, calls: seq<Call>, rs: seq<Outcome>, es: seq<Event>)
    requires Answers(calls, rs, es) && Stored(calls, rs) && NoneEmpty(calls)
    requires left + |HeldPackets(State(es).dev)| == Blocks(es)
    ensures var sent := Split(Sent(calls, rs));
      left == |sent.lines| - |LastTen(sent.lines)| + (if sent.tail == [] then 0 else 1)
  {
    hide State, Answers, Stored, NoneEmpty, Sent, Split, Blocks, Stream, NoLoss, HeldPackets;
    MemoryTaken(calls, rs, es);
    StoredNoLoss(calls, rs, es);
    SentIsStream(calls, rs, es);
    HoldsLines(es);
  }

  /**
   From loading the module to unloading it, with `n` files opened at the start: the answers are those
   of a run, `Unloaded` says what is left, and, without looking at the device, every answer is the one
   that the calls and answers before it demand, and every file is where its own calls have moved it.
   If nothing was lost and every write brought bytes, what stays allocated is one block for every line
   evicted and one for the bytes after the last newline.
   */
  method Lifetime(n: nat, calls: seq<Call>)
    returns (dev: AesdDev, files: seq<File>, ghost es: seq<Event>, rs: seq<Outcome>)
    requires forall k :: 0 <= k < |calls| ==> IsCall(calls[k], n)
    ensures |rs| == |calls| && |files| == n && Answers(calls, rs, es)
    ensures Unloaded(dev, files, es)
    ensures forall k :: 0 <= k < |calls| ==> Explained(calls, rs, k)
    ensures forall i :: 0 <= i < n && Certain(calls, rs, i) ==> files[i].fPos == Position(calls, rs, i)
    ensures Stored(calls, rs) && NoneEmpty(calls) ==>
      var sent := Split(Sent(calls, rs));
      |dev.slab.live| == |sent.lines| - |LastTen(sent.lines)| + (if sent.tail == [] then 0 else 1)
  {
    hide State, Step, IsEventOf, NoLoss, Stream, Reached, Unloaded, Explained, Certain, Position;
    hide Stored, NoneEmpty, Blocks, Sent, Split, HeldPackets;
    dev, files := Boot(n);
    es, rs := Serve(dev, files, calls, []);
    assert [] + es == es;
    assert forall k :: 0 <= k < |calls| ==> [] + es[..k] == es[..k];
    Unload(dev, files, es);
    LeftBehind(dev, files, es);
    ClientsKnow(files, calls, rs, es);
    if Stored(calls, rs) && NoneEmpty(calls) {
      MemoryLeft(|dev.slab.live|, calls, rs, es);
    }
  }

  lemma LeftBehind(dev: AesdDev, files: seq<File>, es: seq<Event>)
    requires Unloaded(dev, files, es)
    ensures forall i :: 0 <= i < |files| ==> files[i].fPos == Pos(State(es), i)
    ensures |dev.slab.live| + |HeldPackets(State(es).dev)| == Blocks(es)
  {
  }
}
