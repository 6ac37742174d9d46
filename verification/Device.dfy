/**
 The aesdchar device as a state machine: what each file operation does to the packets held, the
 pending bytes, the `size` field, the lock and the caller's file position. Whatever the driver
 gets from outside (allocations, user copies, memory it does not own) comes in with the event.
 */
module Device {
  import opened Machine
  import opened RingSpec
  import opened Packets

  /**
   The pending packet. `Lost` is the state after a failed `krealloc`: the buffer pointer is NULL
   while `buffer_size` still counts the bytes that were in it.
   */
  datatype Pending = Held(bytes: seq<byte>) | Lost(count: nat)

  datatype Dev = Dev(ring: Ring<seq<byte>>, size: nat, pending: Pending, locked: bool)

  function PendingSize(p: Pending): nat {
    if p.Held? then |p.bytes| else p.count
  }

  predicate EntryOk(e: Entry<seq<byte>>) {
    |e.buffptr| == e.size <= MAX_KMALLOC
  }

  /** Slot `k` holds a packet. */
  predicate Used<P>(r: Ring<P>, k: nat) {
    r.full || k < r.inOffs
  }

  /** Holds initially and is kept by every operation. */
  ghost predicate DevOk(d: Dev) {
    && WellFormed(d.ring, [])
    && d.size < SIZE_MOD
    && (forall k :: 0 <= k < CAPACITY ==> EntryOk(d.ring.entry[k]))
    && (forall k :: 0 <= k < CAPACITY && Used(d.ring, k) ==> d.ring.entry[k].size > 0)
    && PendingSize(d.pending) <= MAX_KMALLOC
    && (d.pending.Lost? ==> d.pending.count > 0)
  }

  /** aesd_init_module: everything zero. */
  function InitDev(): (d: Dev)
    ensures DevOk(d)
  {
    Dev(Init([]), 0, Held([]), false)
  }

  // ----- write -----

  /**
   What a write meets: whether the copy of the user's data gets memory (`granted`), whether
   copying from the user fails (`faulted`), whether the pending buffer gets memory (`grown`),
   what fresh memory contains (`junk`), and the foreign word `SizeAfterAdd` may read.
   */
  datatype WriteEnv = WriteEnv(granted: bool, faulted: bool, grown: bool, junk: nat -> byte, beyond: nat)

  /** The return value of a write that gives up before it asks for the lock, else None. */
  function RefusedEarly(data: seq<byte>, env: WriteEnv): Option<int> {
    if !env.granted || |data| > MAX_KMALLOC then Some(-ENOMEM)
    else if env.faulted && data != [] then Some(-EFAULT)
    else None
  }

  /** The pending buffer gets memory for the chunk. */
  predicate Grows(d: Dev, data: seq<byte>, env: WriteEnv) {
    env.grown && PendingSize(d.pending) + |Chunk(data)| <= MAX_KMALLOC
  }

  /** The bytes before the chunk: those held, or whatever fresh memory shows in their place. */
  function Base(p: Pending, junk: nat -> byte): (b: seq<byte>)
    ensures |b| == PendingSize(p)
  {
    if p.Held? then p.bytes else seq(p.count, junk)
  }

  function Write(d: Dev, data: seq<byte>, env: WriteEnv): (r: (Dev, int))
    requires DevOk(d)
  {
    if RefusedEarly(data, env).Some? then (d, RefusedEarly(data, env).value)
    else if !Grows(d, data, env) then
      (if PendingSize(d.pending) == 0 then d else d.(pending := Lost(PendingSize(d.pending))), -ENOMEM)
    else
      var chunk := Chunk(data);
      var st := Accept(Store(d.ring, Base(d.pending, env.junk)), data);
      var size := if EndsInNewline(chunk)
                  then SizeAfterAdd(d.ring, d.size, PendingSize(d.pending) + |chunk|, env.beyond)
                  else d.size;
      (Dev(st.ring, size, Held(st.pending), d.locked), |chunk|)
  }

  /** The ways a write can go, spelled out. */
  lemma WriteCases(d: Dev, data: seq<byte>, env: WriteEnv)
    requires DevOk(d)
    ensures RefusedEarly(data, env).Some? ==> Write(d, data, env) == (d, RefusedEarly(data, env).value)
    ensures RefusedEarly(data, env) == None && !Grows(d, data, env) ==>
      Write(d, data, env) ==
      (d.(pending := if PendingSize(d.pending) == 0 then Held([]) else Lost(PendingSize(d.pending))), -ENOMEM)
    ensures RefusedEarly(data, env) == None && Grows(d, data, env) ==>
      var packet := Base(d.pending, env.junk) + Chunk(data);
      Write(d, data, env) ==
      (if EndsInNewline(Chunk(data)) then
         Dev(AddEntry(d.ring, PacketEntry(packet)),
             SizeAfterAdd(d.ring, d.size, |packet|, env.beyond), Held([]), d.locked)
       else d.(pending := Held(packet)),
       |Chunk(data)|)
  {
  }

  lemma AddKeepsOk(d: Dev, packet: seq<byte>, size: nat)
    requires DevOk(d) && 0 < |packet| <= MAX_KMALLOC && size < SIZE_MOD
    ensures DevOk(Dev(AddEntry(d.ring, PacketEntry(packet)), size, Held([]), d.locked))
  {
    AddEntryPushes(d.ring, [], PacketEntry(packet));
  }

  lemma WriteKeepsOk(d: Dev, data: seq<byte>, env: WriteEnv)
    requires DevOk(d)
    ensures DevOk(Write(d, data, env).0)
  {
    if RefusedEarly(data, env) == None && Grows(d, data, env) && EndsInNewline(Chunk(data)) {
      AddKeepsOk(d, Base(d.pending, env.junk) + Chunk(data), Write(d, data, env).0.size);
    }
  }

  // ----- read -----

  /**
   aesd_read: the return value and the bytes that reach the user. `uncopied` is how many bytes
   `copy_to_user` would leave behind.
   */
  function Read(d: Dev, pos: int, count: nat, uncopied: nat): (r: (int, seq<byte>))
    requires DevOk(d)
  {
    match Find(Rotated(d.ring), ToSize(pos))
    case None => (0, [])
    case Some(hit) =>
      FindInRange(d, ToSize(pos));
      var e := Rotated(d.ring)[hit.index];
      var n := Min(e.size - hit.offset, count);
      var left := Min(uncopied, n);
      (if left > 0 then -EFAULT else n, e.buffptr[hit.offset..hit.offset + n - left])
  }

  /** The bytes of the live packets, oldest first: what the device file reads as. */
  function Contents(d: Dev): seq<byte>
    requires InBounds(d.ring)
  {
    Flatten(HeldPackets(d))
  }

  /** The live packets, oldest first. */
  function HeldPackets(d: Dev): (ps: seq<seq<byte>>)
    requires InBounds(d.ring)
    ensures |ps| == Count(d.ring)
  {
    Payloads(Live(d.ring))
  }

  function Payloads(es: seq<Entry<seq<byte>>>): (ps: seq<seq<byte>>)
    ensures |ps| == |es|
    ensures forall i :: 0 <= i < |es| ==> ps[i] == es[i].buffptr
  {
    seq(|es|, i requires 0 <= i < |es| => es[i].buffptr)
  }

  lemma {:induction false} PayloadsTotal(es: seq<Entry<seq<byte>>>)
    requires forall i :: 0 <= i < |es| ==> EntryOk(es[i])
    ensures |Flatten(Payloads(es))| == Total(es)
  {
    if es == [] {
    } else {
      PayloadsTotal(es[..|es| - 1]);
      assert Payloads(es)[..|es| - 1] == Payloads(es[..|es| - 1]);
    }
  }

  lemma LiveOk(d: Dev)
    requires DevOk(d)
    ensures forall i :: 0 <= i < Count(d.ring) ==> EntryOk(Live(d.ring)[i]) && Live(d.ring)[i].size > 0
    ensures |Contents(d)| == Total(Live(d.ring)) == Total(Rotated(d.ring)) <= CAPACITY * MAX_KMALLOC
  {
    forall i | 0 <= i < Count(d.ring) ensures EntryOk(Live(d.ring)[i]) && Live(d.ring)[i].size > 0 {
      if !d.ring.full {
        assert Live(d.ring)[i] == d.ring.entry[i];
      }
    }
    PayloadsTotal(Live(d.ring));
    RotatedIsLive(d.ring, []);
    TotalBound(Rotated(d.ring), MAX_KMALLOC);
  }

  lemma FindInRange(d: Dev, off: nat)
    requires DevOk(d)
    ensures Find(Rotated(d.ring), off).Some? <==> off < |Contents(d)|
    ensures Find(Rotated(d.ring), off).Some? ==>
      var hit := Find(Rotated(d.ring), off).value;
      hit.index < Count(d.ring) && IsHit(Live(d.ring), off, hit)
      && Rotated(d.ring)[hit.index] == Live(d.ring)[hit.index] && EntryOk(Live(d.ring)[hit.index])
  {
    LiveOk(d);
    FindOnRing(d.ring, [], off);
    FindExact(Live(d.ring), off);
  }

  // ----- seek -----

  datatype Whence = SeekSet | SeekCur | SeekEnd | SeekOther

  /** The kernel's `fixed_size_llseek`: the new position, or a negative errno. */
  function FixedSizeLlseek(pos: int, offset: int, whence: Whence, size: int): int {
    var target := match whence
      case SeekSet => offset
      case SeekCur => pos + offset
      case SeekEnd => size + offset
      case SeekOther => -1;
    if whence.SeekCur? && offset == 0 then pos
    else if target < 0 || target > size then -EINVAL
    else target
  }

  /**
   aesd_file_offset: the new position, or None for -EINVAL. Commands count physical slots from
   slot 0; number 10 passes the check and reads one entry past the array (`past`, which in the
   layout of the struct is its field `size`).
   */
  function FileOffset<P>(r: Ring<P>, cmd: nat, offset: nat, past: nat): Option<nat>
    requires InBounds(r)
  {
    if cmd > CAPACITY then None
    else if offset > (if cmd == CAPACITY then past else r.entry[cmd].size) then None
    else Some(Total(r.entry[..cmd]) + offset)
  }

  // ----- the system: one device, any number of open files -----

  /** Files are numbered; one that has not moved yet is at position 0. */
  datatype Sys = Sys(dev: Dev, pos: map<nat, int>)

  function Pos(s: Sys, h: nat): int {
    if h in s.pos then s.pos[h] else 0
  }

  datatype Event =
    | WriteEvent(h: nat, data: seq<byte>, env: WriteEnv)
    | ReadEvent(h: nat, count: nat, uncopied: nat)
    | LlseekEvent(h: nat, offset: int, whence: Whence)
    | SeekToEvent(h: nat, cmd: nat, cmdOffset: nat, past: nat)

  /** What a call gives its caller. `Blocked` waits for a lock that is never released. */
  datatype Outcome = Blocked | Returned(ret: int, bytes: seq<byte>)

  function Step(s: Sys, e: Event): (r: (Sys, Outcome))
    requires DevOk(s.dev)
    ensures DevOk(r.0.dev)
  {
    var d := s.dev;
    match e
    case WriteEvent(h, data, env) =>
      if d.locked && RefusedEarly(data, env) == None then (s, Blocked)
      else
        WriteKeepsOk(d, data, env);
        var (d', ret) := Write(d, data, env);
        (Sys(d', if ret < 0 then s.pos else s.pos[h := Pos(s, h) + ret]), Returned(ret, []))
    case ReadEvent(h, count, uncopied) =>
      if d.locked then (s, Blocked)
      else
        var (ret, bytes) := Read(d, Pos(s, h), count, uncopied);
        (s.(pos := s.pos[h := Pos(s, h) + ret]), Returned(ret, bytes))
    case LlseekEvent(h, offset, whence) =>
      if d.locked then (s, Blocked)
      else
        var target := FixedSizeLlseek(Pos(s, h), offset, whence, ToOffset(d.size));
        if target < 0 then (s.(dev := d.(locked := true)), Returned(-EINVAL, []))
        else (s.(pos := s.pos[h := target]), Returned(target, []))
    case SeekToEvent(h, cmd, offset, past) =>
      if d.locked then (s, Blocked)
      else
        match FileOffset(d.ring, cmd, offset, past)
        case None => (s, Returned(-EINVAL, []))
        case Some(p) => (s.(pos := s.pos[h := p]), Returned(0, []))
  }

  /** The system after a sequence of calls, in the order in which they got the lock. */
  function State(es: seq<Event>): (s: Sys)
    ensures DevOk(s.dev)
  {
    if es == [] then Sys(InitDev(), map[]) else Step(State(es[..|es| - 1]), es[|es| - 1]).0
  }

  // ----- one file's view -----

  /**
   A call concerns the device and its own file only: among any number of files it does what it would
   do if its file were the only one, and no other file moves.
   */
  lemma StepIsLocal(s: Sys, e: Event)
    requires DevOk(s.dev)
    ensures var (all, r) := Step(s, e);
      var (one, r1) := Step(OneFile(s.dev, e.h, Pos(s, e.h)), e);
      && all.dev == one.dev && r == r1 && Pos(all, e.h) == Pos(one, e.h)
      && forall h :: h != e.h ==> Pos(all, h) == Pos(s, h)
  {
    hide Write, Read, FileOffset, FixedSizeLlseek;
    assert Pos(OneFile(s.dev, e.h, Pos(s, e.h)), e.h) == Pos(s, e.h);
  }

  /** The device with a single file `h` at position `pos`. */
  function OneFile(d: Dev, h: nat, pos: int): Sys {
    var none: map<nat, int> := map[];
    Sys(d, none[h := pos])
  }

  lemma OneFileMoves(d: Dev, h: nat, pos: int, pos': int)
    ensures OneFile(d, h, pos).pos[h := pos'] == OneFile(d, h, pos').pos
  {
  }

  lemma OneFileWrite(d: Dev, h: nat, pos: int, data: seq<byte>, env: WriteEnv)
    requires DevOk(d) && (d.locked ==> RefusedEarly(data, env).Some?)
    ensures var (d', ret) := Write(d, data, env);
      Step(OneFile(d, h, pos), WriteEvent(h, data, env)) ==
      (OneFile(d', h, if ret < 0 then pos else pos + ret), Returned(ret, []))
  {
    hide Write;
    OneFileMoves(d, h, pos, pos + Write(d, data, env).1);
  }

  lemma OneFileRead(d: Dev, h: nat, pos: int, count: nat, uncopied: nat)
    requires DevOk(d) && !d.locked
    ensures var (ret, bytes) := Read(d, pos, count, uncopied);
      Step(OneFile(d, h, pos), ReadEvent(h, count, uncopied)) == (OneFile(d, h, pos + ret), Returned(ret, bytes))
  {
    hide Read;
    OneFileMoves(d, h, pos, pos + Read(d, pos, count, uncopied).0);
  }

  lemma OneFileLlseek(d: Dev, h: nat, pos: int, offset: int, whence: Whence)
    requires DevOk(d) && !d.locked
    ensures var target := FixedSizeLlseek(pos, offset, whence, ToOffset(d.size));
      Step(OneFile(d, h, pos), LlseekEvent(h, offset, whence)) ==
      if target < 0 then (OneFile(d.(locked := true), h, pos), Returned(-EINVAL, []))
      else (OneFile(d, h, target), Returned(target, []))
  {
    hide FixedSizeLlseek;
    OneFileMoves(d, h, pos, FixedSizeLlseek(pos, offset, whence, ToOffset(d.size)));
  }

  lemma OneFileSeekTo(d: Dev, h: nat, pos: int, cmd: nat, offset: nat, past: nat)
    requires DevOk(d) && !d.locked
    ensures var target := FileOffset(d.ring, cmd, offset, past);
      Step(OneFile(d, h, pos), SeekToEvent(h, cmd, offset, past)) ==
      if target == None then (OneFile(d, h, pos), Returned(-EINVAL, []))
      else (OneFile(d, h, target.value), Returned(0, []))
  {
    hide FileOffset;
    var target := FileOffset(d.ring, cmd, offset, past);
    if target.Some? {
      OneFileMoves(d, h, pos, target.value);
    }
  }
}
