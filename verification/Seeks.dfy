/** Moving a file position: the seek ioctl by packet and offset, and `llseek` against `size`. */
module Seeks {
  import opened Machine
  import opened RingSpec
  import opened Packets
  import opened Device
  import opened History
  import opened Readers

  // ----- Seek and search are inverse -----

  /** The documented seek: command and offset count from zero, commands from the oldest. */
  function SeekTarget<P>(live: seq<Entry<P>>, cmd: nat, offset: nat): Option<nat> {
    if cmd < |live| && offset < live[cmd].size then Some(Total(live[..cmd]) + offset) else None
  }

  /** Seeking to (cmd, offset) gives position `p` exactly when searching for `p` gives (cmd, offset). */
  lemma SeekInvertsFind<P>(live: seq<Entry<P>>, cmd: nat, offset: nat, p: nat)
    requires Total(live) < SIZE_MOD
    ensures SeekTarget(live, cmd, offset) == Some(p) <==> Find(live, p) == Some(Hit(cmd, offset))
  {
    FindExact(live, p);
    if SeekTarget(live, cmd, offset) == Some(p) {
      FindInvertsPosition(live, Hit(cmd, offset));
    }
  }

  /** Positions are strictly increasing in (cmd, offset). */
  lemma SeekIncreases<P>(live: seq<Entry<P>>, cmd1: nat, offset1: nat, cmd2: nat, offset2: nat)
    requires SeekTarget(live, cmd1, offset1).Some? && SeekTarget(live, cmd2, offset2).Some?
    ensures SeekTarget(live, cmd1, offset1).value < SeekTarget(live, cmd2, offset2).value <==>
            cmd1 < cmd2 || (cmd1 == cmd2 && offset1 < offset2)
  {
    HitsOrdered(live, SeekTarget(live, cmd1, offset1).value, Hit(cmd1, offset1),
                SeekTarget(live, cmd2, offset2).value, Hit(cmd2, offset2));
  }

  // ----- The ioctl as written: physical slots -----

  lemma RotationKeepsTotal<P>(r: Ring<P>)
    requires InBounds(r)
    ensures Total(Rotated(r)) == Total(r.entry)
  {
    assert r.entry == r.entry[..r.outOffs] + r.entry[r.outOffs..];
    TotalConcat(r.entry[..r.outOffs], r.entry[r.outOffs..]);
    TotalConcat(r.entry[r.outOffs..], r.entry[..r.outOffs]);
  }

  /** For a request that names a byte held, the code computes the documented position. */
  ghost predicate SeeksRight<P>(r: Ring<P>, cmd: nat, offset: nat)
    requires InBounds(r)
  {
    SeekTarget(Live(r), cmd, offset).Some? ==>
      forall past: nat :: FileOffset(r, cmd, offset, past) == SeekTarget(Live(r), cmd, offset)
  }

  /** Slot for slot, counting from slot 0 or from the oldest entry makes no difference to sizes. */
  ghost predicate RotationInvisible<P>(r: Ring<P>)
    requires InBounds(r)
  {
    forall k :: 0 <= k < CAPACITY ==> r.entry[k].size == Rotated(r)[k].size
  }

  lemma SlotZeroInvisible<P>(r: Ring<P>)
    requires InBounds(r) && r.outOffs == 0
    ensures RotationInvisible(r)
  {
    assert Rotated(r) == r.entry;
  }

  lemma InvisibleSeeksRight<P>(r: Ring<P>, nil: P, cmd: nat, offset: nat)
    requires WellFormed(r, nil) && RotationInvisible(r)
    ensures SeeksRight(r, cmd, offset)
  {
    if SeekTarget(Live(r), cmd, offset).Some? {
      assert Live(r)[..cmd] == Rotated(r)[..cmd];
      SameSizesSameTotal(r.entry[..cmd], Rotated(r)[..cmd]);
    }
  }

  lemma SeekToStart<P>(r: Ring<P>, nil: P, cmd: nat)
    requires WellFormed(r, nil) && cmd < Count(r) && Live(r)[cmd].size > 0
    requires SeeksRight(r, cmd, 0)
    ensures Total(r.entry[..cmd]) == Total(Rotated(r)[..cmd])
  {
    assert FileOffset(r, cmd, 0, 0) == SeekTarget(Live(r), cmd, 0);
    assert Live(r)[..cmd] == Rotated(r)[..cmd];
  }

  lemma SameTotalsSameSize<P>(a: seq<Entry<P>>, b: seq<Entry<P>>, k: nat)
    requires k < |a| && k < |b|
    requires Total(a[..k]) == Total(b[..k]) && Total(a[..k + 1]) == Total(b[..k + 1])
    ensures a[k].size == b[k].size
  {
    PrefixStep(a, k);
    PrefixStep(b, k);
  }

  /** If all commands of a full ring seek right, then so does the whole: sizes are rotation-invariant. */
  lemma SeeksRightInvisible<P>(r: Ring<P>, nil: P)
    requires WellFormed(r, nil) && r.full
    requires forall k :: 0 <= k < Count(r) ==> Live(r)[k].size > 0 && SeeksRight(r, k, 0)
    ensures RotationInvisible(r)
  {
    forall k | 0 <= k < CAPACITY ensures r.entry[k].size == Rotated(r)[k].size {
      SeekToStart(r, nil, k);
      if k + 1 < CAPACITY {
        SeekToStart(r, nil, k + 1);
      } else {
        RotationKeepsTotal(r);
        assert r.entry[..k + 1] == r.entry && Rotated(r)[..k + 1] == Rotated(r);
      }
      SameTotalsSameSize(r.entry, Rotated(r), k);
    }
  }

  /**
   The seek ioctl counts commands from physical slot 0. It is right for every request that names a
   byte held if and only if the slot sizes read the same from slot 0 and from the oldest entry.
   */
  lemma FileOffsetRightIff<P>(r: Ring<P>, nil: P)
    requires WellFormed(r, nil)
    requires forall k :: 0 <= k < Count(r) ==> Live(r)[k].size > 0
    ensures (forall cmd: nat, offset: nat :: SeeksRight(r, cmd, offset)) <==> RotationInvisible(r)
  {
    assert r.outOffs == 0 ==> Rotated(r) == r.entry;
    if RotationInvisible(r) {
      forall cmd: nat, offset: nat ensures SeeksRight(r, cmd, offset) {
        InvisibleSeeksRight(r, nil, cmd, offset);
      }
    } else {
      if r.full && forall cmd: nat, offset: nat :: SeeksRight(r, cmd, offset) {
        SeeksRightInvisible(r, nil);
      }
    }
  }

  /** As long as the oldest entry is in slot 0 the ioctl is right. */
  lemma SlotZeroSeeksRight<P>(r: Ring<P>, nil: P, cmd: nat, offset: nat)
    requires WellFormed(r, nil) && r.outOffs == 0
    ensures SeeksRight(r, cmd, offset)
  {
    SlotZeroInvisible(r);
    InvisibleSeeksRight(r, nil, cmd, offset);
  }

  /** Eleven adds, the last of two bytes: command 1 starts at byte 1, the code says byte 2. */
  lemma {:induction false} WrongAfterEviction<P>(nil: P, es: seq<Entry<P>>, past: nat)
    requires |es| == 11 && es[10].size == 2 && forall i :: 0 <= i < 10 ==> es[i].size == 1
    ensures var r := AfterAdds(nil, es);
      SeekTarget(Live(r), 1, 0) == Some(1) && FileOffset(r, 1, 0, past) == Some(2)
  {
    var r := AfterAdds(nil, es);
    ClosedForm(nil, es);
    assert Live(r)[9] == es[10] == r.entry[0];
    assert Live(r)[0] == es[1];
    PrefixStep(r.entry, 0);
    PrefixStep(Live(r), 0);
  }

  /** `k` writes of a single newline. */
  function NewlineWrites(k: nat, env: WriteEnv): (es: seq<Event>)
    ensures |es| == k
  {
    if k == 0 then [] else NewlineWrites(k - 1, env) + [WriteEvent(0, [NEWLINE], env)]
  }

  function Newlines(k: nat): (ps: seq<seq<byte>>)
    ensures |ps| == k && forall i :: 0 <= i < k ==> ps[i] == [NEWLINE]
  {
    if k == 0 then [] else Newlines(k - 1) + [[NEWLINE]]
  }

  /** A run of whole packets `ps`, nothing pending, the lock free. */
  ghost predicate HasPublished(es: seq<Event>, ps: seq<seq<byte>>) {
    Published(es) == ps && !State(es).dev.locked && State(es).dev.pending == Held([])
  }

  /** A write of one whole packet. */
  lemma {:induction false} WholePacketWrite(es: seq<Event>, ps: seq<seq<byte>>, packet: seq<byte>, env: WriteEnv)
    requires HasPublished(es, ps)
    requires IsPacket(packet) && |packet| <= MAX_KMALLOC && env.granted && !env.faulted && env.grown
    ensures HasPublished(es + [WriteEvent(0, packet, env)], ps + [packet])
  {
    hide State, Published, Step;
    var e := WriteEvent(0, packet, env);
    NewlineIndexIs(packet, |packet| - 1);
    assert Chunk(packet) == packet && [] + packet == packet;
    Snoc(es, e);
    StepPending(State(es), e);
    StepLock(State(es), e);
  }

  lemma {:induction false} NewlineWritesPublish(k: nat, env: WriteEnv)
    requires env.granted && !env.faulted && env.grown
    ensures HasPublished(NewlineWrites(k, env), Newlines(k))
  {
    if k > 0 {
      NewlineWritesPublish(k - 1, env);
      WholePacketWrite(NewlineWrites(k - 1, env), Newlines(k - 1), [NEWLINE], env);
    }
  }

  /**
   The same as a run: ten writes of a newline, one of two bytes, then a seek to command 1. The
   second packet held starts at byte 1; the file is moved to byte 2.
   */
  lemma {:induction false} WrongAfterElevenWrites(h: nat, env: WriteEnv, past: nat)
    requires env.granted && !env.faulted && env.grown
    ensures var es := NewlineWrites(10, env) + [WriteEvent(0, [0, NEWLINE], env)];
      var (s, r) := Step(State(es), SeekToEvent(h, 1, 0, past));
      && |HeldPackets(State(es).dev)| == 10 && |Flatten(HeldPackets(State(es).dev)[..1])| == 1
      && r == Returned(0, []) && Pos(s, h) == 2
  {
    hide State, Published, Write, AfterAdds, FileOffset;
    var es := NewlineWrites(10, env) + [WriteEvent(0, [0, NEWLINE], env)];
    NewlineWritesPublish(10, env);
    WholePacketWrite(NewlineWrites(10, env), Newlines(10), [0, NEWLINE], env);
    RingFromPublished(es);
    AddPacketsIsAfterAdds(Published(es));
    WrongAfterEviction([], Entries(Published(es)), past);
    HoldsLastTen(es);
    assert HeldPackets(State(es).dev)[..1] == [[NEWLINE]];
    FlattenOne([NEWLINE]);
  }

  /** Searching for the start of entry `k`: empty entries are skipped. */
  lemma FindAtBoundary<P>(es: seq<Entry<P>>, k: nat, j: nat)
    requires Total(es) < SIZE_MOD && k <= j <= |es|
    requires forall i :: k <= i < j ==> es[i].size == 0
    requires j < |es| ==> es[j].size > 0
    ensures Find(es, Total(es[..k])) == if j < |es| then Some(Hit(j, 0)) else None
  {
    assert es[..j] == es[..k] + es[k..j];
    TotalConcat(es[..k], es[k..j]);
    TotalOfEmpties(es[k..j]);
    if j < |es| {
      FindInvertsPosition(es, Hit(j, 0));
    } else {
      assert es[..j] == es;
      FindExact(es, Total(es[..k]));
    }
  }

  /**
   With the oldest entry in slot 0, an offset equal to the command's size is accepted too; the
   next search then lands on byte 0 of the next non-empty slot `j`, or nowhere if there is none.
   */
  lemma SeekToEndOfCommand<P>(r: Ring<P>, nil: P, cmd: nat, past: nat, j: nat)
    requires WellFormed(r, nil) && r.outOffs == 0 && Total(Live(r)) < SIZE_MOD
    requires cmd < j <= CAPACITY
    requires forall i :: cmd < i < j ==> r.entry[i].size == 0
    requires j < CAPACITY ==> r.entry[j].size > 0
    ensures var p := FileOffset(r, cmd, r.entry[cmd].size, past);
      p.Some? && Find(Rotated(r), p.value) == if j < CAPACITY then Some(Hit(j, 0)) else None
  {
    RotatedIsLive(r, nil);
    assert Rotated(r) == r.entry;
    PrefixStep(r.entry, cmd);
    FindAtBoundary(r.entry, cmd + 1, j);
  }

  // ----- llseek and the `size` field -----

  /** The foreign words read by the adds of a run, one per published packet. */
  function ForeignWords(es: seq<Event>): (ws: seq<nat>)
    ensures |ws| == |Published(es)|
  {
    if es == [] then [] else
      var s, e := State(es[..|es| - 1]), es[|es| - 1];
      ForeignWords(es[..|es| - 1]) + if PublishedBy(s, e) == [] then [] else [e.env.beyond]
  }

  lemma StepSize(s: Sys, e: Event)
    requires DevOk(s.dev)
    ensures Step(s, e).0.dev.size ==
      if PublishedBy(s, e) == [] then s.dev.size
      else SizeAfterAdd(s.dev.ring, s.dev.size, |PublishedBy(s, e)[0]|, e.env.beyond)
  {
  }

  lemma {:induction false} SizeOneMore(ps: seq<seq<byte>>, p: seq<byte>, words: seq<nat>, word: nat)
    requires |words| == |ps|
    ensures SizeAfterAdds([], Entries(ps + [p]), words + [word]) ==
      SizeAfterAdd(AddPackets(Init([]), ps), SizeAfterAdds([], Entries(ps), words), |p|, word)
  {
    hide Total, AddPackets, AfterAdds, SizeAfterAdds, SizeAfterAdd;
    assert Entries(ps + [p])[..|words|] == Entries(ps);
    SizeAfterAddsSnoc([], Entries(ps + [p]), words, word);
    AddPacketsIsAfterAdds(ps);
  }

  lemma ForeignWordsSnoc(es: seq<Event>, e: Event)
    ensures ForeignWords(es + [e]) == ForeignWords(es) + if PublishedBy(State(es), e) == [] then [] else [e.env.beyond]
  {
    hide State, Step;
    assert (es + [e])[..|es|] == es;
  }

  lemma {:induction false} SizeAfterOneMore(es: seq<Event>, e: Event)
    requires State(es).dev.size == SizeAfterAdds([], Entries(Published(es)), ForeignWords(es))
    ensures State(es + [e]).dev.size == SizeAfterAdds([], Entries(Published(es + [e])), ForeignWords(es + [e]))
  {
    hide State, Published, ForeignWords, Step, SizeAfterAdds, AddPackets;
    Snoc(es, e);
    ForeignWordsSnoc(es, e);
    RingFromPublished(es);
    StepSize(State(es), e);
    var ps := PublishedBy(State(es), e);
    if ps == [] {
      assert Published(es) + [] == Published(es) && ForeignWords(es) + [] == ForeignWords(es);
    } else {
      SizeOneMore(Published(es), ps[0], ForeignWords(es), e.env.beyond);
    }
  }

  lemma {:induction false} SizeFromPublished(es: seq<Event>)
    ensures State(es).dev.size == SizeAfterAdds([], Entries(Published(es)), ForeignWords(es))
  {
    hide Step;
    if es == [] {
      assert Entries(Published(es)) == [];
    } else {
      assert es == es[..|es| - 1] + [es[|es| - 1]];
      SizeFromPublished(es[..|es| - 1]);
      SizeAfterOneMore(es[..|es| - 1], es[|es| - 1]);
    }
  }

  /**
   The `size` field after any run: right while at most ten packets were published, and zero
   although packets are held after the 11th, 21st, 31st ...
   */
  lemma {:induction false} SizeInRun(es: seq<Event>)
    ensures var n, d := |Published(es)|, State(es).dev;
      && (n <= CAPACITY ==> d.size == |Contents(d)|)
      && (n > CAPACITY && n % CAPACITY == 1 ==> d.size == 0 < |Contents(d)|)
  {
    hide State, Published, ForeignWords, Contents, SizeAfterAdds;
    var ps, d := Published(es), State(es).dev;
    SizeFromPublished(es);
    RingFromPublished(es);
    AddPacketsIsAfterAdds(ps);
    ClosedForm([], Entries(ps));
    LiveOk(d);
    if |ps| <= CAPACITY {
      SizeTracksFirstTen([], Entries(ps), ForeignWords(es));
    } else if |ps| % CAPACITY == 1 {
      SizeCollapses([], Entries(ps), ForeignWords(es));
      TotalPositive(Live(d.ring));
    }
  }

  /** What the foreign words read since the last collapse leave of the bytes published since. */
  function SizeOwed(es: seq<Event>): int
    requires |Published(es)| > CAPACITY
  {
    var m := LastCollapse(|Published(es)|);
    |Flatten(Published(es)[m..])| - Sum(ForeignWords(es)[m..])
  }

  lemma {:induction false} EntriesTail(ps: seq<seq<byte>>, m: nat)
    requires m <= |ps|
    ensures Total(Entries(ps)[m..]) == |Flatten(ps[m..])|
  {
    var es := Entries(ps)[m..];
    assert es == Entries(ps[m..]);
    EntriesTotal(ps[m..]);
  }

  lemma {:induction false} EntriesTotal(ps: seq<seq<byte>>)
    ensures Total(Entries(ps)) == |Flatten(ps)|
  {
    if ps != [] {
      EntriesTotal(ps[..|ps| - 1]);
      assert Entries(ps)[..|ps| - 1] == Entries(ps[..|ps| - 1]);
    }
  }

  /** The `size` field after more than ten packets: what is owed, modulo 2^64. */
  lemma {:induction false} SizeInLongRun(es: seq<Event>)
    requires |Published(es)| > CAPACITY
    ensures State(es).dev.size == SizeOwed(es) % 0x1_0000_0000_0000_0000
  {
    hide State, Published, ForeignWords, SizeAfterAdds, Entries, Flatten, Total, Sum;
    SizeFromPublished(es);
    SizeSinceCollapse([], Entries(Published(es)), ForeignWords(es));
    EntriesTail(Published(es), LastCollapse(|Published(es)|));
  }

  // ----- The ioctl over runs -----

  /** What the code adds up before command `cmd` is what the packets before it hold. */
  predicate LandsRight<P>(r: Ring<P>, cmd: nat, offset: nat)
    requires InBounds(r) && cmd < Count(r)
  {
    Total(r.entry[..cmd]) == Total(Live(r)[..cmd]) && offset <= r.entry[cmd].size
  }

  /** A ring that reads the same from slot 0, in particular one whose oldest entry is there. */
  lemma InvisibleLandsRight<P>(r: Ring<P>, nil: P, cmd: nat, offset: nat)
    requires WellFormed(r, nil) && (r.outOffs == 0 || RotationInvisible(r))
    requires cmd < Count(r) && offset < Live(r)[cmd].size
    ensures LandsRight(r, cmd, offset)
  {
    assert r.outOffs == 0 ==> Rotated(r) == r.entry;
    assert Live(r)[..cmd] == Rotated(r)[..cmd];
    SameSizesSameTotal(r.entry[..cmd], Rotated(r)[..cmd]);
  }

  /** The packets in the slots, in the order of the slots. */
  function SlotPackets(d: Dev): (ps: seq<seq<byte>>)
    requires InBounds(d.ring)
    ensures |ps| == Count(d.ring)
  {
    Payloads(d.ring.entry[..Count(d.ring)])
  }

  /** Of all packets published, those in the slots: slot `k` has the last whose number ends in `k`. */
  function Slots(ps: seq<seq<byte>>): (slots: seq<seq<byte>>)
    ensures |slots| == Min(|ps|, CAPACITY)
  {
    seq(Min(|ps|, CAPACITY), k requires 0 <= k < Min(|ps|, CAPACITY) => ps[LastInto(|ps|, k)])
  }

  /** Up to ten packets the slots hold them in order. */
  lemma SlotsInOrder(ps: seq<seq<byte>>)
    requires |ps| <= CAPACITY
    ensures Slots(ps) == ps
  {
  }

  lemma {:induction false} SlotsOfAdds(ps: seq<seq<byte>>)
    ensures var r := AddPackets(Init([]), ps);
      Count(r) == |Slots(ps)| && Payloads(r.entry[..Count(r)]) == Slots(ps)
  {
    hide LastInto, AddPackets, AfterAdds;
    AddPacketsIsAfterAdds(ps);
    ClosedForm([], Entries(ps));
    forall k | 0 <= k < |Slots(ps)| ensures AddPackets(Init([]), ps).entry[k].buffptr == Slots(ps)[k] {
      SlotHolds([], Entries(ps), k);
    }
  }

  lemma {:induction false} SlotsInRun(es: seq<Event>)
    ensures SlotPackets(State(es).dev) == Slots(Published(es))
  {
    hide State, Published, Slots, AddPackets;
    RingFromPublished(es);
    SlotsOfAdds(Published(es));
  }

  lemma UnusedEmpty(d: Dev)
    requires DevOk(d)
    ensures InBounds(d.ring) && Count(d.ring) <= CAPACITY
    ensures forall i :: 0 <= i < CAPACITY ==> EntryOk(d.ring.entry[i])
    ensures forall i :: Count(d.ring) <= i < CAPACITY ==> d.ring.entry[i].size == 0
  {
  }

  lemma SlotTotals(d: Dev, k: nat)
    requires DevOk(d) && k <= CAPACITY
    ensures Total(d.ring.entry[..k]) == |Flatten(SlotPackets(d)[..Min(k, Count(d.ring))])|
  {
    hide Flatten, Payloads, Total;
    var es, used := d.ring.entry, Count(d.ring);
    var n := Min(k, used);
    UnusedEmpty(d);
    hide DevOk, WellFormed, Count;
    assert es[..k] == es[..n] + es[n..k];
    TotalConcat(es[..n], es[n..k]);
    TotalOfEmpties(es[n..k]);
    assert es[..used][..n] == es[..n];
    PayloadsPrefix(es[..used], n);
  }

  lemma SlotSize(d: Dev, k: nat)
    requires DevOk(d) && k < CAPACITY
    ensures d.ring.entry[k].size == if k < |SlotPackets(d)| then |SlotPackets(d)[k]| else 0
  {
  }

  /** Which requests the ioctl accepts, and where they go, in terms of the packets in the slots. */
  lemma SeekToSlots(d: Dev, cmd: nat, offset: nat, past: nat)
    requires DevOk(d)
    ensures var slots := SlotPackets(d);
      var limit := if cmd < |slots| then |slots[cmd]| else if cmd < CAPACITY then 0 else past;
      FileOffset(d.ring, cmd, offset, past) ==
      if cmd > CAPACITY || offset > limit then None else Some(|Flatten(slots[..Min(cmd, |slots|)])| + offset)
  {
    hide Flatten, Total, SlotPackets;
    UnusedEmpty(d);
    if cmd <= CAPACITY {
      SlotTotals(d, cmd);
    }
    if cmd < CAPACITY {
      SlotSize(d, cmd);
    }
  }

  lemma SeekToStep(s: Sys, h: nat, cmd: nat, offset: nat, past: nat)
    requires DevOk(s.dev) && !s.dev.locked && cmd < Count(s.dev.ring) && offset < Live(s.dev.ring)[cmd].size
    ensures var (s', r) := Step(s, SeekToEvent(h, cmd, offset, past));
      var p := Total(Live(s.dev.ring)[..cmd]) + offset;
      && s'.dev == s.dev && p < SIZE_MOD
      && (r.Returned? && r.ret == 0 && Pos(s', h) == p <==> LandsRight(s.dev.ring, cmd, offset))
      && Find(Rotated(s.dev.ring), p) == Some(Hit(cmd, offset))
  {
    hide Write, Read, Find;
    var r := s.dev.ring;
    LiveOk(s.dev);
    FindInvertsPosition(Live(r), Hit(cmd, offset));
    FindOnRing(r, [], Total(Live(r)[..cmd]) + offset);
  }

  lemma ReadAtHit(d: Dev, p: nat, cmd: nat, offset: nat, count: nat)
    requires DevOk(d) && p < SIZE_MOD
    requires Find(Rotated(d.ring), p) == Some(Hit(cmd, offset)) && cmd < |HeldPackets(d)|
    ensures var packet := HeldPackets(d)[cmd];
      offset < |packet| && Read(d, p, count, 0).1 == packet[offset..offset + Min(|packet| - offset, count)]
  {
    hide Find, Flatten, Contents, IsHit;
    FindInRange(d, p);
    HitInside(Live(d.ring), p, Hit(cmd, offset));
  }

  lemma HeldPrefix(d: Dev, cmd: nat)
    requires DevOk(d) && cmd < |HeldPackets(d)|
    ensures |Flatten(HeldPackets(d)[..cmd])| == Total(Live(d.ring)[..cmd])
    ensures |HeldPackets(d)[cmd]| == Live(d.ring)[cmd].size
  {
    LiveOk(d);
    PayloadsPrefix(Live(d.ring), cmd);
  }

  /**
   Seek, then read, on the same file, in any state the device can be in (`History.HoldsLastTen` says
   what it then holds), for any byte held: the seek succeeds and goes to the byte named if and only
   if the ring lands right; then the read returns the packet named from the offset named on. By
   `InvisibleLandsRight` this covers all requests of every run of fewer than ten packets, or a
   multiple of ten, and of every ring whose sizes read the same from slot 0.
   */
  lemma SeekThenRead(s: Sys, h: nat, cmd: nat, offset: nat, past: nat, count: nat)
    requires DevOk(s.dev) && !s.dev.locked
    requires cmd < |HeldPackets(s.dev)| && offset < |HeldPackets(s.dev)[cmd]|
    ensures var packets := HeldPackets(s.dev);
      var (s', r) := Step(s, SeekToEvent(h, cmd, offset, past));
      var right := LandsRight(s.dev.ring, cmd, offset);
      && (r.Returned? && r.ret == 0 && Pos(s', h) == |Flatten(packets[..cmd])| + offset <==> right)
      && (right ==> Step(s', ReadEvent(h, count, 0)).1.bytes ==
                    packets[cmd][offset..offset + Min(|packets[cmd]| - offset, count)])
  {
    hide Step, Read, Find, LandsRight;
    HeldPrefix(s.dev, cmd);
    SeekToStep(s, h, cmd, offset, past);
    var s' := Step(s, SeekToEvent(h, cmd, offset, past)).0;
    if LandsRight(s.dev.ring, cmd, offset) {
      ReadStep(s', h, count, 0);
      ReadAtHit(s.dev, Pos(s', h), cmd, offset, count);
    }
  }

  /** A seek to a byte that is held goes there, whatever lies past the slots; the device stays as it is. */
  ghost predicate SeekToRight(s: Sys, h: nat, cmd: nat, offset: nat)
    requires DevOk(s.dev)
  {
    var packets := HeldPackets(s.dev);
    cmd < |packets| && offset < |packets[cmd]| ==>
      forall past: nat :: Step(s, SeekToEvent(h, cmd, offset, past)) ==
                          (s.(pos := s.pos[h := |Flatten(packets[..cmd])| + offset]), Returned(0, []))
  }

  lemma SeekToRightOnRing(s: Sys, h: nat, cmd: nat, offset: nat)
    requires DevOk(s.dev) && !s.dev.locked
    ensures SeekToRight(s, h, cmd, offset) <==> SeeksRight(s.dev.ring, cmd, offset)
  {
    hide Write, Read, FileOffset, Flatten;
    if cmd < |HeldPackets(s.dev)| && offset < |HeldPackets(s.dev)[cmd]| {
      HeldPrefix(s.dev, cmd);
      var p := |Flatten(HeldPackets(s.dev)[..cmd])| + offset;
      forall past: nat
        ensures Step(s, SeekToEvent(h, cmd, offset, past)) == (s.(pos := s.pos[h := p]), Returned(0, [])) <==>
                FileOffset(s.dev.ring, cmd, offset, past) == Some(p)
      {
        assert s.pos[h := p][h] == p;
      }
    }
  }

  /** Ten packets, counted from the `n`-th on, going round. */
  function Turned<T>(ps: seq<T>, n: nat): (r: seq<T>)
    requires |ps| == CAPACITY
    ensures |r| == CAPACITY
  {
    ps[n % CAPACITY..] + ps[..n % CAPACITY]
  }

  lemma TurnedAt<T>(ps: seq<T>, n: nat, k: nat)
    requires |ps| == CAPACITY && k < CAPACITY
    ensures Turned(ps, n)[k] == ps[(n % CAPACITY + k) % CAPACITY]
  {
  }

  /** The lengths of ten packets read the same `n` places on. */
  predicate LengthsRepeat(ps: seq<seq<byte>>, n: nat)
    requires |ps| == CAPACITY
  {
    forall k :: 0 <= k < CAPACITY ==> |ps[k]| == |Turned(ps, n)[k]|
  }

  lemma PacketInSlot(r: Ring<seq<byte>>, ps: seq<seq<byte>>, n: nat, k: nat)
    requires InBounds(r) && |ps| == CAPACITY && r.outOffs == n % CAPACITY && k < CAPACITY
    requires forall i :: 0 <= i < CAPACITY ==> Rotated(r)[i].size == |ps[i]|
    ensures var j := (r.outOffs + k) % CAPACITY;
      r.entry[j].size == |ps[k]| && Rotated(r)[j].size == |Turned(ps, n)[k]|
  {
    hide Rotated, Turned;
    RotatedAt(r, k);
    TurnedAt(ps, n, k);
  }

  lemma InvisibleMeansRepeat(r: Ring<seq<byte>>, ps: seq<seq<byte>>, n: nat)
    requires InBounds(r) && |ps| == CAPACITY && r.outOffs == n % CAPACITY
    requires forall i :: 0 <= i < CAPACITY ==> Rotated(r)[i].size == |ps[i]|
    ensures RotationInvisible(r) <==> LengthsRepeat(ps, n)
  {
    hide Rotated, Turned;
    if RotationInvisible(r) {
      forall k | 0 <= k < CAPACITY ensures |ps[k]| == |Turned(ps, n)[k]| {
        PacketInSlot(r, ps, n, k);
      }
    }
    if LengthsRepeat(ps, n) {
      forall j | 0 <= j < CAPACITY ensures r.entry[j].size == Rotated(r)[j].size {
        PacketInSlot(r, ps, n, (j + CAPACITY - r.outOffs) % CAPACITY);
      }
    }
  }

  /**
   Over any run, the ioctl is right for every byte held if and only if fewer than ten packets were
   published, or the lengths of the last ten read the same that many places on.
   */
  lemma {:induction false} SeekRightIffInRun(es: seq<Event>, h: nat)
    requires !State(es).dev.locked
    ensures (forall cmd: nat, offset: nat :: SeekToRight(State(es), h, cmd, offset)) <==>
            |Published(es)| < CAPACITY || LengthsRepeat(LastTen(Published(es)), |Published(es)|)
  {
    hide State, Published, SeekToRight, SeeksRight, RotationInvisible, LengthsRepeat, Step;
    var s := State(es);
    var r := s.dev.ring;
    HoldsLastTen(es);
    LiveOk(s.dev);
    forall cmd: nat, offset: nat ensures SeekToRight(s, h, cmd, offset) <==> SeeksRight(r, cmd, offset) {
      SeekToRightOnRing(s, h, cmd, offset);
    }
    FileOffsetRightIff(r, []);
    if |Published(es)| < CAPACITY {
      SlotZeroInvisible(r);
    } else {
      assert Live(r) == Rotated(r);
      InvisibleMeansRepeat(r, LastTen(Published(es)), |Published(es)|);
    }
  }

  lemma CommandTenStep(s: Sys, h: nat, offset: nat, past: nat)
    requires DevOk(s.dev) && !s.dev.locked
    ensures var (s', r) := Step(s, SeekToEvent(h, CAPACITY, offset, past));
      && s'.dev == s.dev
      && r == (if offset <= past then Returned(0, []) else Returned(-EINVAL, []))
      && (offset <= past ==> Pos(s', h) == |Contents(s.dev)| + offset)
  {
    hide Write, Read, Contents;
    LiveOk(s.dev);
    RotationKeepsTotal(s.dev.ring);
    assert s.dev.ring.entry[..CAPACITY] == s.dev.ring.entry;
  }

  /**
   Command 10 passes the check. What it reads as a size is the word past the slots, and in the
   layout of the struct that word is the field `size`. So up to ten packets offsets up to the number
   of bytes held are accepted, after the 11th, 21st, ... packet only 0; the position then lies at
   the end of the contents or past it, where the next read finds nothing.
   */
  lemma {:induction false} SeekToCommandTen(es: seq<Event>, h: nat, offset: nat, count: nat)
    requires !State(es).dev.locked
    requires |Published(es)| <= CAPACITY || |Published(es)| % CAPACITY == 1
    ensures var d := State(es).dev;
      var (s, r) := Step(State(es), SeekToEvent(h, CAPACITY, offset, d.size));
      && (r == Returned(0, []) <==> offset <= if |Published(es)| <= CAPACITY then |Contents(d)| else 0)
      && (r == Returned(0, []) ==>
            Pos(s, h) == |Contents(d)| + offset && Step(s, ReadEvent(h, count, 0)).1 == Returned(0, []))
  {
    hide State, Published, Step, Read, Contents;
    var d := State(es).dev;
    SizeInRun(es);
    LiveOk(d);
    CommandTenStep(State(es), h, offset, d.size);
    var s := Step(State(es), SeekToEvent(h, CAPACITY, offset, d.size)).0;
    ReadStep(s, h, count, 0);
    if offset <= d.size {
      ReadPastEnd(d, Pos(s, h), count, 0);
    }
  }

  // ----- llseek over runs -----

  /** The position an `llseek` asks for, `end` being where the contents end. */
  function Target(pos: int, offset: int, whence: Whence, end: int): int {
    match whence
    case SeekSet => offset
    case SeekCur => pos + offset
    case SeekEnd => end + offset
    case SeekOther => -1
  }

  /** It is to be had: inside the contents or at their end, or just the position the file is at. */
  predicate Reachable(pos: int, offset: int, whence: Whence, end: int) {
    var t := Target(pos, offset, whence, end);
    0 <= t && (t <= end || (whence.SeekCur? && offset == 0))
  }

  /** The call goes to its target if that is to be had; if not, -EINVAL, and the lock stays held. */
  ghost predicate LlseekRight(s: Sys, h: nat, offset: int, whence: Whence)
    requires DevOk(s.dev)
  {
    var end := |Contents(s.dev)|;
    var t := Target(Pos(s, h), offset, whence, end);
    Step(s, LlseekEvent(h, offset, whence)) ==
    if Reachable(Pos(s, h), offset, whence, end) then (s.(pos := s.pos[h := t]), Returned(t, []))
    else (s.(dev := s.dev.(locked := true)), Returned(-EINVAL, []))
  }

  lemma SizeRightLlseekRight(s: Sys, h: nat, offset: int, whence: Whence)
    requires DevOk(s.dev) && !s.dev.locked && s.dev.size == |Contents(s.dev)|
    ensures LlseekRight(s, h, offset, whence)
  {
    hide Contents, Write, Read, FileOffset;
    LiveOk(s.dev);
  }

  /**
   `llseek` is right in all three ways to seek if `size` is the number of bytes held, and right for
   SEEK_SET only if it is.
   */
  lemma LlseekRightIff(s: Sys, h: nat)
    requires DevOk(s.dev) && !s.dev.locked
    ensures (forall offset :: LlseekRight(s, h, offset, SeekSet)) <==> s.dev.size == |Contents(s.dev)|
    ensures s.dev.size == |Contents(s.dev)| ==> forall offset, whence :: LlseekRight(s, h, offset, whence)
  {
    hide Contents, Write, Read, FileOffset;
    if s.dev.size == |Contents(s.dev)| {
      forall offset, whence ensures LlseekRight(s, h, offset, whence) {
        SizeRightLlseekRight(s, h, offset, whence);
      }
    } else {
      LiveOk(s.dev);
      var end := |Contents(s.dev)|;
      assert !LlseekRight(s, h, end, SeekSet) || !LlseekRight(s, h, end + 1, SeekSet);
    }
  }

  /**
   In every unlocked run of at most ten packets an `llseek` of any kind is right; if it succeeds, the
   next read starts at its target and returns 0 only at the end of the contents or past it, or for
   count 0.
   */
  lemma {:induction false} LlseekThenRead(es: seq<Event>, h: nat, offset: int, whence: Whence, count: nat)
    requires !State(es).dev.locked && |Published(es)| <= CAPACITY
    ensures LlseekRight(State(es), h, offset, whence)
    ensures var d, pos := State(es).dev, Pos(State(es), h);
      var t := Target(pos, offset, whence, |Contents(d)|);
      Reachable(pos, offset, whence, |Contents(d)|) && t < SIZE_MOD ==>
        var got := Step(Step(State(es), LlseekEvent(h, offset, whence)).0, ReadEvent(h, count, 0)).1;
        && got.Returned? && got.ret == |got.bytes|
        && (got.bytes != [] ==> t + |got.bytes| <= |Contents(d)| && got.bytes == Contents(d)[t..t + |got.bytes|])
        && (got.ret == 0 <==> t >= |Contents(d)| || count == 0)
  {
    hide State, Published, Step, Read, Contents;
    var s0 := State(es);
    SizeInRun(es);
    SizeRightLlseekRight(s0, h, offset, whence);
    var end := |Contents(s0.dev)|;
    var t := Target(Pos(s0, h), offset, whence, end);
    if Reachable(Pos(s0, h), offset, whence, end) && t < SIZE_MOD {
      ReadStep(Step(s0, LlseekEvent(h, offset, whence)).0, h, count, 0);
      if t < end {
        CleanRead(s0.dev, t, count);
      } else {
        ReadPastEnd(s0.dev, t, count, 0);
      }
    }
  }

  /**
   An `llseek` with any `size`: from 2^63 on it is negative as a `loff_t`, and nothing is granted but
   staying put; below, every target from 0 to `size`. It is refused with -EINVAL and keeps the lock.
   */
  lemma LlseekIff(s: Sys, h: nat, offset: int, whence: Whence)
    requires DevOk(s.dev) && !s.dev.locked
    ensures var pos, size := Pos(s, h), s.dev.size;
      var t := match whence
        case SeekSet => offset
        case SeekCur => pos + offset
        case SeekEnd => size + offset
        case SeekOther => -1;
      Step(s, LlseekEvent(h, offset, whence)) ==
      if (0 <= t <= size < 0x8000_0000_0000_0000) || (whence == SeekCur && offset == 0 <= pos)
      then (s.(pos := s.pos[h := t]), Returned(t, []))
      else (s.(dev := s.dev.(locked := true)), Returned(-22, []))
  {
    hide Write, Read, FileOffset;
  }

  /**
   When the foreign words read since the last collapse outweigh the bytes published since, by at most
   2^63, every `llseek` but staying put is refused and stops the device.
   */
  lemma {:induction false} SeekAfterWrapStopsDevice(es: seq<Event>, h: nat, offset: int, whence: Whence,
                                                    more: seq<Event>)
    requires !State(es).dev.locked && |Published(es)| > CAPACITY
    requires -0x8000_0000_0000_0000 <= SizeOwed(es) < 0
    requires !(whence == SeekCur && offset == 0 <= Pos(State(es), h))
    ensures var seek := LlseekEvent(h, offset, whence);
      && Step(State(es), seek).1 == Returned(-22, [])
      && State(es + [seek] + more) == State(es).(dev := State(es).dev.(locked := true))
  {
    hide State, Published, Step, SizeOwed;
    var seek := LlseekEvent(h, offset, whence);
    SizeInLongRun(es);
    LlseekIff(State(es), h, offset, whence);
    Snoc(es, seek);
    LockedForever(es + [seek], more);
  }

  lemma SeekSetStep(s: Sys, h: nat, offset: int)
    requires DevOk(s.dev) && !s.dev.locked
    ensures var (s', r) := Step(s, LlseekEvent(h, offset, SeekSet));
      if 0 <= offset <= ToOffset(s.dev.size) then s' == s.(pos := s.pos[h := offset]) && r == Returned(offset, [])
      else s' == s.(dev := s.dev.(locked := true)) && r == Returned(-EINVAL, [])
  {
    hide Write, Read, FileOffset;
  }

  // ----- The lock after a failed llseek -----

  /** An `llseek` whose target is refused: it returns -EINVAL without releasing the lock. */
  predicate FailsLlseek(s: Sys, e: Event) {
    && e.LlseekEvent?
    && !s.dev.locked
    && FixedSizeLlseek(Pos(s, e.h), e.offset, e.whence, ToOffset(s.dev.size)) < 0
  }

  predicate SomeLlseekFailed(es: seq<Event>) {
    es != [] && (SomeLlseekFailed(es[..|es| - 1]) || FailsLlseek(State(es[..|es| - 1]), es[|es| - 1]))
  }

  lemma StepLock(s: Sys, e: Event)
    requires DevOk(s.dev)
    ensures Step(s, e).0.dev.locked <==> s.dev.locked || FailsLlseek(s, e)
  {
  }

  /** Between calls the lock is held exactly if some `llseek` of the run has failed. */
  lemma {:induction false} LockHeldIff(es: seq<Event>)
    ensures State(es).dev.locked <==> SomeLlseekFailed(es)
  {
    if es == [] {
    } else {
      hide Step;
      LockHeldIff(es[..|es| - 1]);
      StepLock(State(es[..|es| - 1]), es[|es| - 1]);
    }
  }

  /** With the lock held no call changes anything; all block, except writes refused before the lock. */
  lemma LockedStep(s: Sys, e: Event)
    requires DevOk(s.dev) && s.dev.locked
    ensures Step(s, e).0 == s
    ensures Step(s, e).1 == Blocked || (e.WriteEvent? && RefusedEarly(e.data, e.env).Some?)
  {
  }

  lemma LockedOneMore(es: seq<Event>, e: Event)
    requires State(es).dev.locked
    ensures State(es + [e]) == State(es)
  {
    hide Step;
    LockedStep(State(es), e);
    Snoc(es, e);
  }

  lemma {:induction false} LockedForever(es: seq<Event>, more: seq<Event>)
    requires State(es).dev.locked
    ensures State(es + more) == State(es)
  {
    hide State;
    if more == [] {
      assert es + more == es;
    } else {
      var m, e := more[..|more| - 1], more[|more| - 1];
      LockedForever(es, m);
      assert es + more == (es + m) + [e];
      LockedOneMore(es + m, e);
    }
  }

  /**
   After the 11th packet (the 21st, ...), a SEEK_SET to any byte but the first is refused although
   the byte is there, and the device answers no further call on any file.
   */
  lemma {:induction false} SeekAfterCollapseStopsDevice(es: seq<Event>, h: nat, offset: int, more: seq<Event>)
    requires !State(es).dev.locked
    requires |Published(es)| > CAPACITY && |Published(es)| % CAPACITY == 1
    requires 0 < offset <= |Contents(State(es).dev)|
    ensures var seek := LlseekEvent(h, offset, SeekSet);
      && Step(State(es), seek).1 == Returned(-EINVAL, [])
      && State(es + [seek] + more) == State(es).(dev := State(es).dev.(locked := true))
  {
    hide State, Published, Step, Contents;
    var seek := LlseekEvent(h, offset, SeekSet);
    SizeInRun(es);
    SeekSetStep(State(es), h, offset);
    Snoc(es, seek);
    LockedForever(es + [seek], more);
  }
}
