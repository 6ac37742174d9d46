/** What reads return: a window of history that moves only when packets are evicted. */
module Readers {
  import opened Machine
  import opened RingSpec
  import opened Packets
  import opened Device
  import opened History

  // ----- One read -----

  lemma FlattenSlice(ps: seq<seq<byte>>, k: nat)
    requires k < |ps|
    ensures var a, b := |Flatten(ps[..k])|, |Flatten(ps[..k + 1])|;
      a <= b <= |Flatten(ps)| && Flatten(ps)[a..b] == ps[k]
  {
    var before, upto := ps[..k], ps[..k + 1];
    assert upto == before + [ps[k]];
    assert ps == upto + ps[k + 1..];
    FlattenSnoc(before, ps[k]);
    FlattenConcat(upto, ps[k + 1..]);
  }

  lemma PayloadsPrefix(es: seq<Entry<seq<byte>>>, k: nat)
    requires k <= |es| && forall i :: 0 <= i < |es| ==> EntryOk(es[i])
    ensures |Flatten(Payloads(es)[..k])| == Total(es[..k])
  {
    assert Payloads(es)[..k] == Payloads(es[..k]);
    PayloadsTotal(es[..k]);
  }

  /** A read past the end returns nothing. */
  lemma ReadPastEnd(d: Dev, pos: int, count: nat, uncopied: nat)
    requires DevOk(d) && ToSize(pos) >= |Contents(d)|
    ensures Read(d, pos, count, uncopied) == (0, [])
  {
    FindInRange(d, ToSize(pos));
  }

  /** Packet `k` of the live ones, as an interval of the contents. */
  lemma PacketInterval(d: Dev, k: nat)
    requires DevOk(d) && k < |HeldPackets(d)|
    ensures var a, b := |Flatten(HeldPackets(d)[..k])|, |Flatten(HeldPackets(d)[..k + 1])|;
      && a == Total(Live(d.ring)[..k])
      && b == a + |HeldPackets(d)[k]| <= |Contents(d)|
      && Contents(d)[a..b] == HeldPackets(d)[k]
  {
    LiveOk(d);
    PayloadsPrefix(Live(d.ring), k);
    PayloadsPrefix(Live(d.ring), k + 1);
    PrefixStep(Live(d.ring), k);
    FlattenSlice(HeldPackets(d), k);
  }

  /**
   Any other read returns the bytes from its position to the end of the packet it is in, or
   `count` of them; if some do not reach the user, it returns -EFAULT.
   */
  ghost predicate Delivers(d: Dev, off: nat, count: nat, uncopied: nat, k: nat, r: (int, seq<byte>))
    requires InBounds(d.ring) && k < |HeldPackets(d)|
  {
    var start, end := |Flatten(HeldPackets(d)[..k])|, |Flatten(HeldPackets(d)[..k + 1])|;
    && start <= off < end <= |Contents(d)|
    && var n := Min(end - off, count);
       var left := Min(uncopied, n);
       r == (if left > 0 then -EFAULT else n, Contents(d)[off..off + n - left])
  }

  lemma SliceOfSlice(whole: seq<byte>, a: nat, part: seq<byte>, from: nat, to: nat)
    requires a + |part| <= |whole| && whole[a..a + |part|] == part && from <= to <= |part|
    ensures part[from..to] == whole[a + from..a + to]
  {
    forall j | 0 <= j < |part| ensures part[j] == whole[a + j] {
      assert part[j] == whole[a..a + |part|][j];
    }
  }

  lemma HitInside<P>(es: seq<Entry<P>>, off: nat, hit: Hit)
    requires IsHit(es, off, hit)
    ensures hit.index < |es| && hit.offset < es[hit.index].size && off == Total(es[..hit.index]) + hit.offset
  {
  }

  lemma ReadDelivers(d: Dev, pos: int, count: nat, uncopied: nat) returns (k: nat)
    requires DevOk(d) && ToSize(pos) < |Contents(d)|
    ensures k < |HeldPackets(d)| && Delivers(d, ToSize(pos), count, uncopied, k, Read(d, pos, count, uncopied))
  {
    hide Flatten, Find, IsHit;
    var off := ToSize(pos);
    FindInRange(d, off);
    assert IsHit(Live(d.ring), off, Find(Rotated(d.ring), off).value);
    HitInside(Live(d.ring), off, Find(Rotated(d.ring), off).value);
    var hit := Find(Rotated(d.ring), off).value;
    k := hit.index;
    PacketInterval(d, k);
    var n := Min(|HeldPackets(d)[k]| - hit.offset, count);
    SliceOfSlice(Contents(d), |Flatten(HeldPackets(d)[..k])|, HeldPackets(d)[k],
                 hit.offset, hit.offset + n - Min(uncopied, n));
  }

  /** What a read gives when every byte reaches the user. */
  lemma CleanRead(d: Dev, pos: nat, count: nat)
    requires DevOk(d) && pos < |Contents(d)|
    ensures var (ret, bytes) := Read(d, pos, count, 0);
      && ret == |bytes| <= count && pos + ret <= |Contents(d)|
      && bytes == Contents(d)[pos..pos + ret]
      && (ret == 0 <==> count == 0)
  {
    hide Read, Contents, HeldPackets, Flatten;
    LiveOk(d);
    var k := ReadDelivers(d, pos, count, 0);
  }

  // ----- Reads and history -----

  /** How many published bytes have been evicted. */
  function Evicted(es: seq<Event>): nat {
    var ps := Published(es);
    |Flatten(ps[..|ps| - |LastTen(ps)|])|
  }

  /** The device reads as the published history without the evicted bytes. */
  lemma {:induction false} ContentsAreHistory(es: seq<Event>)
    ensures Evicted(es) <= |Flatten(Published(es))|
    ensures Contents(State(es).dev) == Flatten(Published(es))[Evicted(es)..]
  {
    hide State, Published;
    var ps := Published(es);
    HoldsLastTen(es);
    assert ps == ps[..|ps| - |LastTen(ps)|] + LastTen(ps);
    FlattenConcat(ps[..|ps| - |LastTen(ps)|], LastTen(ps));
  }

  lemma FlattenPrefix(a: seq<seq<byte>>, b: seq<seq<byte>>)
    requires a <= b
    ensures Flatten(a) <= Flatten(b)
  {
    assert b == a + b[|a|..];
    FlattenConcat(a, b[|a|..]);
  }

  lemma PublishedOneMore(es: seq<Event>, e: Event)
    ensures Published(es) <= Published(es + [e])
  {
    Snoc(es, e);
  }

  lemma {:induction false} PublishedGrows(es: seq<Event>, more: seq<Event>)
    ensures Published(es) <= Published(es + more)
  {
    hide State, Published;
    if more == [] {
      assert es + more == es;
    } else {
      var m, e := more[..|more| - 1], more[|more| - 1];
      PublishedGrows(es, m);
      assert es + more == (es + m) + [e];
      PublishedOneMore(es + m, e);
    }
  }

  lemma EvictedPrefix(ps: seq<seq<byte>>, ps': seq<seq<byte>>)
    requires ps <= ps'
    ensures ps[..|ps| - |LastTen(ps)|] <= ps'[..|ps'| - |LastTen(ps')|]
  {
  }

  lemma {:induction false} HistoryGrows(es: seq<Event>, more: seq<Event>)
    ensures Flatten(Published(es)) <= Flatten(Published(es + more))
    ensures Evicted(es) <= Evicted(es + more)
  {
    hide State, Published, Flatten;
    var ps, ps' := Published(es), Published(es + more);
    PublishedGrows(es, more);
    FlattenPrefix(ps, ps');
    EvictedPrefix(ps, ps');
    FlattenPrefix(ps[..|ps| - |LastTen(ps)|], ps'[..|ps'| - |LastTen(ps')|]);
  }

  /** The values a file position (`loff_t`) can take. */
  predicate IsOffset(pos: int) {
    -(SIZE_MOD / 2) <= pos < SIZE_MOD / 2
  }

  lemma ReadStep(s: Sys, h: nat, count: nat, uncopied: nat)
    requires DevOk(s.dev) && !s.dev.locked
    ensures var (ret, bytes) := Read(s.dev, Pos(s, h), count, uncopied);
      var (s', r) := Step(s, ReadEvent(h, count, uncopied));
      r == Returned(ret, bytes) && Pos(s', h) == Pos(s, h) + ret && s'.dev == s.dev
  {
  }

  /**
   In every reachable state a read at position `p` returns published bytes from history index
   `Evicted + p` on; a negative position, or one past the end, reads nothing.
   */
  lemma {:induction false} ReadsSeeHistory(es: seq<Event>, h: nat, count: nat)
    requires !State(es).dev.locked && IsOffset(Pos(State(es), h))
    ensures var p, r := Pos(State(es), h), Step(State(es), ReadEvent(h, count, 0)).1;
      var history, from := Flatten(Published(es)), Evicted(es) + p;
      && r.Returned?
      && (0 <= p && from < |history| ==>
            && from + |r.bytes| <= |history|
            && r.bytes == history[from..from + |r.bytes|]
            && r.ret == |r.bytes| && (r.ret == 0 <==> count == 0))
      && (p < 0 || from >= |history| ==> r == Returned(0, []))
  {
    hide State, Published, Step, Read;
    var d, p := State(es).dev, Pos(State(es), h);
    ContentsAreHistory(es);
    LiveOk(d);
    ReadStep(State(es), h, count, 0);
    if 0 <= p < |Contents(d)| {
      CleanRead(d, p, count);
    } else {
      ReadPastEnd(d, p, count, 0);
    }
  }

  /** While no `krealloc` fails, what is read is what was written: a piece of the accepted stream. */
  lemma {:induction false} ReadsSeeStream(es: seq<Event>, h: nat, count: nat)
    requires NoLoss(es) && !State(es).dev.locked && IsOffset(Pos(State(es), h))
    ensures var from, r := Evicted(es) + Pos(State(es), h), Step(State(es), ReadEvent(h, count, 0)).1;
      r.bytes != [] ==> 0 <= from && from + |r.bytes| <= |Stream(es)| && r.bytes == Stream(es)[from..from + |r.bytes|]
  {
    hide State, Published, Stream, Step, NoLoss, Split, Evicted, CountNewlines;
    ReadsSeeHistory(es, h, count);
    StreamRefinement(es);
  }

  lemma PrefixSlice<T>(a: seq<T>, b: seq<T>, i: nat, j: nat, k: nat)
    requires a <= b && i <= j <= |a| && j <= k <= |b|
    ensures a[i..j] == b[i..j] && a[i..j] + b[j..k] == b[i..k]
  {
  }

  /** The calls on file `h` are writes, and reads whose bytes all reach the user. */
  predicate OnlyTransfers(es: seq<Event>, h: nat) {
    forall i :: 0 <= i < |es| && es[i].h == h ==> es[i].WriteEvent? || (es[i].ReadEvent? && es[i].uncopied == 0)
  }

  /** How many bytes the event takes from or gives to file `h`. */
  function TransferredBy(s: Sys, e: Event, h: nat): nat
    requires DevOk(s.dev)
  {
    var outcome := Step(s, e).1;
    if e.h != h || outcome.Blocked? then 0 else |AcceptedBy(s, e)| + |outcome.bytes|
  }

  function Transferred(es: seq<Event>, h: nat): nat {
    if es == [] then 0 else
      Transferred(es[..|es| - 1], h) + TransferredBy(State(es[..|es| - 1]), es[|es| - 1], h)
  }

  lemma StepTransfers(s: Sys, e: Event, h: nat)
    requires DevOk(s.dev)
    requires e.h == h ==> e.WriteEvent? || (e.ReadEvent? && e.uncopied == 0)
    ensures Pos(Step(s, e).0, h) == Pos(s, h) + TransferredBy(s, e, h)
  {
    AcceptedIsChunk(s, e);
    if e.ReadEvent? {
      ReadLength(s.dev, Pos(s, e.h), e.count);
    }
  }

  lemma ReadLength(d: Dev, pos: int, count: nat)
    requires DevOk(d)
    ensures Read(d, pos, count, 0).0 == |Read(d, pos, count, 0).1|
  {
    hide Find, Contents;
    FindInRange(d, ToSize(pos));
  }

  /** The position of a file that only writes and reads counts the bytes of both. */
  lemma {:induction false} PositionCountsBytes(es: seq<Event>, h: nat)
    requires OnlyTransfers(es, h)
    ensures Pos(State(es), h) == Transferred(es, h)
  {
    if es == [] {
    } else {
      hide Step, TransferredBy;
      PositionCountsBytes(es[..|es| - 1], h);
      StepTransfers(State(es[..|es| - 1]), es[|es| - 1], h);
    }
  }

  // ----- The reads of one file -----

  /** The calls on file `h` are reads whose bytes all reach the user; other files may do anything. */
  predicate OnlyReads(more: seq<Event>, h: nat) {
    forall i :: 0 <= i < |more| && more[i].h == h ==> more[i].ReadEvent? && more[i].uncopied == 0
  }

  /** The bytes the event delivers to file `h`. */
  function GotBy(s: Sys, e: Event, h: nat): seq<byte>
    requires DevOk(s.dev)
  {
    var r := Step(s, e).1;
    if e.h == h && r.Returned? then r.bytes else []
  }

  /** All bytes delivered to file `h` in the calls `more` after the run `es`. */
  function Got(es: seq<Event>, more: seq<Event>, h: nat): seq<byte> {
    if more == [] then [] else
      var m := more[..|more| - 1];
      Got(es, m, h) + GotBy(State(es + m), more[|more| - 1], h)
  }

  lemma GotOneMore(es: seq<Event>, more: seq<Event>, e: Event, h: nat)
    ensures Got(es, more + [e], h) == Got(es, more, h) + GotBy(State(es + more), e, h)
    ensures State(es + (more + [e])) == Step(State(es + more), e).0
  {
    hide Step, GotBy;
    assert (more + [e])[..|more|] == more;
    assert es + (more + [e]) == (es + more) + [e];
    Snoc(es + more, e);
  }

  lemma StepGot(s: Sys, e: Event, h: nat)
    requires DevOk(s.dev) && (e.h == h ==> e.ReadEvent? && e.uncopied == 0)
    ensures Pos(Step(s, e).0, h) == Pos(s, h) + |GotBy(s, e, h)|
  {
    hide Read, Write, FileOffset, FixedSizeLlseek;
    if e.h == h {
      ReadLength(s.dev, Pos(s, h), e.count);
    }
  }

  /** A file that only reads is as far from where it was as bytes were delivered to it. */
  lemma {:induction false} PositionIsGot(es: seq<Event>, more: seq<Event>, h: nat)
    requires OnlyReads(more, h)
    ensures Pos(State(es + more), h) == Pos(State(es), h) + |Got(es, more, h)|
  {
    hide Step, State, GotBy;
    if more == [] {
      assert es + more == es;
    } else {
      var m, e := more[..|more| - 1], more[|more| - 1];
      assert more == m + [e];
      PositionIsGot(es, m, h);
      StepGot(State(es + m), e, h);
      GotOneMore(es, m, e, h);
    }
  }

  /** Where in the published history the bytes delivered by call `i` of `more` start. */
  function StartsAt(es: seq<Event>, more: seq<Event>, h: nat, i: nat): int
    requires i <= |more|
  {
    Evicted(es + more[..i]) + Pos(State(es), h) + |Got(es, more[..i], h)|
  }

  /**
   However many reads a file makes, with any calls on other files between them: every read that
   delivers something delivers the history from the first byte not delivered before, counting on
   from where the file was, and skips in addition exactly what was evicted since. So from one read to
   the next the bytes skipped are the bytes evicted in between.
   */
  lemma {:induction false} ReadsSkipEvicted(es: seq<Event>, more: seq<Event>, h: nat, i: nat)
    requires OnlyReads(more, h) && i < |more| && IsOffset(Pos(State(es + more[..i]), h))
    ensures var b := GotBy(State(es + more[..i]), more[i], h);
      var at, history := StartsAt(es, more, h, i), Flatten(Published(es + more));
      b != [] ==> 0 <= at && at + |b| <= |history| && b == history[at..at + |b|]
    ensures Got(es, more[..i + 1], h) == Got(es, more[..i], h) + GotBy(State(es + more[..i]), more[i], h)
    ensures StartsAt(es, more, h, i + 1) - StartsAt(es, more, h, i) - |GotBy(State(es + more[..i]), more[i], h)| ==
            Evicted(es + more[..i + 1]) - Evicted(es + more[..i]) >= 0
  {
    hide Step, State, Published, Evicted, Flatten, Got;
    var m, e := more[..i], more[i];
    assert more[..i + 1] == m + [e];
    assert es + more == (es + m) + more[i..] && es + (m + [e]) == (es + m) + [e];
    PositionIsGot(es, m, h);
    GotOneMore(es, m, e, h);
    HistoryGrows(es + m, [e]);
    HistoryGrows(es + m, more[i..]);
    if e.h == h && !State(es + m).dev.locked {
      ReadsSeeHistory(es + m, h, e.count);
    } else {
      NothingGot(State(es + m), e, h);
    }
  }

  lemma NothingGot(s: Sys, e: Event, h: nat)
    requires DevOk(s.dev) && (e.h == h ==> e.ReadEvent? && s.dev.locked)
    ensures GotBy(s, e, h) == []
  {
  }

  /** What file `h` got in the calls `more` is one contiguous piece of history, from its position on. */
  ghost predicate Contiguous(es: seq<Event>, more: seq<Event>, h: nat) {
    var history, from := Flatten(Published(es + more)), Evicted(es) + Pos(State(es), h);
    var got := Got(es, more, h);
    0 <= from && from + |got| <= |history| && got == history[from..from + |got|]
  }

  lemma ContiguousGrows(es: seq<Event>, m: seq<Event>, e: Event, h: nat)
    requires OnlyReads(m + [e], h) && Contiguous(es, m, h) && Pos(State(es), h) >= 0
    requires Evicted(es + (m + [e])) == Evicted(es + m) == Evicted(es)
    ensures Contiguous(es, m + [e], h)
  {
    hide Step, State, Published, Evicted, Flatten, Contents, Got, GotBy, DevOk, WellFormed, Live, Rotated, Total;
    var more := m + [e];
    assert more[..|m|] == m && more[|m|] == e && more[..|m| + 1] == more;
    assert es + more == (es + m) + [e];
    PositionIsGot(es, m, h);
    ContentsAreHistory(es + m);
    LiveOk(State(es + m).dev);
    HistoryGrows(es + m, [e]);
    ReadsSkipEvicted(es, more, h, |m|);
    var got, b := Got(es, m, h), GotBy(State(es + m), e, h);
    var from := Evicted(es) + Pos(State(es), h);
    var h0, h1 := Flatten(Published(es + m)), Flatten(Published(es + more));
    assert b == [] ==> got + b == got;
    PrefixSlice(h0, h1, from, from + |got|, from + |got| + |b|);
  }

  /**
   While nothing is evicted, all that a file reads, in any number of reads of any sizes with any calls
   on other files between them, is one contiguous piece of the history, starting at its position.
   */
  lemma {:induction false} ReadsAreContiguous(es: seq<Event>, more: seq<Event>, h: nat)
    requires OnlyReads(more, h)
    requires 0 <= Pos(State(es), h) <= |Contents(State(es).dev)|
    requires Evicted(es + more) == Evicted(es)
    ensures Contiguous(es, more, h)
    ensures Pos(State(es + more), h) == Pos(State(es), h) + |Got(es, more, h)|
  {
    hide Step, State, Published, Evicted, Flatten, Contents, GotBy;
    ContentsAreHistory(es);
    PositionIsGot(es, more, h);
    if more == [] {
      assert es + more == es;
    } else {
      var m, e := more[..|more| - 1], more[|more| - 1];
      assert more == m + [e] && es + more == (es + m) + [e];
      HistoryGrows(es, m);
      HistoryGrows(es + m, [e]);
      ReadsAreContiguous(es, m, h);
      ContiguousGrows(es, m, e, h);
    }
  }

  // ----- Draining -----

  /** Reads one after the other, nothing in between: the bytes delivered and the final position. */
  function Drain(d: Dev, pos: int, counts: seq<nat>): (r: (seq<byte>, int))
    requires DevOk(d)
    decreases |counts|
  {
    if counts == [] then ([], pos) else
      var (ret, bytes) := Read(d, pos, counts[0], 0);
      var (more, end) := Drain(d, pos + ret, counts[1..]);
      (bytes + more, end)
  }

  /** Whatever the read sizes, draining delivers the contents in order, each byte once. */
  lemma {:induction false} DrainIsContiguous(d: Dev, pos: nat, counts: seq<nat>)
    requires DevOk(d) && pos <= |Contents(d)|
    ensures var (bytes, end) := Drain(d, pos, counts);
      pos <= end <= |Contents(d)| && bytes == Contents(d)[pos..end]
    decreases |counts|
  {
    hide Read, Contents;
    LiveOk(d);
    if counts == [] {
    } else {
      if pos < |Contents(d)| {
        CleanRead(d, pos, counts[0]);
      } else {
        ReadPastEnd(d, pos, counts[0], 0);
      }
      DrainIsContiguous(d, pos + Read(d, pos, counts[0], 0).0, counts[1..]);
    }
  }

  lemma {:induction false} DrainReachesEnd(d: Dev, pos: nat, counts: seq<nat>)
    requires DevOk(d) && pos <= |Contents(d)|
    requires forall i :: 0 <= i < |counts| ==> counts[i] > 0
    requires |counts| >= |Contents(d)| - pos
    ensures Drain(d, pos, counts).1 == |Contents(d)|
    decreases |counts|
  {
    hide Read, Contents;
    LiveOk(d);
    if counts == [] {
    } else {
      if pos < |Contents(d)| {
        CleanRead(d, pos, counts[0]);
      } else {
        ReadPastEnd(d, pos, counts[0], 0);
      }
      DrainReachesEnd(d, pos + Read(d, pos, counts[0], 0).0, counts[1..]);
    }
  }

  /** Enough reads of at least one byte each deliver everything; then every read returns 0. */
  lemma DrainDeliversAll(d: Dev, pos: nat, counts: seq<nat>, count: nat)
    requires DevOk(d) && pos <= |Contents(d)|
    requires forall i :: 0 <= i < |counts| ==> counts[i] > 0
    requires |counts| >= |Contents(d)| - pos
    ensures Drain(d, pos, counts) == (Contents(d)[pos..], |Contents(d)|)
    ensures Read(d, Drain(d, pos, counts).1, count, 0) == (0, [])
  {
    hide Read, Contents, Drain;
    DrainIsContiguous(d, pos, counts);
    DrainReachesEnd(d, pos, counts);
    assert Contents(d)[pos..|Contents(d)|] == Contents(d)[pos..];
    LiveOk(d);
    ReadPastEnd(d, |Contents(d)|, count, 0);
  }

  /** A copy that faults moves the position 14 bytes back, whatever was delivered. */
  lemma FaultMovesBack(s: Sys, h: nat, count: nat, uncopied: nat)
    requires DevOk(s.dev) && !s.dev.locked
    requires 0 <= Pos(s, h) < |Contents(s.dev)|
    ensures var (s', r) := Step(s, ReadEvent(h, count, uncopied));
      && (r.ret == -EFAULT <==> uncopied > 0 && count > 0)
      && Pos(s', h) == if uncopied > 0 && count > 0 then Pos(s, h) - 14 else Pos(s, h) + |r.bytes|
  {
    hide Step, Read, Contents, HeldPackets, Flatten;
    LiveOk(s.dev);
    ReadStep(s, h, count, uncopied);
    var k := ReadDelivers(s.dev, Pos(s, h), count, uncopied);
  }
}
