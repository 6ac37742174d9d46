/**
 What the users of the device can tell from their own calls and the answers to them, without looking at
 the device: where each file is, what a read must return, where a seek must go.
 */
module Client {
  import opened Machine
  import opened RingSpec
  import opened Packets
  import opened Device
  import opened History
  import opened Readers
  import opened Seeks

  /** A call, on the file of that number, with what it meets outside the driver. */
  datatype Call =
    | WriteCall(h: nat, data: seq<byte>, granted: bool, faulted: bool, grown: bool, slack: nat, beyond: nat)
    | ReadCall(h: nat, count: nat, uncopied: nat)
    | LlseekCall(h: nat, offset: int, whence: Whence)
    | SeekToCall(h: nat, cmd: nat, cmdOffset: nat, past: nat)

  /** The event of the state machine is the call; only a write also shows some fresh memory. */
  ghost predicate IsEventOf(e: Event, c: Call) {
    match c
    case WriteCall(h, data, granted, faulted, grown, _, beyond) =>
      exists junk: nat -> byte :: e == WriteEvent(h, data, WriteEnv(granted, faulted, grown, junk, beyond))
    case ReadCall(h, count, uncopied) => e == ReadEvent(h, count, uncopied)
    case LlseekCall(h, offset, whence) => e == LlseekEvent(h, offset, whence)
    case SeekToCall(h, cmd, cmdOffset, past) => e == SeekToEvent(h, cmd, cmdOffset, past)
  }

  /** The run `es` of the state machine is the calls, and answers them with `rs`. */
  ghost predicate Answers(calls: seq<Call>, rs: seq<Outcome>, es: seq<Event>) {
    && |calls| == |rs| == |es|
    && forall k :: 0 <= k < |calls| ==> IsEventOf(es[k], calls[k]) && rs[k] == Step(State(es[..k]), es[k]).1
  }

  lemma AnswersPrefix(calls: seq<Call>, rs: seq<Outcome>, es: seq<Event>, k: nat)
    requires Answers(calls, rs, es) && k <= |calls|
    ensures |calls| == |rs| == |es| && Answers(calls[..k], rs[..k], es[..k])
    ensures k < |calls| ==> IsEventOf(es[k], calls[k]) && rs[k] == Step(State(es[..k]), es[k]).1
  {
    hide State, Step, IsEventOf;
    assert forall j :: 0 <= j < k ==> es[..k][..j] == es[..j];
  }

  // ----- What was sent -----

  /** The bytes a write is told were taken. */
  function TakenBy(c: Call, r: Outcome): seq<byte> {
    if c.WriteCall? && r.Returned? && 0 <= r.ret <= |c.data| then c.data[..r.ret] else []
  }

  /** All bytes the calls were told were taken. */
  function Sent(calls: seq<Call>, rs: seq<Outcome>): seq<byte>
    requires |calls| == |rs|
  {
    if calls == [] then [] else
      var n := |calls| - 1;
      Sent(calls[..n], rs[..n]) + TakenBy(calls[n], rs[n])
  }

  function Lines(calls: seq<Call>, rs: seq<Outcome>): seq<seq<byte>>
    requires |calls| == |rs|
  {
    Split(Sent(calls, rs)).lines
  }

  lemma {:induction false} SentIsStream(calls: seq<Call>, rs: seq<Outcome>, es: seq<Event>)
    requires Answers(calls, rs, es)
    ensures Sent(calls, rs) == Stream(es)
  {
    hide State, Step;
    if calls != [] {
      var n := |calls| - 1;
      AnswersPrefix(calls, rs, es, n);
      SentIsStream(calls[..n], rs[..n], es[..n]);
    }
  }

  /**
   The write was told that there was no memory while the bytes of an unfinished line, the last of
   `sent`, were waiting: they are lost.
   */
  predicate Loses(c: Call, r: Outcome, sent: seq<byte>) {
    && c.WriteCall? && c.granted && |c.data| <= MAX_KMALLOC
    && r == Returned(-ENOMEM, []) && Split(sent).tail != []
  }

  /** No call lost anything. */
  predicate Stored(calls: seq<Call>, rs: seq<Outcome>)
    requires |calls| == |rs|
  {
    forall k :: 0 <= k < |calls| ==> !Loses(calls[k], rs[k], Sent(calls[..k], rs[..k]))
  }

  lemma StoredPrefix(calls: seq<Call>, rs: seq<Outcome>, n: nat)
    requires |calls| == |rs| && n <= |calls| && Stored(calls, rs)
    ensures Stored(calls[..n], rs[..n])
  {
    hide Loses;
    assert forall k :: 0 <= k < n ==> calls[..n][..k] == calls[..k] && rs[..n][..k] == rs[..k];
  }

  lemma {:induction false} LossAnswered(es: seq<Event>, e: Event, c: Call)
    requires NoLoss(es) && IsEventOf(e, c)
    ensures LosesPending(State(es), e) <==> Loses(c, Step(State(es), e).1, Stream(es))
  {
    hide State, Stream, Split, NoLoss, AddEntry, SizeAfterAdd;
    StreamRefinement(es);
  }

  /** What the clients can tell about loss is all there is. */
  lemma {:induction false} StoredNoLoss(calls: seq<Call>, rs: seq<Outcome>, es: seq<Event>)
    requires Answers(calls, rs, es)
    ensures Stored(calls, rs) <==> NoLoss(es)
  {
    hide State, Step, LosesPending, Loses, IsEventOf, Answers, Sent, Stream;
    AnswersPrefix(calls, rs, es, 0);
    if calls != [] {
      var n := |calls| - 1;
      AnswersPrefix(calls, rs, es, n);
      SentIsStream(calls[..n], rs[..n], es[..n]);
      StoredNoLoss(calls[..n], rs[..n], es[..n]);
      StoredLast(calls, rs);
      if NoLoss(es[..n]) {
        LossAnswered(es[..n], es[n], calls[n]);
      }
    }
  }

  lemma StoredLast(calls: seq<Call>, rs: seq<Outcome>)
    requires |calls| == |rs| > 0
    ensures var n := |calls| - 1;
      Stored(calls, rs) <==> Stored(calls[..n], rs[..n]) && !Loses(calls[n], rs[n], Sent(calls[..n], rs[..n]))
  {
    hide Loses, Sent;
    var n := |calls| - 1;
    assert forall k :: 0 <= k < n ==> calls[..n][..k] == calls[..k] && rs[..n][..k] == rs[..k];
    assert forall k :: 0 <= k < n ==> calls[..n][k] == calls[k] && rs[..n][k] == rs[k];
  }

  // ----- Where a file is -----

  /**
   Where a call moves its file: a transfer by what it returns (a faulting read so moves it back), an
   `llseek` to what it returns, a seek by line to what the slots before the one named hold. Up to ten
   lines the slots are the lines (`Seeks.SlotsInOrder`).
   */
  function Moved(pos: int, c: Call, r: Outcome, lines: seq<seq<byte>>): int {
    if r.Blocked? then pos else
    match c
    case WriteCall(_, _, _, _, _, _, _) => if r.ret >= 0 then pos + r.ret else pos
    case ReadCall(_, _, _) => pos + r.ret
    case LlseekCall(_, _, _) => if r.ret >= 0 then r.ret else pos
    case SeekToCall(_, cmd, offset, _) =>
      var slots := Slots(lines);
      if r.ret == 0 then |Flatten(slots[..Min(cmd, |slots|)])| + offset else pos
  }

  /** The position of file `h` after the calls: only its own calls move it. */
  function Position(calls: seq<Call>, rs: seq<Outcome>, h: nat): int
    requires |calls| == |rs|
  {
    if calls == [] then 0 else
      var n := |calls| - 1;
      var pos := Position(calls[..n], rs[..n], h);
      if calls[n].h == h then Moved(pos, calls[n], rs[n], Lines(calls[..n], rs[..n])) else pos
  }

  /** Every seek by line that file `h` made was made while nothing was lost. */
  predicate Certain(calls: seq<Call>, rs: seq<Outcome>, h: nat)
    requires |calls| == |rs|
  {
    forall k :: 0 <= k < |calls| && calls[k].SeekToCall? && calls[k].h == h && rs[k] == Returned(0, []) ==>
      Stored(calls[..k], rs[..k])
  }

  /** While nothing is lost, the device holds the last ten lines, each in its slot. */
  lemma {:induction false} HoldsLines(es: seq<Event>)
    requires NoLoss(es)
    ensures var lines, d := Split(Stream(es)).lines, State(es).dev;
      && Published(es) == lines && HeldPackets(d) == LastTen(lines) && SlotPackets(d) == Slots(lines)
      && forall i :: 0 <= i < |HeldPackets(d)| ==> IsPacket(HeldPackets(d)[i])
  {
    hide State, Published, Stream, Split, NoLoss;
    NoLossMirrors(es);
    StreamRefinement(es);
    HoldsLastTen(es);
    SlotsInRun(es);
  }

  lemma {:induction false} MovedRight(es: seq<Event>, e: Event, c: Call)
    requires IsEventOf(e, c)
    requires c.SeekToCall? && Step(State(es), e).1 == Returned(0, []) ==>
      NoLoss(es)
    ensures var (s, r) := Step(State(es), e);
      Pos(s, c.h) == Moved(Pos(State(es), c.h), c, r, Split(Stream(es)).lines)
  {
    hide State, Published, Stream, Split, NoLoss, Write, Read, FileOffset, FixedSizeLlseek, Flatten, Slots;
    if c.SeekToCall? {
      if Step(State(es), e).1 == Returned(0, []) {
        HoldsLines(es);
        SeekToSlots(State(es).dev, c.cmd, c.cmdOffset, c.past);
      }
    }
  }

  lemma {:induction false} PositionStep(es: seq<Event>, e: Event, c: Call, h: nat)
    requires IsEventOf(e, c)
    requires c.h == h && c.SeekToCall? && Step(State(es), e).1 == Returned(0, []) ==>
      NoLoss(es)
    ensures Pos(State(es + [e]), h) ==
      if c.h == h then Moved(Pos(State(es), h), c, Step(State(es), e).1, Split(Stream(es)).lines)
      else Pos(State(es), h)
  {
    hide State, Step, Stream, Split, NoLoss, Moved, Pos;
    Snoc(es, e);
    if c.h == h {
      MovedRight(es, e, c);
    } else {
      StepIsLocal(State(es), e);
    }
  }

  lemma CertainPrefix(calls: seq<Call>, rs: seq<Outcome>, h: nat, n: nat)
    requires |calls| == |rs| && n <= |calls| && Certain(calls, rs, h)
    ensures Certain(calls[..n], rs[..n], h)
  {
    hide Stored;
    assert forall k :: 0 <= k < n ==> calls[..n][..k] == calls[..k] && rs[..n][..k] == rs[..k];
  }

  lemma CertainLast(calls: seq<Call>, rs: seq<Outcome>, h: nat)
    requires |calls| == |rs| > 0 && Certain(calls, rs, h)
    ensures var n := |calls| - 1;
      calls[n].h == h && calls[n].SeekToCall? && rs[n] == Returned(0, []) ==> Stored(calls[..n], rs[..n])
  {
    hide Stored;
  }

  lemma StoredCertain(calls: seq<Call>, rs: seq<Outcome>, h: nat)
    requires |calls| == |rs| && Stored(calls, rs)
    ensures Certain(calls, rs, h)
  {
    hide Stored;
    forall k | 0 <= k < |calls| ensures Stored(calls[..k], rs[..k]) {
      StoredPrefix(calls, rs, k);
    }
  }

  lemma StartsAtZero(h: nat)
    ensures Pos(State([]), h) == 0
  {
  }

  /** Every file is where its own calls and their answers say. */
  lemma {:induction false} PositionKnown(calls: seq<Call>, rs: seq<Outcome>, es: seq<Event>, h: nat)
    requires Answers(calls, rs, es) && Certain(calls, rs, h)
    ensures Pos(State(es), h) == Position(calls, rs, h)
  {
    hide Step, State, Stream, Sent, IsEventOf, Moved, Split, Pos, NoLoss, Certain, Stored, Answers;
    AnswersPrefix(calls, rs, es, 0);
    if calls == [] {
      StartsAtZero(h);
    } else {
      var n := |calls| - 1;
      AnswersPrefix(calls, rs, es, n);
      CertainPrefix(calls, rs, h, n);
      PositionKnown(calls[..n], rs[..n], es[..n], h);
      SentIsStream(calls[..n], rs[..n], es[..n]);
      StoredNoLoss(calls[..n], rs[..n], es[..n]);
      assert calls[n].h == h && calls[n].SeekToCall? && rs[n] == Returned(0, []) ==> Stored(calls[..n], rs[..n]) by {
        CertainLast(calls, rs, h);
      }
      PositionStep(es[..n], es[n], calls[n], h);
      assert es == es[..n] + [es[n]];
    }
  }

  // ----- What a call must answer -----

  /** The bytes a write takes of `data`: up to and including the first newline, or all. */
  predicate TakesLine(data: seq<byte>, n: nat) {
    && n <= |data| && (n == 0 <==> data == [])
    && (n > 0 ==> NoNewline(data[..n - 1]))
    && (0 < n < |data| ==> data[n - 1] == NEWLINE)
  }

  /** A write, `tail` being the bytes sent since the last newline. */
  ghost predicate WriteRight(c: Call, tail: seq<byte>, r: Outcome)
    requires c.WriteCall?
  {
    && r.Returned? && r.bytes == []
    && if !c.granted || |c.data| > MAX_KMALLOC then r.ret == -ENOMEM
       else if c.faulted && c.data != [] then r.ret == -EFAULT
       else exists n: nat ::
         TakesLine(c.data, n) && r.ret == if c.grown && |tail| + n <= MAX_KMALLOC then n else -ENOMEM
  }

  predicate SliceAt(part: seq<byte>, whole: seq<byte>, from: int) {
    0 <= from && from + |part| <= |whole| && part == whole[from..from + |part|]
  }

  ghost predicate IsSlice(part: seq<byte>, whole: seq<byte>) {
    exists from :: SliceAt(part, whole, from)
  }

  /**
   A read at position `pos`: from there to the end of the line, or `count` bytes, of what was sent,
   counting from the first of the last ten lines; nothing outside these lines. -EFAULT if some bytes
   do not reach the user.
   */
  predicate ReadRight(count: nat, uncopied: nat, pos: int, sent: seq<byte>, r: Outcome) {
    var lines := Split(sent).lines;
    var held := LastTen(lines);
    var from := |Flatten(lines[..|lines| - |held|])| + pos;
    r.Returned? &&
    if 0 <= pos < |Flatten(held)| && count > 0 then
      && |r.bytes| <= count && SliceAt(r.bytes, sent, from)
      && (uncopied > 0 ==> r.ret == -EFAULT)
      && (uncopied == 0 ==>
            && r.ret == |r.bytes| > 0
            && NoNewline(r.bytes[..|r.bytes| - 1])
            && (|r.bytes| == count || EndsInNewline(r.bytes)))
    else r == Returned(0, [])
  }

  /** The field `size` sums the words that evictions found beyond the ring, for the lines from number `m` on. */
  function WordsSince(calls: seq<Call>, rs: seq<Outcome>, m: nat): nat
    requires |calls| == |rs|
  {
    if calls == [] then 0 else
      var n := |calls| - 1;
      WordsSince(calls[..n], rs[..n], m) +
      if EndsInNewline(TakenBy(calls[n], rs[n])) && |Lines(calls[..n], rs[..n])| >= m then calls[n].beyond else 0
  }

  /** The field `size`: all bytes of up to ten lines, and then what `RingSpec.SizeSinceCollapse` says. */
  function SizeField(calls: seq<Call>, rs: seq<Outcome>): int
    requires |calls| == |rs|
  {
    var lines := Lines(calls, rs);
    if |lines| <= CAPACITY then |Flatten(lines)| else
      var m := LastCollapse(|lines|);
      (|Flatten(lines[m..])| - WordsSince(calls, rs, m)) % 0x1_0000_0000_0000_0000
  }

  /** An `llseek` at position `pos`, where the field `size` is `size`. */
  predicate LlseekAnswer(c: Call, pos: int, size: int, r: Outcome)
    requires c.LlseekCall?
  {
    var t := Target(pos, c.offset, c.whence, size);
    r == if (0 <= t <= size < 0x8000_0000_0000_0000) || (c.whence == SeekCur && c.offset == 0 <= pos)
         then Returned(t, []) else Returned(-EINVAL, [])
  }

  /** A seek by line: a byte of the line in that slot, or its end, is accepted. */
  predicate SeekAnswer(c: Call, slots: seq<seq<byte>>, r: Outcome)
    requires c.SeekToCall?
  {
    var limit := if c.cmd < |slots| then |slots[c.cmd]| else if c.cmd < CAPACITY then 0 else c.past;
    r == Returned(if c.cmd <= CAPACITY && c.cmdOffset <= limit then 0 else -EINVAL, [])
  }

  /** An `llseek` was refused: it kept the lock. */
  predicate LockLost(calls: seq<Call>, rs: seq<Outcome>)
    requires |calls| == |rs|
  {
    exists k :: 0 <= k < |calls| && calls[k].LlseekCall? && rs[k].Returned? && rs[k].ret < 0
  }

  /** The call has to wait for the lock. */
  predicate Waits(c: Call, locked: bool) {
    locked && (c.WriteCall? ==> c.granted && |c.data| <= MAX_KMALLOC && !(c.faulted && c.data != []))
  }

  /** What the answer to call `k` must be, given the calls and answers before it. */
  ghost predicate Explained(calls: seq<Call>, rs: seq<Outcome>, k: nat)
    requires k < |calls| == |rs|
  {
    var c, r, before, answers := calls[k], rs[k], calls[..k], rs[..k];
    var sent, pos := Sent(before, answers), Position(before, answers, c.h);
    if Waits(c, LockLost(before, answers)) then r == Blocked else
    Stored(before, answers) ==>
      match c
      case WriteCall(_, _, _, _, _, _, _) => WriteRight(c, Split(sent).tail, r)
      case ReadCall(_, count, uncopied) =>
        r.Returned? && IsSlice(r.bytes, sent) && (IsOffset(pos) ==> ReadRight(count, uncopied, pos, sent, r))
      case LlseekCall(_, _, _) => LlseekAnswer(c, pos, SizeField(before, answers), r)
      case SeekToCall(_, _, _, _) => SeekAnswer(c, Slots(Split(sent).lines), r)
  }

  lemma StepKeepsLock(s: Sys, e: Event, c: Call)
    requires DevOk(s.dev) && IsEventOf(e, c)
    ensures var r := Step(s, e).1;
      Step(s, e).0.dev.locked <==> s.dev.locked || (c.LlseekCall? && r.Returned? && r.ret < 0)
  {
    hide Write, Read, FileOffset;
    StepLock(s, e);
  }

  lemma LockLostLast(calls: seq<Call>, rs: seq<Outcome>)
    requires |calls| == |rs| > 0
    ensures var n := |calls| - 1;
      LockLost(calls, rs) <==>
      LockLost(calls[..n], rs[..n]) || (calls[n].LlseekCall? && rs[n].Returned? && rs[n].ret < 0)
  {
    var n := |calls| - 1;
    if LockLost(calls[..n], rs[..n]) {
      var k :| 0 <= k < n && calls[..n][k].LlseekCall? && rs[..n][k].Returned? && rs[..n][k].ret < 0;
      assert calls[k].LlseekCall? && rs[k].Returned? && rs[k].ret < 0;
    }
    if k :| 0 <= k < n && calls[k].LlseekCall? && rs[k].Returned? && rs[k].ret < 0 {
      assert calls[..n][k].LlseekCall? && rs[..n][k].Returned? && rs[..n][k].ret < 0;
    }
  }

  lemma {:induction false} LockKnown(calls: seq<Call>, rs: seq<Outcome>, es: seq<Event>)
    requires Answers(calls, rs, es)
    ensures State(es).dev.locked <==> LockLost(calls, rs)
  {
    hide Step, State, IsEventOf, Answers, LockLost;
    AnswersPrefix(calls, rs, es, 0);
    if calls == [] {
      NotLockedYet();
    } else {
      LockLostLast(calls, rs);
      var n := |calls| - 1;
      AnswersPrefix(calls, rs, es, n);
      LockKnown(calls[..n], rs[..n], es[..n]);
      StepKeepsLock(State(es[..n]), es[n], calls[n]);
      Snoc(es[..n], es[n]);
      assert es == es[..n] + [es[n]];
    }
  }

  lemma NotLockedYet()
    ensures !State([]).dev.locked && !LockLost([], [])
  {
  }

  lemma WriteAnswered(d: Dev, c: Call, env: WriteEnv)
    requires DevOk(d) && d.pending.Held? && c.WriteCall?
    requires env.granted == c.granted && env.faulted == c.faulted && env.grown == c.grown
    ensures WriteRight(c, d.pending.bytes, Returned(Write(d, c.data, env).1, []))
  {
    assert TakesLine(c.data, |Chunk(c.data)|);
  }

  /** A piece of a packet holds no newline but at its end. */
  lemma PieceOfPacket(packet: seq<byte>, a: nat, b: nat)
    requires IsPacket(packet) && a < b <= |packet|
    ensures NoNewline(packet[a..b][..b - a - 1])
    ensures b == |packet| ==> EndsInNewline(packet[a..b])
  {
  }

  /** The bytes of a read, as a piece of the packet it is in. */
  lemma DeliversPiece(d: Dev, off: nat, count: nat, k: nat, r: (int, seq<byte>))
    requires DevOk(d) && k < |HeldPackets(d)| && IsPacket(HeldPackets(d)[k]) && count > 0
    requires Delivers(d, off, count, 0, k, r)
    ensures r.0 == |r.1| > 0 && NoNewline(r.1[..|r.1| - 1]) && (|r.1| == count || EndsInNewline(r.1))
  {
    hide Flatten, Contents, HeldPackets;
    PacketInterval(d, k);
    var a := |Flatten(HeldPackets(d)[..k])|;
    SliceOfSlice(Contents(d), a, HeldPackets(d)[k], off - a, off - a + |r.1|);
    PieceOfPacket(HeldPackets(d)[k], off - a, off - a + |r.1|);
  }

  lemma SliceMoves(part: seq<byte>, a: seq<byte>, at: nat, whole: seq<byte>, from: nat)
    requires at <= |a| && SliceAt(part, a[at..], from) && a <= whole
    ensures SliceAt(part, whole, at + from)
  {
  }

  /** What a run without loss holds, as a part of what was sent. */
  lemma {:induction false} ContentsSent(es: seq<Event>)
    requires NoLoss(es)
    ensures var lines, d := Split(Stream(es)).lines, State(es).dev;
      var history := Flatten(lines);
      && Evicted(es) == |Flatten(lines[..|lines| - |LastTen(lines)|])| <= |history|
      && Contents(d) == Flatten(LastTen(lines)) == history[Evicted(es)..] && history <= Stream(es)
  {
    hide State, Published, Stream, Split, NoLoss, Flatten;
    HoldsLines(es);
    ContentsAreHistory(es);
    StreamRefinement(es);
  }

  lemma {:induction false} ReadInside(es: seq<Event>, h: nat, count: nat, uncopied: nat)
    requires NoLoss(es) && !State(es).dev.locked && ToSize(Pos(State(es), h)) < |Contents(State(es).dev)|
    ensures var r := Step(State(es), ReadEvent(h, count, uncopied)).1;
      && r.Returned? && |r.bytes| <= count
      && SliceAt(r.bytes, Stream(es), Evicted(es) + ToSize(Pos(State(es), h)))
      && (count > 0 && uncopied > 0 ==> r.ret == -EFAULT)
      && (count == 0 ==> r.ret == 0)
      && (count > 0 && uncopied == 0 ==>
            r.ret == |r.bytes| > 0 && NoNewline(r.bytes[..|r.bytes| - 1]) &&
            (|r.bytes| == count || EndsInNewline(r.bytes)))
  {
    hide State, Published, Stream, Split, NoLoss, Step, Read, Contents, HeldPackets, Evicted, Flatten, LastTen;
    var d, off := State(es).dev, ToSize(Pos(State(es), h));
    ReadStep(State(es), h, count, uncopied);
    HoldsLines(es);
    ContentsSent(es);
    var k := ReadDelivers(d, Pos(State(es), h), count, uncopied);
    var bytes := Read(d, Pos(State(es), h), count, uncopied).1;
    assert SliceAt(bytes, Contents(d), off);
    SliceMoves(bytes, Flatten(Split(Stream(es)).lines), Evicted(es), Stream(es), off);
    if count > 0 && uncopied == 0 {
      DeliversPiece(d, off, count, k, Read(d, Pos(State(es), h), count, uncopied));
    }
  }

  lemma {:induction false} ReadOutside(es: seq<Event>, h: nat, count: nat, uncopied: nat)
    requires !State(es).dev.locked && ToSize(Pos(State(es), h)) >= |Contents(State(es).dev)|
    ensures Step(State(es), ReadEvent(h, count, uncopied)).1 == Returned(0, [])
  {
    hide State, Step, Read, Contents;
    ReadStep(State(es), h, count, uncopied);
    ReadPastEnd(State(es).dev, Pos(State(es), h), count, uncopied);
  }

  lemma {:induction false} ReadAnswered(es: seq<Event>, h: nat, count: nat, uncopied: nat)
    requires NoLoss(es) && !State(es).dev.locked
    ensures var pos, r := Pos(State(es), h), Step(State(es), ReadEvent(h, count, uncopied)).1;
      && r.Returned? && IsSlice(r.bytes, Stream(es))
      && (IsOffset(pos) ==> ReadRight(count, uncopied, pos, Stream(es), r))
  {
    hide State, Stream, Split, NoLoss, Step, Contents, Evicted, Flatten, LastTen;
    hide Live, Rotated, Total, HeldPackets, EndsInNewline, NoNewline;
    var d, pos := State(es).dev, Pos(State(es), h);
    ContentsSent(es);
    LiveOk(d);
    if ToSize(pos) < |Contents(d)| {
      ReadInside(es, h, count, uncopied);
    } else {
      ReadOutside(es, h, count, uncopied);
      assert SliceAt([], Stream(es), 0);
    }
  }

  /** A call completes a line just if the bytes it is told were taken end in a newline. */
  lemma {:induction false} LineCompleted(s: Sys, e: Event, c: Call)
    requires DevOk(s.dev) && IsEventOf(e, c)
    ensures PublishedBy(s, e) != [] <==> EndsInNewline(TakenBy(c, Step(s, e).1))
    ensures PublishedBy(s, e) != [] ==> c.WriteCall? && e.env.beyond == c.beyond
  {
    hide Step;
    AcceptedIsChunk(s, e);
  }

  lemma {:induction false} WordsKnown(calls: seq<Call>, rs: seq<Outcome>, es: seq<Event>, m: nat)
    requires Answers(calls, rs, es) && NoLoss(es)
    ensures var words := ForeignWords(es);
      WordsSince(calls, rs, m) == if m <= |words| then Sum(words[m..]) else 0
  {
    hide Step, State, Stream, Split, Answers, Published, IsEventOf, PublishedBy, Sum, LosesPending, TakenBy;
    AnswersPrefix(calls, rs, es, 0);
    if calls == [] {
      NoWords(m);
    } else {
      var n := |calls| - 1;
      AnswersPrefix(calls, rs, es, n);
      WordsKnown(calls[..n], rs[..n], es[..n], m);
      SentIsStream(calls[..n], rs[..n], es[..n]);
      HoldsLines(es[..n]);
      LineCompleted(State(es[..n]), es[n], calls[n]);
      WordsOneMore(ForeignWords(es[..n]), calls[n], m);
      assert ForeignWords(es[..n]) + [] == ForeignWords(es[..n]);
    }
  }

  lemma NoWords(m: nat)
    ensures ForeignWords([]) == [] && (m == 0 ==> Sum(ForeignWords([])[m..]) == 0)
  {
  }

  lemma WordsOneMore(words: seq<nat>, c: Call, m: nat)
    ensures c.WriteCall? ==>
      var longer := words + [c.beyond];
      (if m <= |longer| then Sum(longer[m..]) else 0) ==
      (if m <= |words| then Sum(words[m..]) else 0) + if m <= |words| then c.beyond else 0
  {
    if c.WriteCall? {
      var longer := words + [c.beyond];
      if m <= |words| {
        SumSnoc(longer, m);
        assert longer[..|words|] == words;
      } else if m == |words| + 1 {
        assert longer[m..] == [];
      }
    }
  }

  /** The field `size` in a run without loss. */
  lemma {:induction false} SizeKnown(calls: seq<Call>, rs: seq<Outcome>, es: seq<Event>)
    requires Answers(calls, rs, es) && Stored(calls, rs)
    ensures State(es).dev.size == SizeField(calls, rs)
  {
    hide Step, State, Stream, Split, Answers, Published, Stored, NoLoss, Sum, ForeignWords, Flatten, WordsSince;
    StoredNoLoss(calls, rs, es);
    SentIsStream(calls, rs, es);
    HoldsLines(es);
    SizeInRun(es);
    if |Published(es)| > CAPACITY {
      SizeInLongRun(es);
      WordsKnown(calls, rs, es, LastCollapse(|Published(es)|));
    }
  }

  lemma {:induction false} SeekToAnswered(es: seq<Event>, c: Call)
    requires NoLoss(es) && !State(es).dev.locked && c.SeekToCall?
    ensures SeekAnswer(c, Slots(Split(Stream(es)).lines),
                       Step(State(es), SeekToEvent(c.h, c.cmd, c.cmdOffset, c.past)).1)
  {
    hide State, Published, Stream, Split, NoLoss, Write, Read, FileOffset, FixedSizeLlseek, Flatten, Slots;
    HoldsLines(es);
    SeekToSlots(State(es).dev, c.cmd, c.cmdOffset, c.past);
  }

  lemma {:induction false} WriteAnsweredInRun(es: seq<Event>, e: Event, c: Call)
    requires NoLoss(es) && IsEventOf(e, c) && c.WriteCall? && !Waits(c, State(es).dev.locked)
    ensures WriteRight(c, Split(Stream(es)).tail, Step(State(es), e).1)
  {
    hide State, Stream, Split, NoLoss, Write, WriteRight;
    StreamRefinement(es);
    WriteAnswered(State(es).dev, c, e.env);
  }

  lemma {:induction false} WaitingBlocks(s: Sys, e: Event, c: Call)
    requires DevOk(s.dev) && IsEventOf(e, c) && Waits(c, s.dev.locked)
    ensures Step(s, e) == (s, Blocked)
  {
  }

  /** One call after a run without loss. */
  lemma {:induction false} AnsweredRight(es: seq<Event>, e: Event, c: Call)
    requires NoLoss(es) && IsEventOf(e, c) && !Waits(c, State(es).dev.locked)
    ensures var pos, sent, r := Pos(State(es), c.h), Stream(es), Step(State(es), e).1;
      match c
      case WriteCall(_, _, _, _, _, _, _) => WriteRight(c, Split(sent).tail, r)
      case ReadCall(_, count, uncopied) =>
        r.Returned? && IsSlice(r.bytes, sent) && (IsOffset(pos) ==> ReadRight(count, uncopied, pos, sent, r))
      case LlseekCall(_, _, _) => LlseekAnswer(c, pos, State(es).dev.size, r)
      case SeekToCall(_, _, _, _) => SeekAnswer(c, Slots(Split(sent).lines), r)
  {
    hide Step, State, Stream, Split, NoLoss, WriteRight, ReadRight, SeekAnswer, IsSlice, Slots;
    match c
    case WriteCall(_, _, _, _, _, _, _) => WriteAnsweredInRun(es, e, c);
    case ReadCall(h, count, uncopied) => ReadAnswered(es, h, count, uncopied);
    case LlseekCall(h, offset, whence) => LlseekIff(State(es), h, offset, whence);
    case SeekToCall(_, _, _, _) => SeekToAnswered(es, c);
  }

  /** Every call on the device is answered as the calls and answers before it say. */
  lemma {:induction false} AllExplained(calls: seq<Call>, rs: seq<Outcome>, es: seq<Event>, k: nat)
    requires Answers(calls, rs, es) && k < |calls|
    ensures Explained(calls, rs, k)
  {
    hide Step, State, Stream, Split, NoLoss, Answers, Stored, Certain, LockLost, Position, Sent, SizeField;
    hide WriteRight, ReadRight, LlseekAnswer, SeekAnswer, IsSlice, Waits, Slots;
    AnswersPrefix(calls, rs, es, k);
    var c, before, answers := calls[k], calls[..k], rs[..k];
    LockKnown(before, answers, es[..k]);
    SentIsStream(before, answers, es[..k]);
    if Waits(c, LockLost(before, answers)) {
      WaitingBlocks(State(es[..k]), es[k], c);
    } else if Stored(before, answers) {
      StoredNoLoss(before, answers, es[..k]);
      StoredCertain(before, answers, c.h);
      PositionKnown(before, answers, es[..k], c.h);
      SizeKnown(before, answers, es[..k]);
      AnsweredRight(es[..k], es[k], c);
    }
  }

  /** Up to ten lines a seek goes to the byte it names, counting lines from the first one sent. */
  lemma SeekFirstTen(calls: seq<Call>, rs: seq<Outcome>, k: nat)
    requires k < |calls| == |rs| && Explained(calls, rs, k)
    requires calls[k].SeekToCall? && !LockLost(calls[..k], rs[..k]) && Stored(calls[..k], rs[..k])
    requires var c, lines := calls[k], Lines(calls[..k], rs[..k]);
      |lines| <= CAPACITY && c.cmd < |lines| && c.cmdOffset < |lines[c.cmd]|
    ensures var c, lines := calls[k], Lines(calls[..k], rs[..k]);
      && rs[k] == Returned(0, [])
      && Position(calls[..k + 1], rs[..k + 1], c.h) == |Flatten(lines[..c.cmd])| + c.cmdOffset
  {
    hide Sent, Split, Stored, LockLost, Slots;
    SlotsInOrder(Lines(calls[..k], rs[..k]));
    assert calls[..k + 1][..k] == calls[..k] && rs[..k + 1][..k] == rs[..k];
  }

  /** Every write brings bytes. */
  predicate NoneEmpty(calls: seq<Call>) {
    forall k :: 0 <= k < |calls| && calls[k].WriteCall? ==> calls[k].data != []
  }

  /** While nothing is lost and every write brings bytes: one block a line, and one for the rest. */
  lemma {:induction false} MemoryTaken(calls: seq<Call>, rs: seq<Outcome>, es: seq<Event>)
    requires Answers(calls, rs, es) && Stored(calls, rs) && NoneEmpty(calls)
    ensures var left := Split(Sent(calls, rs));
      Blocks(es) == |left.lines| + (if left.tail == [] then 0 else 1)
  {
    hide State, Published, Step, Split, Stream, Sent, NoLoss, CountOrphans;
    SentIsStream(calls, rs, es);
    StoredNoLoss(calls, rs, es);
    HoldsLines(es);
    StreamRefinement(es);
    NoOrphans(es);
  }

  // ----- In numbers -----

  /** The errors by their numbers, the newline by its code, the greatest packet by its size. */
  lemma NumbersOfWrite(s: Sys, h: nat, data: seq<byte>, env: WriteEnv)
    requires DevOk(s.dev) && !s.dev.locked
    ensures var r, n := Step(s, WriteEvent(h, data, env)).1, PendingSize(s.dev.pending);
      && (!env.granted || |data| >= 0x1_0000_0000 ==> r == Returned(-12, []))
      && (env.granted && |data| < 0x1_0000_0000 && env.faulted && data != [] ==> r == Returned(-14, []))
      && (env.granted && |data| < 0x1_0000_0000 && !env.faulted && !env.grown ==> r == Returned(-12, []))
      && (env.granted && !env.faulted && env.grown && n + |data| < 0x1_0000_0000 ==>
            r.Returned? && 0 <= r.ret <= |data| &&
            (r.ret < |data| <==> exists i :: 0 <= i < |data| - 1 && data[i] == 10))
  {
    hide Read, FileOffset, FixedSizeLlseek, AddEntry, SizeAfterAdd;
    var c := Chunk(data);
    if EndsInNewline(c) {
      assert data[|c| - 1] == 10;
    }
  }

  lemma FirstLine(data: seq<byte>)
    requires data == [97, 10, 98]
    ensures Chunk(data) == [97, 10] && EndsInNewline(Chunk(data)) && IsPacket([97, 10])
  {
    NewlineIndexIs(data, 1);
  }

  lemma {:induction false} FirstWrite(h: nat, g: nat, env: WriteEnv)
    requires env.granted && !env.faulted && env.grown && h != g
    ensures var e := WriteEvent(h, [97, 10, 98], env);
      && Step(State([]), e).1 == Returned(2, [])
      && Published([e]) == [[97, 10]] && Stream([e]) == [97, 10]
      && NoLoss([e]) && !State([e]).dev.locked && Pos(State([e]), g) == 0
  {
    hide Chunk, NewlineIndex, AddEntry, SizeAfterAdd, Published, Stream, NoLoss;
    var e := WriteEvent(h, [97, 10, 98], env);
    FirstLine(e.data);
    assert [] + [e] == [e] && [] + [97, 10] == [97, 10];
    assert Published([]) == [] && Stream([]) == [] && NoLoss([]) by { NothingYet(); }
    Snoc([], e);
    AcceptedIsChunk(State([]), e);
    NoLossSnoc([], e);
    StepIsLocal(State([]), e);
  }

  lemma NothingYet()
    ensures Published([]) == [] && Stream([]) == [] && NoLoss([])
  {
  }

  /** One write of "a", newline, "b" takes two bytes; another file reads them back. */
  lemma {:induction false} FirstPacket(h: nat, g: nat, count: nat, env: WriteEnv)
    requires env.granted && !env.faulted && env.grown && h != g && count >= 2
    ensures var e := WriteEvent(h, [97, 10, 98], env);
      && Step(State([]), e).1 == Returned(2, [])
      && Step(State([e]), ReadEvent(g, count, 0)).1 == Returned(2, [97, 10])
  {
    hide Step, State, Published, Stream, NoLoss, Read, Write;
    var e := WriteEvent(h, [97, 10, 98], env);
    FirstWrite(h, g, env);
    HoldsLastTen([e]);
    FlattenOne([97, 10]);
    assert Published([e])[..0] == [];
    ReadInside([e], g, count, 0);
  }
}
