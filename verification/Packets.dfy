/** Byte streams cut into newline-terminated packets, and the store that collects them. */
module Packets {
  import opened Machine
  import opened RingSpec

  /** Position of the first newline, or the length of `s` if there is none. */
  function NewlineIndex(s: seq<byte>): (n: nat)
    ensures n <= |s|
    ensures n < |s| ==> s[n] == NEWLINE
    ensures forall i :: 0 <= i < n ==> s[i] != NEWLINE
  {
    if s == [] || s[0] == NEWLINE then 0 else 1 + NewlineIndex(s[1..])
  }

  lemma {:induction false} NewlineIndexIs(s: seq<byte>, n: nat)
    requires n <= |s| && (n < |s| ==> s[n] == NEWLINE)
    requires forall i :: 0 <= i < n ==> s[i] != NEWLINE
    ensures NewlineIndex(s) == n
  {
    if n > 0 {
      NewlineIndexIs(s[1..], n - 1);
    }
  }

  predicate EndsInNewline(s: seq<byte>) {
    s != [] && s[|s| - 1] == NEWLINE
  }

  /** What one write call takes of `data`: up to and including the first newline. */
  function Chunk(data: seq<byte>): (c: seq<byte>)
    ensures c <= data
    ensures data != [] ==> c != []
    ensures forall i :: 0 <= i < |c| - 1 ==> c[i] != NEWLINE
    ensures EndsInNewline(c) <==> NewlineIndex(data) < |data|
    ensures !EndsInNewline(c) ==> c == data
  {
    if NewlineIndex(data) < |data| then data[..NewlineIndex(data) + 1] else data
  }

  predicate NoNewline(s: seq<byte>) {
    forall i :: 0 <= i < |s| ==> s[i] != NEWLINE
  }

  /** A packet ends in a newline and holds no other. */
  predicate IsPacket(p: seq<byte>) {
    EndsInNewline(p) && forall i :: 0 <= i < |p| - 1 ==> p[i] != NEWLINE
  }

  function Flatten(ps: seq<seq<byte>>): seq<byte> {
    if ps == [] then [] else Flatten(ps[..|ps| - 1]) + ps[|ps| - 1]
  }

  lemma FlattenSnoc(ps: seq<seq<byte>>, p: seq<byte>)
    ensures Flatten(ps + [p]) == Flatten(ps) + p
  {
    assert (ps + [p])[..|ps|] == ps;
  }

  lemma FlattenOne(p: seq<byte>)
    ensures Flatten([p]) == p
  {
    assert [p][..0] == [];
  }

  lemma {:induction false} FlattenConcat(a: seq<seq<byte>>, b: seq<seq<byte>>)
    ensures Flatten(a + b) == Flatten(a) + Flatten(b)
  {
    if b == [] {
      assert a + b == a;
    } else {
      var b' := b[..|b| - 1];
      assert a + b == (a + b') + [b[|b| - 1]];
      FlattenSnoc(a + b', b[|b| - 1]);
      FlattenConcat(a, b');
    }
  }

  // ----- The reference: a stream as its lines -----

  datatype Cut = Cut(lines: seq<seq<byte>>, tail: seq<byte>)

  function Put(c: Cut, b: byte): Cut {
    if b == NEWLINE then Cut(c.lines + [c.tail + [b]], []) else c.(tail := c.tail + [b])
  }

  /** The complete lines of a stream and the bytes after the last of them. */
  function Split(s: seq<byte>): Cut {
    if s == [] then Cut([], []) else Put(Split(s[..|s| - 1]), s[|s| - 1])
  }

  lemma SplitSnoc(s: seq<byte>, b: byte)
    ensures Split(s + [b]) == Put(Split(s), b)
  {
    assert (s + [b])[..|s|] == s;
  }

  ghost predicate IsCut(s: seq<byte>, c: Cut) {
    && Flatten(c.lines) + c.tail == s
    && (forall i :: 0 <= i < |c.lines| ==> IsPacket(c.lines[i]))
    && NoNewline(c.tail)
  }

  lemma {:induction false} PutKeepsCut(s: seq<byte>, c: Cut, b: byte)
    requires IsCut(s, c)
    ensures IsCut(s + [b], Put(c, b))
  {
    hide Flatten;
    var t := c.tail + [b];
    assert s + [b] == Flatten(c.lines) + t;
    if b == NEWLINE {
      FlattenSnoc(c.lines, t);
      assert Flatten(c.lines + [t]) + [] == s + [b];
    }
  }

  lemma {:induction false} SplitIsCut(s: seq<byte>)
    ensures IsCut(s, Split(s))
  {
    if s == [] {
    } else {
      SplitIsCut(s[..|s| - 1]);
      PutKeepsCut(s[..|s| - 1], Split(s[..|s| - 1]), s[|s| - 1]);
      assert s == s[..|s| - 1] + [s[|s| - 1]];
    }
  }

  /** Undoing `Put`: a cut of a non-empty stream comes from one of the stream without its last byte. */
  lemma CutBeforeLast(s: seq<byte>, c: Cut) returns (before: Cut)
    requires IsCut(s, c) && s != []
    ensures IsCut(s[..|s| - 1], before) && Put(before, s[|s| - 1]) == c
  {
    if c.tail != [] {
      var t := c.tail[..|c.tail| - 1];
      before := Cut(c.lines, t);
      assert c.tail == t + [c.tail[|t|]];
      assert s == (Flatten(c.lines) + t) + [c.tail[|t|]];
    } else {
      var ls, l := c.lines[..|c.lines| - 1], c.lines[|c.lines| - 1];
      assert IsPacket(l);
      var t := l[..|l| - 1];
      before := Cut(ls, t);
      assert c.lines == ls + [l] && l == t + [NEWLINE];
      assert s == (Flatten(ls) + t) + [NEWLINE];
    }
  }

  lemma {:induction false} FlattenLength(ps: seq<seq<byte>>)
    requires forall i :: 0 <= i < |ps| ==> IsPacket(ps[i])
    ensures |Flatten(ps)| >= |ps|
  {
    if ps == [] {
    } else {
      FlattenLength(ps[..|ps| - 1]);
      assert IsPacket(ps[|ps| - 1]);
    }
  }

  lemma EmptyCut(c: Cut)
    requires IsCut([], c)
    ensures c == Cut([], [])
  {
    FlattenLength(c.lines);
  }

  /** A stream has one cut only: `Split` is the way to read it as packets. */
  lemma {:induction false} CutUnique(s: seq<byte>, c: Cut)
    requires IsCut(s, c)
    ensures c == Split(s)
  {
    if s == [] {
      EmptyCut(c);
    } else {
      var before := CutBeforeLast(s, c);
      CutUnique(s[..|s| - 1], before);
    }
  }

  function Resume(c: Cut, rest: seq<byte>): Cut {
    var more := Split(c.tail + rest);
    Cut(c.lines + more.lines, more.tail)
  }

  lemma ResumeSnoc(c: Cut, rest: seq<byte>, b: byte)
    ensures Resume(c, rest + [b]) == Put(Resume(c, rest), b)
  {
    assert c.tail + (rest + [b]) == (c.tail + rest) + [b];
    SplitSnoc(c.tail + rest, b);
  }

  lemma OpenTailHasNoLines(t: seq<byte>)
    requires NoNewline(t)
    ensures Split(t) == Cut([], t)
  {
    CutUnique(t, Cut([], t));
  }

  /** Cutting a stream may stop anywhere and go on from what is left over. */
  lemma {:induction false} SplitResumes(a: seq<byte>, b: seq<byte>)
    ensures Split(a + b) == Resume(Split(a), b)
  {
    if b == [] {
      assert a + b == a;
      assert Split(a).tail + b == Split(a).tail;
      SplitIsCut(a);
      OpenTailHasNoLines(Split(a).tail);
    } else {
      var b', x := b[..|b| - 1], b[|b| - 1];
      SplitResumes(a, b');
      assert b == b' + [x];
      ResumeSnoc(Split(a), b', x);
      assert a + b == (a + b') + [x];
      SplitSnoc(a + b', x);
    }
  }

  function CountNewlines(s: seq<byte>): nat {
    if s == [] then 0 else CountNewlines(s[..|s| - 1]) + if s[|s| - 1] == NEWLINE then 1 else 0
  }

  lemma {:induction false} LinesAreNewlines(s: seq<byte>)
    ensures |Split(s).lines| == CountNewlines(s)
  {
    if s != [] {
      LinesAreNewlines(s[..|s| - 1]);
    }
  }

  /** Adding one chunk to an open tail completes one line, or none. */
  lemma SplitTailAndChunk(t: seq<byte>, data: seq<byte>)
    requires NoNewline(t)
    ensures Split(t + Chunk(data)) ==
            if EndsInNewline(Chunk(data)) then Cut([t + Chunk(data)], []) else Cut([], t + Chunk(data))
  {
    var c := Chunk(data);
    if EndsInNewline(c) {
      FlattenOne(t + c);
      CutUnique(t + c, Cut([t + c], []));
    } else {
      OpenTailHasNoLines(t + c);
    }
  }

  // ----- The store: ring and pending bytes -----

  datatype Store = Store(ring: Ring<seq<byte>>, pending: seq<byte>)

  function PacketEntry(p: seq<byte>): Entry<seq<byte>> {
    Entry(p, |p|)
  }

  /** One write call, every allocation granted: the chunk is appended, a full packet published. */
  function Accept(st: Store, data: seq<byte>): Store
    requires InBounds(st.ring)
  {
    var packet := st.pending + Chunk(data);
    if EndsInNewline(Chunk(data)) then Store(AddEntry(st.ring, PacketEntry(packet)), [])
    else Store(st.ring, packet)
  }

  /** Write calls that resubmit what was not taken, until all of `data` is. */
  function Submit(st: Store, data: seq<byte>): (st': Store)
    requires InBounds(st.ring)
    ensures InBounds(st'.ring)
    decreases |data|
  {
    if data == [] then st else Submit(Accept(st, data), data[|Chunk(data)|..])
  }

  /** A caller that cuts its stream into several buffers and submits one after the other. */
  function SubmitAll(st: Store, cuts: seq<seq<byte>>): (st': Store)
    requires InBounds(st.ring)
    ensures InBounds(st'.ring)
  {
    if cuts == [] then st else Submit(SubmitAll(st, cuts[..|cuts| - 1]), cuts[|cuts| - 1])
  }

  function AddPackets(r: Ring<seq<byte>>, ps: seq<seq<byte>>): (r': Ring<seq<byte>>)
    requires InBounds(r)
    ensures InBounds(r')
  {
    if ps == [] then r else AddEntry(AddPackets(r, ps[..|ps| - 1]), PacketEntry(ps[|ps| - 1]))
  }

  lemma {:induction false} AddPacketsConcat(r: Ring<seq<byte>>, a: seq<seq<byte>>, b: seq<seq<byte>>)
    requires InBounds(r)
    ensures AddPackets(r, a + b) == AddPackets(AddPackets(r, a), b)
  {
    if b == [] {
      assert a + b == a;
    } else {
      var b' := b[..|b| - 1];
      assert (a + b)[..|a + b| - 1] == a + b';
      AddPacketsConcat(r, a, b');
    }
  }

  /** The store that has taken a stream: its lines added to the ring, the rest pending. */
  function Taken(ring: Ring<seq<byte>>, c: Cut): Store
    requires InBounds(ring)
  {
    Store(AddPackets(ring, c.lines), c.tail)
  }

  lemma AcceptTakesChunk(st: Store, data: seq<byte>)
    requires InBounds(st.ring) && NoNewline(st.pending)
    ensures Accept(st, data) == Taken(st.ring, Split(st.pending + Chunk(data)))
  {
    SplitTailAndChunk(st.pending, data);
    var packet := st.pending + Chunk(data);
    assert AddPackets(st.ring, [packet]) == AddEntry(AddPackets(st.ring, []), PacketEntry(packet));
  }

  lemma TakenResumes(ring: Ring<seq<byte>>, a: seq<byte>, b: seq<byte>, whole: seq<byte>)
    requires InBounds(ring) && whole == a + b
    ensures var first := Taken(ring, Split(a));
      Taken(ring, Split(whole)) == Taken(first.ring, Split(first.pending + b))
  {
    SplitResumes(a, b);
    AddPacketsConcat(ring, Split(a).lines, Split(Split(a).tail + b).lines);
  }

  /** Submitting bytes adds exactly the lines they complete, and keeps the rest pending. */
  lemma {:induction false} SubmitTakes(st: Store, data: seq<byte>)
    requires InBounds(st.ring) && NoNewline(st.pending)
    ensures Submit(st, data) == Taken(st.ring, Split(st.pending + data))
    decreases |data|
  {
    if data == [] {
      assert st.pending + data == st.pending;
      OpenTailHasNoLines(st.pending);
    } else {
      var chunk := Chunk(data);
      var rest := data[|chunk|..];
      var first := Accept(st, data);
      assert st.pending + data == st.pending + chunk + rest;
      assert first == Taken(st.ring, Split(st.pending + chunk)) by { AcceptTakesChunk(st, data); }
      assert NoNewline(first.pending) by { SplitIsCut(st.pending + chunk); }
      assert Submit(first, rest) == Taken(first.ring, Split(first.pending + rest)) by { SubmitTakes(first, rest); }
      TakenResumes(st.ring, st.pending + chunk, rest, st.pending + data);
    }
  }

  lemma {:induction false} SubmitConcat(st: Store, a: seq<byte>, b: seq<byte>)
    requires InBounds(st.ring) && NoNewline(st.pending)
    ensures Submit(st, a + b) == Submit(Submit(st, a), b)
  {
    var whole := a + b;
    assert st.pending + whole == st.pending + a + b;
    var first := Submit(st, a);
    assert first == Taken(st.ring, Split(st.pending + a)) by { SubmitTakes(st, a); }
    assert NoNewline(first.pending) by { SplitIsCut(st.pending + a); }
    assert Submit(first, b) == Taken(first.ring, Split(first.pending + b)) by { SubmitTakes(first, b); }
    TakenResumes(st.ring, st.pending + a, b, st.pending + whole);
    SubmitTakes(st, whole);
  }

  /** How a stream is cut into write calls does not matter: entries, indices, pending bytes. */
  lemma {:induction false} ChunkingIndependent(st: Store, cuts: seq<seq<byte>>)
    requires InBounds(st.ring) && NoNewline(st.pending)
    ensures SubmitAll(st, cuts) == Submit(st, Flatten(cuts))
  {
    if cuts == [] {
    } else {
      var before := cuts[..|cuts| - 1];
      ChunkingIndependent(st, before);
      SubmitConcat(st, Flatten(before), cuts[|cuts| - 1]);
    }
  }
}
