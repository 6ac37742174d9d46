/**
 The ring of the last ten packets, as a value: what the slots hold, how an entry is added,
 how an offset into the concatenated entries is searched for. An entry is a pointer of some
 type `P` and a byte count; nothing here looks behind the pointer.
 */
module RingSpec {
  import opened Machine

  /** AESDCHAR_MAX_WRITE_OPERATIONS_SUPPORTED */
  const CAPACITY: nat := 10

  datatype Entry<+P> = Entry(buffptr: P, size: nat)

  /** The ring without its `size` field, which `SizeAfterAdd` follows separately. */
  datatype Ring<+P> = Ring(entry: seq<Entry<P>>, inOffs: nat, outOffs: nat, full: bool)

  /** A search result: which entry, counted from the oldest, and which byte of it. */
  datatype Hit = Hit(index: nat, offset: nat)

  function Init<P>(nil: P): Ring<P> {
    Ring(seq(CAPACITY, i => Entry(nil, 0)), 0, 0, false)
  }

  predicate InBounds<P>(r: Ring<P>) {
    |r.entry| == CAPACITY && r.inOffs < CAPACITY && r.outOffs < CAPACITY
  }

  /** What every ring built by `AddEntry` from `Init(nil)` satisfies; see `ClosedForm`. */
  ghost predicate WellFormed<P>(r: Ring<P>, nil: P) {
    && InBounds(r)
    && (r.full ==> r.inOffs == r.outOffs)
    && (!r.full ==> r.outOffs == 0)
    && forall k :: !r.full && r.inOffs <= k < CAPACITY ==> r.entry[k] == Entry(nil, 0)
  }

  function Count<P>(r: Ring<P>): (n: nat)
    requires InBounds(r)
  {
    if r.full then CAPACITY
    else if r.outOffs <= r.inOffs then r.inOffs - r.outOffs
    else r.inOffs + CAPACITY - r.outOffs
  }

  /** All ten slots, starting at the output slot: the order in which the search visits them. */
  function Rotated<P>(r: Ring<P>): (es: seq<Entry<P>>)
    requires InBounds(r)
    ensures |es| == CAPACITY
  {
    r.entry[r.outOffs..] + r.entry[..r.outOffs]
  }

  /** The slot the search visits `i`-th, and the one after it. */
  lemma RotatedAt<P>(r: Ring<P>, i: nat)
    requires InBounds(r) && i < CAPACITY
    ensures Rotated(r)[i] == r.entry[(r.outOffs + i) % CAPACITY]
    ensures ((r.outOffs + i) % CAPACITY + 1) % CAPACITY == (r.outOffs + i + 1) % CAPACITY
  {
  }

  /** The live entries, oldest first. */
  function Live<P>(r: Ring<P>): (es: seq<Entry<P>>)
    requires InBounds(r)
    ensures |es| == Count(r) <= CAPACITY
  {
    Rotated(r)[..Count(r)]
  }

  /** The slot after `i`, going round. */
  function Next(i: nat): (n: nat)
    requires i < CAPACITY
    ensures n == if i == CAPACITY - 1 then 0 else i + 1
  {
    (i + 1) % CAPACITY
  }

  function AddEntry<P>(r: Ring<P>, e: Entry<P>): Ring<P>
    requires InBounds(r)
  {
    var inOffs := Next(r.inOffs);
    var outOffs := if r.full then inOffs else r.outOffs;
    Ring(r.entry[r.inOffs := e], inOffs, outOffs, outOffs == inOffs)
  }

  /** The queue the ring stands for: at most ten entries, the oldest dropped first. */
  function Push<T>(q: seq<T>, e: T): seq<T> {
    if |q| < CAPACITY then q + [e] else q[1..] + [e]
  }

  function LastTen<T>(s: seq<T>): seq<T> {
    if |s| <= CAPACITY then s else s[|s| - CAPACITY..]
  }

  lemma LastTenPush<T>(s: seq<T>, e: T)
    ensures LastTen(s + [e]) == Push(LastTen(s), e)
  {
  }

  lemma AddRotates<P>(r: Ring<P>, e: Entry<P>)
    requires InBounds(r) && r.full && r.inOffs == r.outOffs
    ensures Rotated(AddEntry(r, e)) == Rotated(r)[1..] + [e]
  {
    hide Rotated;
    var r' := AddEntry(r, e);
    forall k | 0 <= k < CAPACITY ensures Rotated(r')[k] == (Rotated(r)[1..] + [e])[k] {
      RotatedAt(r', k);
      if k + 1 < CAPACITY {
        RotatedAt(r, k + 1);
      }
    }
  }

  /** One add is one `Push` on the live entries, and keeps the ring well formed. */
  lemma AddEntryPushes<P>(r: Ring<P>, nil: P, e: Entry<P>)
    requires WellFormed(r, nil)
    ensures WellFormed(AddEntry(r, e), nil)
    ensures Live(AddEntry(r, e)) == Push(Live(r), e)
  {
    var r' := AddEntry(r, e);
    if r.full {
      hide Rotated;
      AddRotates(r, e);
      assert Live(r') == Rotated(r') && Live(r) == Rotated(r);
    } else {
      assert Live(r) == r.entry[..r.inOffs];
      assert Live(r') == r.entry[..r.inOffs] + [e];
    }
  }

  function AfterAdds<P>(nil: P, es: seq<Entry<P>>): (r: Ring<P>)
    ensures InBounds(r)
  {
    if es == [] then Init(nil) else AddEntry(AfterAdds(nil, es[..|es| - 1]), es[|es| - 1])
  }

  lemma {:induction false} AddsKeepLastTen<P>(nil: P, es: seq<Entry<P>>)
    ensures WellFormed(AfterAdds(nil, es), nil)
    ensures Live(AfterAdds(nil, es)) == LastTen(es)
  {
    if es == [] {
    } else {
      var before := es[..|es| - 1];
      var e := es[|es| - 1];
      AddsKeepLastTen(nil, before);
      AddEntryPushes(AfterAdds(nil, before), nil, e);
      LastTenPush(before, e);
      assert es == before + [e];
    }
  }

  /** The ring after any number of adds, index for index. */
  lemma {:induction false} ClosedForm<P>(nil: P, es: seq<Entry<P>>)
    ensures var r := AfterAdds(nil, es);
      && r.inOffs == |es| % CAPACITY
      && r.outOffs == (if |es| < CAPACITY then 0 else |es| % CAPACITY)
      && (r.full <==> |es| >= CAPACITY)
      && WellFormed(r, nil)
      && Live(r) == LastTen(es)
  {
    hide Live, Rotated, LastTen;
    if es == [] {
    } else {
      ClosedForm(nil, es[..|es| - 1]);
    }
    AddsKeepLastTen(nil, es);
  }

  /** Of `n` adds, the last that went into slot `k`. */
  function LastInto(n: nat, k: nat): (i: nat)
    requires k < CAPACITY && k < n
    ensures i < n <= i + CAPACITY && i % CAPACITY == k
  {
    n - 1 - (n - 1 - k) % CAPACITY
  }

  lemma LastIntoNext(n: nat, k: nat)
    requires k < CAPACITY && k <= n
    ensures LastInto(n + 1, k) == if n % CAPACITY == k then n else LastInto(n, k)
  {
  }

  /** What is in each slot after any number of adds. */
  lemma {:induction false} SlotHolds<P>(nil: P, es: seq<Entry<P>>, k: nat)
    requires k < CAPACITY
    ensures AfterAdds(nil, es).entry[k] == if k < |es| then es[LastInto(|es|, k)] else Entry(nil, 0)
  {
    if es == [] {
    } else {
      hide LastInto;
      var n := |es| - 1;
      SlotHolds(nil, es[..n], k);
      assert AfterAdds(nil, es[..n]).inOffs == n % CAPACITY by { ClosedForm(nil, es[..n]); }
      if k <= n {
        LastIntoNext(n, k);
      }
    }
  }

  // ----- Sizes -----

  function Total<P>(es: seq<Entry<P>>): nat {
    if es == [] then 0 else Total(es[..|es| - 1]) + es[|es| - 1].size
  }

  lemma TotalSnoc<P>(es: seq<Entry<P>>, e: Entry<P>)
    ensures Total(es + [e]) == Total(es) + e.size
  {
    assert (es + [e])[..|es|] == es;
  }

  lemma {:induction false} TotalConcat<P>(a: seq<Entry<P>>, b: seq<Entry<P>>)
    ensures Total(a + b) == Total(a) + Total(b)
  {
    if b == [] {
      assert a + b == a;
    } else {
      var b' := b[..|b| - 1];
      assert a + b == (a + b') + [b[|b| - 1]];
      TotalSnoc(a + b', b[|b| - 1]);
      TotalConcat(a, b');
    }
  }

  lemma PrefixStep<P>(es: seq<Entry<P>>, k: nat)
    requires k < |es|
    ensures Total(es[..k + 1]) == Total(es[..k]) + es[k].size
  {
    assert es[..k + 1][..k] == es[..k];
  }

  lemma PrefixMonotone<P>(es: seq<Entry<P>>, i: nat, j: nat)
    requires i <= j <= |es|
    ensures Total(es[..i]) <= Total(es[..j]) <= Total(es)
  {
    assert es[..j] == es[..i] + es[i..j];
    TotalConcat(es[..i], es[i..j]);
    assert es == es[..j] + es[j..];
    TotalConcat(es[..j], es[j..]);
  }

  lemma {:induction false} TotalOfEmpties<P>(es: seq<Entry<P>>)
    requires forall i :: 0 <= i < |es| ==> es[i].size == 0
    ensures Total(es) == 0
  {
    if es != [] {
      TotalOfEmpties(es[..|es| - 1]);
    }
  }

  lemma TotalPositive<P>(es: seq<Entry<P>>)
    requires es != [] && es[0].size > 0
    ensures Total(es) > 0
  {
    PrefixStep(es, 0);
    PrefixMonotone(es, 1, |es|);
  }

  lemma {:induction false} SameSizesSameTotal<P, Q>(a: seq<Entry<P>>, b: seq<Entry<Q>>)
    requires |a| == |b| && forall i :: 0 <= i < |a| ==> a[i].size == b[i].size
    ensures Total(a) == Total(b)
  {
    if a != [] {
      SameSizesSameTotal(a[..|a| - 1], b[..|b| - 1]);
    }
  }

  lemma {:induction false} TotalBound<P>(es: seq<Entry<P>>, bound: nat)
    requires forall i :: 0 <= i < |es| ==> es[i].size <= bound
    ensures Total(es) <= |es| * bound
  {
    if es == [] {
    } else {
      TotalBound(es[..|es| - 1], bound);
      assert |es| * bound == (|es| - 1) * bound + bound;
    }
  }

  /** Slots that hold no live entry are empty, so scanning all ten is harmless. */
  lemma RotatedIsLive<P>(r: Ring<P>, nil: P)
    requires WellFormed(r, nil)
    ensures Live(r) <= Rotated(r)
    ensures forall k :: Count(r) <= k < CAPACITY ==> Rotated(r)[k] == Entry(nil, 0)
    ensures Total(Rotated(r)) == Total(Live(r))
  {
    var es := Rotated(r);
    assert es == Live(r) + es[Count(r)..];
    TotalConcat(Live(r), es[Count(r)..]);
    TotalOfEmpties(es[Count(r)..]);
  }

  // ----- The `size` field -----

  /**
   `size` after one add. On eviction the code reads `buffer[buffer->out_offs].size`, which
   indexes ring structs rather than entries: slot 0 is this very ring, whose size was just
   increased, and any other index lies past it, at a word the code does not own (`beyond`).
   */
  function SizeAfterAdd<P>(r: Ring<P>, size: nat, added: nat, beyond: nat): nat {
    var grown := AddSize(size, added);
    if r.full then SubSize(grown, if r.outOffs == 0 then grown else beyond) else grown
  }

  function SizeAfterAdds<P>(nil: P, es: seq<Entry<P>>, beyond: seq<nat>): nat
    requires |beyond| == |es|
  {
    if es == [] then 0 else
      var n := |es| - 1;
      SizeAfterAdd(AfterAdds(nil, es[..n]), SizeAfterAdds(nil, es[..n], beyond[..n]), es[n].size, beyond[n])
  }

  lemma {:induction false} PushTotal<P>(q: seq<Entry<P>>, e: Entry<P>)
    requires |q| <= CAPACITY
    ensures Total(Push(q, e)) == Total(q) + e.size - (if |q| < CAPACITY then 0 else q[0].size)
  {
    if |q| < CAPACITY {
      TotalSnoc(q, e);
    } else {
      TotalSnoc(q[1..], e);
      assert q == q[..1] + q[1..];
      TotalConcat(q[..1], q[1..]);
      PrefixStep(q, 0);
    }
  }

  lemma OldestEntry<P>(r: Ring<P>)
    requires InBounds(r) && r.full
    ensures Live(r)[0] == r.entry[r.outOffs]
  {
  }

  /**
   When an add keeps `size` equal to the bytes held, exactly: while nothing is evicted; and on
   eviction, from slot 0 only if the evicted entry held every byte and the new one holds none,
   from another slot only if the foreign word happens to equal the evicted entry's size.
   */
  lemma SizeTracksIff<P>(r: Ring<P>, nil: P, size: nat, e: Entry<P>, beyond: nat)
    requires WellFormed(r, nil)
    requires size == Total(Live(r))
    requires size + e.size < SIZE_MOD && beyond < SIZE_MOD
    ensures SizeAfterAdd(r, size, e.size, beyond) == Total(Live(AddEntry(r, e))) <==>
      || !r.full
      || (r.outOffs == 0 && size + e.size == r.entry[0].size)
      || (r.outOffs != 0 && beyond == r.entry[r.outOffs].size)
  {
    hide Live, AddEntry, Push;
    AddEntryPushes(r, nil, e);
    PushTotal(Live(r), e);
    if r.full {
      OldestEntry(r);
      PrefixMonotone(Live(r), 1, CAPACITY);
      PrefixStep(Live(r), 0);
    }
  }

  /** While at most ten entries were added, `size` is the bytes held, whatever lies beyond. */
  lemma {:induction false} SizeTracksFirstTen<P>(nil: P, es: seq<Entry<P>>, beyond: seq<nat>)
    requires |beyond| == |es| <= CAPACITY
    requires Total(es) < SIZE_MOD
    ensures SizeAfterAdds(nil, es, beyond) == Total(Live(AfterAdds(nil, es))) == Total(es)
  {
    hide Live, Rotated, AddEntry;
    AddsKeepLastTen(nil, es);
    if es == [] {
    } else {
      var n := |es| - 1;
      PrefixMonotone(es, n, |es|);
      SizeTracksFirstTen(nil, es[..n], beyond[..n]);
      assert !AfterAdds(nil, es[..n]).full by { ClosedForm(nil, es[..n]); }
    }
  }

  /** The 11th, 21st, 31st ... add sets `size` to 0, whatever the ring holds. */
  lemma SizeCollapses<P>(nil: P, es: seq<Entry<P>>, beyond: seq<nat>)
    requires |beyond| == |es| > CAPACITY && |es| % CAPACITY == 1
    ensures SizeAfterAdds(nil, es, beyond) == 0
  {
    ClosedForm(nil, es[..|es| - 1]);
  }

  lemma SizeAfterAddsSnoc<P>(nil: P, es: seq<Entry<P>>, beyond: seq<nat>, word: nat)
    requires |beyond| + 1 == |es|
    ensures var n := |beyond|;
      SizeAfterAdds(nil, es, beyond + [word]) ==
      SizeAfterAdd(AfterAdds(nil, es[..n]), SizeAfterAdds(nil, es[..n], beyond), es[n].size, word)
  {
    assert (beyond + [word])[..|beyond|] == beyond;
  }

  /** On every other eviction `size` takes whatever value the foreign word makes it take. */
  lemma EvictionReadsBeyond<P>(nil: P, es: seq<Entry<P>>, beyond: seq<nat>, word: nat)
    requires |beyond| + 1 == |es| > CAPACITY && |beyond| % CAPACITY != 0
    ensures SizeAfterAdds(nil, es, beyond + [word]) ==
            SubSize(AddSize(SizeAfterAdds(nil, es[..|beyond|], beyond), es[|beyond|].size), word)
  {
    SizeAfterAddsSnoc(nil, es, beyond, word);
    var r := AfterAdds(nil, es[..|beyond|]);
    assert r.full && r.outOffs != 0 by {
      ClosedForm(nil, es[..|beyond|]);
    }
  }

  function Sum(words: seq<nat>): nat {
    if words == [] then 0 else Sum(words[..|words| - 1]) + words[|words| - 1]
  }

  /** How many of `n` adds had been made when `size` was last set to 0 on eviction. */
  function LastCollapse(n: nat): (m: nat)
    requires n > CAPACITY
    ensures CAPACITY < m <= n && m % CAPACITY == 1 && n - m < CAPACITY
  {
    n - (n - 1) % CAPACITY
  }

  lemma CollapseNext(n: nat)
    requires n >= CAPACITY
    ensures if (n + 1) % CAPACITY == 1 then LastCollapse(n + 1) == n + 1
            else n > CAPACITY && LastCollapse(n + 1) == LastCollapse(n)
  {
  }

  lemma WrappedOnce(x: int, a: nat, w: nat)
    ensures SubSize(AddSize(x % SIZE_MOD, a), w) == (x + a - w) % SIZE_MOD
  {
  }

  lemma TailSnoc<P>(es: seq<Entry<P>>, m: nat)
    requires m < |es|
    ensures Total(es[m..]) == Total(es[..|es| - 1][m..]) + es[|es| - 1].size
  {
    assert es[m..] == es[..|es| - 1][m..] + [es[|es| - 1]];
    TotalSnoc(es[..|es| - 1][m..], es[|es| - 1]);
  }

  lemma SumSnoc(words: seq<nat>, m: nat)
    requires m < |words|
    ensures Sum(words[m..]) == Sum(words[..|words| - 1][m..]) + words[|words| - 1]
  {
    assert words[m..][..|words[m..]| - 1] == words[..|words| - 1][m..];
  }

  /**
   After more than ten adds `size` is what was added since the 11th, 21st, ... add less the foreign
   words read since, modulo 2^64.
   */
  lemma {:induction false} SizeSinceCollapse<P>(nil: P, es: seq<Entry<P>>, beyond: seq<nat>)
    requires |beyond| == |es| > CAPACITY
    ensures var m := LastCollapse(|es|);
      SizeAfterAdds(nil, es, beyond) == (Total(es[m..]) - Sum(beyond[m..])) % 0x1_0000_0000_0000_0000
  {
    var n, m := |es| - 1, LastCollapse(|es|);
    hide SizeAfterAdds, SubSize, AddSize, LastCollapse, AfterAdds;
    CollapseNext(n);
    if |es| % CAPACITY == 1 {
      SizeCollapses(nil, es, beyond);
      assert es[m..] == [] && beyond[m..] == [];
    } else {
      hide Total, Sum;
      SizeSinceCollapse(nil, es[..n], beyond[..n]);
      assert beyond == beyond[..n] + [beyond[n]];
      EvictionReadsBeyond(nil, es, beyond[..n], beyond[n]);
      TailSnoc(es, m);
      SumSnoc(beyond, m);
      WrappedOnce(Total(es[..n][m..]) - Sum(beyond[..n][m..]), es[n].size, beyond[n]);
    }
  }

  ghost predicate SizeTracks<P>(nil: P, es: seq<Entry<P>>, beyond: seq<nat>)
    requires |beyond| == |es|
  {
    SizeAfterAdds(nil, es, beyond) == Total(Live(AfterAdds(nil, es)))
  }

  lemma SizeFailsAfterCollapse<P>(nil: P, es: seq<Entry<P>>, beyond: seq<nat>)
    requires |beyond| == |es| > CAPACITY && |es| % CAPACITY == 1
    requires forall i :: 0 <= i < |es| ==> es[i].size > 0
    ensures !SizeTracks(nil, es, beyond)
  {
    SizeCollapses(nil, es, beyond);
    AddsKeepLastTen(nil, es);
    TotalPositive(Live(AfterAdds(nil, es)));
  }

  lemma SizeFailsForSomeWord<P>(nil: P, es: seq<Entry<P>>, beyond: seq<nat>)
    requires |beyond| + 1 == |es| > CAPACITY && |beyond| % CAPACITY != 0
    ensures !SizeTracks(nil, es, beyond + [0]) || !SizeTracks(nil, es, beyond + [1])
  {
    EvictionReadsBeyond(nil, es, beyond, 0);
    EvictionReadsBeyond(nil, es, beyond, 1);
    SubSizeDiffers(AddSize(SizeAfterAdds(nil, es[..|beyond|], beyond), es[|beyond|].size));
  }

  lemma SizeFailsBeyondTen<P>(nil: P, es: seq<Entry<P>>) returns (beyond: seq<nat>)
    requires |es| > CAPACITY
    requires forall i :: 0 <= i < |es| ==> es[i].size > 0
    ensures |beyond| == |es| && !SizeTracks(nil, es, beyond)
  {
    hide SizeTracks, SizeAfterAdds;
    var zeros: seq<nat> := seq(|es| - 1, i => 0);
    beyond := zeros + [0];
    if |es| % CAPACITY == 1 {
      SizeFailsAfterCollapse(nil, es, beyond);
    } else if SizeTracks(nil, es, beyond) {
      SizeFailsForSomeWord(nil, es, zeros);
      beyond := zeros + [1];
    }
  }

  /**
   For non-empty entries, `size` is right whatever lies beyond the ring if and only if no
   more than ten entries were ever added.
   */
  lemma SizeTracksOnlyFirstTen<P>(nil: P, es: seq<Entry<P>>)
    requires |es| <= CAPACITY ==> Total(es) < SIZE_MOD
    requires forall i :: 0 <= i < |es| ==> es[i].size > 0
    ensures (forall beyond: seq<nat> | |beyond| == |es| :: SizeTracks(nil, es, beyond)) <==> |es| <= CAPACITY
  {
    if |es| <= CAPACITY {
      forall beyond: seq<nat> | |beyond| == |es| ensures SizeTracks(nil, es, beyond) {
        SizeTracksFirstTen(nil, es, beyond);
      }
    } else {
      var beyond := SizeFailsBeyondTen(nil, es);
    }
  }

  // ----- The offset search -----

  /** The search from the i-th entry on, `acc` being the wrapped sum of the sizes before it. */
  function Scan<P>(es: seq<Entry<P>>, i: nat, acc: nat, off: nat): Option<Hit>
    requires i <= |es| && acc <= off
    decreases |es| - i
  {
    if i == |es| then None
    else if AddSize(acc, es[i].size) > off then Some(Hit(i, off - acc))
    else Scan(es, i + 1, AddSize(acc, es[i].size), off)
  }

  function Find<P>(es: seq<Entry<P>>, off: nat): Option<Hit> {
    Scan(es, 0, 0, off)
  }

  /** `off` is byte `hit.offset` of entry `hit.index` in the concatenation of the entries. */
  ghost predicate IsHit<P>(es: seq<Entry<P>>, off: nat, hit: Hit) {
    && hit.index < |es|
    && hit.offset < es[hit.index].size
    && off == Total(es[..hit.index]) + hit.offset
  }

  /** Positions grow strictly with (entry, offset) in lexicographic order. */
  lemma HitsOrdered<P>(es: seq<Entry<P>>, off1: nat, h1: Hit, off2: nat, h2: Hit)
    requires IsHit(es, off1, h1) && IsHit(es, off2, h2)
    ensures off1 < off2 <==> h1.index < h2.index || (h1.index == h2.index && h1.offset < h2.offset)
    ensures off1 == off2 <==> h1 == h2
  {
    if h1.index < h2.index {
      PrefixStep(es, h1.index);
      PrefixMonotone(es, h1.index + 1, h2.index);
    } else if h2.index < h1.index {
      PrefixStep(es, h2.index);
      PrefixMonotone(es, h2.index + 1, h1.index);
    }
  }

  lemma {:induction false} ScanExact<P>(es: seq<Entry<P>>, i: nat, off: nat)
    requires i <= |es| && Total(es[..i]) <= off && Total(es) < SIZE_MOD
    ensures var r := Scan(es, i, Total(es[..i]), off);
      if off < Total(es) then r.Some? && IsHit(es, off, r.value) else r == None
    decreases |es| - i
  {
    if i == |es| {
      assert es[..i] == es;
    } else {
      PrefixStep(es, i);
      PrefixMonotone(es, i + 1, |es|);
      if Total(es[..i + 1]) <= off {
        ScanExact(es, i + 1, off);
      }
    }
  }

  /** The search finds an offset exactly when it lies inside the concatenation, and finds its place. */
  lemma FindExact<P>(es: seq<Entry<P>>, off: nat)
    requires Total(es) < SIZE_MOD
    ensures if off < Total(es) then Find(es, off).Some? && IsHit(es, off, Find(es, off).value)
            else Find(es, off) == None
  {
    ScanExact(es, 0, off);
  }

  /** Turning a place into a position and searching for it gives the place back. */
  lemma FindInvertsPosition<P>(es: seq<Entry<P>>, hit: Hit)
    requires Total(es) < SIZE_MOD
    requires hit.index < |es| && hit.offset < es[hit.index].size
    ensures Total(es[..hit.index]) + hit.offset < Total(es)
    ensures Find(es, Total(es[..hit.index]) + hit.offset) == Some(hit)
  {
    var off := Total(es[..hit.index]) + hit.offset;
    PrefixStep(es, hit.index);
    PrefixMonotone(es, hit.index + 1, |es|);
    FindExact(es, off);
    HitsOrdered(es, off, hit, off, Find(es, off).value);
  }

  lemma {:induction false} ScanMissesLastOffset<P>(es: seq<Entry<P>>, i: nat, acc: nat)
    requires i <= |es| && acc < SIZE_MOD
    ensures Scan(es, i, acc, SIZE_MOD - 1) == None
    decreases |es| - i
  {
    if i < |es| {
      ScanMissesLastOffset(es, i + 1, AddSize(acc, es[i].size));
    }
  }

  ghost predicate FindCorrectAt<P>(es: seq<Entry<P>>, off: nat) {
    match Find(es, off)
    case None => Total(es) <= off
    case Some(hit) => IsHit(es, off, hit)
  }

  /**
   The search computes in wrapping 64-bit arithmetic. It is correct at every `size_t` offset if
   and only if the entries together hold fewer than 2^64 bytes.
   */
  lemma FindCorrectIff<P>(es: seq<Entry<P>>)
    ensures (forall off :: 0 <= off < SIZE_MOD ==> FindCorrectAt(es, off)) <==> Total(es) < SIZE_MOD
  {
    if Total(es) < SIZE_MOD {
      forall off | 0 <= off < SIZE_MOD ensures FindCorrectAt(es, off) {
        FindExact(es, off);
      }
    } else {
      ScanMissesLastOffset(es, 0, 0);
      assert !FindCorrectAt(es, SIZE_MOD - 1);
    }
  }

  /** On a ring: the search over all ten slots is the search over the live entries. */
  lemma FindOnRing<P>(r: Ring<P>, nil: P, off: nat)
    requires WellFormed(r, nil) && Total(Live(r)) < SIZE_MOD
    ensures Find(Rotated(r), off) == Find(Live(r), off)
    ensures Find(Rotated(r), off).Some? <==> off < Total(Live(r))
  {
    RotatedIsLive(r, nil);
    FindExact(Rotated(r), off);
    FindExact(Live(r), off);
    if off < Total(Live(r)) {
      var a, b := Find(Rotated(r), off).value, Find(Live(r), off).value;
      assert Rotated(r)[..b.index] == Live(r)[..b.index];
      HitsOrdered(Rotated(r), off, a, off, b);
    }
  }
}
