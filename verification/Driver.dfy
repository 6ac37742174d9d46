/** The driver's file operations on real buffers, each refining one step of the device. */
module Driver {
  import opened Machine
  import opened RingSpec
  import opened CircularBuffer
  import opened Packets
  import opened Device
  import opened Slab

  type Buffer = array?<byte>

  /** What a slot stands for: the bytes it points to. */
  ghost function Load(e: Entry<Buffer>): Entry<seq<byte>>
    reads e.buffptr
  {
    Entry(if e.buffptr == null || e.buffptr.Length < e.size then [] else e.buffptr[..e.size], e.size)
  }

  ghost function Pointers(es: seq<Entry<Buffer>>): set<Buffer> {
    set e | e in es :: e.buffptr
  }

  ghost function LoadAll(es: seq<Entry<Buffer>>): (ls: seq<Entry<seq<byte>>>)
    reads Pointers(es)
    ensures |ls| == |es| && forall i :: 0 <= i < |es| ==> ls[i] == Load(es[i])
  {
    if es == [] then [] else
      assert Pointers(es[..|es| - 1]) <= Pointers(es);
      assert es[|es| - 1].buffptr in Pointers(es);
      LoadAll(es[..|es| - 1]) + [Load(es[|es| - 1])]
  }

  /** A live slot owns its buffer. */
  ghost predicate SlotOk(e: Entry<Buffer>, live: set<array<byte>>) {
    && e.buffptr != null
    && e.buffptr in live
    && 0 < e.size <= e.buffptr.Length
    && e.size <= MAX_KMALLOC
  }

  ghost predicate SlotsOk(r: Ring<Buffer>, live: set<array<byte>>) {
    && WellFormed(r, null)
    && (forall k :: 0 <= k < CAPACITY && Used(r, k) ==> SlotOk(r.entry[k], live))
    && (forall j, k :: 0 <= j < k < CAPACITY && Used(r, j) && Used(r, k) ==> r.entry[j].buffptr != r.entry[k].buffptr)
  }

  lemma {:induction false} ScanSizes<P, Q>(es: seq<Entry<P>>, ls: seq<Entry<Q>>, i: nat, acc: nat, off: nat)
    requires |es| == |ls| && forall k :: 0 <= k < |es| ==> es[k].size == ls[k].size
    requires i <= |es| && acc <= off
    ensures Scan(es, i, acc, off) == Scan(ls, i, acc, off)
    decreases |es| - i
  {
    if i < |es| && AddSize(acc, es[i].size) <= off {
      ScanSizes(es, ls, i + 1, AddSize(acc, es[i].size), off);
    }
  }

  lemma LoadAllUpdate(es: seq<Entry<Buffer>>, i: nat, e: Entry<Buffer>)
    requires i < |es|
    ensures LoadAll(es[i := e]) == LoadAll(es)[i := Load(e)]
  {
  }

  lemma AddKeepsSlots(r: Ring<Buffer>, e: Entry<Buffer>, live: set<array<byte>>)
    requires SlotsOk(r, live) && SlotOk(e, live)
    requires forall k :: 0 <= k < CAPACITY ==> r.entry[k].buffptr != e.buffptr
    ensures SlotsOk(AddEntry(r, e), live)
  {
    AddEntryPushes(r, null, e);
  }

  lemma RotatedUsed<P>(r: Ring<P>, nil: P, i: nat)
    requires WellFormed(r, nil) && i < Count(r)
    ensures exists k :: 0 <= k < CAPACITY && Used(r, k) && Rotated(r)[i] == r.entry[k]
  {
    var k := if r.outOffs + i < CAPACITY then r.outOffs + i else r.outOffs + i - CAPACITY;
    assert Used(r, k) && Rotated(r)[i] == r.entry[k];
  }

  /** struct aesd_dev */
  class AesdDev {
    const circBuffer: CircularBuffer<Buffer>
    const slab: Slab
    var devBuffer: Buffer
    var bufferSize: nat
    /** The mutex: held between calls only after a failed `llseek`. */
    var locked: bool

    /**
     Live slots own pairwise distinct buffers; the pending buffer is none of them. `devBuffer` means
     nothing while `bufferSize` is 0: it may be the buffer last published.
     */
    ghost predicate Valid()
      reads this, circBuffer, circBuffer.entry, slab
    {
      && circBuffer.Valid()
      && SlotsOk(circBuffer.View(), slab.live)
      && bufferSize <= MAX_KMALLOC
      && (bufferSize > 0 && devBuffer != null ==>
            && devBuffer in slab.live
            && bufferSize <= devBuffer.Length
            && forall k :: 0 <= k < CAPACITY ==> circBuffer.entry[k].buffptr != devBuffer)
    }

    /** No block holds pending bytes. */
    ghost predicate HasNoBlock()
      reads this
    {
      bufferSize == 0 || devBuffer == null
    }

    ghost function Pending(): Pending
      reads this, devBuffer
    {
      if bufferSize == 0 then Held([])
      else if devBuffer == null then Lost(bufferSize)
      else Held(if bufferSize <= devBuffer.Length then devBuffer[..bufferSize] else [])
    }

    /** The device state these fields and buffers stand for. */
    ghost function Abs(): (d: Dev)
      requires Valid()
      reads this, circBuffer, circBuffer.entry, slab, devBuffer, Pointers(circBuffer.entry[..])
    {
      var r := circBuffer.View();
      Dev(Ring(LoadAll(r.entry), r.inOffs, r.outOffs, r.full), circBuffer.size, Pending(), locked)
    }

    lemma NoBlockAbs()
      requires Valid()
      ensures HasNoBlock() <==> Abs().pending.Lost? || Abs().pending.bytes == []
    {
    }

    lemma AbsOk()
      requires Valid()
      ensures DevOk(Abs())
    {
    }

    /** What the slots stand for depends on the ring and the live buffers only. */
    twostate lemma LoadsStay()
      requires old(Valid()) && unchanged(circBuffer) && unchanged(circBuffer.entry)
      requires forall a :: a in old(slab.live) ==> unchanged(a)
      ensures LoadAll(circBuffer.entry[..]) == old(LoadAll(circBuffer.entry[..]))
    {
    }

    twostate lemma AbsStays()
      requires old(Valid()) && unchanged(`devBuffer) && unchanged(`bufferSize)
      requires unchanged(circBuffer) && unchanged(circBuffer.entry) && unchanged(slab)
      requires forall a :: a in old(slab.live) ==> unchanged(a)
      ensures Valid() && Abs() == old(Abs()).(locked := locked)
    {
      LoadsStay();
      assert circBuffer.View() == old(circBuffer.View());
      assert Pending() == old(Pending());
    }

    /** Allocating and freeing other buffers changes nothing here. */
    twostate lemma SlabChanges()
      requires old(Valid()) && unchanged(this) && unchanged(circBuffer) && unchanged(circBuffer.entry)
      requires forall a :: a in old(slab.live) && a in Pointers(circBuffer.entry[..]) + {devBuffer} ==>
                 a in slab.live && unchanged(a)
      ensures Valid() && Abs() == old(Abs())
    {
      var es := circBuffer.entry[..];
      forall k | 0 <= k < CAPACITY && Used(circBuffer.View(), k)
        ensures SlotOk(es[k], slab.live) && Load(es[k]) == old(Load(es[k]))
      {
        assert es[k].buffptr in Pointers(es);
        assert old(SlotOk(es[k], slab.live));
      }
      assert LoadAll(es) == old(LoadAll(es));
      assert Pending() == old(Pending());
    }

    /** The search sees sizes only, so it finds on the slots what it finds on what they stand for. */
    lemma FindAbs(off: nat)
      requires Valid()
      ensures var es, ls := Rotated(circBuffer.View()), Rotated(Abs().ring);
        Find(es, off) == Find(ls, off) &&
        (Find(es, off).Some? ==>
          var hit := Find(es, off).value;
          && hit.index < CAPACITY && SlotOk(es[hit.index], slab.live)
          && ls[hit.index] == Load(es[hit.index]) && hit.offset < es[hit.index].size)
    {
      hide Flatten, Contents, Scan, IsHit, LoadAll, SlotOk;
      var es, ls := Rotated(circBuffer.View()), Rotated(Abs().ring);
      ScanSizes(es, ls, 0, 0, off);
      AbsOk();
      FindInRange(Abs(), off);
      if Find(es, off).Some? {
        RotatedUsed(circBuffer.View(), null, Find(es, off).value.index);
      }
    }

    /** What a read gives, in terms of the slot the search finds. */
    lemma ReadAbs(pos: int, count: nat, uncopied: nat)
      requires Valid()
      ensures DevOk(Abs())
      ensures var es := Rotated(circBuffer.View());
        match Find(es, ToSize(pos))
        case None => Read(Abs(), pos, count, uncopied) == (0, [])
        case Some(hit) =>
          && hit.index < CAPACITY && SlotOk(es[hit.index], slab.live) && hit.offset < es[hit.index].size
          && var n := Min(es[hit.index].size - hit.offset, count);
             var left := Min(uncopied, n);
             Read(Abs(), pos, count, uncopied) ==
             (if left > 0 then -EFAULT else n, es[hit.index].buffptr[hit.offset..hit.offset + n - left])
    {
      hide Find;
      AbsOk();
      FindAbs(ToSize(pos));
      var es := Rotated(circBuffer.View());
      if Find(es, ToSize(pos)).Some? {
        var hit := Find(es, ToSize(pos)).value;
        var e := es[hit.index];
        assert forall b :: hit.offset <= b <= e.size ==>
          e.buffptr[..e.size][hit.offset..b] == e.buffptr[hit.offset..b];
      }
    }

    /** The seek ioctl sees sizes only. */
    lemma FileOffsetAbs(cmd: nat, offset: nat, past: nat)
      requires Valid()
      ensures FileOffset(Abs().ring, cmd, offset, past) ==
        if cmd > CAPACITY then None
        else if offset > (if cmd == CAPACITY then past else circBuffer.entry[cmd].size) then None
        else Some(Total(circBuffer.entry[..cmd]) + offset)
    {
      if cmd <= CAPACITY {
        SameSizesSameTotal(circBuffer.entry[..cmd], Abs().ring.entry[..cmd]);
      }
    }

    /** aesd_init_module, the device part. */
    constructor (slab: Slab)
      ensures Valid() && Abs() == InitDev() && this.slab == slab && devBuffer == null
      ensures fresh(circBuffer) && fresh(circBuffer.entry)
    {
      this.slab := slab;
      var c := new CircularBuffer<Buffer>();
      c.Reset(null);
      circBuffer := c;
      devBuffer, bufferSize, locked := null, 0, false;
      new;
      assert Abs().ring.entry == InitDev().ring.entry;
    }
  }

  /** struct file */
  class File {
    const dev: AesdDev
    var fPos: int
    /** The number under which the state machine knows this file. */
    ghost const id: nat

    /** aesd_open */
    constructor (dev: AesdDev, ghost id: nat)
      ensures this.dev == dev && fPos == 0 && this.id == id
    {
      this.dev := dev;
      this.id := id;
      fPos := 0;
    }

    /** The device together with this one file. */
    ghost function System(): (s: Sys)
      requires dev.Valid()
      reads this, dev, dev.circBuffer, dev.circBuffer.entry, dev.slab, dev.devBuffer, Pointers(dev.circBuffer.entry[..])
      ensures DevOk(s.dev)
    {
      dev.AbsOk();
      OneFile(dev.Abs(), id, fPos)
    }
  }

  // ----- aesd_read -----

  /** The copy to the user: to the end of the entry, or `count` bytes. */
  method CopyEntry(buf: array<byte>, entry: Entry<Buffer>, offset: nat, count: nat, uncopied: nat)
    returns (retval: int, got: seq<byte>)
    requires entry.buffptr != null && offset <= entry.size <= entry.buffptr.Length
    requires count <= buf.Length && buf != entry.buffptr
    modifies buf
    ensures var n := Min(entry.size - offset, count);
      var left := Min(uncopied, n);
      retval == (if left > 0 then -EFAULT else n) && got == entry.buffptr[offset..offset + n - left]
    ensures |got| <= count && buf[..|got|] == got && buf[|got|..] == old(buf[|got|..])
  {
    var copyBytes := entry.size - offset;
    var left;
    if copyBytes < count {
      left := CopyToUser(buf, entry.buffptr, offset, copyBytes, uncopied);
      retval := if left > 0 then -EFAULT else copyBytes;
      got := buf[..copyBytes - left];
    } else {
      left := CopyToUser(buf, entry.buffptr, offset, count, uncopied);
      retval := if left > 0 then -EFAULT else count;
      got := buf[..count - left];
    }
  }

  /** `uncopied` bytes do not reach the user's buffer; `got` names those that do. */
  method AesdRead(filp: File, buf: array<byte>, count: nat, uncopied: nat)
    returns (retval: int, got: seq<byte>)
    requires filp.dev.Valid() && !filp.dev.locked
    requires count <= buf.Length && buf !in filp.dev.slab.live
    modifies filp`fPos, buf
    ensures filp.dev.Valid()
    ensures (filp.System(), Returned(retval, got)) == Step(old(filp.System()), ReadEvent(filp.id, count, uncopied))
    ensures |got| <= count && buf[..|got|] == got && buf[|got|..] == old(buf[|got|..])
  {
    hide Step, Device.Read, Find, SlotsOk, DevOk, LoadAll, Load, Rotated;
    var dev := filp.dev;
    dev.ReadAbs(filp.fPos, count, uncopied);
    OneFileRead(dev.Abs(), filp.id, filp.fPos, count, uncopied);
    retval, got := 0, [];
    var slot, offset := dev.circBuffer.FindEntryOffsetForFpos(ToSize(filp.fPos), 0);
    if slot.Some? {
      retval, got := CopyEntry(buf, dev.circBuffer.entry[slot.value], offset, count, uncopied);
      filp.fPos := filp.fPos + retval;
    }
    dev.AbsStays();
  }

  // ----- aesd_llseek and the seek ioctl -----

  method AesdLlseek(filp: File, offset: int, whence: Whence) returns (retval: int)
    requires filp.dev.Valid() && !filp.dev.locked
    modifies filp`fPos, filp.dev`locked
    ensures filp.dev.Valid()
    ensures (filp.System(), Returned(retval, [])) == Step(old(filp.System()), LlseekEvent(filp.id, offset, whence))
  {
    hide Step, FixedSizeLlseek, SlotsOk, LoadAll, Load, Rotated;
    var dev := filp.dev;
    dev.AbsOk();
    OneFileLlseek(dev.Abs(), filp.id, filp.fPos, offset, whence);
    dev.locked := true;
    var newPos := FixedSizeLlseek(filp.fPos, offset, whence, ToOffset(dev.circBuffer.size));
    if newPos < 0 {
      dev.AbsStays();
      return -EINVAL;
    }
    filp.fPos := newPos;
    dev.locked := false;
    dev.AbsStays();
    retval := newPos;
  }

  /** aesd_file_offset. `past` is the word where slot 10 would have its size. */
  method AesdFileOffset(filp: File, writeCmd: nat, writeCmdOffset: nat, past: nat) returns (retval: int)
    requires filp.dev.Valid() && !filp.dev.locked
    modifies filp`fPos
    ensures filp.dev.Valid()
    ensures (filp.System(), Returned(retval, [])) ==
            Step(old(filp.System()), SeekToEvent(filp.id, writeCmd, writeCmdOffset, past))
  {
    hide Step, FileOffset, SlotsOk, LoadAll, Load, Rotated;
    var dev := filp.dev;
    dev.AbsOk();
    OneFileSeekTo(dev.Abs(), filp.id, filp.fPos, writeCmd, writeCmdOffset, past);
    dev.FileOffsetAbs(writeCmd, writeCmdOffset, past);
    var entry := dev.circBuffer.entry;
    if writeCmd > CAPACITY {
      return -EINVAL;
    }
    if writeCmdOffset > (if writeCmd == CAPACITY then past else entry[writeCmd].size) {
      return -EINVAL;
    }
    var updatedOffset := 0;
    for i := 0 to writeCmd
      invariant updatedOffset == Total(entry[..i])
    {
      PrefixStep(entry[..], i);
      assert entry[..][..i + 1] == entry[..i + 1] && entry[..][..i] == entry[..i];
      updatedOffset := updatedOffset + entry[i].size;
    }
    filp.fPos := updatedOffset + writeCmdOffset;
    dev.AbsStays();
    retval := 0;
  }

  // ----- aesd_write -----

  /** Where the packet ends: the scan for a newline. */
  method FindNewline(data: array<byte>, count: nat) returns (newlineIndex: nat, fullPacket: bool)
    requires count <= data.Length
    ensures newlineIndex == NewlineIndex(data[..count])
    ensures fullPacket <==> newlineIndex < count
  {
    newlineIndex, fullPacket := 0, false;
    while newlineIndex < count
      invariant newlineIndex <= count && !fullPacket
      invariant forall i :: 0 <= i < newlineIndex ==> data[i] != NEWLINE
    {
      if data[newlineIndex] == NEWLINE {
        fullPacket := true;
        break;
      }
      newlineIndex := newlineIndex + 1;
    }
    NewlineIndexIs(data[..count], newlineIndex);
  }

  /** A block for the pending bytes and `chunk` more, or NULL. */
  method GetBlock(dev: AesdDev, chunk: nat, grown: bool, slack: nat)
    requires dev.Valid()
    modifies dev`devBuffer, dev.slab
    ensures dev.devBuffer == null <==> !(grown && dev.bufferSize + chunk <= MAX_KMALLOC)
    ensures old(dev.slab.live) - {old(dev.devBuffer)} <= dev.slab.live
    ensures dev.bufferSize == 0 ==> old(dev.slab.live) <= dev.slab.live
    ensures fresh(dev.slab.live - old(dev.slab.live)) && dev.slab.live - old(dev.slab.live) <= {dev.devBuffer}
    ensures |dev.slab.live| ==
            |old(dev.slab.live)| + (if dev.devBuffer != null && old(dev.HasNoBlock()) then 1 else 0)
    ensures dev.devBuffer == null ==> dev.slab.live == old(dev.slab.live)
    ensures dev.devBuffer != null ==>
      && dev.devBuffer in dev.slab.live && dev.bufferSize + chunk <= dev.devBuffer.Length
      && (fresh(dev.devBuffer) || (dev.devBuffer == old(dev.devBuffer) && dev.bufferSize > 0))
      && (old(dev.Pending()).Held? ==> dev.devBuffer[..dev.bufferSize] == old(dev.Pending()).bytes)
  {
    hide SlotsOk, CircularBuffer.Valid, Pointers;
    if dev.bufferSize == 0 {
      dev.devBuffer := dev.slab.Kmalloc(chunk, grown, slack);
    } else {
      ghost var bytes := if dev.devBuffer != null then dev.devBuffer[..] else [];
      dev.devBuffer := dev.slab.Krealloc(dev.devBuffer, dev.bufferSize + chunk, grown, slack);
      assert dev.devBuffer != null && bytes != [] ==>
        dev.devBuffer[..dev.bufferSize] == dev.devBuffer[..|bytes|][..dev.bufferSize] == bytes[..dev.bufferSize];
    }
  }

  /**
   Memory for the pending bytes and `chunk` more. `base` is what the buffer shows before the place
   of the chunk: the pending bytes, unless an earlier failure lost them.
   */
  method Reserve(dev: AesdDev, chunk: nat, grown: bool, slack: nat) returns (ok: bool, ghost base: seq<byte>)
    requires dev.Valid()
    modifies dev`devBuffer, dev.slab
    ensures dev.Valid()
    ensures ok <==> grown && dev.bufferSize + chunk <= MAX_KMALLOC
    ensures old(dev.slab.live) - {old(dev.devBuffer)} <= dev.slab.live
    ensures fresh(dev.slab.live - old(dev.slab.live)) && dev.slab.live - old(dev.slab.live) <= {dev.devBuffer}
    ensures |dev.slab.live| == |old(dev.slab.live)| + (if ok && old(dev.HasNoBlock()) then 1 else 0)
    ensures !ok ==> dev.slab.live == old(dev.slab.live)
    ensures dev.devBuffer == null || dev.devBuffer == old(dev.devBuffer) || fresh(dev.devBuffer)
    ensures !ok ==> dev.devBuffer == null &&
                    dev.Abs() == old(dev.Abs()).(pending :=
                      if dev.bufferSize == 0 then Held([]) else Lost(dev.bufferSize))
    ensures ok ==>
      && dev.devBuffer != null && dev.devBuffer in dev.slab.live
      && (fresh(dev.devBuffer) || (dev.devBuffer == old(dev.devBuffer) && dev.bufferSize > 0))
      && dev.bufferSize + chunk <= dev.devBuffer.Length
      && (forall k :: 0 <= k < CAPACITY ==> dev.circBuffer.entry[k].buffptr != dev.devBuffer)
      && base == dev.devBuffer[..dev.bufferSize]
      && (old(dev.Pending()).Held? ==> base == old(dev.Pending()).bytes)
      && dev.Abs() == old(dev.Abs()).(pending := Held(base))
  {
    hide LoadAll, AesdDev.HasNoBlock;
    base := [];
    GetBlock(dev, chunk, grown, slack);
    ok := dev.devBuffer != null;
    dev.LoadsStay();
    if ok {
      base := dev.devBuffer[..dev.bufferSize];
    }
  }

  method Append(dev: AesdDev, data: array<byte>, chunk: nat, ghost base: seq<byte>)
    requires dev.Valid() && dev.devBuffer != null && dev.devBuffer in dev.slab.live
    requires chunk <= data.Length && data != dev.devBuffer && data !in Pointers(dev.circBuffer.entry[..])
    requires dev.bufferSize + chunk <= dev.devBuffer.Length && dev.bufferSize + chunk <= MAX_KMALLOC
    requires forall k :: 0 <= k < CAPACITY ==> dev.circBuffer.entry[k].buffptr != dev.devBuffer
    requires base == dev.devBuffer[..dev.bufferSize]
    modifies dev`bufferSize, dev.devBuffer
    ensures dev.Valid()
    ensures dev.Abs() == old(dev.Abs()).(pending := Held(base + data[..chunk]))
    ensures dev.bufferSize == old(dev.bufferSize) + chunk
  {
    hide LoadAll;
    Memcpy(dev.devBuffer, dev.bufferSize, data, chunk);
    dev.bufferSize := dev.bufferSize + chunk;
  }

  /** The pending buffer becomes the newest entry; `devBuffer` keeps pointing at it, unused. */
  method Publish(dev: AesdDev, beyond: nat)
    requires dev.Valid() && beyond < SIZE_MOD
    requires dev.bufferSize > 0 && dev.devBuffer != null
    modifies dev`bufferSize, dev.circBuffer, dev.circBuffer.entry
    ensures dev.Valid()
    ensures var d := old(dev.Abs());
      d.pending.Held? &&
      dev.Abs() == Dev(RingSpec.AddEntry(d.ring, PacketEntry(d.pending.bytes)),
                       SizeAfterAdd(d.ring, d.size, |d.pending.bytes|, beyond), Held([]), d.locked)
    ensures Pointers(dev.circBuffer.entry[..]) <= old(Pointers(dev.circBuffer.entry[..])) + {dev.devBuffer}
  {
    hide LoadAll, SlotsOk;
    var newEntry := Entry(dev.devBuffer, dev.bufferSize);
    AddKeepsSlots(dev.circBuffer.View(), newEntry, dev.slab.live);
    LoadAllUpdate(dev.circBuffer.entry[..], dev.circBuffer.inOffs as nat, newEntry);
    dev.circBuffer.AddEntry(Some(newEntry), beyond);
    dev.bufferSize := 0;
    ghost var es := old(dev.circBuffer.entry[..])[old(dev.circBuffer.inOffs) as nat := newEntry];
    assert LoadAll(es) == old(LoadAll(es));
    assert dev.circBuffer.entry[..] == es;
  }

  /** The chunk joins the pending bytes; if that makes a packet, it is published. */
  method Commit(dev: AesdDev, data: array<byte>, chunk: nat, fullPacket: bool, beyond: nat, ghost base: seq<byte>)
    requires dev.Valid() && beyond < SIZE_MOD && dev.devBuffer != null && dev.devBuffer in dev.slab.live
    requires chunk <= data.Length && data != dev.devBuffer && data !in Pointers(dev.circBuffer.entry[..])
    requires dev.bufferSize + chunk <= dev.devBuffer.Length && dev.bufferSize + chunk <= MAX_KMALLOC
    requires forall k :: 0 <= k < CAPACITY ==> dev.circBuffer.entry[k].buffptr != dev.devBuffer
    requires base == dev.devBuffer[..dev.bufferSize] && (fullPacket ==> chunk > 0)
    modifies dev`bufferSize, dev.devBuffer, dev.circBuffer, dev.circBuffer.entry
    ensures dev.Valid()
    ensures var d, packet := old(dev.Abs()), base + old(data[..chunk]);
      dev.Abs() ==
      if fullPacket then
        Dev(RingSpec.AddEntry(d.ring, PacketEntry(packet)), SizeAfterAdd(d.ring, d.size, |packet|, beyond),
            Held([]), d.locked)
      else d.(pending := Held(packet))
    ensures Pointers(dev.circBuffer.entry[..]) <= old(Pointers(dev.circBuffer.entry[..])) + {dev.devBuffer}
  {
    hide LoadAll, SlotsOk, Load, AddEntry, SizeAfterAdd;
    Append(dev, data, chunk, base);
    if fullPacket {
      Publish(dev, beyond);
    }
  }

  /** The part of aesd_write that runs with the lock held, up to the update of the position. */
  method WriteLocked(dev: AesdDev, writeData: array<byte>, count: nat, grown: bool, slack: nat, beyond: nat,
                     ghost granted: bool, ghost faulted: bool)
    returns (retval: int, ghost junk: nat -> byte)
    requires dev.Valid() && beyond < SIZE_MOD && count <= writeData.Length
    requires granted && count <= MAX_KMALLOC && !(faulted && count > 0)
    requires writeData in dev.slab.live && writeData != dev.devBuffer
    requires writeData !in Pointers(dev.circBuffer.entry[..])
    modifies dev`devBuffer, dev`bufferSize, dev.slab, dev.circBuffer, dev.circBuffer.entry
    modifies if dev.bufferSize > 0 && dev.devBuffer != null then {dev.devBuffer} else {}
    ensures dev.Valid()
    ensures (dev.Abs(), retval) ==
      Device.Write(old(dev.Abs()), old(writeData[..count]), WriteEnv(granted, faulted, grown, junk, beyond))
    ensures old(dev.slab.live) - {old(dev.devBuffer)} <= dev.slab.live
    ensures fresh(dev.slab.live - old(dev.slab.live)) && dev.slab.live - old(dev.slab.live) <= {dev.devBuffer}
    ensures |dev.slab.live| == |old(dev.slab.live)| + (if retval >= 0 && old(dev.HasNoBlock()) then 1 else 0)
    ensures retval < 0 ==> dev.slab.live == old(dev.slab.live)
    ensures dev.devBuffer == null || dev.devBuffer == old(dev.devBuffer) || fresh(dev.devBuffer)
    ensures writeData in dev.slab.live && writeData != dev.devBuffer && writeData !in Pointers(dev.circBuffer.entry[..])
  {
    hide LoadAll, SlotsOk, SizeAfterAdd, Device.Write, AddEntry, DevOk, Load;
    dev.AbsOk();
    ghost var d, data := dev.Abs(), writeData[..count];
    var newlineIndex, fullPacket := FindNewline(writeData, count);
    var thisChunk := if fullPacket then newlineIndex + 1 else count;
    assert writeData[..thisChunk] == Chunk(data);
    var ok, base := Reserve(dev, thisChunk, grown, slack);
    junk := (k: nat) => if k < |base| then base[k] else 0;
    WriteCases(d, data, WriteEnv(granted, faulted, grown, junk, beyond));
    if !ok {
      return -ENOMEM, junk;
    }
    assert base == Base(d.pending, junk);
    Commit(dev, writeData, thisChunk, fullPacket, beyond, base);
    retval := thisChunk;
  }

  /** The copy of the user's data, made before the lock is taken; null with an error if that fails. */
  method TakeUserData(dev: AesdDev, buf: array<byte>, count: nat, granted: bool, faulted: bool, slack: nat)
    returns (writeData: array?<byte>, error: int)
    requires dev.Valid() && count <= buf.Length
    modifies dev.slab
    ensures dev.Valid() && dev.Abs() == old(dev.Abs())
    ensures dev.slab.live == old(dev.slab.live) + if writeData == null then {} else {writeData}
    ensures writeData == null ==>
      (if !granted || count > MAX_KMALLOC then error == -ENOMEM else faulted && count > 0 && error == -EFAULT)
    ensures writeData != null ==>
      && granted && count <= MAX_KMALLOC && !(faulted && count > 0)
      && fresh(writeData) && writeData in dev.slab.live
      && count <= writeData.Length && writeData[..count] == buf[..count]
  {
    hide LoadAll, SlotsOk, Load;
    writeData := dev.slab.Kmalloc(count, granted, slack);
    if writeData == null {
      dev.SlabChanges();
      return null, -ENOMEM;
    }
    var left := CopyFromUser(writeData, buf, count, faulted && count > 0);
    if left > 0 {
      dev.slab.Kfree(writeData);
      dev.SlabChanges();
      return null, -EFAULT;
    }
    dev.SlabChanges();
    error := 0;
  }

  /** The copy of the user's data is freed; nothing of the device is in it. */
  method DropUserData(dev: AesdDev, writeData: array<byte>)
    requires dev.Valid() && writeData in dev.slab.live
    requires writeData != dev.devBuffer && writeData !in Pointers(dev.circBuffer.entry[..])
    modifies dev.slab
    ensures dev.Valid() && dev.Abs() == old(dev.Abs())
    ensures dev.slab.live == old(dev.slab.live) - {writeData}
  {
    hide LoadAll, SlotsOk, Load;
    dev.slab.Kfree(writeData);
    dev.SlabChanges();
  }

  /** The part that runs with the lock held, and the release of the copy. */
  method WriteCopied(dev: AesdDev, writeData: array<byte>, count: nat, grown: bool, slack: nat, beyond: nat,
                     ghost granted: bool, ghost faulted: bool)
    returns (retval: int, ghost junk: nat -> byte)
    requires dev.Valid() && beyond < SIZE_MOD && count <= writeData.Length
    requires granted && count <= MAX_KMALLOC && !(faulted && count > 0)
    requires writeData in dev.slab.live && writeData != dev.devBuffer
    requires writeData !in Pointers(dev.circBuffer.entry[..])
    modifies dev`devBuffer, dev`bufferSize, dev.slab, dev.circBuffer, dev.circBuffer.entry
    modifies if dev.bufferSize > 0 && dev.devBuffer != null then {dev.devBuffer} else {}
    ensures dev.Valid()
    ensures (dev.Abs(), retval) ==
      Device.Write(old(dev.Abs()), old(writeData[..count]), WriteEnv(granted, faulted, grown, junk, beyond))
    ensures var live := old(dev.slab.live) - {writeData};
      && fresh(dev.slab.live - live) && dev.slab.live - live <= {dev.devBuffer}
      && live - {old(dev.devBuffer)} <= dev.slab.live
      && |dev.slab.live| == |live| + (if retval >= 0 && old(dev.HasNoBlock()) then 1 else 0)
      && (retval < 0 ==> dev.slab.live == live)
    ensures dev.devBuffer == null || dev.devBuffer == old(dev.devBuffer) || fresh(dev.devBuffer)
  {
    hide LoadAll, SlotsOk, Load, AesdDev.Valid, AesdDev.Abs, Device.Write;
    retval, junk := WriteLocked(dev, writeData, count, grown, slack, beyond, granted, faulted);
    DropUserData(dev, writeData);
  }

  /** All of aesd_write but the update of the position. */
  method WriteDevice(dev: AesdDev, buf: array<byte>, count: nat,
                     granted: bool, faulted: bool, grown: bool, slack: nat, beyond: nat)
    returns (retval: int, ghost junk: nat -> byte)
    requires dev.Valid() && beyond < SIZE_MOD && count <= buf.Length && buf !in dev.slab.live
    modifies dev`devBuffer, dev`bufferSize, dev.slab, dev.circBuffer, dev.circBuffer.entry
    modifies if dev.bufferSize > 0 && dev.devBuffer != null then {dev.devBuffer} else {}
    ensures dev.Valid()
    ensures (dev.Abs(), retval) ==
      Device.Write(old(dev.Abs()), old(buf[..count]), WriteEnv(granted, faulted, grown, junk, beyond))
    ensures fresh(dev.slab.live - old(dev.slab.live)) && dev.slab.live - old(dev.slab.live) <= {dev.devBuffer}
    ensures old(dev.slab.live) - {old(dev.devBuffer)} <= dev.slab.live
    ensures |dev.slab.live| == |old(dev.slab.live)| + (if retval >= 0 && old(dev.HasNoBlock()) then 1 else 0)
    ensures retval < 0 ==> dev.slab.live == old(dev.slab.live)
    ensures dev.devBuffer == null || dev.devBuffer == old(dev.devBuffer) || fresh(dev.devBuffer)
  {
    hide LoadAll, SlotsOk, Device.Write, SizeAfterAdd, AddEntry, DevOk, Load, WellFormed, Chunk, Grows, Base;
    dev.AbsOk();
    ghost var d, data := dev.Abs(), buf[..count];
    junk := (k: nat) => 0;
    var writeData, error := TakeUserData(dev, buf, count, granted, faulted, slack);
    if writeData == null {
      WriteCases(d, data, WriteEnv(granted, faulted, grown, junk, beyond));
      return error, junk;
    }
    assert dev.slab.live - {writeData} == old(dev.slab.live);
    retval, junk := WriteCopied(dev, writeData, count, grown, slack, beyond, granted, faulted);
  }

  /**
   `granted` and `grown` say whether the two allocations get memory, `slack` by how much blocks are
   larger than asked for, `faulted` whether the user's buffer cannot be read, `beyond` what an
   eviction may read past the ring. `junk` is what fresh memory shows in place of lost bytes.
   A write refused before the lock returns even when the lock is held. No published byte changes. Of
   the memory allocated here only the pending buffer stays, of the memory allocated before only the old
   pending buffer goes, and a write that fails leaves the allocations as they were.
   */
  method AesdWrite(filp: File, buf: array<byte>, count: nat,
                   granted: bool, faulted: bool, grown: bool, slack: nat, beyond: nat)
    returns (retval: int, ghost junk: nat -> byte)
    requires filp.dev.Valid() && beyond < SIZE_MOD
    requires filp.dev.locked ==> !granted || count > MAX_KMALLOC || (faulted && count > 0)
    requires count <= buf.Length && buf !in filp.dev.slab.live
    modifies filp`fPos, filp.dev`devBuffer, filp.dev`bufferSize, filp.dev.slab
    modifies filp.dev.circBuffer, filp.dev.circBuffer.entry
    modifies if filp.dev.bufferSize > 0 && filp.dev.devBuffer != null then {filp.dev.devBuffer} else {}
    ensures filp.dev.Valid()
    ensures (filp.System(), Returned(retval, [])) ==
      Step(old(filp.System()),
           WriteEvent(filp.id, old(buf[..count]), WriteEnv(granted, faulted, grown, junk, beyond)))
    ensures fresh(filp.dev.slab.live - old(filp.dev.slab.live))
    ensures filp.dev.slab.live - old(filp.dev.slab.live) <= {filp.dev.devBuffer}
    ensures old(filp.dev.slab.live) - {old(filp.dev.devBuffer)} <= filp.dev.slab.live
    ensures |filp.dev.slab.live| ==
            |old(filp.dev.slab.live)| + (if retval >= 0 && old(filp.dev.HasNoBlock()) then 1 else 0)
    ensures retval < 0 ==> filp.dev.slab.live == old(filp.dev.slab.live)
    ensures filp.dev.devBuffer == null || filp.dev.devBuffer == old(filp.dev.devBuffer) || fresh(filp.dev.devBuffer)
    ensures forall p :: p in old(Pointers(filp.dev.circBuffer.entry[..])) && p != null ==> unchanged(p)
  {
    hide Step, LoadAll, SlotsOk, Device.Write, DevOk, Load, WellFormed;
    var dev := filp.dev;
    dev.AbsOk();
    ghost var d, data := dev.Abs(), buf[..count];
    retval, junk := WriteDevice(dev, buf, count, granted, faulted, grown, slack, beyond);
    OneFileWrite(d, filp.id, filp.fPos, data, WriteEnv(granted, faulted, grown, junk, beyond));
    label Written:
    if retval >= 0 {
      filp.fPos := filp.fPos + retval;
    }
    dev.AbsStays@Written();
  }

  // ----- aesd_cleanup_module -----

  lemma SlotPointers(dev: AesdDev)
    requires dev.Valid()
    ensures forall k :: 0 <= k < CAPACITY ==>
      var p := dev.circBuffer.entry[k].buffptr;
      if Used(dev.circBuffer.View(), k) then p != null && p in dev.slab.live else p == null
    ensures forall j, k :: 0 <= j < k < CAPACITY && Used(dev.circBuffer.View(), k) ==>
      dev.circBuffer.entry[j].buffptr != dev.circBuffer.entry[k].buffptr
    ensures Count(dev.circBuffer.View()) == if dev.circBuffer.full then CAPACITY else dev.circBuffer.inOffs as nat
  {
  }

  /**
   Frees every slot's buffer: each live packet's exactly once (`Kfree` accepts nothing else), and no
   other allocation. A pending buffer stays allocated.
   */
  method AesdCleanup(dev: AesdDev)
    requires dev.Valid()
    modifies dev.slab
    ensures forall k :: 0 <= k < CAPACITY && Used(dev.circBuffer.View(), k) ==>
      dev.circBuffer.entry[k].buffptr in old(dev.slab.live) - dev.slab.live
    ensures dev.slab.live == old(dev.slab.live) - Pointers(dev.circBuffer.entry[..])
    ensures |dev.slab.live| + Count(dev.circBuffer.View()) == |old(dev.slab.live)|
    ensures dev.bufferSize > 0 && dev.devBuffer != null ==> dev.devBuffer in dev.slab.live
  {
    hide SlotsOk, WellFormed;
    SlotPointers(dev);
    var entry := dev.circBuffer.entry;
    ghost var live := dev.slab.live;
    for index := 0 to CAPACITY
      invariant dev.slab.live == live - Pointers(entry[..index])
      invariant |dev.slab.live| ==
                |live| - if dev.circBuffer.full then index else Min(index, dev.circBuffer.inOffs as nat)
    {
      assert entry[..index + 1] == entry[..index] + [entry[index]];
      assert Used(dev.circBuffer.View(), index) ==> entry[index].buffptr !in Pointers(entry[..index]);
      dev.slab.Kfree(entry[index].buffptr);
    }
    assert entry[..CAPACITY] == entry[..];
  }
}
