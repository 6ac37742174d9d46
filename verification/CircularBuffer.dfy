/** The circular buffer as the driver holds it: ten slots overwritten in place. */
module CircularBuffer {
  import opened Machine
  import opened RingSpec

  /** struct aesd_circular_buffer */
  class CircularBuffer<P(0)> {
    const entry: array<Entry<P>>
    var inOffs: uint8
    var outOffs: uint8
    var full: bool
    var size: nat

    ghost predicate Valid()
      reads this, entry
    {
      entry.Length == CAPACITY && inOffs as nat < CAPACITY && outOffs as nat < CAPACITY && size < SIZE_MOD
    }

    /** The value this buffer stands for, all fields but `size`. */
    ghost function View(): (r: Ring<P>)
      requires Valid()
      reads this, entry
      ensures InBounds(r)
    {
      Ring(entry[..], inOffs as nat, outOffs as nat, full)
    }

    /** Memory for the struct; the fields are not set up before `Reset`. */
    constructor ()
      ensures entry.Length == CAPACITY && fresh(entry)
    {
      entry := new Entry<P>[CAPACITY];
    }

    /** aesd_circular_buffer_init: all bytes zero, `nil` being the null pointer. */
    method Reset(nil: P)
      requires entry.Length == CAPACITY
      modifies this, entry
      ensures Valid() && View() == Init(nil) && size == 0
    {
      forall i | 0 <= i < entry.Length {
        entry[i] := Entry(nil, 0);
      }
      inOffs, outOffs, full, size := 0, 0, false, 0;
      assert entry[..] == Init(nil).entry;
    }

    /**
     aesd_circular_buffer_add_entry. `beyond` is the word found at `buffer[out_offs].size` when
     that expression reaches past this struct. A null entry changes nothing.
     */
    method AddEntry(addEntry: Option<Entry<P>>, beyond: nat)
      requires Valid()
      requires beyond < SIZE_MOD
      modifies this, entry
      ensures Valid()
      ensures addEntry == None ==> View() == old(View()) && size == old(size)
      ensures addEntry.Some? ==>
        && View() == RingSpec.AddEntry(old(View()), addEntry.value)
        && size == SizeAfterAdd(old(View()), old(size), addEntry.value.size, beyond)
    {
      if addEntry == None {
        return;
      }
      var e := addEntry.value;
      entry[inOffs] := e;
      size := AddSize(size, e.size);
      inOffs := ((inOffs as int + 1) % CAPACITY) as uint8;
      if full {
        var read := if outOffs == 0 then size else beyond;
        size := SubSize(size, read);
        outOffs := inOffs;
      }
      full := outOffs == inOffs;
    }

    /**
     aesd_circular_buffer_find_entry_offset_for_fpos. The result is the physical slot, or None
     for NULL; the caller's offset variable comes in as `entryOffset` and goes out as
     `entryOffset'`, set only on success.
     */
    method FindEntryOffsetForFpos(charOffset: nat, entryOffset: nat)
      returns (slot: Option<nat>, entryOffset': nat)
      requires Valid()
      ensures match Find(Rotated(View()), charOffset)
        case None => slot == None && entryOffset' == entryOffset
        case Some(hit) =>
          && hit.index < CAPACITY
          && slot == Some((outOffs as nat + hit.index) % CAPACITY)
          && entry[slot.value] == Rotated(View())[hit.index]
          && entryOffset' == hit.offset
    {
      hide Rotated;
      ghost var es := Rotated(View());
      var currentTotalBytes: nat := 0;
      var currentLocation := outOffs as nat;
      var counter := 0;
      while counter < CAPACITY
        invariant counter <= CAPACITY
        invariant currentLocation < CAPACITY
        invariant currentLocation == (outOffs as nat + counter) % CAPACITY
        invariant currentTotalBytes <= charOffset
        invariant Find(es, charOffset) == Scan(es, counter, currentTotalBytes, charOffset)
      {
        RotatedAt(View(), counter);
        var here := entry[currentLocation].size;
        if AddSize(currentTotalBytes, here) > charOffset {
          return Some(currentLocation), charOffset - currentTotalBytes;
        }
        currentTotalBytes := AddSize(currentTotalBytes, here);
        currentLocation := (currentLocation + 1) % CAPACITY;
        counter := counter + 1;
      }
      return None, entryOffset;
    }
  }
}
