/** The kernel's allocator and user copies, as far as the driver relies on them. */
module Slab {
  import opened Machine

  class Slab {
    /** The buffers allocated and not yet freed. */
    ghost var live: set<array<byte>>

    constructor ()
      ensures live == {}
    {
      live := {};
    }

    /** `ok` is whether memory is to be had; the block may be larger than asked for (`slack`). */
    method Kmalloc(n: nat, ok: bool, slack: nat) returns (p: array?<byte>)
      modifies this
      ensures p == null <==> !(ok && n <= MAX_KMALLOC)
      ensures p == null ==> live == old(live)
      ensures p != null ==> fresh(p) && p.Length == n + slack && live == old(live) + {p}
    {
      if !(ok && n <= MAX_KMALLOC) {
        return null;
      }
      p := new byte[n + slack];
      live := live + {p};
    }

    /** Grows in place when the block has room, else moves the bytes to a new block. */
    method Krealloc(p: array?<byte>, n: nat, ok: bool, slack: nat) returns (q: array?<byte>)
      requires p != null ==> p in live
      modifies this
      ensures q == null <==> !(ok && n <= MAX_KMALLOC)
      ensures q == null ==> live == old(live)
      ensures q != null ==> q.Length >= n && q in live && (q == p || fresh(q))
      ensures q != null && q == p ==> live == old(live)
      ensures q != null && p == null ==> live == old(live) + {q}
      ensures q != null && p != null && q != p ==>
        live == old(live) - {p} + {q} && p.Length <= q.Length && q[..p.Length] == p[..]
      ensures |live| == |old(live)| + if q != null && p == null then 1 else 0
    {
      if !(ok && n <= MAX_KMALLOC) {
        return null;
      }
      if p == null {
        q := Kmalloc(n, true, slack);
      } else if n <= p.Length {
        q := p;
      } else {
        q := Kmalloc(n, true, slack);
        forall i | 0 <= i < p.Length {
          q[i] := p[i];
        }
        Kfree(p);
      }
    }

    /** Freeing NULL does nothing; anything else must be allocated, so nothing is freed twice. */
    method Kfree(p: array?<byte>)
      requires p != null ==> p in live
      modifies this
      ensures live == if p == null then old(live) else old(live) - {p}
    {
      if p != null {
        live := live - {p};
      }
    }
  }

  /** Copies `n` bytes unless the user's memory faults; returns how many were not copied. */
  method CopyFromUser(dst: array<byte>, src: array<byte>, n: nat, faulted: bool) returns (left: nat)
    requires n <= dst.Length && n <= src.Length && dst != src
    modifies dst
    ensures left == if faulted then n else 0
    ensures left == 0 ==> dst[..n] == src[..n]
  {
    if faulted {
      return n;
    }
    forall i | 0 <= i < n {
      dst[i] := src[i];
    }
    left := 0;
  }

  /** Copies all but the last `uncopied` of `n` bytes; returns how many were not copied. */
  method CopyToUser(dst: array<byte>, src: array<byte>, from: nat, n: nat, uncopied: nat) returns (left: nat)
    requires n <= dst.Length && from + n <= src.Length && dst != src
    modifies dst
    ensures left == Min(uncopied, n)
    ensures dst[..n - left] == src[from..from + n - left]
    ensures dst[n - left..] == old(dst[n - left..])
  {
    left := Min(uncopied, n);
    forall i | 0 <= i < n - left {
      dst[i] := src[from + i];
    }
  }

  method Memcpy(dst: array<byte>, at: nat, src: array<byte>, n: nat)
    requires at + n <= dst.Length && n <= src.Length && dst != src
    modifies dst
    ensures dst[..at] == old(dst[..at]) && dst[at..at + n] == src[..n]
    ensures dst[..at + n] == old(dst[..at]) + src[..n]
  {
    forall i | 0 <= i < n {
      dst[at + i] := src[i];
    }
  }
}
