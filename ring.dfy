/**
 * The output ring of the POSIX example transport: the editor's output is
 * queued with `ring_puts` and drained one byte per timer tick by
 * `write_from_ring`. Positions are offsets from `ring.buf`; `p_end` is the
 * buffer size.
 */
module PosixRing {
  import opened Types
  import opened Mem

  /** `sizeof ring.buf`: 32 + `EMRL_MAX_CMD_LEN` (examples/posix.c:44). */
  const RING_SIZE: nat := 32 + MAX_CMD_LEN

  /** The buffer slot a position reaches after moving on from `get`, with one wrap at `p_end`. */
  function Slot(k: nat): (r: nat)
    requires k < 2 * RING_SIZE
    ensures r < RING_SIZE && (r == k || r == k - RING_SIZE)
  {
    if k < RING_SIZE then k else k - RING_SIZE
  }

  /** The `n` bytes of buffer `a` read forward from slot `g`, wrapping at the end. */
  function Window(a: seq<byte>, g: nat, n: nat): (w: seq<byte>)
    requires |a| == RING_SIZE && g < RING_SIZE && n <= RING_SIZE
    ensures |w| == n && forall i :: 0 <= i < n ==> w[i] == a[Slot(g + i)]
  {
    seq(n, i requires 0 <= i < n => a[Slot(g + i)])
  }

  /** `struct ring`. */
  class Ring {
    const buf: array<byte>
    var put: nat
    var get: nat
    /** Every byte `ring_puts` has queued, in order. */
    ghost var queued: seq<byte>
    /** Every byte `write_from_ring` has written out, in order. */
    ghost var sent: seq<byte>

    ghost predicate Bounds()
      reads this
    {
      buf.Length == RING_SIZE && put < RING_SIZE && get < RING_SIZE
    }

    /** Number of bytes between `p_get` and `p_put`, going forward with wraparound. */
    ghost function Count(): (n: nat)
      reads this
      requires Bounds()
      ensures n < RING_SIZE
    {
      if get <= put then put - get else RING_SIZE - get + put
    }

    /** The bytes still to be written, oldest first. */
    ghost function Pending(): (p: seq<byte>)
      reads this, buf
      requires Bounds()
      ensures |p| == Count()
    {
      Window(buf[..], get, Count())
    }

    /** Bytes leave in the order they were queued: what was sent, then what is pending, is what was queued. */
    ghost predicate Valid()
      reads this, buf
    {
      Bounds() && queued == sent + Pending()
    }

    /** The static initialiser: both pointers at the start of an empty buffer. */
    constructor ()
      ensures Valid() && fresh(buf) && put == 0 && get == 0
      ensures Pending() == [] && queued == [] && sent == []
    {
      buf := new byte[RING_SIZE];
      put, get := 0, 0;
      queued, sent := [], [];
    }

    /** `ring_empty`: the pointers meet exactly when nothing is pending. */
    predicate IsEmpty()
      reads this, buf
      requires Bounds()
      ensures IsEmpty() <==> Pending() == []
    {
      get == put
    }

    /**
     * `ring_puts`: the string is appended to the pending bytes. The C code
     * does not check against `p_get`; the caller must keep the pending bytes
     * plus `s` below the buffer size.
     */
    method Puts(s: seq<byte>)
      requires Valid() && Count() + |s| < RING_SIZE
      modifies this, buf
      ensures Valid() && get == old(get) && sent == old(sent)
      ensures Pending() == old(Pending()) + s && queued == old(queued) + s
      ensures put == if old(put) + |s| >= RING_SIZE then old(put) + |s| - RING_SIZE else old(put) + |s|
    {
      ghost var before := buf[..];
      ghost var oldPending := Pending();
      ghost var n := Count();
      ghost var p0 := put;
      CopyIn(s);
      queued := queued + s;
      PutsPending(before, buf[..], s, p0, get, n, oldPending);
      assert Count() == n + |s|;
      assert Pending() == oldPending + s;
      assert queued == sent + (oldPending + s);
    }

    /**
     * The copying part of `ring_puts`: `s` goes in at `p_put`; if it reaches
     * `p_end`, the first `wrap` bytes fill the tail of the buffer, the rest
     * continue from the start, and `p_put` restarts from the start.
     */
    method CopyIn(s: seq<byte>)
      requires Bounds() && |s| < RING_SIZE
      modifies this`put, buf
      ensures Bounds()
      ensures put == if old(put) + |s| >= RING_SIZE then old(put) + |s| - RING_SIZE else old(put) + |s|
      ensures forall k :: 0 <= k < RING_SIZE ==> buf[..][k] == WrittenAt(old(buf[..]), s, old(put), k)
    {
      ghost var before := buf[..];
      ghost var p0 := put;
      var len := |s|;
      var wrap := RING_SIZE - put;
      var rest := s;
      if len >= wrap {
        Memcpy(buf, put, s[..wrap]);
        ghost var mid := buf[..];
        len := len - wrap;
        rest := s[wrap..];
        put := 0;
        Memcpy(buf, put, rest);
        WrapCopied(before, mid, buf[..], s, p0);
      } else {
        Memcpy(buf, put, rest);
        PlainCopied(before, buf[..], s, p0);
      }
      put := put + len;
    }

    /**
     * `write_from_ring`, with the result of `write` as `res` and whether its
     * error was EAGAIN or EWOULDBLOCK as `again`. On an empty ring nothing
     * happens; a positive result sends the byte at `p_get` and moves `p_get`
     * on by one, back to the start at `p_end`; zero or a retryable error
     * leaves the ring as it was; any other error is fatal to the process.
     */
    method WriteFromRing(res: int, again: bool) returns (written: Option<byte>, fatal: bool)
      requires Valid()
      modifies this
      ensures Valid() && put == old(put) && queued == old(queued)
      ensures old(Pending()) == [] ==> written == None && !fatal && get == old(get) && sent == old(sent)
      ensures old(Pending()) != [] && res > 0 ==>
                written == Some(old(Pending())[0]) && !fatal &&
                get == (if old(get) + 1 >= RING_SIZE then 0 else old(get) + 1) &&
                Pending() == old(Pending())[1..] && sent == old(sent) + [old(Pending())[0]]
      ensures old(Pending()) != [] && res <= 0 ==>
                written == None && fatal == (res < 0 && !again) && get == old(get) && sent == old(sent)
    {
      written, fatal := None, false;
      if IsEmpty() {
        return;
      }
      if res < 0 {
        fatal := !again;
      } else if res > 0 {
        ghost var oldPending := Pending();
        ghost var g := get;
        written := Some(buf[get]);
        get := get + 1;
        if get >= RING_SIZE {
          get := 0;
        }
        sent := sent + [buf[g]];
        ghost var p := Pending();
        assert |p| == |oldPending| - 1;
        forall i | 0 <= i < |p|
          ensures p[i] == oldPending[1..][i]
        {
          assert Slot(get + i) == Slot(g + (i + 1));
        }
        assert p == oldPending[1..];
      }
    }
  }

  /** Slot `k` of the buffer after `s` is copied in at `put`, wrapping once at the end. */
  function WrittenAt(before: seq<byte>, s: seq<byte>, put: nat, k: nat): byte
    requires |before| == RING_SIZE && put < RING_SIZE && |s| < RING_SIZE && k < RING_SIZE
  {
    if put <= k < put + |s| then s[k - put]
    else if put + |s| > RING_SIZE && k < put + |s| - RING_SIZE then s[k + RING_SIZE - put]
    else before[k]
  }

  /** The copy in two parts when the string reaches the end of the buffer. */
  lemma WrapCopied(before: seq<byte>, mid: seq<byte>, after: seq<byte>, s: seq<byte>, put: nat)
    requires |before| == |mid| == |after| == RING_SIZE && put < RING_SIZE && |s| < RING_SIZE
    requires put + |s| >= RING_SIZE
    requires forall i :: 0 <= i < RING_SIZE ==> mid[i] == if put <= i < RING_SIZE then s[..RING_SIZE - put][i - put] else before[i]
    requires forall i :: 0 <= i < RING_SIZE ==>
               after[i] == if i < |s| - (RING_SIZE - put) then s[RING_SIZE - put..][i] else mid[i]
    ensures forall k :: 0 <= k < RING_SIZE ==> after[k] == WrittenAt(before, s, put, k)
  {
  }

  /** The copy in one part when the string stops short of the end of the buffer. */
  lemma PlainCopied(before: seq<byte>, after: seq<byte>, s: seq<byte>, put: nat)
    requires |before| == |after| == RING_SIZE && put < RING_SIZE && put + |s| < RING_SIZE
    requires forall i :: 0 <= i < RING_SIZE ==> after[i] == if put <= i < put + |s| then s[i - put] else before[i]
    ensures forall k :: 0 <= k < RING_SIZE ==> after[k] == WrittenAt(before, s, put, k)
  {
  }

  /** The pending bytes after `ring_puts` are the old ones followed by the new string. */
  lemma PutsPending(before: seq<byte>, after: seq<byte>, s: seq<byte>, put: nat, get: nat, n: nat, old_: seq<byte>)
    requires |before| == |after| == RING_SIZE && put < RING_SIZE && get < RING_SIZE
    requires n == (if get <= put then put - get else RING_SIZE - get + put) && n + |s| < RING_SIZE
    requires old_ == Window(before, get, n)
    requires forall k :: 0 <= k < RING_SIZE ==> after[k] == WrittenAt(before, s, put, k)
    ensures Window(after, get, n + |s|) == old_ + s
  {
    var r := Window(after, get, n + |s|);
    forall i | 0 <= i < n + |s|
      ensures r[i] == (old_ + s)[i]
    {
      var k := Slot(get + i);
      if i < n {
        assert !(put <= k < put + |s|);
      } else {
        assert k == Slot(put + (i - n));
      }
    }
  }
}
