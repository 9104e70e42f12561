/** The two `string.h` block copies the C code uses, on a byte array. */
module Mem {
  import opened Types

  /**
   * `memmove(a + dst, a + src, len)`: the `len` bytes from `src` are copied to
   * `dst` as they were before the call, even when the two ranges overlap.
   */
  method Memmove(a: array<byte>, dst: nat, src: nat, len: nat)
    requires dst + len <= a.Length && src + len <= a.Length
    modifies a
    ensures a[..] == old(a[..])[..dst] + old(a[..])[src..src + len] + old(a[..])[dst + len..]
  {
    ghost var before := a[..];
    forall i | dst <= i < dst + len {
      a[i] := a[i - dst + src];
    }
    assert a[..] == before[..dst] + before[src..src + len] + before[dst + len..] by {
      forall i | 0 <= i < a.Length
        ensures a[..][i] == (before[..dst] + before[src..src + len] + before[dst + len..])[i]
      {
      }
    }
  }

  /** `memcpy(a + dst, s, |s|)`. */
  method Memcpy(a: array<byte>, dst: nat, s: seq<byte>)
    requires dst + |s| <= a.Length
    modifies a
    ensures a[..] == old(a[..])[..dst] + s + old(a[..])[dst + |s|..]
  {
    ghost var before := a[..];
    forall i | dst <= i < dst + |s| {
      a[i] := s[i - dst];
    }
    assert a[..] == before[..dst] + s + before[dst + |s|..] by {
      forall i | 0 <= i < a.Length
        ensures a[..][i] == (before[..dst] + s + before[dst + |s|..])[i]
      {
      }
    }
  }
}
