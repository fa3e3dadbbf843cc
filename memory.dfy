/** The C library's byte-block primitives, on a Dafny byte array. */
module Memory {
  import opened Layout

  /** memmove: `len` bytes from `src` to `dst`, as if copied through a temporary
      buffer, so the two ranges may overlap. */
  method Move(a: array<bv8>, dst: nat, src: nat, len: nat)
    requires src + len <= a.Length && dst + len <= a.Length
    modifies a
    ensures a[..] == old(a[..])[..dst] + old(a[..])[src .. src + len] + old(a[..])[dst + len..]
  {
    ghost var before := a[..];
    var tmp := a[src .. src + len];
    forall k | dst <= k < dst + len {
      a[k] := tmp[k - dst];
    }
    assert a[..] == before[..dst] + tmp + before[dst + len..];
  }

  /** memcpy from a separate object: the bytes of `v` written at `dst`. */
  method Copy(a: array<bv8>, dst: nat, v: seq<bv8>)
    requires dst + |v| <= a.Length
    modifies a
    ensures a[..] == old(a[..])[..dst] + v + old(a[..])[dst + |v|..]
  {
    ghost var before := a[..];
    forall k | dst <= k < dst + |v| {
      a[k] := v[k - dst];
    }
    assert a[..] == before[..dst] + v + before[dst + |v|..];
  }

  /** insert's two calls: memmove of the `len` bytes at `pos` one element
      right, then memcpy of `v` into the gap this opens at `pos`. */
  method Splice(a: array<bv8>, pos: nat, len: nat, v: seq<bv8>)
    requires pos + len + |v| <= a.Length
    modifies a
    ensures a[..] == old(a[..])[..pos] + v + old(a[..])[pos .. pos + len] + old(a[..])[pos + len + |v|..]
  {
    ghost var b := a[..];
    Move(a, pos + |v|, pos, len);
    ghost var moved := a[..];
    Copy(a, pos, v);
    ShiftRightAndWrite(b, moved, a[..], pos, len, v);
  }

  /** memset(p, 0, len) at offset `dst`. */
  method Zero(a: array<bv8>, dst: nat, len: nat)
    requires dst + len <= a.Length
    modifies a
    ensures a[..] == old(a[..])[..dst] + Zeros(len) + old(a[..])[dst + len..]
  {
    ghost var before := a[..];
    forall k | dst <= k < dst + len {
      a[k] := 0;
    }
    assert a[..] == before[..dst] + Zeros(len) + before[dst + len..];
  }

  /** malloc(n) followed by memcpy of the first `kept` bytes of `a`; the rest of
      the new block is indeterminate, so nothing is promised about it. */
  method Reallocate(a: array<bv8>, n: nat, kept: nat) returns (b: array<bv8>)
    requires kept <= a.Length && kept <= n
    ensures fresh(b) && b.Length == n
    ensures b[..kept] == a[..kept]
  {
    b := new bv8[n];
    forall k | 0 <= k < kept {
      b[k] := a[k];
    }
    assert b[..kept] == a[..kept];
  }
}
