/** How a type-erased buffer of bytes is read as a sequence of fixed-size
    elements: element `i` of width `t` occupies bytes `[i*t, i*t + t)`. */
module Layout {

  /** All-zero bytes, as memset(p, 0, len) leaves them. */
  function Zeros(len: nat): (z: seq<bv8>)
    ensures |z| == len
    ensures forall k :: 0 <= k < len ==> z[k] == 0
  {
    seq(len, _ => 0 as bv8)
  }

  /** `m` back-to-back copies of the byte string `v`. */
  function Repeat(v: seq<bv8>, m: nat): (r: seq<bv8>)
    ensures |r| == m * |v|
  {
    if m == 0 then [] else Repeat(v, m - 1) + v
  }

  /** The sequence made of `m` copies of the element `v`. */
  function Copies(v: seq<bv8>, m: nat): (r: seq<seq<bv8>>)
    ensures |r| == m
    ensures forall i :: 0 <= i < m ==> r[i] == v
  {
    seq(m, _ => v)
  }

  /** Byte concatenation of a sequence of elements. */
  function Flatten(es: seq<seq<bv8>>): (r: seq<bv8>)
  {
    if es == [] then [] else Flatten(es[..|es| - 1]) + es[|es| - 1]
  }

  lemma MulMono(i: nat, n: nat, t: nat)
    requires i <= n
    ensures i * t <= n * t
  {
  }

  /** The bytes of the first `a` of `n` elements and of the remaining `n - a`. */
  lemma MulSplit(a: nat, n: nat, t: nat)
    requires a <= n
    ensures a * t + (n - a) * t == n * t
  {
  }

  /** Slot `i` of a buffer holding `n` elements of width `t` lies inside the first `n*t` bytes. */
  lemma SlotBounds(i: nat, n: nat, t: nat)
    requires i < n
    ensures (i + 1) * t == i * t + t
    ensures i * t + t <= n * t
  {
    MulMono(i + 1, n, t);
  }

  /** The first `n` elements of width `t` stored in `b`. */
  ghost function Chunks(b: seq<bv8>, n: nat, t: nat): (r: seq<seq<bv8>>)
    requires n * t <= |b|
    ensures |r| == n
  {
    seq(n, i requires 0 <= i < n => SlotBounds(i, n, t); b[i * t .. i * t + t])
  }

  /** `x` and `y` agree on their first `n` bytes (and both have them). */
  ghost predicate SamePrefix(x: seq<bv8>, y: seq<bv8>, n: int)
  {
    0 <= n <= |x| && n <= |y| && x[..n] == y[..n]
  }

  /** Agreeing on the first `n` bytes means agreeing on any shorter prefix. */
  lemma SamePrefixShorter(x: seq<bv8>, y: seq<bv8>, m: int, n: int)
    requires SamePrefix(x, y, n) && 0 <= m <= n
    ensures SamePrefix(x, y, m)
  {
    assert x[..m] == x[..n][..m];
    assert y[..m] == y[..n][..m];
  }

  /** `x` and `y` have the same length and agree from byte `from` on. */
  ghost predicate SameFrom(x: seq<bv8>, y: seq<bv8>, from: int)
  {
    |x| == |y| && 0 <= from <= |x| && x[from..] == y[from..]
  }

  /** `after` holds `patch` at offset `off` and agrees with `before` on every
      other byte below `kept`. */
  ghost predicate Patched(before: seq<bv8>, after: seq<bv8>, kept: nat, off: nat, patch: seq<bv8>)
  {
    && kept <= |before| && kept <= |after| && off + |patch| <= |after|
    && after[off .. off + |patch|] == patch
    && forall k :: 0 <= k < kept && !(off <= k < off + |patch|) ==> after[k] == before[k]
  }

  /** `after` holds the bytes of `m` zero elements of width `t` at byte offset
      `off` and otherwise agrees with `before` on every byte below `kept`. */
  ghost predicate ZeroedAt(before: seq<bv8>, after: seq<bv8>, kept: nat, off: nat, m: nat, t: nat)
  {
    Patched(before, after, kept, off, Zeros(m * t))
  }

  /** `after` is `before` with the bytes of `m` elements of width `t` set to
      zero from byte offset `off`, and every other byte as it was. */
  ghost predicate ZeroWritten(before: seq<bv8>, after: seq<bv8>, off: nat, m: nat, t: nat)
  {
    off + m * t <= |before| && after == before[..off] + Zeros(m * t) + before[off + m * t..]
  }

  /** memmove of the `len` bytes at `pos` one element right, then memcpy of
      `v` into the gap at `pos`: the old bytes with `v` spliced in at `pos`. */
  lemma ShiftRightAndWrite(b: seq<bv8>, moved: seq<bv8>, written: seq<bv8>, pos: nat, len: nat, v: seq<bv8>)
    requires pos + len + |v| <= |b|
    requires moved == b[..pos + |v|] + b[pos .. pos + len] + b[pos + |v| + len..]
    requires written == moved[..pos] + v + moved[pos + |v|..]
    ensures written == b[..pos] + v + b[pos .. pos + len] + b[pos + len + |v|..]
  {
    var w := |v|;
    var x, y, z := b[..pos + w], b[pos .. pos + len], b[pos + w + len..];
    assert |x| == pos + w;
    assert moved[..pos] == x[..pos] == b[..pos];
    assert moved[pos + w..] == y + z;
  }

  /** Chunks only look at the first `n*t` bytes. */
  lemma ChunksSamePrefix(x: seq<bv8>, y: seq<bv8>, m: nat, n: nat, t: nat)
    requires SamePrefix(x, y, m) && n * t <= m
    ensures Chunks(x, n, t) == Chunks(y, n, t)
  {
    var p := x[..m];
    assert p == y[..m];
    forall i | 0 <= i < n
      ensures Chunks(x, n, t)[i] == Chunks(y, n, t)[i]
    {
      SlotBounds(i, n, t);
      var lo, hi := i * t, i * t + t;
      assert hi <= m;
      assert x[lo .. hi] == x[..m][lo .. hi] == p[lo .. hi];
      assert p[lo .. hi] == y[..m][lo .. hi] == y[lo .. hi];
    }
  }

  /** Reading fewer elements gives a prefix of the element sequence. */
  lemma ChunksTake(b: seq<bv8>, m: nat, n: nat, t: nat)
    requires m <= n && n * t <= |b|
    ensures m * t <= n * t
    ensures Chunks(b, m, t) == Chunks(b, n, t)[..m]
  {
    MulMono(m, n, t);
  }

  /** Element `i` of the bytes `x + y`, for `i` among the first `n`, lies in `x`. */
  lemma ChunkInLeft(x: seq<bv8>, y: seq<bv8>, n: nat, t: nat, i: nat)
    requires |x| == n * t && i < n
    ensures i * t + t <= |x|
    ensures (x + y)[i * t .. i * t + t] == x[i * t .. i * t + t]
  {
    SlotBounds(i, n, t);
  }

  /** Element `n + j` of the bytes `x + y`, with `x` holding `n` elements, is
      element `j` of `y`. */
  lemma ChunkInRight(x: seq<bv8>, y: seq<bv8>, n: nat, m: nat, t: nat, j: nat)
    requires |x| == n * t && m * t <= |y| && j < m
    ensures (n + j) * t == n * t + j * t && j * t + t <= |y|
    ensures (x + y)[(n + j) * t .. (n + j) * t + t] == y[j * t .. j * t + t]
  {
    SlotBounds(j, m, t);
    assert (n + j) * t == n * t + j * t;
  }

  /** The elements of two adjacent byte ranges are the two element sequences, concatenated. */
  lemma ChunksConcat(x: seq<bv8>, y: seq<bv8>, n: nat, m: nat, t: nat)
    requires |x| == n * t && m * t <= |y|
    ensures (n + m) * t <= |x + y|
    ensures Chunks(x + y, n + m, t) == Chunks(x, n, t) + Chunks(y, m, t)
  {
    MulSplit(n, n + m, t);
    var l, cx, cy := Chunks(x + y, n + m, t), Chunks(x, n, t), Chunks(y, m, t);
    forall i | 0 <= i < n + m
      ensures l[i] == (cx + cy)[i]
    {
      if i < n {
        ChunkInLeft(x, y, n, t, i);
        assert l[i] == cx[i];
      } else {
        ChunkInRight(x, y, n, m, t, i - n);
        assert l[i] == cy[i - n];
      }
    }
  }

  /** One element's worth of bytes is one element. */
  lemma ChunksSingle(v: seq<bv8>, t: nat)
    requires |v| == t
    ensures Chunks(v, 1, t) == [v]
  {
    var c := Chunks(v, 1, t);
    assert 0 * t == 0;
    assert c[0] == v[0 .. t] == v;
    assert |c| == 1;
  }

  /** Round trip: the bytes of the elements read from `b` are the first `n*t` bytes of `b`. */
  lemma {:induction false} FlattenChunks(b: seq<bv8>, n: nat, t: nat)
    requires n * t <= |b|
    ensures Flatten(Chunks(b, n, t)) == b[..n * t]
  {
    if n > 0 {
      var c := Chunks(b, n, t);
      ChunksTake(b, n - 1, n, t);
      SlotBounds(n - 1, n, t);
      assert c[..n - 1] == Chunks(b, n - 1, t);
      FlattenChunks(b, n - 1, t);
      assert Flatten(c) == Flatten(c[..n - 1]) + c[n - 1];
      assert b[..(n - 1) * t] + b[(n - 1) * t .. n * t] == b[..n * t];
    }
  }

  /** Appending one element's bytes appends that element. */
  lemma ChunksSnoc(x: seq<bv8>, v: seq<bv8>, n: nat, t: nat)
    requires |x| == n * t && |v| == t
    ensures (n + 1) * t == |x + v|
    ensures Chunks(x + v, n + 1, t) == Chunks(x, n, t) + [v]
  {
    assert 1 * t == t;
    ChunksConcat(x, v, n, 1, t);
    ChunksSingle(v, t);
  }

  /** Round trip: elements of width `t` written out and read back are the same elements. */
  lemma {:induction false} ChunksFlatten(es: seq<seq<bv8>>, t: nat)
    requires forall i :: 0 <= i < |es| ==> |es[i]| == t
    ensures |Flatten(es)| == |es| * t
    ensures Chunks(Flatten(es), |es|, t) == es
  {
    if es != [] {
      var n := |es| - 1;
      var init := es[..n];
      assert forall i :: 0 <= i < |init| ==> init[i] == es[i];
      ChunksFlatten(init, t);
      ChunksSnoc(Flatten(init), es[n], n, t);
      assert init + [es[n]] == es;
    }
  }

  /** Two buffers hold the same `n` elements exactly when their first `n*t` bytes agree. */
  lemma ChunksEqualIff(x: seq<bv8>, y: seq<bv8>, n: nat, t: nat)
    requires n * t <= |x| && n * t <= |y|
    ensures Chunks(x, n, t) == Chunks(y, n, t) <==> x[..n * t] == y[..n * t]
  {
    if Chunks(x, n, t) == Chunks(y, n, t) {
      FlattenChunks(x, n, t);
      FlattenChunks(y, n, t);
    }
    if x[..n * t] == y[..n * t] {
      ChunksSamePrefix(x, y, n * t, n, t);
    }
  }

  /** Opening a one-element gap at element `k` and writing `v` there inserts `v` at position `k`. */
  lemma ChunksInsert(b: seq<bv8>, k: nat, n: nat, t: nat, v: seq<bv8>)
    requires k <= n && n * t <= |b| && |v| == t
    ensures k * t <= n * t
    ensures (n + 1) * t == |b[..k * t] + v + b[k * t .. n * t]|
    ensures Chunks(b[..k * t] + v + b[k * t .. n * t], n + 1, t)
         == Chunks(b, n, t)[..k] + [v] + Chunks(b, n, t)[k..]
  {
    MulMono(k, n, t);
    var x, y := b[..k * t], b[k * t .. n * t];
    assert |y| == (n - k) * t;
    ChunksConcat(v, y, 1, n - k, t);
    ChunksSingle(v, t);
    ChunksConcat(x, v + y, k, n - k + 1, t);
    assert x + v + y == x + (v + y);
    ChunksConcat(x, y, k, n - k, t);
    assert x + y == b[..n * t];
    ChunksSamePrefix(b, x + y, n * t, n, t);
    var c := Chunks(b, n, t);
    assert c == Chunks(x, k, t) + Chunks(y, n - k, t);
    assert c[..k] == Chunks(x, k, t);
    assert c[k..] == Chunks(y, n - k, t);
  }

  /** Closing the gap over element `k` removes position `k`. */
  lemma ChunksErase(b: seq<bv8>, k: nat, n: nat, t: nat)
    requires k < n && n * t <= |b|
    ensures k * t + t <= n * t
    ensures (n - 1) * t == |b[..k * t] + b[k * t + t .. n * t]|
    ensures Chunks(b[..k * t] + b[k * t + t .. n * t], n - 1, t)
         == Chunks(b, n, t)[..k] + Chunks(b, n, t)[k + 1..]
  {
    SlotBounds(k, n, t);
    var x, w, y := b[..k * t], b[k * t .. k * t + t], b[k * t + t .. n * t];
    assert |y| == (n - k - 1) * t;
    ChunksConcat(x, y, k, n - k - 1, t);
    ChunksConcat(w, y, 1, n - k - 1, t);
    ChunksSingle(w, t);
    ChunksConcat(x, w + y, k, n - k, t);
    assert x + (w + y) == b[..n * t];
    ChunksSamePrefix(b, x + (w + y), n * t, n, t);
    var c := Chunks(b, n, t);
    assert c == Chunks(x, k, t) + ([w] + Chunks(y, n - k - 1, t));
    assert c[..k] == Chunks(x, k, t);
    assert c[k + 1..] == Chunks(y, n - k - 1, t);
  }

  /** `m` copies of an element's bytes read back as `m` copies of the element. */
  lemma {:induction false} ChunksRepeat(v: seq<bv8>, m: nat, t: nat)
    requires |v| == t
    ensures m * t == |Repeat(v, m)|
    ensures Chunks(Repeat(v, m), m, t) == Copies(v, m)
  {
    if m > 0 {
      ChunksRepeat(v, m - 1, t);
      ChunksConcat(Repeat(v, m - 1), v, m - 1, 1, t);
      ChunksSingle(v, t);
      assert Copies(v, m - 1) + [v] == Copies(v, m);
    }
  }

  /** Zeroing `m` elements' bytes is the same as writing `m` zero elements. */
  lemma {:induction false} RepeatZeros(m: nat, t: nat)
    ensures Repeat(Zeros(t), m) == Zeros(m * t)
  {
    if m > 0 {
      RepeatZeros(m - 1, t);
      assert m * t == (m - 1) * t + t;
      assert Zeros((m - 1) * t) + Zeros(t) == Zeros(m * t);
    }
  }

  /** Elements of width 0 are all empty. */
  lemma ChunksWidthZero(b: seq<bv8>, n: nat)
    ensures Chunks(b, n, 0) == Copies([], n)
  {
  }

  /** Writing the bytes of `m` new elements right after the first `a` ones
      appends those elements and keeps the first `a`. */
  lemma PatchedChunks(before: seq<bv8>, after: seq<bv8>, kept: nat, a: nat, m: nat, t: nat, patch: seq<bv8>)
    requires a * t <= kept && |patch| == m * t
    requires Patched(before, after, kept, a * t, patch)
    ensures (a + m) * t <= |after|
    ensures Chunks(after, a + m, t) == Chunks(before, a, t) + Chunks(patch, m, t)
  {
    var x := after[..a * t];
    assert x == before[..a * t] by {
      forall k | 0 <= k < a * t ensures x[k] == before[k] { }
    }
    ChunksConcat(x, patch, a, m, t);
    assert x + patch == after[..a * t + m * t];
    ChunksSamePrefix(after, x + patch, (a + m) * t, a + m, t);
    ChunksSamePrefix(x, before, a * t, a, t);
  }

  /** memset of zeros at `off` over a buffer that agrees with `before` on the
      first `kept` bytes leaves it `Patched` with those zeros. */
  lemma ZeroPatched(before: seq<bv8>, grown: seq<bv8>, after: seq<bv8>, kept: nat, off: nat, len: nat)
    requires SamePrefix(grown, before, kept) && off + len <= |grown|
    requires after == grown[..off] + Zeros(len) + grown[off + len..]
    ensures Patched(before, after, kept, off, Zeros(len))
  {
    assert |grown[..off]| == off;
    assert after[off .. off + len] == Zeros(len);
    forall k | 0 <= k < kept && !(off <= k < off + len)
      ensures after[k] == before[k]
    {
      assert before[k] == before[..kept][k] == grown[..kept][k] == grown[k];
    }
  }

  /** memset of the bytes of `m` elements at `off`: the whole buffer is
      patched with zeros there, and so is any buffer `grown` was copied from. */
  lemma ZeroSlots(orig: seq<bv8>, grown: seq<bv8>, after: seq<bv8>, kept: nat, off: nat, m: nat, t: nat)
    requires SamePrefix(grown, orig, kept) && off + m * t <= |grown|
    requires after == grown[..off] + Zeros(m * t) + grown[off + m * t..]
    ensures ZeroedAt(grown, after, |grown|, off, m, t)
    ensures ZeroedAt(orig, after, kept, off, m, t)
  {
    ZeroPatched(orig, grown, after, kept, off, m * t);
    ZeroPatched(grown, grown, after, |grown|, off, m * t);
  }

  /** Zero-filling the bytes of `m` slots right after the first `a` elements
      appends `m` all-zero elements. */
  lemma ZeroFill(before: seq<bv8>, after: seq<bv8>, a: nat, m: nat, t: nat)
    requires ZeroedAt(before, after, a * t, a * t, m, t)
    ensures (a + m) * t <= |after|
    ensures Chunks(after, a + m, t) == Chunks(before, a, t) + Copies(Zeros(t), m)
  {
    PatchedChunks(before, after, a * t, a, m, t, Zeros(m * t));
    RepeatZeros(m, t);
    ChunksRepeat(Zeros(t), m, t);
  }

  /** Zero-filling from byte offset `a` instead of `a * t`, for `a >= 1`
      elements of width `t >= 2`, overwrites byte `a` of the existing
      elements: when that byte was not zero, the old elements are no longer
      a prefix of the new ones. */
  lemma ZeroFillAtCountCorrupts(before: seq<bv8>, after: seq<bv8>, kept: nat, a: nat, m: nat, t: nat)
    requires a >= 1 && t >= 2 && m >= 1 && (a + m) * t <= |after|
    requires a * t <= kept && ZeroedAt(before, after, kept, a, m, t)
    requires before[a] != 0
    ensures Chunks(after, a + m, t)[..a] != Chunks(before, a, t)
  {
    assert a * t >= a * 2 by { MulMono(2, t, a); }
    assert m * t >= 1 by { MulMono(1, m, t); }
    ChunksTake(after, a, a + m, t);
    assert after[a] == Zeros(m * t)[0] == 0;
    ChunksEqualIff(after, before, a, t);
    assert after[..a * t][a] != before[..a * t][a];
  }

  /** One memcpy step of resize_ptr's fill loop: writing `v` at slot `i`
      extends the filled prefix by one copy of `v`. */
  lemma FillStep(prev: seq<bv8>, cur: seq<bv8>, base: seq<bv8>, i: nat, k: nat, t: nat, v: seq<bv8>)
    requires |v| == t && i * t + t <= |prev|
    requires prev[..i * t] == base + Repeat(v, k)
    requires cur == prev[..i * t] + v + prev[i * t + t..]
    ensures (i + 1) * t == i * t + t
    ensures cur[..(i + 1) * t] == base + Repeat(v, k + 1)
  {
    assert (i + 1) * t == i * t + t;
    assert cur[..i * t + t] == prev[..i * t] + v;
  }

  /** A buffer whose first bytes are `pre` followed by `m` copies of `v` holds
      the elements of `pre` followed by `m` copies of `v`. */
  lemma FilledElements(after: seq<bv8>, pre: seq<bv8>, a: nat, m: nat, t: nat, v: seq<bv8>)
    requires |v| == t && |pre| == a * t
    requires (a + m) * t <= |after|
    requires after[..(a + m) * t] == pre + Repeat(v, m)
    ensures Chunks(after, a + m, t) == Chunks(pre, a, t) + Copies(v, m)
  {
    ChunksRepeat(v, m, t);
    ChunksConcat(pre, Repeat(v, m), a, m, t);
    ChunksSamePrefix(after, pre + Repeat(v, m), (a + m) * t, a + m, t);
  }

  /** The buffer after insert's memmove of the `len` bytes at `pos` one slot
      right and memcpy of `v` into the gap holds the old elements with `v`
      spliced in at `k`, and the bytes past the new end are untouched. */
  lemma InsertLayout(b: seq<bv8>, after: seq<bv8>, k: nat, n: nat, t: nat, v: seq<bv8>,
                     pos: nat, len: nat, end: nat)
    requires k <= n && pos == k * t && end == n * t && |v| == t
    requires len == end - pos && pos <= end && end + t <= |b|
    requires after == b[..pos] + v + b[pos .. pos + len] + b[pos + len + |v|..]
    ensures (n + 1) * t == end + t
    ensures Chunks(after, n + 1, t) == Chunks(b, n, t)[..k] + [v] + Chunks(b, n, t)[k..]
    ensures SameFrom(after, b, end + t)
  {
    SlotBounds(n, n + 1, t);
    var front := b[..pos] + v + b[pos .. end];
    assert after == front + b[end + t..];
    ChunksInsert(b, k, n, t, v);
    assert SamePrefix(after, front, end + t);
    ChunksSamePrefix(after, front, end + t, n + 1, t);
  }

  /** The buffer after erase's memmove of the `len` bytes after slot `k` one
      slot left holds the old elements without position `k`; the old last slot
      onward is untouched. */
  lemma EraseLayout(b: seq<bv8>, after: seq<bv8>, k: nat, n: nat, t: nat, pos: nat, len: nat, end: nat)
    requires k < n && pos == k * t && end == n * t && pos + t <= end <= |b| && len == end - pos - t
    requires after == b[..pos] + b[pos + t .. pos + t + len] + b[pos + len..]
    ensures (n - 1) * t == end - t
    ensures Chunks(after, n - 1, t) == Chunks(b, n, t)[..k] + Chunks(b, n, t)[k + 1..]
    ensures SameFrom(after, b, end - t)
  {
    SlotBounds(n - 1, n, t);
    var front := b[..pos] + b[pos + t .. end];
    assert after == front + b[end - t..];
    ChunksErase(b, k, n, t);
    assert SamePrefix(after, front, end - t);
    ChunksSamePrefix(after, front, end - t, n - 1, t);
  }

  /** After that memmove, slot `k` holds the old element `k + 1`, or the old
      element `k` itself when it was the last one. */
  lemma EraseSlot(b: seq<bv8>, after: seq<bv8>, k: nat, n: nat, t: nat, pos: nat, len: nat, end: nat)
    requires k < n && pos == k * t && end == n * t && pos + t <= end <= |b| && len == end - pos - t
    requires after == b[..pos] + b[pos + t .. pos + t + len] + b[pos + len..]
    ensures pos + t <= |after|
    ensures k + 1 < n ==> after[pos .. pos + t] == Chunks(b, n, t)[k + 1]
    ensures k + 1 == n ==> after[pos .. pos + t] == Chunks(b, n, t)[k]
  {
    var x, y, z := b[..pos], b[pos + t .. pos + t + len], b[pos + len..];
    assert |x| == pos && |y| == len;
    if k + 1 < n {
      SlotBounds(k + 1, n, t);
      assert (k + 1) * t + t <= end;
      assert after[pos .. pos + t] == y[..t];
      assert y[..t] == b[pos + t .. pos + t + t];
      SlotBounds(k, n, t);
    } else {
      assert len == 0;
      assert after == x + z;
      assert after[pos .. pos + t] == z[..t];
      SlotBounds(k, n, t);
    }
  }

  /** The buffer after push_back's copy holds the old elements followed by `v`. */
  lemma PushLayout(b: seq<bv8>, after: seq<bv8>, n: nat, t: nat, v: seq<bv8>, end: nat)
    requires end == n * t && end + t <= |b| && |v| == t
    requires after == b[..end] + v + b[end + t..]
    ensures (n + 1) * t == end + t
    ensures Chunks(after, n + 1, t) == Chunks(b, n, t) + [v]
    ensures SameFrom(after, b, end + t)
  {
    SlotBounds(n, n + 1, t);
    var front := b[..end] + v;
    assert after == front + b[end + t..];
    ChunksConcat(b[..end], v, n, 1, t);
    ChunksSingle(v, t);
    assert SamePrefix(after, front, end + t);
    ChunksSamePrefix(after, front, end + t, n + 1, t);
    ChunksSamePrefix(b[..end], b, end, n, t);
  }
}
