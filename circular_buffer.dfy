/**
 * The mirrored circular buffer of timestamps (circular_buf_t).
 *
 * A buffer of capacity `size` owns 2*size slots. Every put writes its value
 * twice, at `head` and at `head - size`, so that the last `size` values are
 * always laid out contiguously, oldest to newest, in slots
 * [head - size, head) without any wrap-around on the read path.
 *
 * The value-level definitions (Mirrored, Inv, NextHead) and the lemmas about
 * them carry the reasoning; the class CircularBuf follows the C structure and
 * keeps Inv over its own fields.
 */
module CircularBuffer {
  import opened CTypes
  import opened ModArith

  /** The mirror invariant: the lower half of the slots equals the upper half. */
  ghost predicate Mirrored(b: seq<u64>, size: int)
  {
    0 <= size && |b| == 2 * size && b[..size] == b[size..]
  }

  /** Slot by slot: every lower-half slot equals its twin size slots above. */
  lemma MirroredIff(b: seq<u64>, size: int)
    requires 0 <= size && |b| == 2 * size
    ensures Mirrored(b, size) <==> forall i :: 0 <= i < size ==> b[i] == b[i + size]
  {
    if forall i :: 0 <= i < size ==> b[i] == b[i + size] {
      assert forall i :: 0 <= i < size ==> b[..size][i] == b[size..][i];
    }
    if Mirrored(b, size) {
      forall i | 0 <= i < size
        ensures b[i] == b[i + size]
      {
        MirroredAt(b, size, i);
      }
    }
  }

  lemma MirroredAt(b: seq<u64>, size: int, i: int)
    requires Mirrored(b, size) && 0 <= i < size
    ensures b[i] == b[i + size]
  {
    assert b[..size][i] == b[size..][i];
  }

  /**
   * The buffer invariant, on the slots `b`, the fields `head` and `count`, the
   * capacity `size` and the history `h` of values put since the last reset:
   * - `head` lies in the upper half and `head - size` counts the puts modulo `size`;
   * - `count` is the number of puts, saturated at `size`;
   * - the mirror invariant holds on all 2*size slots;
   * - the `count` slots just below `head` hold the last `count` values put,
   *   oldest first.
   */
  ghost predicate Inv(b: seq<u64>, head: int, count: int, size: int, h: seq<u64>)
  {
    0 < size && |b| == 2 * size &&
    size <= head < 2 * size &&
    head - size == Mod(|h|, size) &&
    count == Min(|h|, size) &&
    Mirrored(b, size) &&
    b[head - count .. head] == h[|h| - count ..]
  }

  /**
   * The head update of circular_buf_put: the logical cursor `head - size`
   * advances by one modulo `size`, and `head` stays in the upper half, moving
   * back to `size` after the last slot.
   */
  function NextHead(head: int, size: int): (next: int)
    requires 0 < size <= head < 2 * size
    ensures size <= next < 2 * size
    ensures next - size == Mod(head - size + 1, size)
    ensures next == if head + 1 < 2 * size then head + 1 else size
  {
    HeadArith(head, size);
    (head + 1) % size + size
  }

  lemma HeadArith(head: int, size: int)
    requires 0 < size <= head < 2 * size
    ensures (head + 1) % size == if head + 1 < 2 * size then head + 1 - size else 0
  {
    if head + 1 < 2 * size {
      ModOneWrap(head + 1, size);
    } else {
      ModUnique(head + 1, size, 2, 0);
    }
  }

  /** The slots of a freshly allocated buffer, all zero as calloc leaves them. */
  lemma AllocatedInv(size: int)
    requires 0 < size
    ensures Inv(seq(2 * size, _ => 0 as u64), size, 0, size, [])
  {
  }

  /** Resetting only rewinds `head` and `count`: any slots that are still mirrored are a valid empty buffer. */
  lemma ResetInv(b: seq<u64>, size: int)
    requires 0 < size && Mirrored(b, size)
    ensures Inv(b, size, 0, size, [])
  {
  }

  /** A put keeps the slots mirrored: it writes the same value into both twins. */
  lemma PutKeepsMirrored(b: seq<u64>, head: int, size: int, v: u64)
    requires Mirrored(b, size) && 0 < size <= head < 2 * size
    ensures Mirrored(b[head := v][head - size := v], size)
  {
    var b' := b[head := v][head - size := v];
    assert b'[..size] == b[..size][head - size := v];
    assert b'[size..] == b[size..][head - size := v];
  }

  /** A suffix of the retained window holds the same suffix of the history. */
  lemma WindowSuffix(b: seq<u64>, head: int, count: int, h: seq<u64>, k: int)
    requires 0 <= k <= count <= head <= |b| && count <= |h|
    requires b[head - count .. head] == h[|h| - count ..]
    ensures b[head - k .. head] == h[|h| - k ..]
  {
    assert b[head - k .. head] == b[head - count .. head][count - k ..];
    assert h[|h| - k ..] == h[|h| - count ..][count - k ..];
  }

  /**
   * Without a wrap, the k slots below head stay in place and v lands on head,
   * so the slots [lo, hi) = [head - k, head + 1) after the put are those k
   * slots followed by v.
   */
  lemma PutBelowHeadNoWrap(b: seq<u64>, head: int, size: int, v: u64, k: int, lo: int, hi: int)
    requires 0 < size <= head && head + 1 < 2 * size == |b| && 0 <= k < size
    requires lo == head - k && hi == head + 1
    ensures b[head := v][head - size := v][lo .. hi] == b[head - k .. head] + [v]
  {
    var b' := b[head := v][head - size := v];
    assert b'[lo .. hi] == b'[head - k .. head] + [b'[head]];
    assert b'[head - k .. head] == b[head - k .. head];
  }

  /**
   * When head is the last slot, the k slots below it are found in their lower
   * twins and v lands on the twin of head, so the slots [lo, hi) =
   * [size - 1 - k, size) after the put are those k values followed by v.
   */
  lemma PutBelowHeadWrap(b: seq<u64>, head: int, size: int, v: u64, k: int, lo: int, hi: int)
    requires Mirrored(b, size) && 0 < size && head == 2 * size - 1 && 0 <= k < size
    requires lo == size - 1 - k && hi == size
    ensures b[head := v][head - size := v][lo .. hi] == b[head - k .. head] + [v]
  {
    var b' := b[head := v][head - size := v];
    assert b'[lo .. hi] == b'[lo .. size - 1] + [b'[size - 1]];
    assert b'[lo .. size - 1] == b[lo .. size - 1];
    SliceOfPrefix(b, size, lo, size - 1);
    SliceOfSuffix(b, size, lo, size - 1);
  }

  lemma SliceOfPrefix(s: seq<u64>, a: int, i: int, j: int)
    requires 0 <= i <= j <= a <= |s|
    ensures s[..a][i..j] == s[i..j]
  {
    assert forall t :: 0 <= t < j - i ==> s[..a][i..j][t] == s[i..j][t];
  }

  lemma SliceOfSuffix(s: seq<u64>, a: int, i: int, j: int)
    requires 0 <= a <= |s| && 0 <= i <= j <= |s| - a
    ensures s[a..][i..j] == s[a + i .. a + j]
  {
    assert forall t :: 0 <= t < j - i ==> s[a..][i..j][t] == s[a + i .. a + j][t];
  }

  /**
   * A put extends the retained window by v: the window below the new head is
   * the old one (less its oldest value once saturated) followed by v.
   */
  lemma PutExtendsWindow(b: seq<u64>, head: int, count: int, size: int, h: seq<u64>, v: u64)
    requires Mirrored(b, size) && 0 < size <= head < 2 * size
    requires 0 <= count <= size && count <= |h| && b[head - count .. head] == h[|h| - count ..]
    ensures var count' := if count < size then count + 1 else count;
            var head' := if head + 1 < 2 * size then head + 1 else size;
            b[head := v][head - size := v][head' - count' .. head'] == (h + [v])[|h| + 1 - count' ..]
  {
    var count' := if count < size then count + 1 else count;
    var head' := if head + 1 < 2 * size then head + 1 else size;
    var b' := b[head := v][head - size := v];
    var k := count' - 1;
    WindowSuffix(b, head, count, h, k);
    if head + 1 < 2 * size {
      PutBelowHeadNoWrap(b, head, size, v, k, head' - count', head');
    } else {
      PutBelowHeadWrap(b, head, size, v, k, head' - count', head');
    }
    assert |h| + 1 - count' == |h| - k;
    assert (h + [v])[|h| - k ..] == h[|h| - k ..] + [v];
  }

  /**
   * A put preserves the invariant: writing v at head and at head - size,
   * moving head with NextHead and saturating count keeps the slots mirrored
   * and extends the retained window by v.
   */
  lemma PutPreservesInv(b: seq<u64>, head: int, count: int, size: int, h: seq<u64>, v: u64)
    requires Inv(b, head, count, size, h)
    ensures Inv(b[head := v][head - size := v], NextHead(head, size),
                if count < size then count + 1 else count, size, h + [v])
  {
    var b', head' := b[head := v][head - size := v], NextHead(head, size);
    var count' := if count < size then count + 1 else count;
    ModSucc(|h|, size);
    assert |h + [v]| == |h| + 1;
    PutKeepsMirrored(b, head, size, v);
    PutExtendsWindow(b, head, count, size, h, v);
  }

  /** What the invariant says about slot 0 and about head once saturated. */
  lemma OldestSlots(b: seq<u64>, head: int, count: int, size: int, h: seq<u64>)
    requires Inv(b, head, count, size, h)
    ensures count == size ==> b[head] == b[head - size] == h[|h| - size]
    ensures 1 <= count < size ==> b[0] == h[0]
  {
    if count == size {
      MirroredAt(b, size, head - size);
      assert b[head - size] == b[head - count .. head][0];
    } else if 1 <= count {
      MirroredAt(b, size, 0);
      assert b[size] == b[head - count .. head][0];
    }
  }

  class CircularBuf {
    /** The 2*size slots; the pointer never changes after allocation. */
    const buffer: array<u64>
    /** Capacity, fixed at allocation. */
    const size: int
    /** Next write slot, in the upper half [size, 2*size). */
    var head: int
    /** Number of puts since the last reset, saturated at size. */
    var count: int
    /** The values put since the last reset, oldest first. */
    ghost var history: seq<u64>

    ghost predicate Valid()
      reads this, buffer
    {
      2 * size <= INT_MAX &&
      Inv(buffer[..], head, count, size, history)
    }

    /** circular_buf_allocate: 2*size zeroed slots, then a reset. */
    constructor Allocate(size: int)
      requires 0 < size && 2 * size <= INT_MAX
      ensures Valid() && fresh(buffer)
      ensures this.size == size && buffer.Length == 2 * size
      ensures head == size && count == 0 && history == []
      ensures forall i :: 0 <= i < 2 * size ==> buffer[i] == 0
    {
      this.size := size;
      head := size;
      count := 0;
      buffer := new u64[2 * size](_ => 0);
      history := [];
      new;
      AllocatedInv(size);
      assert buffer[..] == seq(2 * size, _ => 0 as u64);
    }

    /** circular_buf_reset: back to the empty state; the slots are not cleared. */
    method Reset()
      requires Valid()
      modifies this
      ensures Valid()
      ensures head == size && count == 0 && history == []
      ensures unchanged(buffer)
    {
      head := size;
      count := 0;
      history := [];
      ResetInv(buffer[..], size);
    }

    /**
     * circular_buf_put: exactly the slots head and head - size change, both to
     * v; the cursor advances and count saturates at size.
     */
    method Put(v: u64)
      requires Valid()
      modifies this, buffer
      ensures Valid()
      ensures buffer[..] == old(buffer[..])[old(head) := v][old(head) - size := v]
      ensures head == if old(head) + 1 < 2 * size then old(head) + 1 else size
      ensures count == Min(old(count) + 1, size)
      ensures history == old(history) + [v]
    {
      ghost var b, h, head0, count0 := buffer[..], history, head, count;
      buffer[head] := v;
      buffer[head - size] := v;
      head := NextHead(head, size);
      if count < size {
        count := count + 1;
      }
      history := h + [v];
      assert buffer[..] == b[head0 := v][head0 - size := v];
      PutStepValid(this, b, head0, count0, h, v);
    }

    /**
     * circular_buf_oldest. Once saturated it returns the value put exactly
     * size puts ago, which is also the slot the next put overwrites. Before
     * saturation it returns slot 0: the first value put since the reset when
     * there is one, and otherwise whatever slot 0 still holds.
     */
    function Oldest(): (r: u64)
      reads this, buffer
      requires Valid()
      ensures count == size ==> r == history[|history| - size] && r == buffer[head - size]
      ensures 1 <= count < size ==> r == history[0]
      ensures count < size ==> r == buffer[0]
    {
      OldestSlots(buffer[..], head, count, size, history);
      if count < size then buffer[0] else buffer[head]
    }

    /**
     * The contiguous window [head - size, head): once the buffer is
     * saturated it is exactly the last size values put, oldest first.
     */
    ghost function Window(): (w: seq<u64>)
      reads this, buffer
      requires Valid()
      ensures |w| == size
      ensures count == size ==> w == history[|history| - size ..]
    {
      buffer[head - size .. head]
    }
  }

  /** The state Put leaves behind satisfies Valid (PutPreservesInv, read on the fields of c). */
  lemma PutStepValid(c: CircularBuf, b: seq<u64>, head: int, count: int, h: seq<u64>, v: u64)
    requires 2 * c.size <= INT_MAX && Inv(b, head, count, c.size, h)
    requires c.buffer[..] == b[head := v][head - c.size := v]
    requires c.head == NextHead(head, c.size)
    requires c.count == if count < c.size then count + 1 else count
    requires c.history == h + [v]
    ensures c.Valid()
  {
    PutPreservesInv(b, head, count, c.size, h, v);
  }

  /**
   * Reset equivalence: two buffers of the same capacity that have seen the
   * same puts since their last reset or allocation agree on head, count and
   * the oldest value (once something was put) and, after saturation, on the
   * whole window.
   */
  lemma SameHistorySameView(c1: CircularBuf, c2: CircularBuf)
    requires c1.Valid() && c2.Valid()
    requires c1.size == c2.size && c1.history == c2.history
    ensures c1.head == c2.head && c1.count == c2.count
    ensures |c1.history| >= 1 ==> c1.Oldest() == c2.Oldest()
    ensures c1.count == c1.size ==> c1.Window() == c2.Window()
  {
  }

  /** Scenario: capacity 3, puts 10, 20, 30 then 40. */
  method ScenarioCapacityThree() returns (first: u64, second: u64)
    ensures first == 10 && second == 20
  {
    var c := new CircularBuf.Allocate(3);
    c.Put(10);
    c.Put(20);
    c.Put(30);
    first := c.Oldest();
    c.Put(40);
    second := c.Oldest();
  }

  /** Scenario: after a reset, oldest reads slot 0, which still holds an old value. */
  method ScenarioStaleAfterReset() returns (stale: u64)
    ensures stale == 7
  {
    var c := new CircularBuf.Allocate(2);
    c.Put(7);
    c.Reset();
    stale := c.Oldest();
  }
}
