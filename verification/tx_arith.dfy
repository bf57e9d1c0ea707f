/** Cursor arithmetic of the USART transmit ring buffer: the occupancy count,
    the clamp applied to an enqueue, the length of the next DMA run, and the
    view of the byte array as a circular queue read forward from a cursor. */
module TxArith {

  /** One byte of the transmit buffer (`u8`). */
  newtype Byte = x: int | 0 <= x < 256

  /** Largest buffer length whose longest run, the whole array, fits the
      16-bit item count register `NDTR` of the DMA stream, from which the
      run length is read back into `xfer_len`. Every intermediate value of
      the cursor arithmetic (always below twice the length) then also fits
      in a 32-bit `u32`. */
  const MAX_BUFFER_LEN: nat := 0xFFFF

  /** The range of the source's `u32`. */
  predicate IsU32(x: int) {
    0 <= x < 0x1_0000_0000
  }

  /** `%` on the only operands the cursor arithmetic produces: a value at
      most one length below zero or below twice the length. */
  lemma ModNear(x: int, cap: int)
    requires 0 < cap && -cap <= x < 2 * cap
    ensures x % cap == if x < 0 then x + cap else if x < cap then x else x - cap
  {
  }

  /** Cursor `c` moved forward `k` slots on a ring of `cap` slots, the
      source's `(c + k) % cap`; the sum is below `2 * cap`, so this is one
      conditional subtraction. */
  function Advance(c: nat, k: nat, cap: nat): (r: nat)
    requires c < cap && k <= cap
    ensures r < cap && r == (c + k) % cap
  {
    ModNear(c + k, cap);
    if c + k < cap then c + k else c + k - cap
  }

  /** Number of slots from cursor `rd` forward to cursor `wr` on a ring of
      `cap` slots; with the read and write cursors, the unread byte count. */
  function Occupancy(rd: nat, wr: nat, cap: nat): (n: nat)
    requires rd < cap && wr < cap
    ensures n < cap
    ensures n == 0 <==> rd == wr
  {
    if wr >= rd then wr - rd else cap - (rd - wr)
  }

  /** The occupancy is the forward distance from `rd` to `wr`: it equals
      `(wr - rd) mod cap`, and advancing `rd` by it lands on `wr`. */
  lemma {:induction false} OccupancyIsDistance(rd: nat, wr: nat, cap: nat)
    requires rd < cap && wr < cap
    ensures Occupancy(rd, wr, cap) == (wr - rd) % cap
    ensures (rd + Occupancy(rd, wr, cap)) % cap == wr
  {
    ModNear(wr - rd, cap);
    ModNear(rd + Occupancy(rd, wr, cap), cap);
  }

  /** The occupancy is the only count below `cap` that leads from `rd` to `wr`:
      equal cursors can only mean zero bytes, never `cap` bytes. */
  lemma {:induction false} OccupancyUnique(rd: nat, wr: nat, cap: nat, d: nat)
    requires rd < cap && wr < cap
    requires d < cap && (rd + d) % cap == wr
    ensures d == Occupancy(rd, wr, cap)
  {
    ModNear(rd + d, cap);
  }

  /** Bytes an enqueue of `n` bytes accepts while `pending` bytes are counted
      in the buffer: the request clamped to the free space `cap - pending`. */
  function Accepted(n: nat, pending: nat, cap: nat): (a: nat)
    requires pending <= cap
    ensures a <= n && a <= cap - pending
    ensures a == n || a == cap - pending
    ensures pending < cap ==> (a == 0 <==> n == 0)
  {
    var free := cap - pending;
    if n > free then free else n
  }

  /** Advancing the write cursor by `a` accepted bytes raises the occupancy by
      `a` as long as the total stays below the capacity. */
  lemma {:induction false} OccupancyAfterWrite(rd: nat, wr: nat, a: nat, cap: nat)
    requires rd < cap && wr < cap
    requires Occupancy(rd, wr, cap) + a < cap
    ensures Occupancy(rd, (wr + a) % cap, cap) == Occupancy(rd, wr, cap) + a
  {
    var p := Occupancy(rd, wr, cap);
    ModNear(wr + a, cap);
    ModNear(rd + p, cap);
    ModNear(rd + p + a, cap);
    OccupancyUnique(rd, (wr + a) % cap, cap, p + a);
  }

  /** Filling the free space exactly brings the write cursor onto the read
      cursor, so the occupancy then reads zero. */
  lemma {:induction false} OccupancyAtCapacity(rd: nat, wr: nat, a: nat, cap: nat)
    requires rd < cap && wr < cap
    requires Occupancy(rd, wr, cap) + a == cap
    ensures (wr + a) % cap == rd
    ensures Occupancy(rd, (wr + a) % cap, cap) == 0
  {
    var p := Occupancy(rd, wr, cap);
    ModNear(wr + a, cap);
    ModNear(rd + p, cap);
  }

  /** Length of the next DMA run from cursor `rd`: up to the write cursor when
      it lies ahead without wrapping, otherwise up to the end of the array. */
  function RunLength(rd: nat, wr: nat, cap: nat): (len: nat)
    requires rd < cap && wr < cap
    ensures 1 <= len && rd + len <= cap
  {
    if rd < wr then wr - rd else cap - rd
  }

  /** A run never exceeds the `len` bytes queued from `rd` to `wr`; it takes
      all of them exactly when they do not wrap past the end of the array. */
  lemma {:induction false} RunWithinQueue(rd: nat, wr: nat, len: nat, cap: nat)
    requires rd < cap && wr < cap
    requires 1 <= len <= cap && (rd + len) % cap == wr
    ensures RunLength(rd, wr, cap) <= len
    ensures RunLength(rd, wr, cap) == len <==> rd + len <= cap
  {
    ModNear(rd + len, cap);
  }

  /** The `len` bytes of the ring `s` read forward from index `start`,
      continuing at index 0 after the last slot. */
  function RingView(s: seq<Byte>, start: nat, len: nat): (r: seq<Byte>)
    requires start < |s| && len <= |s|
    ensures |r| == len
  {
    seq(len, i requires 0 <= i < len => s[(start + i) % |s|])
  }

  /** A ring view is one contiguous slice when it fits before the end of the
      array, and otherwise the tail of the array followed by its head. */
  lemma {:induction false} RingViewSplit(s: seq<Byte>, start: nat, len: nat)
    requires start < |s| && len <= |s|
    ensures RingView(s, start, len)
         == if start + len <= |s| then s[start..start + len]
            else s[start..] + s[..start + len - |s|]
  {
    var r := RingView(s, start, len);
    var t := if start + len <= |s| then s[start..start + len]
             else s[start..] + s[..start + len - |s|];
    assert |t| == len;
    forall i | 0 <= i < len
      ensures r[i] == t[i]
    {
      ModNear(start + i, |s|);
    }
  }

  /** Completing a run of `x` bytes that starts at `start` and stays inside the
      array consumes exactly the first `x` bytes of the view; the rest is the
      view from the advanced cursor. */
  lemma {:induction false} RingViewAdvance(s: seq<Byte>, start: nat, len: nat, x: nat)
    requires start < |s| && len <= |s|
    requires x <= len && start + x <= |s|
    ensures RingView(s, start, len)[..x] == s[start..start + x]
    ensures RingView(s, start, len)[x..] == RingView(s, (start + x) % |s|, len - x)
  {
    var r := RingView(s, start, len);
    forall i | 0 <= i < x
      ensures r[i] == s[start + i]
    {
      ModNear(start + i, |s|);
    }
    ModNear(start + x, |s|);
    var next := (start + x) % |s|;
    var rest := RingView(s, next, len - x);
    forall i | 0 <= i < len - x
      ensures r[x + i] == rest[i]
    {
      ModNear(start + x + i, |s|);
      ModNear(next + i, |s|);
    }
  }

  /** The bytes a chain of transfers carries out, starting at read cursor
      `rd` with `len` bytes queued: each transfer covers the run that the
      scheduler picks for the current cursors, its completion moves `rd` past
      that run, and the chain ends when nothing is queued. */
  function Transfers(s: seq<Byte>, rd: nat, len: nat): (out: seq<Byte>)
    requires rd < |s| && len <= |s|
    ensures |out| == len
    decreases len
  {
    if len == 0 then []
    else
      var wr := Advance(rd, len, |s|);
      var x := RunLength(rd, wr, |s|);
      RunWithinQueue(rd, wr, len, |s|);
      s[rd..rd + x] + Transfers(s, Advance(rd, x, |s|), len - x)
  }

  /** The chain of transfers carries out the queued bytes as at most two
      slices of the array: the whole queue when it does not pass the array
      end, and otherwise the tail of the array followed by its head. */
  lemma {:induction false} TransfersSplit(s: seq<Byte>, rd: nat, len: nat)
    requires rd < |s| && len <= |s|
    ensures Transfers(s, rd, len)
         == if rd + len <= |s| then s[rd..rd + len]
            else s[rd..] + s[..rd + len - |s|]
    decreases len
  {
    if len > 0 {
      var x := RunLength(rd, Advance(rd, len, |s|), |s|);
      RunWithinQueue(rd, Advance(rd, len, |s|), len, |s|);
      TransfersSplit(s, Advance(rd, x, |s|), len - x);
    }
  }

  /** The chain of transfers carries out exactly the queued bytes, in ring
      order: nothing is skipped, repeated or reordered across the wrap. */
  lemma {:induction false} TransfersCarryQueue(s: seq<Byte>, rd: nat, len: nat)
    requires rd < |s| && len <= |s|
    ensures Transfers(s, rd, len) == RingView(s, rd, len)
  {
    TransfersSplit(s, rd, len);
    RingViewSplit(s, rd, len);
  }

  /** The ring `before` after `data` is copied into the `|data|` slots that
      follow cursor `w`, continuing at slot 0 past the end of the array. */
  function Stored(before: seq<Byte>, w: nat, data: seq<Byte>): (after: seq<Byte>)
    requires w < |before| && |data| <= |before|
    ensures |after| == |before|
  {
    seq(|before|, j requires 0 <= j < |before| =>
      var k := Occupancy(w, j, |before|);
      if k < |data| then data[k] else before[j])
  }

  /** Storing no bytes leaves the ring as it was. */
  lemma {:induction false} StoredNothing(before: seq<Byte>, w: nat)
    requires w < |before|
    ensures Stored(before, w, []) == before
  {
    var after := Stored(before, w, []);
    assert forall j :: 0 <= j < |before| ==> after[j] == before[j];
  }

  /** Storing places byte `i` of `data` at slot `(w + i) % |before|` and keeps
      the byte of every slot at least `|data|` slots past `w`. */
  lemma {:induction false} StoredPlacesData(before: seq<Byte>, w: nat, data: seq<Byte>)
    requires w < |before| && |data| <= |before|
    ensures forall i :: 0 <= i < |data| ==> Stored(before, w, data)[(w + i) % |before|] == data[i]
    ensures forall j :: 0 <= j < |before| && Occupancy(w, j, |before|) >= |data| ==> Stored(before, w, data)[j] == before[j]
  {
    var after := Stored(before, w, data);
    forall i | 0 <= i < |data|
      ensures after[(w + i) % |before|] == data[i]
    {
      ModNear(w + i, |before|);
      OccupancyUnique(w, (w + i) % |before|, |before|, i);
    }
  }

  /** Storing `data` after cursor `w`, where `w` lies `len` slots after
      `start`, appends `data` to the view from `start` and keeps the `len`
      bytes already there. */
  lemma {:induction false} RingViewAppend(before: seq<Byte>, start: nat, len: nat, w: nat, data: seq<Byte>)
    requires start < |before| && w < |before|
    requires len + |data| <= |before| && (start + len) % |before| == w
    ensures RingView(Stored(before, w, data), start, len + |data|) == RingView(before, start, len) + data
  {
    var n := |before|;
    var after := Stored(before, w, data);
    var r := RingView(after, start, len + |data|);
    var t := RingView(before, start, len) + data;
    ModNear(start + len, n);
    forall k | 0 <= k < len + |data|
      ensures r[k] == t[k]
    {
      ModNear(start + k, n);
      var p := (start + k) % n;
      if k < len {
        assert Occupancy(w, p, n) >= |data|;
      } else {
        ModNear(w + (k - len), n);
        OccupancyUnique(w, p, n, k - len);
      }
    }
  }

  /** The bytes written and not yet emitted lie in the ring `s`, in order,
      from read cursor `rd` up to write cursor `wr`, and what was emitted is
      a prefix of what was written. */
  predicate QueueLaidOut(s: seq<Byte>, rd: nat, wr: nat, written: seq<Byte>, emitted: seq<Byte>)
  {
    && rd < |s| && wr < |s|
    && emitted <= written
    && |written| - |emitted| <= |s|
    && (rd + (|written| - |emitted|)) % |s| == wr
    && RingView(s, rd, |written| - |emitted|) == written[|emitted|..]
  }

  /** Completing a run of `x` queued bytes from `rd` that stays inside the
      array emits exactly the next `x` written bytes, and the remaining queue
      lies from the advanced read cursor; the cursors then meet exactly when
      the whole queue has been emitted. */
  lemma {:induction false} CompletionKeepsFifo(s: seq<Byte>, rd: nat, wr: nat, written: seq<Byte>, emitted: seq<Byte>, x: nat)
    requires QueueLaidOut(s, rd, wr, written, emitted)
    requires 1 <= x <= |written| - |emitted| && rd + x <= |s|
    ensures s[rd..rd + x] == written[|emitted|..|emitted| + x]
    ensures QueueLaidOut(s, (rd + x) % |s|, wr, written, emitted + s[rd..rd + x])
    ensures wr == (rd + x) % |s| <==> |written| == |emitted| + x
  {
    var len := |written| - |emitted|;
    var rest := written[|emitted|..];
    RingViewAdvance(s, rd, len, x);
    assert s[rd..rd + x] == rest[..x];
    var emitted' := emitted + s[rd..rd + x];
    assert emitted' == written[..|emitted| + x];
    assert written[|emitted'|..] == rest[x..];
    ModNear(rd + x, |s|);
    ModNear(rd + len, |s|);
    ModNear((rd + x) % |s| + (len - x), |s|);
  }

  /** Storing `data` after write cursor `wr` without touching the queued
      bytes, and advancing `wr` past it, appends `data` to the queue. */
  lemma {:induction false} WriteKeepsFifo(before: seq<Byte>, rd: nat, wr: nat, written: seq<Byte>, emitted: seq<Byte>, data: seq<Byte>)
    requires QueueLaidOut(before, rd, wr, written, emitted)
    requires |written| - |emitted| + |data| <= |before|
    ensures QueueLaidOut(Stored(before, wr, data), rd, (wr + |data|) % |before|, written + data, emitted)
  {
    var len := |written| - |emitted|;
    RingViewAppend(before, rd, len, wr, data);
    assert (written + data)[|emitted|..] == written[|emitted|..] + data;
    ModNear(rd + len, |before|);
    ModNear(wr + |data|, |before|);
    ModNear(rd + len + |data|, |before|);
  }

  /** With the queue laid out, the occupancy of the cursors is the queue length,
      except for a queue of exactly `|s|` bytes, whose occupancy is zero. */
  lemma {:induction false} OccupancyOfQueue(s: seq<Byte>, rd: nat, wr: nat, written: seq<Byte>, emitted: seq<Byte>)
    requires QueueLaidOut(s, rd, wr, written, emitted)
    ensures |written| - |emitted| < |s| ==> Occupancy(rd, wr, |s|) == |written| - |emitted|
    ensures |written| - |emitted| == |s| ==> Occupancy(rd, wr, |s|) == 0
  {
    ModNear(rd + (|written| - |emitted|), |s|);
  }

  /** The bytes written after those already emitted are exactly what the
      chain of transfers from the read cursor carries out. */
  lemma {:induction false} QueueIsTransfers(s: seq<Byte>, rd: nat, wr: nat, written: seq<Byte>, emitted: seq<Byte>)
    requires QueueLaidOut(s, rd, wr, written, emitted)
    ensures written == emitted + Transfers(s, rd, |written| - |emitted|)
  {
    TransfersCarryQueue(s, rd, |written| - |emitted|);
    assert written == emitted + written[|emitted|..];
  }
}
