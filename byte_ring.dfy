/**
  The index arithmetic and byte movement that read_ring_buffer/write_ring_buffer
  and read_shm/write_shm share, stated on values.

  Storage of `len` bytes holds the unread bytes from `head` forward to `tail`,
  wrapping past the end.  `head == tail` means empty, so at most `len - 1` bytes
  are ever held.
*/
module ByteRing {
  import opened Memory

  /** The largest value of a C `int`. */
  const INT_MAX: int := 0x7fff_ffff
  /** 2^32, the number of values of a 32-bit `int`. */
  const TWO_TO_32: int := 0x1_0000_0000
  /** The largest value of a 64-bit `size_t`. */
  const SIZE_MAX: int := 0xffff_ffff_ffff_ffff
  /** The largest storage size for which `head + n` and `tail + n` stay within an `int`
      (both are at most `2 * len - 2`). */
  const MAX_LEN: int := 0x4000_0000

  /** `i` can be `head` or `tail` of storage of `len` bytes; storage of no bytes has only index 0. */
  predicate IsIndex(i: int, len: nat) {
    0 <= i && (i < len || i == 0)
  }

  /** The unread count: `tail - head`, plus `len` when that is negative.  Also the
      distance from any index forward to any other. */
  function Occupancy(head: int, tail: int, len: nat): (c: int)
    requires IsIndex(head, len) && IsIndex(tail, len)
    ensures IsIndex(c, len)
  {
    var c := tail - head;
    if c < 0 then c + len else c
  }

  /** An index moved forward by `n` and brought back into range by one conditional subtraction. */
  function Advance(i: int, n: int, len: nat): (r: int)
    requires IsIndex(i, len) && 0 <= n && (n < len || n == 0)
    ensures IsIndex(r, len)
  {
    var j := i + n;
    if j >= len then j - len else j
  }

  /** Euclidean `%` of a value within one `len` of the range `0..len-1`. */
  lemma ModNear(x: int, len: int)
    requires 0 < len && -len <= x < 2 * len
    ensures x % len == if x < 0 then x + len else if x >= len then x - len else x
  {
    var q, r := x / len, x % len;
    assert x == len * q + r && 0 <= r < len;
    assert -1 <= q <= 1;
  }

  /** The occupancy is `(tail - head) mod len`. */
  lemma OccupancyIsMod(head: int, tail: int, len: nat)
    requires IsIndex(head, len) && IsIndex(tail, len) && len > 0
    ensures Occupancy(head, tail, len) == (tail - head) % len
  {
    ModNear(tail - head, len);
  }

  /** The advanced index is `(i + n) mod len`. */
  lemma AdvanceIsMod(i: int, n: int, len: nat)
    requires IsIndex(i, len) && 0 <= n < len
    ensures Advance(i, n, len) == (i + n) % len
  {
    ModNear(i + n, len);
  }

  /** The state the two C structs share: the storage bytes (its length is `len`), `head` and `tail`. */
  datatype RingState = RingState(storage: seq<bv8>, head: int, tail: int)

  predicate Valid(r: RingState) {
    |r.storage| <= MAX_LEN && IsIndex(r.head, |r.storage|) && IsIndex(r.tail, |r.storage|)
  }

  function Count(r: RingState): int
    requires Valid(r)
  {
    Occupancy(r.head, r.tail, |r.storage|)
  }

  /** The logical contents: the unread bytes, oldest first. */
  function Window(r: RingState): (w: seq<bv8>)
    requires Valid(r)
    ensures |w| == Count(r)
    ensures |r.storage| > 0 ==> |w| <= |r.storage| - 1
  {
    if r.head <= r.tail then r.storage[r.head..r.tail]
    else r.storage[r.head..] + r.storage[..r.tail]
  }

  /** The storage after `data` is copied in at `t`: one segment when it fits before the end,
      otherwise `len - t` bytes at `t` and the rest at offset 0. */
  function StoreAt(s: seq<bv8>, t: int, data: seq<bv8>): (r: seq<bv8>)
    requires IsIndex(t, |s|) && |data| <= |s|
    ensures |r| == |s|
  {
    if t + |data| <= |s| then Splice(s, t, data)
    else Splice(Splice(s, t, data[..|s| - t]), 0, data[|s| - t..])
  }

  /** The `n` bytes copied out from `h`: one segment when they lie before the end,
      otherwise `len - h` bytes from `h` and the rest from offset 0. */
  function LoadAt(s: seq<bv8>, h: int, n: int): (r: seq<bv8>)
    requires IsIndex(h, |s|) && 0 <= n <= |s|
    ensures |r| == n
  {
    if h + n <= |s| then s[h..h + n] else s[h..] + s[..n - (|s| - h)]
  }

  /** The wrapped load as the two memcpy calls make it: the `len - h` bytes from `h` copied to
      offset 0, then the rest from offset 0 copied behind them. */
  lemma LoadAtSplit(d: seq<bv8>, s: seq<bv8>, h: int, n: int)
    requires IsIndex(h, |s|) && 0 <= n <= |s| && n <= |d| && h + n > |s|
    ensures Splice(Splice(d, 0, s[h..|s|]), |s| - h, s[0..n - (|s| - h)]) == Splice(d, 0, LoadAt(s, h, n))
  {
    SpliceAdjacent(d, 0, s[h..|s|], s[0..n - (|s| - h)]);
  }

  datatype WriteOutcome = WriteOutcome(state: RingState, ret: int)
  datatype ReadOutcome = ReadOutcome(state: RingState, bytes: seq<bv8>, ret: int)

  /** The acceptance test of the write path (strict: the last free byte is never used). */
  predicate WriteFits(r: RingState, n: int)
    requires Valid(r)
  {
    Count(r) + n < |r.storage|
  }

  /** The acceptance test of the read path. */
  predicate ReadFits(r: RingState, n: int)
    requires Valid(r)
  {
    Count(r) >= n
  }

  /** One write call: all `data` stored behind `tail` and `tail` advanced, or -1 and nothing changed. */
  function Write(r: RingState, data: seq<bv8>): (o: WriteOutcome)
    requires Valid(r)
    ensures Valid(o.state) && |o.state.storage| == |r.storage| && o.state.head == r.head
    ensures o.ret == |data| <==> WriteFits(r, |data|)
    ensures o.ret != |data| ==> o.ret == -1 && o.state == r
  {
    var len := |r.storage|;
    if Count(r) + |data| < len then
      WriteOutcome(RingState(StoreAt(r.storage, r.tail, data), r.head, Advance(r.tail, |data|, len)), |data|)
    else
      WriteOutcome(r, -1)
  }

  /** One read call: `n` bytes taken from `head` and `head` advanced, or -1 and nothing changed. */
  function Read(r: RingState, n: nat): (o: ReadOutcome)
    requires Valid(r)
    ensures Valid(o.state) && o.state.storage == r.storage && o.state.tail == r.tail
    ensures o.ret == n <==> ReadFits(r, n)
    ensures o.ret != n ==> o.ret == -1 && o.state == r && o.bytes == []
    ensures o.ret == n ==> |o.bytes| == n
  {
    var len := |r.storage|;
    if Count(r) >= n then
      ReadOutcome(RingState(r.storage, Advance(r.head, n, len), r.tail), LoadAt(r.storage, r.head, n), n)
    else
      ReadOutcome(r, [], -1)
  }

  // ---------------------------------------------------------------------------
  // Positions and distances

  /** The i-th unread byte sits `i` cells forward of `head`. */
  lemma WindowAt(r: RingState, i: int)
    requires Valid(r) && 0 <= i < Count(r)
    ensures Window(r)[i] == r.storage[Advance(r.head, i, |r.storage|)]
  {
  }

  /** Distance from `t` to the cell `i` forward of `h`, in terms of the distance from `h` to `t`. */
  lemma DistanceFrom(h: int, t: int, i: int, len: nat)
    requires IsIndex(h, len) && IsIndex(t, len) && 0 <= i < len
    ensures var c := Occupancy(h, t, len);
            Occupancy(t, Advance(h, i, len), len) == if i >= c then i - c else i - c + len
  {
  }

  /** Moving forward by `n` and then by `i` is moving forward by `n + i`. */
  lemma AdvanceTwice(h: int, n: int, i: int, len: nat)
    requires IsIndex(h, len) && 0 <= n && 0 <= i && n + i < len
    ensures Advance(Advance(h, n, len), i, len) == Advance(h, n + i, len)
  {
  }

  /** The store writes exactly the cells fewer than `|data|` forward of `t`, the k-th of them with `data[k]`. */
  lemma StoreAtCell(s: seq<bv8>, t: int, data: seq<bv8>, j: int)
    requires IsIndex(t, |s|) && |data| <= |s| && 0 <= j < |s|
    ensures var d := Occupancy(t, j, |s|);
            StoreAt(s, t, data)[j] == if d < |data| then data[d] else s[j]
  {
    if t + |data| <= |s| {
      SpliceAt(s, t, data, j);
    } else {
      var first := |s| - t;
      SpliceAt(s, t, data[..first], j);
      SpliceAt(Splice(s, t, data[..first]), 0, data[first..], j);
    }
  }

  /** Wraparound fidelity of the read path: the split copy returns the bytes at
      `(h + i) % len`, the same bytes as a copy of the logical range cell by cell. */
  lemma LoadAtModular(s: seq<bv8>, h: int, n: int)
    requires IsIndex(h, |s|) && 0 <= n <= |s|
    ensures forall i :: 0 <= i < n ==> LoadAt(s, h, n)[i] == s[(h + i) % |s|]
  {
    forall i | 0 <= i < n ensures LoadAt(s, h, n)[i] == s[(h + i) % |s|] {
      AdvanceIsMod(h, i, |s|);
    }
  }

  /** Wraparound fidelity of the write path: the split copy stores `data[k]` at `(t + k) % len`. */
  lemma StoreAtModular(s: seq<bv8>, t: int, data: seq<bv8>)
    requires IsIndex(t, |s|) && |data| < |s|
    ensures forall k :: 0 <= k < |data| ==> StoreAt(s, t, data)[(t + k) % |s|] == data[k]
  {
    forall k | 0 <= k < |data| ensures StoreAt(s, t, data)[(t + k) % |s|] == data[k] {
      var j := Advance(t, k, |s|);
      AdvanceIsMod(t, k, |s|);
      StoreAtCell(s, t, data, j);
    }
  }

  // ---------------------------------------------------------------------------
  // What a write and a read do to the logical contents

  /** An accepted write appends exactly its bytes to the logical contents and moves
      `tail` to `(tail + n) mod len`. */
  lemma WriteAppends(r: RingState, data: seq<bv8>)
    requires Valid(r) && WriteFits(r, |data|)
    ensures Window(Write(r, data).state) == Window(r) + data
    ensures Write(r, data).state.tail == (r.tail + |data|) % |r.storage|
  {
    var len := |r.storage|;
    AdvanceIsMod(r.tail, |data|, len);
    var c := Count(r);
    var r' := Write(r, data).state;
    assert Count(r') == c + |data|;
    forall i | 0 <= i < c + |data| ensures Window(r')[i] == (Window(r) + data)[i] {
      var j := Advance(r.head, i, len);
      WindowAt(r', i);
      StoreAtCell(r.storage, r.tail, data, j);
      DistanceFrom(r.head, r.tail, i, len);
      if i < c {
        WindowAt(r, i);
      }
    }
  }

  /** An accepted write stores only into the free cells fewer than `|data|` forward of `tail`,
      so every cell that holds an unread byte keeps it. */
  lemma WriteSparesUnread(r: RingState, data: seq<bv8>)
    requires Valid(r) && WriteFits(r, |data|)
    ensures var s' := Write(r, data).state.storage;
            forall j :: 0 <= j < |r.storage| && Occupancy(r.tail, j, |r.storage|) >= |data| ==> s'[j] == r.storage[j]
    ensures var s' := Write(r, data).state.storage;
            forall j :: 0 <= j < |r.storage| && Occupancy(r.head, j, |r.storage|) < Count(r) ==> s'[j] == r.storage[j]
  {
    var len := |r.storage|;
    var s' := Write(r, data).state.storage;
    forall j | 0 <= j < len ensures Occupancy(r.tail, j, len) >= |data| ==> s'[j] == r.storage[j] {
      StoreAtCell(r.storage, r.tail, data, j);
    }
    forall j | 0 <= j < len && Occupancy(r.head, j, len) < Count(r) ensures s'[j] == r.storage[j] {
      var i := Occupancy(r.head, j, len);
      assert Advance(r.head, i, len) == j;
      DistanceFrom(r.head, r.tail, i, len);
      StoreAtCell(r.storage, r.tail, data, j);
    }
  }

  /** An accepted read returns the `n` oldest unread bytes in order, drops exactly them,
      and moves `head` to `(head + n) mod len`. */
  lemma ReadTakesOldest(r: RingState, n: nat)
    requires Valid(r) && ReadFits(r, n)
    ensures Read(r, n).bytes == Window(r)[..n]
    ensures Window(Read(r, n).state) == Window(r)[n..]
    ensures |r.storage| > 0 ==> Read(r, n).state.head == (r.head + n) % |r.storage|
  {
    var len := |r.storage|;
    if len > 0 {
      AdvanceIsMod(r.head, n, len);
    }
    var c := Count(r);
    var o := Read(r, n);
    forall i | 0 <= i < n ensures o.bytes[i] == Window(r)[i] {
      WindowAt(r, i);
    }
    assert Count(o.state) == c - n;
    forall i | 0 <= i < c - n ensures Window(o.state)[i] == Window(r)[n + i] {
      WindowAt(o.state, i);
      WindowAt(r, n + i);
      AdvanceTwice(r.head, n, i, len);
    }
  }

  // ---------------------------------------------------------------------------
  // Capacity, failures and zero-length calls

  /** A write of `len` or more bytes can never be accepted, whatever the state. */
  lemma OversizeWriteFails(r: RingState, data: seq<bv8>)
    requires Valid(r) && |data| >= |r.storage|
    ensures Write(r, data) == WriteOutcome(r, -1)
  {
  }

  /** A zero-length read always succeeds and changes nothing; a zero-length write succeeds and
      changes nothing unless the storage is empty, where it fails like every write. */
  lemma ZeroLengthCalls(r: RingState)
    requires Valid(r)
    ensures Read(r, 0) == ReadOutcome(r, [], 0)
    ensures |r.storage| > 0 ==> Write(r, []) == WriteOutcome(r, 0)
    ensures |r.storage| == 0 ==> Write(r, []) == WriteOutcome(r, -1)
  {
    if |r.storage| > 0 {
      SpliceEmpty(r.storage, r.tail);
    }
  }

  // ---------------------------------------------------------------------------
  // The index advance as the C code computes it in `int`

  /** A C `int` conversion of an out-of-range value, as gcc performs it (modulo 2^32). */
  function Int32(x: int): (r: int)
    ensures -INT_MAX - 1 <= r <= INT_MAX
    ensures (r - x) % TWO_TO_32 == 0
  {
    var m := x % TWO_TO_32;
    if m > INT_MAX then m - TWO_TO_32 else m
  }

  /** The tail advance of the write path as written: `tail` and `rb_size` are `int`s, so
      `tail + n` is converted back to an `int` before the conditional subtraction. */
  function AdvanceTailAsWritten(i: int, n: int, len: nat): (r: int)
    requires IsIndex(i, len) && 0 <= n && (n < len || n == 0) && len <= INT_MAX
    ensures r == Advance(i, n, len) || i + n > INT_MAX
  {
    var j := Int32(i + n);
    if j >= len then j - len else j
  }

  /** Up to MAX_LEN bytes of storage the `int` arithmetic never wraps, so the tail advance
      as written is the intended one. */
  lemma AdvanceTailAsWrittenAgrees(i: int, n: int, len: nat)
    requires IsIndex(i, len) && 0 <= n && (n < len || n == 0) && len <= MAX_LEN
    ensures AdvanceTailAsWritten(i, n, len) == Advance(i, n, len)
  {
  }

  /** Storage of 2^31 - 2 bytes, empty with head and tail at len - 1: a 16-byte write is
      accepted, and the tail it publishes is negative instead of 15. */
  lemma AdvanceTailAsWrittenGoesNegative()
    ensures var len := INT_MAX - 1;
            Occupancy(len - 1, len - 1, len) + 16 < len &&
            AdvanceTailAsWritten(len - 1, 16, len) == -2147483635 &&
            Advance(len - 1, 16, len) == 15
  {
  }
}
