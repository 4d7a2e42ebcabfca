/**
  shm_queue_t and its four operations, a line-for-line copy of ring_buffer_t's
  (the struct's fields are not volatile here).  Both copies are proved against
  the same functions of ByteRing; the methods at the end run them side by side.
*/
module ShmSample {
  import opened Memory
  import opened ByteRing
  import opened RingBufferLib

  /** The struct: storage `buf` of `len` bytes, the consumer's `head`, the producer's `tail`. */
  class ShmQueue {
    var buf: array?<bv8>
    var len: nat
    var head: int
    var tail: int
    /** True once destory_shm has handed `buf` to free (which leaves `buf` as it was). */
    ghost var released: bool

    /** Set up by init_shm and not yet released. */
    ghost predicate Valid()
      reads this
    {
      buf != null && !released && buf.Length == len &&
      len <= MAX_LEN && IsIndex(head, len) && IsIndex(tail, len)
    }

    /** The struct as a value. */
    ghost function State(): (r: RingState)
      reads this, buf
      requires Valid()
      ensures ByteRing.Valid(r) && |r.storage| == len
    {
      RingState(buf[..], head, tail)
    }

    /** The unread bytes, oldest first. */
    ghost function Contents(): seq<bv8>
      reads this, buf
      requires Valid()
    {
      Window(State())
    }

    /** A struct zero-filled with memset before init_shm is called; destroying it is a no-op. */
    constructor Zeroed()
      ensures buf == null && len == 0 && head == 0 && tail == 0 && !released
    {
      buf := null;
      len, head, tail := 0, 0, 0;
      released := false;
    }

    /** init_shm: `allocSucceeds` is whether malloc returned storage. */
    method InitShm(size: nat, allocSucceeds: bool) returns (ret: int)
      requires size <= MAX_LEN
      modifies this
      ensures allocSucceeds ==> ret == 0 && Valid() && fresh(buf) && len == size &&
                                head == 0 && tail == 0 && Contents() == []
      ensures !allocSucceeds ==> ret == -1 && unchanged(this)
    {
      if !allocSucceeds {
        ret := -1;
        return;
      }
      var storage := new bv8[size];
      head := 0;
      tail := 0;
      buf := storage;
      len := size;
      released := false;
      ret := 0;
    }

    /** write_shm: stores `src[..n]` behind `tail` and returns `n`, or returns -1
        and changes nothing.  Only the storage and `tail` may change. */
    method WriteShm(src: array<bv8>, n: nat) returns (ret: int)
      requires Valid() && n <= src.Length && src != buf
      requires len + n <= SIZE_MAX
      modifies buf, this`tail
      ensures Valid()
      ensures var o := ByteRing.Write(old(State()), src[..n]);
              ret == o.ret && State() == o.state
      ensures ret == n ==> Contents() == old(Contents()) + src[..n]
    {
      ghost var before := State();
      var size := len;
      var h := head;
      var t := tail;
      var count := t - h;
      if count < 0 {
        count := count + size;
      }
      if count + n < size {
        CopyIn(src, t, n);
        t := t + n;
        if t >= size {
          t := t - size;
        }
        tail := t;
        ret := n;
        WriteAppends(before, src[..n]);
      } else {
        ret := -1;
      }
    }

    /** The copy of the write path: one memcpy to `t`, or two when the bytes wrap past the end. */
    method CopyIn(src: array<bv8>, t: int, n: nat)
      requires Valid() && n <= src.Length && src != buf && IsIndex(t, len) && n <= len
      modifies buf
      ensures buf[..] == StoreAt(old(buf[..]), t, src[..n])
    {
      if t + n <= len {
        MemCopy(buf, t, src, 0, n);
        assert src[0..n] == src[..n];
      } else {
        var first := len - t;
        MemCopy(buf, t, src, 0, first);
        MemCopy(buf, 0, src, first, n - first);
        assert src[0..first] == src[..n][..first];
        assert src[first..first + (n - first)] == src[..n][first..];
      }
    }

    /** read_shm: copies the `n` oldest unread bytes into `dst[..n]` and returns `n`,
        or returns -1 and changes nothing.  Only `dst` and `head` may change. */
    method ReadShm(dst: array<bv8>, n: nat) returns (ret: int)
      requires Valid() && n <= dst.Length && dst != buf
      modifies dst, this`head
      ensures Valid()
      ensures var o := ByteRing.Read(old(State()), n);
              ret == o.ret && State() == o.state &&
              dst[..] == if o.ret == n then Splice(old(dst[..]), 0, o.bytes) else old(dst[..])
      ensures ret == n ==> dst[..n] == old(Contents())[..n] && Contents() == old(Contents())[n..]
    {
      ghost var before := State();
      var size := len;
      var t := tail;
      var h := head;
      var count := t - h;
      if count < 0 {
        count := count + size;
      }
      if count >= n {
        CopyOut(dst, h, n);
        h := h + n;
        if h >= size {
          h := h - size;
        }
        head := h;
        ret := n;
        ReadTakesOldest(before, n);
      } else {
        ret := -1;
      }
    }

    /** The copy of the read path: one memcpy from `h`, or two when the bytes wrap past the end. */
    method CopyOut(dst: array<bv8>, h: int, n: nat)
      requires Valid() && n <= dst.Length && dst != buf && IsIndex(h, len) && n <= len
      modifies dst
      ensures dst[..] == Splice(old(dst[..]), 0, LoadAt(buf[..], h, n))
    {
      if h + n <= len {
        MemCopy(dst, 0, buf, h, n);
      } else {
        var first := len - h;
        MemCopy(dst, 0, buf, h, first);
        MemCopy(dst, first, buf, 0, n - first);
        LoadAtSplit(old(dst[..]), buf[..], h, n);
      }
    }

    /** destory_shm: frees `buf` when both the struct argument and its `buf` are non-NULL.
        `buf` is not cleared, so once it has been freed the struct must not be destroyed again. */
    static method DestroyShm(rb: ShmQueue?)
      requires rb != null && rb.buf != null ==> !rb.released
      modifies rb
      ensures rb != null ==> rb.buf == old(rb.buf) && rb.len == old(rb.len) &&
                             rb.head == old(rb.head) && rb.tail == old(rb.tail)
      ensures rb != null ==> rb.released == (old(rb.released) || rb.buf != null)
    {
      if rb != null && rb.buf != null {
        rb.released := true;
      }
    }
  }

  /** write_shm and write_ring_buffer, called on equal states with the same bytes,
      return the same value and leave equal states. */
  method WriteAgrees(rb: RingBuffer, q: ShmQueue, src: array<bv8>, n: nat) returns (a: int, b: int)
    requires rb.Valid() && q.Valid() && rb.State() == q.State()
    requires n <= src.Length && src != rb.buf && src != q.buf && rb.buf != q.buf
    requires rb.len + n <= SIZE_MAX
    modifies rb.buf, rb`tail, q.buf, q`tail
    ensures rb.Valid() && q.Valid()
    ensures a == b && rb.State() == q.State()
  {
    a := rb.Write(src, n);
    b := q.WriteShm(src, n);
  }

  /** read_shm and read_ring_buffer, called on equal states with equal destination buffers,
      return the same value, deliver the same bytes and leave equal states. */
  method ReadAgrees(rb: RingBuffer, q: ShmQueue, dst1: array<bv8>, dst2: array<bv8>, n: nat) returns (a: int, b: int)
    requires rb.Valid() && q.Valid() && rb.State() == q.State()
    requires n <= dst1.Length && dst1[..] == dst2[..] && dst1 != dst2
    requires dst1 != rb.buf && dst1 != q.buf && dst2 != rb.buf && dst2 != q.buf
    modifies dst1, rb`head, dst2, q`head
    ensures rb.Valid() && q.Valid()
    ensures a == b && rb.State() == q.State() && dst1[..] == dst2[..]
  {
    a := rb.Read(dst1, n);
    b := q.ReadShm(dst2, n);
  }

  /** The setup and teardown of pingpong_test: both structs zero-filled, init_shm on each,
      stopping at the first failure, then destory_shm on both.  Every path frees exactly
      the storage it obtained, and destory_shm is a no-op on a struct whose init failed. */
  method PingpongSetupTeardown(size: nat, alloc1: bool, alloc2: bool) returns (q1: ShmQueue, q2: ShmQueue)
    requires size <= MAX_LEN
    ensures q1.buf != null <==> alloc1
    ensures q2.buf != null <==> alloc1 && alloc2
    ensures q1.released == alloc1 && q2.released == (alloc1 && alloc2)
    ensures q1.head == 0 && q1.tail == 0 && q2.head == 0 && q2.tail == 0
  {
    q1 := new ShmQueue.Zeroed();
    q2 := new ShmQueue.Zeroed();
    var ret := q1.InitShm(size, alloc1);
    if ret == 0 {
      ret := q2.InitShm(size, alloc2);
    }
    ShmQueue.DestroyShm(q1);
    ShmQueue.DestroyShm(q2);
  }
}
