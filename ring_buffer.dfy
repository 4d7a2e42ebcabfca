/**
  ring_buffer_t and its four operations.  Each read or write call is one
  sequential step; the fence before the index is published is not modelled,
  but the index assignment is the last assignment of each call.
*/
module RingBufferLib {
  import opened Memory
  import opened ByteRing

  /** The struct: storage `buf` of `len` bytes, the consumer's `head`, the producer's `tail`. */
  class RingBuffer {
    var buf: array?<bv8>
    var len: nat
    var head: int
    var tail: int
    /** True once destory_ring_buffer has handed `buf` to free (which leaves `buf` as it was). */
    ghost var released: bool

    /** Set up by init_ring_buffer and not yet released. */
    ghost predicate Valid()
      reads this
    {
      buf != null && !released && buf.Length == len &&
      len <= MAX_LEN && IsIndex(head, len) && IsIndex(tail, len)
    }

    /** The struct as a value. */
    ghost function State(): (r: RingState)
      reads this, buf
      requires Valid()
      ensures ByteRing.Valid(r) && |r.storage| == len
    {
      RingState(buf[..], head, tail)
    }

    /** The unread bytes, oldest first. */
    ghost function Contents(): seq<bv8>
      reads this, buf
      requires Valid()
    {
      Window(State())
    }

    /** A struct zero-filled with memset before init_ring_buffer is called. */
    constructor Zeroed()
      ensures buf == null && len == 0 && head == 0 && tail == 0 && !released
    {
      buf := null;
      len, head, tail := 0, 0, 0;
      released := false;
    }

    /** init_ring_buffer: `allocSucceeds` is whether malloc returned storage. */
    method Init(size: nat, allocSucceeds: bool) returns (ret: int)
      requires size <= MAX_LEN
      modifies this
      ensures allocSucceeds ==> ret == 0 && Valid() && fresh(buf) && len == size &&
                                head == 0 && tail == 0 && Contents() == []
      ensures !allocSucceeds ==> ret == -1 && unchanged(this)
    {
      if !allocSucceeds {
        ret := -1;
        return;
      }
      var storage := new bv8[size];
      head := 0;
      tail := 0;
      buf := storage;
      len := size;
      released := false;
      ret := 0;
    }

    /** write_ring_buffer: stores `src[..n]` behind `tail` and returns `n`, or returns -1
        and changes nothing.  Only the storage and `tail` may change. */
    method Write(src: array<bv8>, n: nat) returns (ret: int)
      requires Valid() && n <= src.Length && src != buf
      requires len + n <= SIZE_MAX
      modifies buf, this`tail
      ensures Valid()
      ensures var o := ByteRing.Write(old(State()), src[..n]);
              ret == o.ret && State() == o.state
      ensures ret == n ==> Contents() == old(Contents()) + src[..n]
    {
      ghost var before := State();
      var size := len;
      var h := head;
      var t := tail;
      var count := t - h;
      if count < 0 {
        count := count + size;
      }
      if count + n < size {
        CopyIn(src, t, n);
        t := t + n;
        if t >= size {
          t := t - size;
        }
        tail := t;
        ret := n;
        WriteAppends(before, src[..n]);
      } else {
        ret := -1;
      }
    }

    /** The copy of the write path: one memcpy to `t`, or two when the bytes wrap past the end. */
    method CopyIn(src: array<bv8>, t: int, n: nat)
      requires Valid() && n <= src.Length && src != buf && IsIndex(t, len) && n <= len
      modifies buf
      ensures buf[..] == StoreAt(old(buf[..]), t, src[..n])
    {
      if t + n <= len {
        MemCopy(buf, t, src, 0, n);
        assert src[0..n] == src[..n];
      } else {
        var first := len - t;
        MemCopy(buf, t, src, 0, first);
        MemCopy(buf, 0, src, first, n - first);
        assert src[0..first] == src[..n][..first];
        assert src[first..first + (n - first)] == src[..n][first..];
      }
    }

    /** read_ring_buffer: copies the `n` oldest unread bytes into `dst[..n]` and returns `n`,
        or returns -1 and changes nothing.  Only `dst` and `head` may change. */
    method Read(dst: array<bv8>, n: nat) returns (ret: int)
      requires Valid() && n <= dst.Length && dst != buf
      modifies dst, this`head
      ensures Valid()
      ensures var o := ByteRing.Read(old(State()), n);
              ret == o.ret && State() == o.state &&
              dst[..] == if o.ret == n then Splice(old(dst[..]), 0, o.bytes) else old(dst[..])
      ensures ret == n ==> dst[..n] == old(Contents())[..n] && Contents() == old(Contents())[n..]
    {
      ghost var before := State();
      var size := len;
      var t := tail;
      var h := head;
      var count := t - h;
      if count < 0 {
        count := count + size;
      }
      if count >= n {
        CopyOut(dst, h, n);
        h := h + n;
        if h >= size {
          h := h - size;
        }
        head := h;
        ret := n;
        ReadTakesOldest(before, n);
      } else {
        ret := -1;
      }
    }

    /** The copy of the read path: one memcpy from `h`, or two when the bytes wrap past the end. */
    method CopyOut(dst: array<bv8>, h: int, n: nat)
      requires Valid() && n <= dst.Length && dst != buf && IsIndex(h, len) && n <= len
      modifies dst
      ensures dst[..] == Splice(old(dst[..]), 0, LoadAt(buf[..], h, n))
    {
      if h + n <= len {
        MemCopy(dst, 0, buf, h, n);
      } else {
        var first := len - h;
        MemCopy(dst, 0, buf, h, first);
        MemCopy(dst, first, buf, 0, n - first);
        LoadAtSplit(old(dst[..]), buf[..], h, n);
      }
    }

    /** destory_ring_buffer: frees `buf` when both the struct argument and its `buf` are non-NULL.
        `buf` is not cleared, so once it has been freed the struct must not be destroyed again. */
    static method Destroy(rb: RingBuffer?)
      requires rb != null && rb.buf != null ==> !rb.released
      modifies rb
      ensures rb != null ==> rb.buf == old(rb.buf) && rb.len == old(rb.len) &&
                             rb.head == old(rb.head) && rb.tail == old(rb.tail)
      ensures rb != null ==> rb.released == (old(rb.released) || rb.buf != null)
    {
      if rb != null && rb.buf != null {
        rb.released := true;
      }
    }
  }
}
