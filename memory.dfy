/** Byte copies between arrays, in the manner of memcpy. */
module Memory {

  /** The bytes of `s` with `d` laid over them starting at offset `off`. */
  function Splice(s: seq<bv8>, off: int, d: seq<bv8>): (r: seq<bv8>)
    requires 0 <= off && off + |d| <= |s|
    ensures |r| == |s|
  {
    seq(|s|, k requires 0 <= k < |s| => if off <= k < off + |d| then d[k - off] else s[k])
  }

  /** Cell `k` after the copy: from `d` inside the copied range, from `s` outside it. */
  lemma SpliceAt(s: seq<bv8>, off: int, d: seq<bv8>, k: int)
    requires 0 <= off && off + |d| <= |s| && 0 <= k < |s|
    ensures Splice(s, off, d)[k] == if off <= k < off + |d| then d[k - off] else s[k]
  {
  }

  /** Two copies into adjacent ranges amount to one copy of the joined bytes. */
  lemma SpliceAdjacent(s: seq<bv8>, off: int, a: seq<bv8>, b: seq<bv8>)
    requires 0 <= off && off + |a| + |b| <= |s|
    ensures Splice(Splice(s, off, a), off + |a|, b) == Splice(s, off, a + b)
  {
    var lhs := Splice(Splice(s, off, a), off + |a|, b);
    var rhs := Splice(s, off, a + b);
    forall k | 0 <= k < |s| ensures lhs[k] == rhs[k] {
      SpliceAt(s, off, a, k);
      SpliceAt(Splice(s, off, a), off + |a|, b, k);
      SpliceAt(s, off, a + b, k);
      if off <= k < off + |a| {
        assert (a + b)[k - off] == a[k - off];
      } else if off + |a| <= k < off + |a| + |b| {
        assert (a + b)[k - off] == b[k - off - |a|];
      }
    }
  }

  /** Copying no bytes leaves the destination as it was. */
  lemma SpliceEmpty(s: seq<bv8>, off: int)
    requires 0 <= off <= |s|
    ensures Splice(s, off, []) == s
  {
  }

  /** memcpy(dst + dstOff, src + srcOff, count) for two distinct arrays. */
  method MemCopy(dst: array<bv8>, dstOff: nat, src: array<bv8>, srcOff: nat, count: nat)
    requires dst != src
    requires dstOff + count <= dst.Length && srcOff + count <= src.Length
    modifies dst
    ensures dst[..] == Splice(old(dst[..]), dstOff, src[srcOff..srcOff + count])
  {
    for i := 0 to count
      invariant forall k :: 0 <= k < dst.Length ==>
                  dst[k] == if dstOff <= k < dstOff + i then src[srcOff + k - dstOff] else old(dst[k])
    {
      dst[dstOff + i] := src[srcOff + i];
    }
    ghost var expected := Splice(old(dst[..]), dstOff, src[srcOff..srcOff + count]);
    forall k | 0 <= k < dst.Length ensures dst[..][k] == expected[k] {
      SpliceAt(old(dst[..]), dstOff, src[srcOff..srcOff + count], k);
    }
  }
}
