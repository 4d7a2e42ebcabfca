/**
  Sequences of read and write calls on one ring, as the correctness test of
  ring_buffer_sample.c makes them: each call is one step, and a failed call
  is simply retried later.
*/
module Fifo {
  import opened ByteRing

  datatype Call = WriteCall(data: seq<bv8>) | ReadCall(n: nat)

  /** What a run of calls did: the final state, the payloads of the writes that were
      accepted, in order, and the byte strings the successful reads returned, in order. */
  datatype Trace = Trace(state: RingState, accepted: seq<seq<bv8>>, delivered: seq<seq<bv8>>)

  /** The byte stream made of several byte strings, in order. */
  function Flatten(chunks: seq<seq<bv8>>): seq<bv8>
  {
    if chunks == [] then [] else chunks[0] + Flatten(chunks[1..])
  }

  /** Every string in `chunks` has `m` bytes. */
  predicate Uniform(chunks: seq<seq<bv8>>, m: nat) {
    forall i :: 0 <= i < |chunks| ==> |chunks[i]| == m
  }

  /** Every call asks for `m` bytes. */
  predicate CallsOfSize(calls: seq<Call>, m: nat) {
    forall i :: 0 <= i < |calls| ==> match calls[i]
      case WriteCall(data) => |data| == m
      case ReadCall(n) => n == m
  }

  function Run(r: RingState, calls: seq<Call>): (t: Trace)
    requires Valid(r)
    ensures Valid(t.state) && |t.state.storage| == |r.storage|
    decreases |calls|
  {
    if calls == [] then Trace(r, [], [])
    else
      match calls[0]
      case WriteCall(data) =>
        var o := Write(r, data);
        var rest := Run(o.state, calls[1..]);
        Trace(rest.state, (if o.ret == |data| then [data] else []) + rest.accepted, rest.delivered)
      case ReadCall(n) =>
        var o := Read(r, n);
        var rest := Run(o.state, calls[1..]);
        Trace(rest.state, rest.accepted, (if o.ret == n then [o.bytes] else []) + rest.delivered)
  }

  lemma {:induction false} FlattenAppend(a: seq<seq<bv8>>, b: seq<seq<bv8>>)
    ensures Flatten(a + b) == Flatten(a) + Flatten(b)
  {
    if a == [] {
      assert a + b == b;
    } else {
      assert (a + b)[1..] == a[1..] + b;
      FlattenAppend(a[1..], b);
    }
  }

  /** The stream of one accepted write, or of none. */
  lemma FlattenOptional(accepted: bool, data: seq<bv8>, rest: seq<seq<bv8>>)
    ensures Flatten((if accepted then [data] else []) + rest) == (if accepted then data else []) + Flatten(rest)
  {
    var mine: seq<seq<bv8>> := if accepted then [data] else [];
    FlattenAppend(mine, rest);
    if accepted {
      assert Flatten(mine) == data + Flatten([]);
    }
  }

  /** A write call keeps the stream equation of RunPreservesStream. */
  lemma WriteStepPreservesStream(r: RingState, data: seq<bv8>, delivered: seq<bv8>, final: seq<bv8>, accepted: seq<bv8>)
    requires Valid(r)
    requires delivered + final == Window(Write(r, data).state) + accepted
    ensures delivered + final == Window(r) + ((if Write(r, data).ret == |data| then data else []) + accepted)
  {
    if Write(r, data).ret == |data| {
      WriteAppends(r, data);
    }
  }

  /** A read call keeps the stream equation of RunPreservesStream. */
  lemma ReadStepPreservesStream(r: RingState, n: nat, delivered: seq<bv8>, final: seq<bv8>, accepted: seq<bv8>)
    requires Valid(r)
    requires delivered + final == Window(Read(r, n).state) + accepted
    ensures (if Read(r, n).ret == n then Read(r, n).bytes else []) + delivered + final == Window(r) + accepted
  {
    var o := Read(r, n);
    if o.ret == n {
      ReadTakesOldest(r, n);
      var w := Window(r);
      assert o.bytes == w[..n] && Window(o.state) == w[n..];
      calc {
        o.bytes + delivered + final;
        w[..n] + (delivered + final);
        w[..n] + (w[n..] + accepted);
        (w[..n] + w[n..]) + accepted;
        { assert w[..n] + w[n..] == w; }
        w + accepted;
      }
    }
  }

  /** No byte is lost, duplicated or reordered: the bytes delivered, followed by the bytes
      still unread, are the bytes unread at the start followed by the bytes accepted. */
  lemma {:induction false} RunPreservesStream(r: RingState, calls: seq<Call>)
    requires Valid(r)
    ensures var t := Run(r, calls);
            Flatten(t.delivered) + Window(t.state) == Window(r) + Flatten(t.accepted)
    decreases |calls|
  {
    if calls != [] {
      match calls[0]
      case WriteCall(data) =>
        var o := Write(r, data);
        var rest := Run(o.state, calls[1..]);
        RunPreservesStream(o.state, calls[1..]);
        FlattenOptional(o.ret == |data|, data, rest.accepted);
        WriteStepPreservesStream(r, data, Flatten(rest.delivered), Window(rest.state), Flatten(rest.accepted));
      case ReadCall(n) =>
        var o := Read(r, n);
        var rest := Run(o.state, calls[1..]);
        RunPreservesStream(o.state, calls[1..]);
        FlattenOptional(o.ret == n, o.bytes, rest.delivered);
        ReadStepPreservesStream(r, n, Flatten(rest.delivered), Window(rest.state), Flatten(rest.accepted));
    }
  }

  /** FIFO: starting from an empty ring, the bytes read are, in order, a prefix of the bytes written. */
  lemma ReadsArePrefixOfWrites(r: RingState, calls: seq<Call>)
    requires Valid(r) && Window(r) == []
    ensures var t := Run(r, calls);
            Flatten(t.delivered) <= Flatten(t.accepted)
  {
    var t := Run(r, calls);
    RunPreservesStream(r, calls);
    assert Flatten(t.delivered) + Window(t.state) == Flatten(t.accepted);
  }

  /** When every call moves `m` bytes, every accepted write and every delivered read has `m` bytes. */
  lemma {:induction false} RunChunksOfSize(r: RingState, calls: seq<Call>, m: nat)
    requires Valid(r) && CallsOfSize(calls, m)
    ensures Uniform(Run(r, calls).accepted, m) && Uniform(Run(r, calls).delivered, m)
    decreases |calls|
  {
    if calls != [] {
      assert CallsOfSize(calls[1..], m) by {
        forall i | 0 <= i < |calls[1..]| ensures match calls[1..][i]
          case WriteCall(data) => |data| == m
          case ReadCall(n) => n == m
        {
          assert calls[1..][i] == calls[i + 1];
        }
      }
      match calls[0]
      case WriteCall(data) =>
        RunChunksOfSize(Write(r, data).state, calls[1..], m);
      case ReadCall(n) =>
        RunChunksOfSize(Read(r, n).state, calls[1..], m);
    }
  }

  /** Two streams of `m`-byte strings, one a prefix of the other as bytes, agree string by string. */
  lemma {:induction false} UniformPrefix(a: seq<seq<bv8>>, b: seq<seq<bv8>>, m: nat)
    requires m > 0 && Uniform(a, m) && Uniform(b, m)
    requires Flatten(a) <= Flatten(b)
    ensures |a| <= |b|
    ensures forall k :: 0 <= k < |a| ==> a[k] == b[k]
  {
    if a != [] {
      assert Flatten(a) == a[0] + Flatten(a[1..]);
      assert b != [];
      var fa, fb := Flatten(a[1..]), Flatten(b[1..]);
      assert Flatten(a) == a[0] + fa && Flatten(b) == b[0] + fb;
      assert a[0] == Flatten(a)[..m] == Flatten(b)[..m] == b[0];
      assert fa == Flatten(a)[m..] && fb == Flatten(b)[m..];
      UniformPrefix(a[1..], b[1..], m);
      forall k | 0 <= k < |a| ensures a[k] == b[k] {
        if k > 0 {
          assert a[1..][k - 1] == a[k] && b[1..][k - 1] == b[k];
        }
      }
    }
  }

  /** The correctness test's assertion: when every write and read moves one record of `m`
      bytes, the k-th successful read returns the record of the k-th accepted write. */
  lemma RecordsArriveInOrder(r: RingState, calls: seq<Call>, m: nat)
    requires Valid(r) && Window(r) == [] && m > 0 && CallsOfSize(calls, m)
    ensures var t := Run(r, calls);
            |t.delivered| <= |t.accepted| &&
            forall k :: 0 <= k < |t.delivered| ==> t.delivered[k] == t.accepted[k]
  {
    var t := Run(r, calls);
    ReadsArePrefixOfWrites(r, calls);
    RunPreservesStream(r, calls);
    RunChunksOfSize(r, calls, m);
    UniformPrefix(t.delivered, t.accepted, m);
  }
}
