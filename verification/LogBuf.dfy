/** The drop-oldest byte ring of `core/src/logbuf.rs`. */
module LogBuf {
  import opened Bytes
  import opened Numbers

  /** The last `n` of `s`, or all of it. */
  function LastOf(s: seq<Byte>, n: nat): seq<Byte> { if |s| <= n then s else s[|s| - n..] }

  lemma WrapsOnce(x: nat, size: nat)
    requires 0 < size && x < 2 * size
    ensures x % size == if x < size then x else x - size
  {
    var q := x / size;
    assert x == q * size + x % size;
    Products(q, size);
  }

  lemma Products(q: nat, size: nat)
    ensures q >= 2 ==> q * size >= 2 * size
    ensures q == 0 ==> q * size == 0
  {
  }

  function Wrap(x: nat, size: nat): (r: nat)
    requires size > 0
    ensures r < size
    ensures x < 2 * size ==> r == if x < size then x else x - size
  {
    if x < 2 * size then WrapsOnce(x, size); x % size else x % size
  }

  class RingBuffer {
    const buf: array<Byte>
    var read: nat
    var len: nat
    var dropped: nat

    ghost predicate Valid()
      reads this
    {
      0 < buf.Length && read < buf.Length && len <= buf.Length
    }

    /** Where the `i`th byte waiting lives. */
    function Slot(i: nat): nat
      requires 0 < buf.Length
      reads this
    {
      Wrap(read + i, buf.Length)
    }

    /** The bytes waiting, oldest first. */
    ghost function Contents(): (s: seq<Byte>)
      requires Valid()
      reads this, buf
      ensures |s| == len
    {
      seq(len, i requires 0 <= i < len && Valid() reads this, buf => buf[Slot(i)])
    }

    constructor (capacity: nat)
      requires capacity > 0
      ensures Valid() && fresh(buf) && buf.Length == capacity && Contents() == [] && dropped == 0
    {
      buf := new Byte[capacity](_ => 0);
      read, len, dropped := 0, 0, 0;
    }

    method DropOldest()
      requires Valid() && len > 0
      modifies this`read, this`len
      ensures Valid() && Contents() == old(Contents())[1..]
    {
      hide Wrap;
      read := Wrap(read + 1, buf.Length);
      len := len - 1;
    }

    method Append(byte: Byte)
      requires Valid() && len < buf.Length
      modifies this`len, buf
      ensures Valid() && Contents() == old(Contents()) + [byte]
    {
      hide Wrap;
      var at := Wrap(read + len, buf.Length);
      assert forall i | 0 <= i < len :: Slot(i) != at;
      buf[at] := byte;
      len := len + 1;
    }

    /** One byte in, the oldest out if there is no room. */
    method PushByte(byte: Byte) returns (evicted: nat)
      requires Valid()
      modifies this`read, this`len, buf
      ensures Valid() && evicted == (if old(len) == buf.Length then 1 else 0)
      ensures Contents() == LastOf(old(Contents()) + [byte], buf.Length)
    {
      ghost var before := Contents();
      evicted := 0;
      if len == buf.Length {
        DropOldest();
        evicted := 1;
        assert before[1..] + [byte] == (before + [byte])[1..];
      }
      Append(byte);
    }

    method Push(data: seq<Byte>) returns (evicted: nat)
      requires Valid()
      modifies this, buf
      ensures Valid()
      ensures Contents() == LastOf(old(Contents()) + data, buf.Length)
      ensures |old(Contents())| + |data| == |Contents()| + evicted
      ensures dropped == SaturatingAdd(old(dropped), evicted)
    {
      ghost var before := Contents();
      evicted := 0;
      for k := 0 to |data|
        invariant Valid() && dropped == old(dropped)
        invariant Contents() == LastOf(before + data[..k], buf.Length)
        invariant |before| + k == |Contents()| + evicted
      {
        assert before + data[..k + 1] == before + data[..k] + [data[k]];
        LastOfAppend(before + data[..k], data[k], buf.Length);
        var e := PushByte(data[k]);
        evicted := evicted + e;
      }
      assert data[..|data|] == data;
      dropped := SaturatingAdd(dropped, evicted);
    }

    /** Copies out up to `room` bytes. */
    method Pop(out: array<Byte>) returns (n: nat)
      requires Valid() && out != buf
      modifies this`read, this`len, out
      ensures Valid() && n == Min(out.Length, |old(Contents())|)
      ensures out[..n] == old(Contents())[..n] && out[n..] == old(out[n..])
      ensures Contents() == old(Contents())[n..]
    {
      hide Wrap;
      ghost var before := Contents();
      n := Min(out.Length, len);
      for i := 0 to n
        invariant out[..i] == before[..i] && out[i..] == old(out[i..])
        invariant Valid() && Contents() == before && read == old(read) && len == old(len)
      {
        ghost var rest := out[i..];
        out[i] := buf[Slot(i)];
        assert out[i] == before[i];
        assert out[i + 1..] == rest[1..];
      }
      read := Wrap(read + n, buf.Length);
      len := len - n;
    }

    method TakeDropped() returns (d: nat)
      requires Valid()
      modifies this`dropped
      ensures Valid() && d == old(dropped) && dropped == 0 && Contents() == old(Contents())
    {
      d := dropped;
      dropped := 0;
    }
  }

  lemma LastOfAppend(s: seq<Byte>, b: Byte, n: nat)
    requires n > 0
    ensures LastOf(LastOf(s, n) + [b], n) == LastOf(s + [b], n)
  {
  }

  // -------------------------------------------------------------------- whole runs

  datatype Op = PushOp(data: seq<Byte>) | PopOp(room: nat)

  /** The bytes pushed, which of them were delivered, by position, and what waits. */
  datatype History = History(pushed: seq<Byte>, delivered: seq<nat>, waiting: seq<Byte>, evicted: nat)

  function Range(from: nat, n: nat): (r: seq<nat>)
    ensures |r| == n && forall i | 0 <= i < n :: r[i] == from + i
  {
    seq(n, i => from + i)
  }

  /** Each operation as `Push` and `Pop` do it. */
  function Extend(h: History, op: Op, size: nat): History {
    match op
    case PushOp(data) =>
      var all := h.waiting + data;
      History(h.pushed + data, h.delivered, LastOf(all, size), h.evicted + |all| - |LastOf(all, size)|)
    case PopOp(room) =>
      var n := Min(room, |h.waiting|);
      History(h.pushed, h.delivered + Range(|h.delivered| + h.evicted, n), h.waiting[n..], h.evicted)
  }

  /** A ring of `size` after some operations. */
  function Run(ops: seq<Op>, size: nat): History {
    if ops == [] then History([], [], [], 0) else Extend(Run(ops[..|ops| - 1], size), ops[|ops| - 1], size)
  }

  ghost predicate Accounted(h: History, size: nat) {
    && |h.waiting| <= size && |h.waiting| <= |h.pushed|
    && h.waiting == h.pushed[|h.pushed| - |h.waiting|..]
    && |h.delivered| + h.evicted + |h.waiting| == |h.pushed|
    && (forall i, j | 0 <= i < j < |h.delivered| :: h.delivered[i] < h.delivered[j])
    && (forall i | 0 <= i < |h.delivered| :: h.delivered[i] < |h.pushed| - |h.waiting|)
  }

  lemma ExtendAccounts(h: History, op: Op, size: nat)
    requires Accounted(h, size)
    ensures Accounted(Extend(h, op, size), size)
  {
  }

  /** Over any run: what waits is the end of what was pushed, and fits; every byte pushed
      was delivered, evicted or is waiting; and the bytes delivered are bytes pushed, in the
      order they were pushed, none of them twice. */
  lemma {:induction false} RunsLoseOnlyTheOldest(ops: seq<Op>, size: nat)
    ensures Accounted(Run(ops, size), size)
  {
    hide Extend;
    if ops != [] {
      RunsLoseOnlyTheOldest(ops[..|ops| - 1], size);
      ExtendAccounts(Run(ops[..|ops| - 1], size), ops[|ops| - 1], size);
    }
  }

  /** A pop hands out the bytes at the positions it records. */
  lemma {:induction false} PopDelivers(ops: seq<Op>, size: nat, room: nat)
    ensures var h, g := Run(ops, size), Run(ops + [PopOp(room)], size); var n := Min(room, |h.waiting|);
            && h.delivered <= g.delivered && |g.delivered| == |h.delivered| + n
            && forall k | 0 <= k < n :: g.delivered[|h.delivered| + k] < |h.pushed|
                 && h.pushed[g.delivered[|h.delivered| + k]] == h.waiting[k]
  {
    RunsLoseOnlyTheOldest(ops, size);
    assert (ops + [PopOp(room)])[..|ops|] == ops;
  }
}
