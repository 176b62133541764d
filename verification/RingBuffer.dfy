/** The overwriting circular buffer of common/util/ringbuf.c. */
module RingBuffer {
  import opened Bytes

  /** The last n elements of a sequence. */
  function LastN<T>(s: seq<T>, n: nat): seq<T> {
    if |s| <= n then s else s[|s| - n..]
  }

  function Successor(i: nat, capacity: nat): (j: nat)
    requires i < capacity
    ensures j == if i + 1 == capacity then 0 else i + 1
  {
    (i + 1) % capacity
  }

  // ---------- Storage read as a sequence ----------

  ghost predicate InRange(storage: seq<byte>, capacity: nat, head: nat, tail: nat, full: bool) {
    && capacity <= |storage|
    && (capacity == 0 ==> head == 0 && tail == 0 && !full)
    && (capacity > 0 ==> head < capacity && tail < capacity && (full ==> head == tail))
  }

  /** The stored bytes, oldest first. */
  ghost function Window(storage: seq<byte>, capacity: nat, head: nat, tail: nat, full: bool): seq<byte>
    requires InRange(storage, capacity, head, tail, full)
  {
    if full || head < tail then storage[tail..capacity] + storage[..head] else storage[tail..head]
  }

  /** Storing at the head and advancing appends; on a full buffer it also forgets the oldest. */
  lemma PushWindow(s: seq<byte>, capacity: nat, head: nat, tail: nat, full: bool, x: byte)
    requires InRange(s, capacity, head, tail, full) && capacity > 0
    ensures var tail' := if full then Successor(tail, capacity) else tail;
            var head' := Successor(head, capacity);
            && InRange(s[head := x], capacity, head', tail', head' == tail')
            && Window(s[head := x], capacity, head', tail', head' == tail')
            == LastN(Window(s, capacity, head, tail, full) + [x], capacity)
  {
    var t := s[head := x];
    var w := Window(s, capacity, head, tail, full);
    if full {
      assert w == s[tail..capacity] + s[..head];
      assert LastN(w + [x], capacity) == (w + [x])[1..];
      if head + 1 == capacity {
        assert t[0..capacity] + t[..0] == (w + [x])[1..];
      } else {
        assert t[head + 1..capacity] + t[..head + 1] == (w + [x])[1..];
      }
    } else if head < tail {
      assert t[tail..capacity] + t[..head + 1] == w + [x];
    } else if head + 1 == capacity {
      assert t[tail..capacity] + t[..0] == w + [x];
    } else {
      assert t[tail..head + 1] == w + [x];
    }
  }

  lemma PopWindow(s: seq<byte>, capacity: nat, head: nat, tail: nat, full: bool)
    requires InRange(s, capacity, head, tail, full) && (full || head != tail)
    ensures InRange(s, capacity, head, Successor(tail, capacity), false)
    ensures Window(s, capacity, head, tail, full)
         == [s[tail]] + Window(s, capacity, head, Successor(tail, capacity), false)
  {
  }

  lemma WindowFits(s: seq<byte>, capacity: nat, head: nat, tail: nat, full: bool)
    requires InRange(s, capacity, head, tail, full)
    ensures |Window(s, capacity, head, tail, full)| <= capacity
  {
  }

  lemma LastNEnds<T>(s: seq<T>, n: nat)
    ensures |s| <= n ==> LastN(s, n) == s
    ensures n == 0 ==> LastN(s, n) == []
  {
  }

  /** Keeping the last n of a stream can be done one element at a time. */
  lemma LastNStep<T>(s: seq<T>, x: T, n: nat)
    ensures LastN(LastN(s, n) + [x], n) == LastN(s + [x], n)
  {
  }

  class RingBuf {
    const buffer: array<byte>
    const capacity: nat
    var head: nat
    var tail: nat
    var full: bool

    ghost predicate Valid()
      reads this, buffer
    {
      InRange(buffer[..], capacity, head, tail, full)
    }

    ghost function Contents(): seq<byte>
      reads this, buffer
      requires Valid()
    {
      Window(buffer[..], capacity, head, tail, full)
    }

    constructor (buffer: array<byte>, capacity: nat)
      requires capacity <= buffer.Length
      ensures Valid() && this.buffer == buffer && this.capacity == capacity && Contents() == []
    {
      this.buffer := buffer;
      this.capacity := capacity;
      head, tail, full := 0, 0, false;
    }

    function Size(): (n: nat)
      reads this, buffer
      requires Valid()
      ensures n == |Contents()| <= capacity
    {
      if full then capacity
      else if head >= tail then head - tail
      else capacity - tail + head
    }

    predicate IsEmpty()
      reads this, buffer
      requires Valid()
      ensures IsEmpty() <==> Contents() == []
    {
      !full && head == tail
    }

    /** Full never holds for a buffer without capacity, although nothing fits into it. */
    predicate IsFull()
      reads this, buffer
      requires Valid()
      ensures IsFull() <==> capacity > 0 && |Contents()| == capacity
    {
      full
    }

    method AdvancePointer()
      requires Valid() && capacity > 0
      modifies this
      ensures tail == if old(full) then Successor(old(tail), capacity) else old(tail)
      ensures head == Successor(old(head), capacity) && full == (head == tail)
    {
      if full {
        tail := Successor(tail, capacity);
      }
      head := Successor(head, capacity);
      full := head == tail;
    }

    method RetreatPointer()
      requires Valid() && Contents() != []
      modifies this
      ensures Valid() && Contents() == old(Contents())[1..]
    {
      hide Successor;
      PopWindow(buffer[..], capacity, head, tail, full);
      full := false;
      tail := Successor(tail, capacity);
    }

    method Write(data: array<byte>, len: nat) returns (written: nat)
      requires Valid() && len <= data.Length && data != buffer
      modifies this, buffer
      ensures Valid()
      ensures written == if capacity > 0 then len else 0
      ensures Contents() == LastN(old(Contents()) + data[..len], capacity)
      ensures buffer[capacity..] == old(buffer[capacity..])
    {
      hide Successor, LastN, Window;
      ghost var start := Contents();
      WindowFits(buffer[..], capacity, head, tail, full);
      LastNEnds(start, capacity);
      LastNEnds(start + data[..len], capacity);
      assert start + data[..0] == start;
      written := 0;
      while written < len && capacity > 0
        invariant Valid() && 0 <= written <= len && (capacity == 0 ==> written == 0)
        invariant Contents() == LastN(start + data[..written], capacity)
        invariant buffer[capacity..] == old(buffer[capacity..])
      {
        PushWindow(buffer[..], capacity, head, tail, full, data[written]);
        LastNStep(start + data[..written], data[written], capacity);
        assert start + data[..written + 1] == start + data[..written] + [data[written]];
        ghost var before := buffer[..];
        buffer[head] := data[written];
        assert buffer[..] == before[head := data[written]];
        written := written + 1;
        AdvancePointer();
      }
    }

    method Read(data: array<byte>, len: nat) returns (read: nat)
      requires Valid() && len <= data.Length && data != buffer
      modifies this, data
      ensures Valid()
      ensures read == if len < |old(Contents())| then len else |old(Contents())|
      ensures data[..read] == old(Contents())[..read]
      ensures data[read..] == old(data[..])[read..]
      ensures Contents() == old(Contents())[read..]
    {
      hide Successor, Window;
      ghost var start := Contents();
      read := 0;
      while read < len && !IsEmpty()
        invariant Valid() && 0 <= read <= len && read <= |start|
        invariant Contents() == start[read..]
        invariant data[..read] == start[..read]
        invariant data[read..] == old(data[..])[read..]
      {
        PopWindow(buffer[..], capacity, head, tail, full);
        ghost var before := data[..];
        data[read] := buffer[tail];
        assert data[..] == before[read := start[read]];
        read := read + 1;
        RetreatPointer();
      }
    }

    method Reset()
      requires Valid()
      modifies this
      ensures Valid() && Contents() == []
    {
      head, tail, full := 0, 0, false;
    }
  }

  // ---------- Whole runs ----------

  /** What a caller can do to the buffer. */
  datatype Operation = Written(data: seq<byte>) | ReadUpTo(count: nat) | ResetAll

  /** The bounded queue that forgets its oldest bytes, and everything read from it so far. */
  datatype Queue = Queue(contents: seq<byte>, output: seq<byte>)

  function Apply(capacity: nat, q: Queue, op: Operation): Queue {
    match op
    case Written(data) => q.(contents := LastN(q.contents + data, capacity))
    case ReadUpTo(count) =>
      var n := if count < |q.contents| then count else |q.contents|;
      Queue(q.contents[n..], q.output + q.contents[..n])
    case ResetAll => q.(contents := [])
  }

  function Run(capacity: nat, ops: seq<Operation>): Queue {
    if |ops| == 0 then Queue([], [])
    else Apply(capacity, Run(capacity, ops[..|ops| - 1]), ops[|ops| - 1])
  }

  function StreamAfter(stream: seq<byte>, op: Operation): seq<byte> {
    if op.Written? then stream + op.data else stream
  }

  /** Everything ever written, in order. */
  function Stream(ops: seq<Operation>): seq<byte> {
    if |ops| == 0 then [] else StreamAfter(Stream(ops[..|ops| - 1]), ops[|ops| - 1])
  }

  /** The positions idx are increasing and pick exactly the elements of part from the front of whole. */
  ghost predicate Picks(part: seq<byte>, whole: seq<byte>, idx: seq<nat>) {
    && |idx| == |part|
    && (forall k :: 0 <= k < |idx| ==> idx[k] < |whole| && part[k] == whole[idx[k]])
    && (forall j, k :: 0 <= j < k < |idx| ==> idx[j] < idx[k])
  }

  /** The queue holds the stream from position cut on; its output was picked from before cut. */
  ghost predicate Accounts(q: Queue, stream: seq<byte>, cut: nat, idx: seq<nat>) {
    cut <= |stream| && q.contents == stream[cut..] && Picks(q.output, stream[..cut], idx)
  }

  lemma AccountsWritten(q: Queue, s: seq<byte>, c: nat, idx: seq<nat>, data: seq<byte>, capacity: nat)
    requires Accounts(q, s, c, idx)
    ensures exists c': nat :: Accounts(Apply(capacity, q, Written(data)), s + data, c', idx)
  {
    var after := LastN(q.contents + data, capacity);
    var c' := |s + data| - |after|;
    assert (s + data)[c..] == q.contents + data;
    assert after == (s + data)[c'..];
    assert forall k :: 0 <= k < |idx| ==> s[..c][idx[k]] == (s + data)[..c'][idx[k]];
    assert Accounts(Apply(capacity, q, Written(data)), s + data, c', idx);
  }

  lemma AccountsRead(q: Queue, s: seq<byte>, c: nat, idx: seq<nat>, count: nat, capacity: nat)
    requires Accounts(q, s, c, idx)
    ensures exists c': nat, idx': seq<nat> :: Accounts(Apply(capacity, q, ReadUpTo(count)), s, c', idx')
  {
    var n := if count < |q.contents| then count else |q.contents|;
    var idx': seq<nat> := idx + seq(n, k requires 0 <= k < n => c + k);
    assert s[..c + n] == s[..c] + q.contents[..n];
    assert Accounts(Apply(capacity, q, ReadUpTo(count)), s, c + n, idx');
  }

  lemma AccountsReset(q: Queue, s: seq<byte>, c: nat, idx: seq<nat>, capacity: nat)
    requires Accounts(q, s, c, idx)
    ensures Accounts(Apply(capacity, q, ResetAll), s, |s|, idx)
  {
    assert forall k :: 0 <= k < |idx| ==> s[..c][idx[k]] == s[..|s|][idx[k]];
  }

  lemma AccountsStep(q: Queue, s: seq<byte>, c: nat, idx: seq<nat>, op: Operation, capacity: nat)
    requires Accounts(q, s, c, idx)
    ensures exists c': nat, idx': seq<nat> :: Accounts(Apply(capacity, q, op), StreamAfter(s, op), c', idx')
  {
    match op {
      case Written(data) =>
        AccountsWritten(q, s, c, idx, data, capacity);
        var c': nat :| Accounts(Apply(capacity, q, Written(data)), s + data, c', idx);
        assert Accounts(Apply(capacity, q, op), StreamAfter(s, op), c', idx);
      case ReadUpTo(count) =>
        AccountsRead(q, s, c, idx, count, capacity);
        var c': nat, idx': seq<nat> :| Accounts(Apply(capacity, q, ReadUpTo(count)), s, c', idx');
        assert Accounts(Apply(capacity, q, op), StreamAfter(s, op), c', idx');
      case ResetAll =>
        AccountsReset(q, s, c, idx, capacity);
        assert Accounts(Apply(capacity, q, op), StreamAfter(s, op), |s|, idx);
    }
  }

  /**
   * For every operation sequence: what remains stored is the newest end of the stream, what was
   * read is a subsequence of the older part of it (no byte is read twice, invented or reordered),
   * and no more than the capacity is ever held.
   */
  lemma {:induction false} RunReadsInOrder(capacity: nat, ops: seq<Operation>)
    ensures |Run(capacity, ops).contents| <= capacity
    ensures exists cut: nat, idx: seq<nat> :: Accounts(Run(capacity, ops), Stream(ops), cut, idx)
    decreases |ops|
  {
    if |ops| == 0 {
      assert Accounts(Run(capacity, ops), Stream(ops), 0, []);
    } else {
      var q, s := Run(capacity, ops[..|ops| - 1]), Stream(ops[..|ops| - 1]);
      RunReadsInOrder(capacity, ops[..|ops| - 1]);
      var c: nat, idx: seq<nat> :| Accounts(q, s, c, idx);
      AccountsStep(q, s, c, idx, ops[|ops| - 1], capacity);
      var c': nat, idx': seq<nat> :|
        Accounts(Apply(capacity, q, ops[|ops| - 1]), StreamAfter(s, ops[|ops| - 1]), c', idx');
      assert Accounts(Run(capacity, ops), Stream(ops), c', idx');
    }
  }

  /** The buffer never held more than its capacity before any write of the sequence took effect. */
  ghost predicate NeverOverflows(capacity: nat, ops: seq<Operation>) {
    |ops| > 0 ==>
      && NeverOverflows(capacity, ops[..|ops| - 1])
      && (match ops[|ops| - 1]
          case Written(data) => |Run(capacity, ops[..|ops| - 1]).contents| + |data| <= capacity
          case ReadUpTo(_) => true
          case ResetAll => false)
  }

  /** Without overflow and reset it is an exact first-in first-out queue: nothing is lost. */
  lemma {:induction false} LosslessRun(capacity: nat, ops: seq<Operation>)
    requires NeverOverflows(capacity, ops)
    ensures Run(capacity, ops).output + Run(capacity, ops).contents == Stream(ops)
    decreases |ops|
  {
    if |ops| > 0 {
      LosslessRun(capacity, ops[..|ops| - 1]);
    }
  }
}
