/** The input pipe: a bounded queue that interrupts fill while a reader empties it. */
module Pipe {
  import opened Words

  datatype Outcome = Completed | Spinning | Overflow

  /** What a read has delivered, what is queued, and how many attempts to pop it has made. */
  datatype ReadState = ReadState(got: seq<Byte>, queue: seq<Byte>, attempts: nat, outcome: Outcome)

  /**
   * A read of `size` bytes that has `got` so far. Before its t-th attempt to pop, interrupts write
   * the bytes of schedule[t]; a byte that finds the queue full panics. When the schedule ends the
   * read is still spinning.
   */
  function ReadRun(queue: seq<Byte>, got: seq<Byte>, size: nat, schedule: seq<seq<Byte>>, capacity: nat): ReadState
    requires |got| <= size
    decreases |schedule|
  {
    if |got| == size then ReadState(got, queue, 0, Completed)
    else if schedule == [] then ReadState(got, queue, 0, Spinning)
    else if |queue| + |schedule[0]| > capacity then ReadState(got, Filled(queue, schedule[0], capacity), 0, Overflow)
    else
      var q := queue + schedule[0];
      var r := if q == [] then ReadRun([], got, size, schedule[1..], capacity)
               else ReadRun(q[1..], got + [q[0]], size, schedule[1..], capacity);
      r.(attempts := r.attempts + 1)
  }

  /** The queue after as many of the bytes as fit. */
  function Filled(queue: seq<Byte>, bytes: seq<Byte>, capacity: nat): seq<Byte> {
    if |queue| + |bytes| <= capacity then queue + bytes
    else if |queue| <= capacity then queue + bytes[..capacity - |queue|]
    else queue
  }

  function Flatten(schedule: seq<seq<Byte>>): seq<Byte> {
    if schedule == [] then [] else schedule[0] + Flatten(schedule[1..])
  }

  /** As long as nothing has overflowed, bytes read followed by bytes queued are the bytes written. */
  lemma {:induction false} BytesConserved(queue: seq<Byte>, got: seq<Byte>, size: nat, schedule: seq<seq<Byte>>, capacity: nat)
    requires |got| <= size
    ensures var r := ReadRun(queue, got, size, schedule, capacity);
            && r.attempts <= |schedule|
            && (r.outcome != Overflow ==> r.got + r.queue == got + queue + Flatten(schedule[..r.attempts]))
            && (r.outcome == Completed <==> |r.got| == size)
            && (r.outcome == Spinning ==> r.attempts == |schedule|)
    decreases |schedule|
  {
    var r := ReadRun(queue, got, size, schedule, capacity);
    if |got| < size && schedule != [] && |queue| + |schedule[0]| <= capacity {
      var q, rest := queue + schedule[0], schedule[1..];
      if q == [] {
        BytesConserved([], got, size, rest, capacity);
      } else {
        BytesConserved(q[1..], got + [q[0]], size, rest, capacity);
        assert got + [q[0]] + q[1..] == got + q;
      }
      FlattenHead(schedule, r.attempts);
      assert got + q + Flatten(rest[..r.attempts - 1]) == got + queue + (schedule[0] + Flatten(rest[..r.attempts - 1]));
    }
  }

  lemma FlattenHead(schedule: seq<seq<Byte>>, n: nat)
    requires 0 < n <= |schedule|
    ensures Flatten(schedule[..n]) == schedule[0] + Flatten(schedule[1..][..n - 1])
  {
    assert schedule[..n][1..] == schedule[1..][..n - 1];
  }

  /** A completed read holds the oldest unread bytes, in order; the rest is still queued. */
  lemma CompletedReadIsOldest(queue: seq<Byte>, size: nat, schedule: seq<seq<Byte>>, capacity: nat)
    requires ReadRun(queue, [], size, schedule, capacity).outcome == Completed
    ensures var r := ReadRun(queue, [], size, schedule, capacity);
            && r.attempts <= |schedule|
            && var all := queue + Flatten(schedule[..r.attempts]);
               size <= |all| && r.got == all[..size] && r.queue == all[size..]
  {
    BytesConserved(queue, [], size, schedule, capacity);
    var r := ReadRun(queue, [], size, schedule, capacity);
    assert [] + queue + Flatten(schedule[..r.attempts]) == queue + Flatten(schedule[..r.attempts]);
    assert (r.got + r.queue)[..size] == r.got && (r.got + r.queue)[size..] == r.queue;
  }

  /**
   * A read completes: once the interrupts of the first n attempts have delivered the bytes it
   * lacks, as many further attempts as bytes are lacking suffice, unless the pipe overflows.
   */
  lemma {:induction false} ReadCompletes(queue: seq<Byte>, got: seq<Byte>, size: nat, schedule: seq<seq<Byte>>, capacity: nat, n: nat)
    requires |got| <= size && n + size - |got| <= |schedule|
    requires |got| + |queue| + |Flatten(schedule[..n])| >= size
    requires ReadRun(queue, got, size, schedule, capacity).outcome != Overflow
    ensures ReadRun(queue, got, size, schedule, capacity).outcome == Completed
    decreases |schedule|
  {
    if |got| < size {
      var q, rest := queue + schedule[0], schedule[1..];
      if n > 0 {
        FlattenHead(schedule, n);
      } else {
        assert schedule[..0] == [];
      }
      var n' := if n > 0 then n - 1 else 0;
      assert rest[..0] == [];
      if q == [] {
        ReadCompletes([], got, size, rest, capacity, n');
      } else {
        ReadCompletes(q[1..], got + [q[0]], size, rest, capacity, n');
      }
    }
  }

  class Pipe {
    /** The bounded queue `ArrayQueue`. */
    var queue: seq<Byte>
    const capacity: nat

    ghost predicate Valid()
      reads this
    {
      |queue| <= capacity
    }

    constructor (size: nat)
      ensures Valid() && queue == [] && capacity == size
    {
      queue := [];
      capacity := size;
    }

    /** `write`: false is the panic "Pipe is full". */
    method Write(bytes: seq<Byte>) returns (ok: bool)
      requires Valid()
      modifies this
      ensures Valid() && queue == Filled(old(queue), bytes, capacity)
      ensures ok <==> old(|queue|) + |bytes| <= capacity
      ensures queue == old(queue) + (if ok then bytes else bytes[..capacity - old(|queue|)])
    {
      var i := 0;
      while i < |bytes|
        invariant 0 <= i <= |bytes| && Valid() && queue == old(queue) + bytes[..i]
      {
        if |queue| >= capacity {
          return false;
        }
        queue := queue + [bytes[i]];
        i := i + 1;
      }
      return true;
    }

    /** One attempt of the reader to pop a byte. */
    method Pop() returns (empty: bool, b: Byte)
      requires Valid()
      modifies this
      ensures Valid() && empty == (old(queue) == [])
      ensures if empty then queue == old(queue) else b == old(queue)[0] && queue == old(queue)[1..]
    {
      if queue == [] {
        return true, 0;
      }
      empty, b, queue := false, queue[0], queue[1..];
    }

    /**
     * `read`: fill the buffer byte by byte, spinning while the queue is empty, with interrupts
     * writing according to the schedule.
     */
    method Read(size: nat, buffer: array<Byte>, schedule: seq<seq<Byte>>) returns (outcome: Outcome, ghost n: nat)
      requires Valid() && size <= buffer.Length
      modifies this, buffer
      ensures Valid() && n <= size && buffer[n..] == old(buffer[n..])
      ensures var r := ReadRun(old(queue), [], size, schedule, capacity);
              r.got == buffer[..n] && r.queue == queue && r.outcome == outcome
    {
      var i, t := 0, 0;
      ghost var attempts := 0;
      ghost var start, all := queue, ReadRun(queue, [], size, schedule, capacity);
      assert schedule[0..] == schedule && buffer[..0] == [];
      while i < size
        invariant 0 <= i <= size && 0 <= t <= |schedule| && Valid()
        invariant buffer[i..] == old(buffer[i..])
        invariant Same(ReadRun(queue, buffer[..i], size, schedule[t..], capacity), all)
        decreases |schedule| - t
      {
        if t == |schedule| {
          return Spinning, i;
        }
        ghost var got := buffer[..i];
        assert schedule[t..][0] == schedule[t] && schedule[t..][1..] == schedule[t + 1..];
        var ok := Write(schedule[t]);
        if !ok {
          return Overflow, i;
        }
        t := t + 1;
        var empty, c := Pop();
        if !empty {
          buffer[i] := c;
          i := i + 1;
          assert buffer[..i] == got + [c];
        }
      }
      return Completed, i;
    }
  }

  /** The two runs end alike. */
  ghost predicate Same(r: ReadState, s: ReadState) {
    r.got == s.got && r.queue == s.queue && r.outcome == s.outcome
  }
}
