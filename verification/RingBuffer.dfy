/** The byte ring of the I2S driver. One slot stays free, so that empty and full can be told apart. */
module Ring {
  import opened Arithmetic
  import opened Basics

  /** The number of unread bytes, as the driver computes it. */
  function DataCount(head: int, tail: int, size: int): int
    requires 0 < size
  {
    (tail - head + size) % size
  }

  /** The unread bytes, oldest first. */
  function Unread(buffer: Bytes, head: int, tail: int): Bytes
    requires 0 <= head < |buffer| && 0 <= tail < |buffer|
  {
    var n := if tail >= head then tail - head else tail - head + |buffer|;
    seq(n, k requires 0 <= k < n => buffer[Slot(head, k, |buffer|)])
  }

  lemma CountIsLength(buffer: Bytes, head: int, tail: int)
    requires 0 <= head < |buffer| && 0 <= tail < |buffer|
    ensures DataCount(head, tail, |buffer|) == |Unread(buffer, head, tail)| < |buffer|
    ensures head == tail <==> Unread(buffer, head, tail) == []
    ensures (tail + 1) % |buffer| == head <==> |Unread(buffer, head, tail)| == |buffer| - 1
  {
    ModuloIsOneStep(tail - head + |buffer|, |buffer|);
    ModuloIsOneStep(tail + 1, |buffer|);
  }

  /** Writing the slot at the tail changes no unread byte; moving the tail then makes it the newest. */
  lemma PushAppends(buffer: Bytes, head: int, tail: int, b: bv8)
    requires 0 <= head < |buffer| && 0 <= tail < |buffer| && (tail + 1) % |buffer| != head
    ensures Unread(buffer[tail := b], head, tail) == Unread(buffer, head, tail)
    ensures buffer[tail] == b ==> Unread(buffer, head, (tail + 1) % |buffer|) == Unread(buffer, head, tail) + [b]
  {
    ModuloIsOneStep(tail + 1, |buffer|);
  }

  lemma PopTakesFirst(buffer: Bytes, head: int, tail: int)
    requires 0 <= head < |buffer| && 0 <= tail < |buffer| && head != tail
    ensures Unread(buffer, head, tail) == [buffer[head]] + Unread(buffer, (head + 1) % |buffer|, tail)
  {
    ModuloIsOneStep(head + 1, |buffer|);
    var n, next := |buffer|, (head + 1) % |buffer|;
    var rest := Unread(buffer, next, tail);
    forall k | 0 <= k < |rest|
      ensures Unread(buffer, head, tail)[k + 1] == rest[k]
    {
      assert Slot(head, k + 1, n) == Slot(next, k, n);
    }
  }
}

/** One producer and one consumer whose single loads and stores interleave in any way. */
module RingConcurrent {
  import opened Arithmetic
  import opened Basics
  import opened Ring

  /** Where the producer stands in `ringbuf_push`. */
  datatype Producer =
    | Ready
    | Computed(data: bv8, nextTail: int)
    | Admitted(data: bv8, nextTail: int)
    | Stored(data: bv8, nextTail: int)

  /** Where the consumer stands in `ringbuf_pop`. */
  datatype Consumer = Waiting | NotEmpty | Fetched(data: bv8)

  /** The shared ring, the two program counters, and what has been pushed and popped so far. */
  datatype System = System(buffer: Bytes, head: int, tail: int, prod: Producer, cons: Consumer, pushed: Bytes,
                           popped: Bytes)

  /** One load or store of one of the two. */
  datatype Action = BeginPush(data: bv8) | CompareHead | StoreByte | MoveTail | CompareTail | LoadByte | MoveHead

  /** An action that its side is not ready for does nothing. */
  function Act(s: System, a: Action): System
    requires 0 <= s.head < |s.buffer| && 0 <= s.tail < |s.buffer|
  {
    match a
    case BeginPush(d) => if s.prod.Ready? then s.(prod := Computed(d, (s.tail + 1) % |s.buffer|)) else s
    case CompareHead =>
      if !s.prod.Computed? then s
      else if s.prod.nextTail != s.head then s.(prod := Admitted(s.prod.data, s.prod.nextTail))
      else s.(prod := Ready)
    case StoreByte =>
      if s.prod.Admitted? then
        s.(buffer := s.buffer[s.tail := s.prod.data], prod := Stored(s.prod.data, s.prod.nextTail))
      else s
    case MoveTail =>
      if s.prod.Stored? then s.(tail := s.prod.nextTail, prod := Ready, pushed := s.pushed + [s.prod.data]) else s
    case CompareTail => if s.cons.Waiting? && s.head != s.tail then s.(cons := NotEmpty) else s
    case LoadByte => if s.cons.NotEmpty? then s.(cons := Fetched(s.buffer[s.head])) else s
    case MoveHead =>
      if s.cons.Fetched? then
        s.(head := (s.head + 1) % |s.buffer|, cons := Waiting, popped := s.popped + [s.cons.data])
      else s
  }

  /** What every interleaving keeps: an admitted producer has room and a consumer past its test has data,
      whatever the other side does meanwhile, and the unread slots hold what was pushed and not yet popped. */
  ghost predicate Inv(s: System) {
    && 0 <= s.head < |s.buffer| && 0 <= s.tail < |s.buffer|
    && (!s.prod.Ready? ==> s.prod.nextTail == (s.tail + 1) % |s.buffer|)
    && (s.prod.Admitted? || s.prod.Stored? ==> s.prod.nextTail != s.head)
    && (s.prod.Stored? ==> s.buffer[s.tail] == s.prod.data)
    && (!s.cons.Waiting? ==> s.head != s.tail)
    && (s.cons.Fetched? ==> s.cons.data == s.buffer[s.head])
    && s.pushed == s.popped + Unread(s.buffer, s.head, s.tail)
  }

  function Start(size: nat): System
    requires 0 < size
  {
    System(seq(size, _ => 0), 0, 0, Ready, Waiting, [], [])
  }

  function RunAll(size: nat, actions: seq<Action>): (s: System)
    requires 0 < size
    ensures |s.buffer| == size && 0 <= s.head < size && 0 <= s.tail < size
    ensures !s.prod.Ready? ==> 0 <= s.prod.nextTail < size
  {
    if actions == [] then Start(size) else Act(RunAll(size, actions[..|actions| - 1]), actions[|actions| - 1])
  }

  lemma NextIsElsewhere(i: int, n: int)
    requires 0 <= i < n
    ensures 0 <= (i + 1) % n < n
    ensures (i + 1) % n == i ==> n == 1
  {
    ModuloIsOneStep(i + 1, n);
  }

  lemma ProducerKeepsInv(s: System, a: Action)
    requires Inv(s) && (a.BeginPush? || a.CompareHead? || a.StoreByte? || a.MoveTail?)
    ensures Inv(Act(s, a))
  {
    hide Unread;
    NextIsElsewhere(s.tail, |s.buffer|);
    if a.StoreByte? && s.prod.Admitted? {
      PushAppends(s.buffer, s.head, s.tail, s.prod.data);
    }
    if a.MoveTail? && s.prod.Stored? {
      PushAppends(s.buffer, s.head, s.tail, s.prod.data);
      assert s.popped + (Unread(s.buffer, s.head, s.tail) + [s.prod.data]) == s.pushed + [s.prod.data];
    }
  }

  lemma ConsumerKeepsInv(s: System, a: Action)
    requires Inv(s) && (a.CompareTail? || a.LoadByte? || a.MoveHead?)
    ensures Inv(Act(s, a))
  {
    hide Unread;
    var n := |s.buffer|;
    ModuloIsOneStep(s.head + 1, n);
    ModuloIsOneStep(s.tail + 1, n);
    if a.MoveHead? && s.cons.Fetched? {
      PopTakesFirst(s.buffer, s.head, s.tail);
      var next := (s.head + 1) % n;
      assert s.popped + ([s.cons.data] + Unread(s.buffer, next, s.tail)) ==
             s.popped + [s.cons.data] + Unread(s.buffer, next, s.tail);
    }
  }

  lemma {:induction false} RunKeepsInv(size: nat, actions: seq<Action>)
    requires 0 < size
    ensures Inv(RunAll(size, actions))
  {
    if actions != [] {
      var before, a := RunAll(size, actions[..|actions| - 1]), actions[|actions| - 1];
      RunKeepsInv(size, actions[..|actions| - 1]);
      if a.CompareTail? || a.LoadByte? || a.MoveHead? {
        ConsumerKeepsInv(before, a);
      } else {
        ProducerKeepsInv(before, a);
      }
    }
  }

  /** In every interleaving: the consumer gets a prefix of what the producer pushed, in order and complete up
      to the unread bytes, and the two counters always add up. */
  lemma PoppedIsAPrefix(size: nat, actions: seq<Action>)
    requires 0 < size
    ensures var s := RunAll(size, actions);
            && s.pushed == s.popped + Unread(s.buffer, s.head, s.tail)
            && s.popped <= s.pushed
            && DataCount(s.head, s.tail, size) == |s.pushed| - |s.popped| <= size - 1
  {
    RunKeepsInv(size, actions);
    var s := RunAll(size, actions);
    CountIsLength(s.buffer, s.head, s.tail);
  }

  /** The store of the producer never hits an unread slot, nor the one the consumer is reading. */
  lemma StoreHitsNoUnreadSlot(size: nat, actions: seq<Action>)
    requires 0 < size && RunAll(size, actions).prod.Admitted?
    ensures var s := RunAll(size, actions);
            && Unread(Act(s, StoreByte).buffer, s.head, s.tail) == Unread(s.buffer, s.head, s.tail)
            && (!s.cons.Waiting? ==> s.tail != s.head)
  {
    RunKeepsInv(size, actions);
    var s := RunAll(size, actions);
    PushAppends(s.buffer, s.head, s.tail, s.prod.data);
  }
}

/** The ring as an object, and the non-blocking write that feeds it piece by piece. */
module RingDriver {
  import opened Basics
  import opened Ring

  class RingBuf {
    const buffer: array<bv8>
    var head: nat
    var tail: nat

    ghost predicate Valid()
      reads this
    {
      head < buffer.Length && tail < buffer.Length
    }

    ghost function Contents(): Bytes
      requires Valid()
      reads this, buffer
    {
      Unread(buffer[..], head, tail)
    }

    constructor (b: array<bv8>)
      requires 0 < b.Length
      ensures Valid() && buffer == b && Contents() == []
    {
      buffer := b;
      head, tail := 0, 0;
    }

    method Push(data: bv8) returns (ok: bool)
      requires Valid()
      modifies `tail, buffer
      ensures Valid()
      ensures ok <==> |old(Contents())| < buffer.Length - 1
      ensures Contents() == if ok then old(Contents()) + [data] else old(Contents())
    {
      hide Unread;
      var nextTail := (tail + 1) % buffer.Length;
      CountIsLength(buffer[..], head, tail);
      if nextTail != head {
        PushAppends(buffer[..], head, tail, data);
        ghost var s := buffer[..];
        buffer[tail] := data;
        assert buffer[..] == s[tail := data];
        PushAppends(buffer[..], head, tail, data);
        tail := nextTail;
        return true;
      }
      ok := false;
    }

    method Pop() returns (ok: bool, data: bv8)
      requires Valid()
      modifies `head
      ensures Valid()
      ensures ok <==> old(Contents()) != []
      ensures if ok then old(Contents()) == [data] + Contents() else Contents() == old(Contents())
    {
      hide Unread;
      CountIsLength(buffer[..], head, tail);
      if head == tail {
        return false, 0;
      }
      PopTakesFirst(buffer[..], head, tail);
      data := buffer[head];
      head := (head + 1) % buffer.Length;
      ok := true;
    }

    method AvailableData() returns (n: nat)
      requires Valid()
      ensures n == |Contents()|
    {
      CountIsLength(buffer[..], head, tail);
      n := (tail - head + buffer.Length) % buffer.Length;
    }

    method AvailableSpace() returns (n: nat)
      requires Valid()
      ensures n + |Contents()| == buffer.Length - 1
    {
      var d := AvailableData();
      CountIsLength(buffer[..], head, tail);
      n := buffer.Length - d - 1;
    }
  }

  /** A write in progress: the application's bytes and how far they have been copied. */
  class Writer {
    const ring: RingBuf
    const appbuf: Bytes
    const chunk: nat
    var index: nat
    var copyInProgress: bool
    /** Everything this write has put into the ring. */
    ghost var fed: Bytes

    ghost predicate Valid()
      reads this, ring
    {
      && ring.Valid() && 0 < chunk
      && index <= |appbuf| && fed == appbuf[..index]
      && (copyInProgress ==> index < |appbuf| || appbuf == [])
      && (!copyInProgress ==> index == |appbuf|)
    }

    constructor (r: RingBuf, bytes: Bytes, c: nat)
      requires r.Valid() && 0 < c
      ensures Valid() && ring == r && appbuf == bytes && chunk == c && fed == [] && copyInProgress
    {
      ring, appbuf, chunk := r, bytes, c;
      index, copyInProgress, fed := 0, true, [];
    }

    /** `copy_appbuf_to_ringbuf_non_blocking`, run from the interrupt: the next piece if all of it fits, and
        nothing otherwise. */
    method CopyNonBlocking()
      requires Valid()
      modifies this, ring`tail, ring.buffer
      ensures Valid()
      ensures var n := Min(chunk, |appbuf| - old(index));
              var fits := n <= ring.buffer.Length - 1 - |old(ring.Contents())|;
              && index == old(index) + (if fits then n else 0)
              && ring.Contents() == old(ring.Contents()) + appbuf[old(index)..index]
              && (fits ==> (copyInProgress <==> old(copyInProgress) && index < |appbuf|))
              && (!fits ==> copyInProgress == old(copyInProgress))
    {
      hide Unread;
      var n := Min(chunk, |appbuf| - index);
      var space := ring.AvailableSpace();
      assert ring.Contents() + appbuf[index..index] == ring.Contents();
      if space >= n {
        CopyPiece(n);
        assert appbuf[..index + n] == appbuf[..index] + appbuf[index..index + n];
        index := index + n;
        fed := appbuf[..index];
        if index >= |appbuf| {
          copyInProgress := false;
        }
      }
    }

    method CopyPiece(n: nat)
      requires ring.Valid() && index + n <= |appbuf|
      requires n + |ring.Contents()| <= ring.buffer.Length - 1
      modifies ring`tail, ring.buffer
      ensures ring.Valid() && ring.Contents() == old(ring.Contents()) + appbuf[index..index + n]
    {
      hide Unread;
      for i := 0 to n
        invariant ring.Valid()
        invariant ring.Contents() == old(ring.Contents()) + appbuf[index..index + i]
      {
        ghost var before := ring.Contents();
        var ok := ring.Push(appbuf[index + i]);
        OneMore(old(ring.Contents()), before, ring.Contents(), appbuf, index, i);
      }
    }
  }

  lemma OneMore(start: Bytes, before: Bytes, after: Bytes, s: Bytes, from: nat, i: nat)
    requires from + i < |s| && before == start + s[from..from + i] && after == before + [s[from + i]]
    ensures after == start + s[from..from + i + 1]
  {
    assert s[from..from + i + 1] == s[from..from + i] + [s[from + i]];
  }

  /** What the port does between two copies: it sends some bytes from the ring. */
  method Drain(ring: RingBuf, n: nat) returns (out: Bytes)
    requires ring.Valid()
    modifies ring`head
    ensures ring.Valid()
    ensures old(ring.Contents()) == out + ring.Contents()
  {
    hide Unread;
    out := [];
    ghost var start := ring.Contents();
    assert start == [] + start;
    for i := 0 to n
      invariant ring.Valid() && start == out + ring.Contents()
    {
      ghost var rest := ring.Contents();
      var ok, b := ring.Pop();
      if ok {
        assert out + ([b] + ring.Contents()) == out + [b] + ring.Contents();
        out := out + [b];
      }
    }
  }

  /** A whole write, interrupted by any amounts of sending: the bytes sent, followed by those in the ring, are
      exactly the copied part of the application's buffer, each byte once and in order; and a write that is no
      longer in progress has copied all of it. */
  method WriteRun(ring: RingBuf, bytes: Bytes, chunk: nat, drains: seq<nat>) returns (sent: Bytes, w: Writer)
    requires ring.Valid() && ring.Contents() == [] && 0 < chunk
    modifies ring, ring.buffer
    ensures w.Valid() && w.ring == ring && w.appbuf == bytes
    ensures sent + ring.Contents() == bytes[..w.index]
    ensures !w.copyInProgress ==> sent + ring.Contents() == bytes
  {
    hide Unread;
    w := new Writer(ring, bytes, chunk);
    sent := [];
    assert [] + ring.Contents() == bytes[..0];
    for i := 0 to |drains|
      invariant fresh(w) && w.Valid() && w.ring == ring && w.appbuf == bytes && w.chunk == chunk
      invariant sent + ring.Contents() == bytes[..w.index]
    {
      if w.copyInProgress {
        ghost var before, from := ring.Contents(), w.index;
        w.CopyNonBlocking();
        assert sent + (before + bytes[from..w.index]) == sent + before + bytes[from..w.index];
        assert bytes[..from] + bytes[from..w.index] == bytes[..w.index];
      }
      var out := Drain(ring, drains[i]);
      assert sent + (out + ring.Contents()) == sent + out + ring.Contents();
      sent := sent + out;
    }
    assert bytes[..|bytes|] == bytes;
  }
}
