/** What an observer of the two bus lines sees (sections 3.1.3 to 3.1.6 of UM10204). */
module I2CBus {
  import opened Arithmetic
  import opened Basics

  datatype Level = Level(scl: bool, sda: bool)

  datatype Event = Start | Stop | Bit(b: bool)

  /** The last levels, whether the data line has been stable since the clock rose, and the events so far. */
  datatype Watch = Watch(last: Level, stable: bool, events: seq<Event>)

  /** A change of the data line while the clock is high is a start or a stop; a clock pulse with a stable data
      line carries a bit. */
  function See(w: Watch, l: Level): Watch {
    if w.last.scl && l.scl then
      if w.last.sda && !l.sda then Watch(l, false, w.events + [Start])
      else if !w.last.sda && l.sda then Watch(l, false, w.events + [Stop])
      else w.(last := l)
    else if w.last.scl && !l.scl then
      Watch(l, false, if w.stable then w.events + [Bit(w.last.sda)] else w.events)
    else if !w.last.scl && l.scl then Watch(l, true, w.events)
    else w.(last := l)
  }

  const IDLE := Watch(Level(true, true), false, [])

  function SeeAll(trace: seq<Level>): Watch {
    if trace == [] then IDLE else See(SeeAll(trace[..|trace| - 1]), trace[|trace| - 1])
  }

  lemma SeeOneMore(trace: seq<Level>, l: Level)
    ensures SeeAll(trace + [l]) == See(SeeAll(trace), l)
  {
    assert (trace + [l])[..|trace|] == trace;
  }

  // ---------- bytes on the wire ----------

  function BitOf(val: bv8, i: int): bool {
    if i == 0 then val & 0x01 != 0 else if i == 1 then val & 0x02 != 0
    else if i == 2 then val & 0x04 != 0 else if i == 3 then val & 0x08 != 0
    else if i == 4 then val & 0x10 != 0 else if i == 5 then val & 0x20 != 0
    else if i == 6 then val & 0x40 != 0 else val & 0x80 != 0
  }

  /** The `n` most significant bits, first bit first. */
  function Bits(val: bv8, n: nat): seq<Event>
    requires n <= 8
  {
    if n == 0 then [] else Bits(val, n - 1) + [Bit(BitOf(val, 8 - n))]
  }

  /** One byte and the acknowledge bit after it, which is low for an acknowledge. */
  function ByteEvents(val: bv8, ack: bool): seq<Event> {
    Bits(val, 8) + [Bit(!ack)]
  }

  /** Whether the slave acknowledges the byte with number `i`. */
  function Acks(acks: seq<bool>, i: nat): bool {
    i < |acks| && acks[i]
  }

  function BytesEvents(data: Bytes, acks: seq<bool>, first: nat): seq<Event> {
    if data == [] then []
    else BytesEvents(data[..|data| - 1], acks, first) + ByteEvents(data[|data| - 1], Acks(acks, first + |data| - 1))
  }

  /** How many bytes from the front are acknowledged without a gap. */
  function Acked(n: nat, acks: seq<bool>, first: nat): (k: nat)
    ensures k <= n
    ensures forall i :: first <= i < first + k ==> Acks(acks, i)
    ensures k < n ==> !Acks(acks, first + k)
  {
    if n == 0 then 0
    else
      var k := Acked(n - 1, acks, first);
      if k < n - 1 then k else if Acks(acks, first + k) then k + 1 else k
  }

  lemma ConcatAt(bufs: seq<Bytes>, b: int, j: int)
    requires 0 <= b < |bufs| && 0 <= j < |bufs[b]|
    ensures |Concat(bufs[..b])| + j < |Concat(bufs)|
    ensures Concat(bufs)[|Concat(bufs[..b])| + j] == bufs[b][j]
  {
    hide Concat;
    assert bufs == bufs[..b] + [bufs[b]] + bufs[b + 1..];
    ConcatAppends(bufs[..b] + [bufs[b]], bufs[b + 1..]);
    ConcatOneMore(bufs[..b], bufs[b]);
  }

  lemma AckedIs(m: nat, n: nat, acks: seq<bool>, first: nat)
    requires m <= n && (forall i :: first <= i < first + m ==> Acks(acks, i)) && (m < n ==> !Acks(acks, first + m))
    ensures Acked(n, acks, first) == m
  {
    hide Acked, Acks;
  }

  // ---------- the observer can read the bytes back ----------

  function BitValue(e: Event, weight: bv8): bv8 {
    if e.Bit? && e.b then weight else 0
  }

  function ReadByte(es: seq<Event>): bv8
    requires |es| >= 8
  {
    BitValue(es[0], 0x80) | BitValue(es[1], 0x40) | BitValue(es[2], 0x20) | BitValue(es[3], 0x10) |
    BitValue(es[4], 0x08) | BitValue(es[5], 0x04) | BitValue(es[6], 0x02) | BitValue(es[7], 0x01)
  }

  lemma BitsSpellByte(val: bv8)
    ensures (val & 0x80) | (val & 0x40) | (val & 0x20) | (val & 0x10) |
            (val & 0x08) | (val & 0x04) | (val & 0x02) | (val & 0x01) == val
  {
  }

  lemma OneBit(val: bv8, weight: bv8, e: Event)
    requires weight in {0x80, 0x40, 0x20, 0x10, 0x08, 0x04, 0x02, 0x01} && e == Bit(val & weight != 0)
    ensures BitValue(e, weight) == val & weight
  {
  }

  lemma {:induction false} BitAt(val: bv8, n: nat, k: nat)
    requires k < n <= 8
    ensures |Bits(val, n)| == n && Bits(val, n)[k] == Bit(BitOf(val, 7 - k))
    decreases n
  {
    hide BitOf;
    if n > 1 {
      BitAt(val, n - 1, if k < n - 1 then k else 0);
    }
  }

  /** The nine bits of a byte give the byte back. */
  lemma ByteReadsBack(val: bv8, ack: bool)
    ensures |ByteEvents(val, ack)| == 9 && ReadByte(ByteEvents(val, ack)) == val
    ensures ByteEvents(val, ack)[8] == Bit(!ack)
  {
    hide Bits, BitValue, BitOf, ReadByte;
    var es := ByteEvents(val, ack);
    forall k: nat | k < 8
      ensures |es| == 9 && es[k] == Bit(BitOf(val, 7 - k))
    {
      BitAt(val, 8, k);
    }
    BitAt(val, 8, 0);
    WeightsReadBack(val, es);
  }

  /** The number that eight bits spell, first bit first. */
  function Spelled(es: seq<Event>): nat
    requires |es| >= 8
  {
    BitNumber(es[0], 128) + BitNumber(es[1], 64) + BitNumber(es[2], 32) + BitNumber(es[3], 16) +
    BitNumber(es[4], 8) + BitNumber(es[5], 4) + BitNumber(es[6], 2) + BitNumber(es[7], 1)
  }

  function BitNumber(e: Event, weight: nat): nat {
    if e.Bit? && e.b then weight else 0
  }

  lemma ReadByteSpells(es: seq<Event>)
    requires |es| >= 8
    ensures ValueOf(ReadByte(es)) == Spelled(es)
  {
  }

  /** The nine bits of a byte spell its value. */
  lemma ByteSpells(val: bv8, ack: bool)
    ensures |ByteEvents(val, ack)| == 9 && Spelled(ByteEvents(val, ack)) == ValueOf(val)
  {
    hide ByteEvents, ReadByte, Spelled, ValueOf;
    ByteReadsBack(val, ack);
    ReadByteSpells(ByteEvents(val, ack));
  }

  lemma WeightsReadBack(val: bv8, es: seq<Event>)
    requires |es| == 9
    requires forall k :: 0 <= k < 8 ==> es[k] == Bit(BitOf(val, 7 - k))
    ensures ReadByte(es) == val
  {
    hide BitValue;
    OneBit(val, 0x80, es[0]);
    OneBit(val, 0x40, es[1]);
    OneBit(val, 0x20, es[2]);
    OneBit(val, 0x10, es[3]);
    OneBit(val, 0x08, es[4]);
    OneBit(val, 0x04, es[5]);
    OneBit(val, 0x02, es[6]);
    OneBit(val, 0x01, es[7]);
    BitsSpellByte(val);
  }

  // ---------- reading ----------

  /** What the slave sends as byte `i`; when it has nothing to send it lets the line go. */
  function Reply(reply: Bytes, i: nat): bv8 {
    if i < |reply| then reply[i] else 0xff
  }

  function Replies(reply: Bytes, first: nat, n: nat): (s: Bytes)
    ensures |s| == n
  {
    if n == 0 then [] else Replies(reply, first, n - 1) + [Reply(reply, first + n - 1)]
  }

  /** The first `n` of `total` bytes read, each acknowledged except that the last one may be refused. */
  function ReadEvents(reply: Bytes, first: nat, n: nat, total: nat, refuse: bool): seq<Event> {
    if n == 0 then []
    else
      ReadEvents(reply, first, n - 1, total, refuse) +
      ByteEvents(Reply(reply, first + n - 1), !(refuse && n == total))
  }

  /** The bits received so far, shifted in from the right. */
  function Collected(val: bv8, n: nat): bv8
    requires n <= 8
  {
    if n == 0 then 0 else (Collected(val, n - 1) << 1) | (if BitOf(val, 8 - n) then 1 else 0)
  }

  lemma NoBitsYet(val: bv8, start: seq<Event>)
    ensures start + Bits(val, 0) == start && Collected(val, 0) == 0
  {
  }

  lemma OneMoreBit(val: bv8, n: nat, start: seq<Event>)
    requires 0 < n <= 8
    ensures start + Bits(val, n) == start + Bits(val, n - 1) + [Bit(BitOf(val, 8 - n))]
    ensures Collected(val, n) == (Collected(val, n - 1) << 1) | (if BitOf(val, 8 - n) then 1 else 0)
  {
  }

  lemma CollectedAll(val: bv8)
    ensures Collected(val, 8) == val
  {
    var c2 := Collected(val, 2);
    assert c2 == (val >> 6) by {
      assert Collected(val, 1) == (val >> 7);
    }
    var c4 := Collected(val, 4);
    assert c4 == (val >> 4) by {
      assert Collected(val, 3) == (val >> 5);
    }
    var c6 := Collected(val, 6);
    assert c6 == (val >> 2) by {
      assert Collected(val, 5) == (val >> 3);
    }
    assert Collected(val, 7) == (val >> 1);
  }

  function Sum(lens: seq<nat>): nat {
    if lens == [] then 0 else Sum(lens[..|lens| - 1]) + lens[|lens| - 1]
  }

  /** The acknowledge bit of byte `t` as an observer sees it. */
  function AckBit(es: seq<Event>, t: nat): Event
    requires 9 * t + 8 < |es|
  {
    es[9 * t + 8]
  }

  lemma {:induction false} ReadEventsAt(reply: Bytes, first: nat, n: nat, total: nat, refuse: bool, t: nat)
    requires t < n
    ensures |ReadEvents(reply, first, n, total, refuse)| == 9 * n
    ensures AckBit(ReadEvents(reply, first, n, total, refuse), t) == Bit(refuse && t + 1 == total)
  {
    hide ByteEvents;
    ByteReadsBack(Reply(reply, first + n - 1), !(refuse && n == total));
    if n > 1 {
      ReadEventsAt(reply, first, n - 1, total, refuse, if t < n - 1 then t else 0);
    }
  }

  /** The master should refuse the last byte it reads, and no other: it does so if and only if the last buffer is not
      empty. */
  lemma LastIsRefusedIff(reply: Bytes, first: nat, lens: seq<nat>)
    requires 0 < Sum(lens)
    ensures var es := ReadEvents(reply, first, Sum(lens), Sum(lens), lens[|lens| - 1] > 0);
            && |es| == 9 * Sum(lens)
            && ((forall t: nat :: t < Sum(lens) ==> (AckBit(es, t) == Bit(true) <==> t == Sum(lens) - 1)) <==>
                lens[|lens| - 1] > 0)
  {
    hide ReadEvents, AckBit;
    var n, refuse := Sum(lens), lens[|lens| - 1] > 0;
    forall t: nat | t < n
      ensures |ReadEvents(reply, first, n, n, refuse)| == 9 * n
      ensures AckBit(ReadEvents(reply, first, n, n, refuse), t) == Bit(refuse && t + 1 == n)
    {
      ReadEventsAt(reply, first, n, n, refuse, t);
    }
    ReadEventsAt(reply, first, n, n, refuse, n - 1);
  }
}

/** `machine.SoftI2C`: the master drives the two lines, and the slave answers each byte. */
module SoftI2C {
  import opened Arithmetic
  import opened Basics
  import opened I2CBus

  class Master {
    const acks: seq<bool>
    const reply: Bytes
    var scl: bool
    var sda: bool
    /** What the slave puts on the data line; the line is low when either side pulls it low. */
    var slaveSda: bool
    var bytesSent: nat
    var bytesRead: nat
    var trace: seq<Level>

    constructor (slaveAcks: seq<bool>, slaveBytes: Bytes)
      ensures acks == slaveAcks && reply == slaveBytes
      ensures Idle() && Seen().events == [] && bytesSent == 0 && bytesRead == 0
    {
      acks, reply := slaveAcks, slaveBytes;
      scl, sda, slaveSda, bytesSent, bytesRead, trace := true, true, true, 0, 0, [];
    }

    ghost function Seen(): Watch
      reads this
    {
      SeeAll(trace)
    }

    /** The observer has seen the present levels. */
    ghost predicate Synced()
      reads this
    {
      Seen().last == Level(scl, sda && slaveSda)
    }

    ghost predicate Valid()
      reads this
    {
      Synced() && slaveSda
    }

    ghost predicate Idle()
      reads this
    {
      Valid() && scl && sda
    }

    /** Between bytes: the clock is low, or high right after a start. */
    ghost predicate InTransfer()
      reads this
    {
      Valid() && (scl ==> !Seen().stable)
    }

    /** Sets the levels of the three drivers and lets the observer look. */
    method Drive(newScl: bool, newSda: bool, newSlave: bool)
      modifies `scl, `sda, `slaveSda, `trace
      ensures scl == newScl && sda == newSda && slaveSda == newSlave
      ensures Seen() == See(old(Seen()), Level(newScl, newSda && newSlave))
    {
      scl, sda, slaveSda := newScl, newSda, newSlave;
      SeeOneMore(trace, Level(scl, sda && slaveSda));
      trace := trace + [Level(scl, sda && slaveSda)];
    }

    /** `mp_hal_i2c_start`, from an idle bus or in the middle of a transfer. */
    method SendStart()
      requires Idle() || (Valid() && !scl)
      modifies `scl, `sda, `slaveSda, `trace
      ensures InTransfer() && scl
      ensures Seen().events == old(Seen().events) + [Start]
    {
      hide SeeAll;
      Drive(scl, true, true);
      Drive(true, true, true);
      Drive(true, false, true);
    }

    /** `mp_hal_i2c_stop`, with the clock low. There is a stop exactly when the slave does not hold the data line. */
    method SendStop()
      requires Synced() && !scl
      modifies `scl, `sda, `slaveSda, `trace
      ensures Synced() && scl && sda && slaveSda == old(slaveSda)
      ensures Seen().events == old(Seen().events) + if slaveSda then [Stop] else []
    {
      hide SeeAll;
      Drive(false, false, slaveSda);
      Drive(true, false, slaveSda);
      Drive(true, true, slaveSda);
    }

    /** One clock pulse with the data line at `b`. */
    method PulseBit(b: bool)
      requires Valid() && !scl
      modifies `scl, `sda, `slaveSda, `trace
      ensures Valid() && !scl
      ensures Seen().events == old(Seen().events) + [Bit(b)]
    {
      hide SeeAll;
      Drive(false, b, true);
      Drive(true, b, true);
      Drive(false, b, true);
    }

    /** The ninth pulse: the master lets go of the data line and samples the slave's answer. */
    method PulseAck(slaveAcks: bool) returns (nack: bool)
      requires Valid() && !scl
      modifies `scl, `sda, `slaveSda, `trace
      ensures Valid() && !scl && sda && nack == !slaveAcks
      ensures Seen().events == old(Seen().events) + [Bit(!slaveAcks)]
    {
      hide SeeAll;
      Drive(false, true, true);
      Drive(false, true, !slaveAcks);
      Drive(true, true, !slaveAcks);
      nack := sda && slaveSda;
      Drive(false, true, !slaveAcks);
      Drive(false, true, true);
    }

    /** `mp_hal_i2c_write_byte`. */
    method WriteByte(val: bv8) returns (nack: bool)
      requires InTransfer()
      modifies `scl, `sda, `slaveSda, `trace, `bytesSent
      ensures Valid() && !scl && sda && bytesSent == old(bytesSent) + 1
      ensures nack == !Acks(acks, old(bytesSent))
      ensures Seen().events == old(Seen().events) + ByteEvents(val, !nack)
    {
      hide SeeAll, BitOf;
      Drive(false, sda, true);
      ghost var start := Seen().events;
      for i := 8 downto 0
        invariant Valid() && !scl && bytesSent == old(bytesSent)
        invariant Seen().events == start + Bits(val, 8 - i)
      {
        PulseBit(BitOf(val, i));
      }
      nack := PulseAck(Acks(acks, bytesSent));
      bytesSent := bytesSent + 1;
    }

    /** The data bytes of a write, buffer by buffer, until one is not acknowledged. */
    method SendData(bufs: seq<Bytes>) returns (count: nat)
      requires Valid() && !scl
      modifies `scl, `sda, `slaveSda, `trace, `bytesSent
      ensures Valid() && !scl
      ensures count == Acked(|Concat(bufs)|, acks, old(bytesSent))
      ensures Seen().events == old(Seen().events) + BytesEvents(SentPart(Concat(bufs), count), acks, old(bytesSent))
    {
      hide SeeAll, ByteEvents, BytesEvents, Acks, Acked, Concat;
      ghost var data, first, base := Concat(bufs), bytesSent, Seen().events;
      count := 0;
      NoBuffers(bufs, data, acks, first);
      for b := 0 to |bufs|
        invariant Valid() && !scl && bytesSent == first + count && count == |Concat(bufs[..b])| <= |data|
        invariant forall i :: first <= i < first + count ==> Acks(acks, i)
        invariant Seen().events == base + BytesEvents(data[..count], acks, first)
      {
        var buf := bufs[b];
        ghost var start := count;
        for j := 0 to |buf|
          invariant Valid() && !scl && bytesSent == first + count && count == start + j <= |data|
          invariant forall i :: first <= i < first + count ==> Acks(acks, i)
          invariant Seen().events == base + BytesEvents(data[..count], acks, first)
        {
          ConcatAt(bufs, b, j);
          var nack := WriteByte(buf[j]);
          OneMoreByte(data, count, acks, first, base);
          assert Seen().events == base + BytesEvents(data[..count + 1], acks, first);
          if nack {
            AckedIs(count, |data|, acks, first);
            return;
          }
          count := count + 1;
        }
        assert bufs[..b + 1] == bufs[..b] + [buf];
        ConcatOneMore(bufs[..b], buf);
      }
      assert bufs[..|bufs|] == bufs && data[..|data|] == data;
      AckedIs(count, |data|, acks, first);
    }

    /** `mp_machine_soft_i2c_transfer` for a write, from an idle bus or after a transfer without stop. The
        observer sees a start, the address, and the longest run of data that the acknowledges allow, with the
        refused byte as the last one; the data line changes under a high clock nowhere else. */
    method WriteTransfer(addr: bv16, bufs: seq<Bytes>, stop: bool) returns (ret: int)
      requires Idle() || (Valid() && !scl)
      modifies `scl, `sda, `slaveSda, `trace, `bytesSent
      ensures if stop || !Acks(acks, old(bytesSent)) then Idle() else Valid() && !scl
      ensures ret == if Acks(acks, old(bytesSent)) then Acked(|Concat(bufs)|, acks, old(bytesSent) + 1) else -19
      ensures Seen().events == old(Seen().events) +
                if Acks(acks, old(bytesSent)) then
                  [Start] + ByteEvents(AddressByte(addr, false), true) +
                  BytesEvents(SentPart(Concat(bufs), ret), acks, old(bytesSent) + 1) + (if stop then [Stop] else [])
                else [Start] + ByteEvents(AddressByte(addr, false), false) + [Stop]
      ensures Addressed(Seen().events[|old(Seen().events)|..], addr, false)
    {
      hide SeeAll, ByteEvents, BytesEvents, Acks, Acked, Concat, AddressByte, Addressed;
      ghost var base := Seen().events;
      SendStart();
      var nack := WriteByte(AddressByte(addr, false));
      ghost var head := [Start] + ByteEvents(AddressByte(addr, false), !nack);
      assert base + [Start] + ByteEvents(AddressByte(addr, false), !nack) == base + head;
      if nack {
        SendStop();
        assert base + head + [Stop] == base + (head + [Stop]);
        AddressIsSeen(base, Seen().events, addr, false, false, [Stop]);
        return -ENODEV;
      }
      ret := SendData(bufs);
      ghost var body := BytesEvents(SentPart(Concat(bufs), ret), acks, old(bytesSent) + 1);
      assert base + head + body == base + (head + body + []);
      if stop {
        SendStop();
        assert base + head + body + [Stop] == base + (head + body + [Stop]);
      }
      AddressIsSeen(base, Seen().events, addr, false, true, body + if stop then [Stop] else []);
    }

    /** One bit from the slave. */
    method SampleBit(b: bool) returns (level: bool)
      requires Synced() && !scl && sda
      modifies `scl, `sda, `slaveSda, `trace
      ensures Synced() && !scl && sda && slaveSda == b && level == b
      ensures Seen().events == old(Seen().events) + [Bit(b)]
    {
      hide SeeAll;
      Drive(false, true, b);
      Drive(true, true, b);
      level := sda && slaveSda;
      Drive(false, true, b);
    }

    /** The ninth pulse of a byte read. A slave that is acknowledged goes on with the first bit of its next byte. */
    method AnswerByte(nack: bool, next: bool)
      requires Synced() && !scl && sda
      modifies `scl, `sda, `slaveSda, `trace
      ensures Synced() && !scl && sda && slaveSda == (nack || next)
      ensures Seen().events == old(Seen().events) + [Bit(nack)]
    {
      hide SeeAll;
      Drive(false, true, true);
      if !nack {
        Drive(false, false, true);
      }
      Drive(true, sda, true);
      Drive(false, sda, true);
      Drive(false, true, true);
      Drive(false, true, nack || next);
    }

    /** The eight bits of a byte from the slave. */
    method SampleByte(ghost start: seq<Event>) returns (val: bv8)
      requires Synced() && !scl && sda && Seen().events == start
      modifies `scl, `sda, `slaveSda, `trace
      ensures Synced() && !scl && sda && val == Reply(reply, bytesRead)
      ensures Seen().events == start + Bits(val, 8)
    {
      hide SeeAll, See, BitOf, Bits, Collected, Reply;
      ghost var sent := Reply(reply, bytesRead);
      NoBitsYet(sent, start);
      val := 0;
      for i := 8 downto 0
        invariant Synced() && !scl && sda
        invariant Seen().events == start + Bits(sent, 8 - i) && val == Collected(sent, 8 - i)
      {
        var level := SampleBit(BitOf(Reply(reply, bytesRead), i));
        val := (val << 1) | (if level then 1 else 0);
        OneMoreBit(sent, 8 - i, start);
      }
      CollectedAll(sent);
    }

    /** `mp_hal_i2c_read_byte`. */
    method ReadByteFrom(nack: bool) returns (val: bv8)
      requires Synced() && !scl && sda
      modifies `scl, `sda, `slaveSda, `trace, `bytesRead
      ensures Synced() && !scl && sda && bytesRead == old(bytesRead) + 1
      ensures slaveSda == (nack || BitOf(Reply(reply, bytesRead), 7))
      ensures val == Reply(reply, old(bytesRead))
      ensures Seen().events == old(Seen().events) + ByteEvents(val, !nack)
    {
      hide SeeAll, See, BitOf, Bits, Reply;
      ghost var start := Seen().events;
      val := SampleByte(start);
      bytesRead := bytesRead + 1;
      AnswerByte(nack, BitOf(Reply(reply, bytesRead), 7));
      assert start + Bits(val, 8) + [Bit(nack)] == start + (Bits(val, 8) + [Bit(nack)]);
    }

    /** The data bytes of a read, buffer by buffer. */
    method ReceiveData(lens: seq<nat>) returns (bufs: seq<Bytes>)
      requires Synced() && !scl && sda && slaveSda == BitOf(Reply(reply, bytesRead), 7)
      modifies `scl, `sda, `slaveSda, `trace, `bytesRead
      ensures Synced() && !scl && sda && bytesRead == old(bytesRead) + Sum(lens)
      ensures slaveSda == (Refuses(lens) || BitOf(Reply(reply, bytesRead), 7))
      ensures |bufs| == |lens| && (forall b :: 0 <= b < |lens| ==> |bufs[b]| == lens[b])
      ensures Concat(bufs) == Replies(reply, old(bytesRead), Sum(lens))
      ensures Seen().events ==
              old(Seen().events) + ReadEvents(reply, old(bytesRead), Sum(lens), Sum(lens), Refuses(lens))
    {
      hide SeeAll, ByteEvents, ReadEvents, Concat, Replies, Reply, BitOf, Sum;
      ghost var first, base, total, refuse := bytesRead, Seen().events, Sum(lens), Refuses(lens);
      bufs := [];
      NothingRead(reply, first, total, refuse, base, lens);
      var n := |lens|;
      for b := 0 to |lens|
        invariant Synced() && !scl && sda && n == |lens| - b
        invariant bytesRead == first + Sum(lens[..b]) && Sum(lens[..b]) <= total
        invariant slaveSda == ((b == |lens| && refuse) || BitOf(Reply(reply, bytesRead), 7))
        invariant |bufs| == b && (forall i :: 0 <= i < b ==> |bufs[i]| == lens[i])
        invariant Concat(bufs) == Replies(reply, first, Sum(lens[..b]))
        invariant Seen().events == base + ReadEvents(reply, first, Sum(lens[..b]), total, refuse)
      {
        n := n - 1;
        SumOneMore(lens, b);
        ghost var start := Sum(lens[..b]);
        var buf: Bytes := [];
        var len := lens[b];
        assert Concat(bufs) + [] == Replies(reply, first, start);
        while len > 0
          invariant Synced() && !scl && sda && 0 <= len <= lens[b] == |buf| + len
          invariant bytesRead == first + start + |buf|
          invariant slaveSda == ((n == 0 && len == 0 && |buf| > 0) || BitOf(Reply(reply, bytesRead), 7))
          invariant Concat(bufs) + buf == Replies(reply, first, start + |buf|)
          invariant Seen().events == base + ReadEvents(reply, first, start + |buf|, total, refuse)
        {
          len := len - 1;
          var val := ReadByteFrom(n == 0 && len == 0);
          LastByteOfAll(lens, b, |buf|);
          OneMoreRead(reply, first, start + |buf|, total, refuse, base);
          assert Concat(bufs) + buf + [val] == Concat(bufs) + (buf + [val]);
          buf := buf + [val];
        }
        ConcatOneMore(bufs, buf);
        bufs := bufs + [buf];
      }
      assert lens[..|lens|] == lens;
    }

    /** `mp_machine_soft_i2c_transfer` for a read. The observer sees a start, the address, the bytes of the slave, and
        a stop if one is asked for and the slave has been refused or happens to let the line go: with an empty last
        buffer the slave is never refused, and a zero bit of its next byte holds the bus. */
    method ReadTransfer(addr: bv16, lens: seq<nat>, stop: bool) returns (ret: int, bufs: seq<Bytes>)
      requires Idle() || (Valid() && !scl)
      modifies `scl, `sda, `slaveSda, `trace, `bytesSent, `bytesRead
      ensures ret == if Acks(acks, old(bytesSent)) then 0 else -19
      ensures ret == 0 ==>
                && |bufs| == |lens| && (forall b :: 0 <= b < |lens| ==> |bufs[b]| == lens[b])
                && Concat(bufs) == Replies(reply, old(bytesRead), Sum(lens))
      ensures ret == 0 && stop ==> (Idle() <==> Refuses(lens) || BitOf(Reply(reply, old(bytesRead) + Sum(lens)), 7))
      ensures ret != 0 ==> Idle()
      ensures Seen().events == old(Seen().events) + [Start] +
                if ret == 0 then
                  ByteEvents(AddressByte(addr, true), true) +
                  ReadEvents(reply, old(bytesRead), Sum(lens), Sum(lens), Refuses(lens)) +
                  if stop && (Refuses(lens) || BitOf(Reply(reply, old(bytesRead) + Sum(lens)), 7)) then [Stop] else []
                else ByteEvents(AddressByte(addr, true), false) + [Stop]
      ensures Addressed(Seen().events[|old(Seen().events)|..], addr, true)
    {
      hide SeeAll, ByteEvents, ReadEvents, Acks, Concat, Replies, Reply, BitOf, Sum, AddressByte, Addressed;
      ghost var base := Seen().events + [Start];
      SendStart();
      var nack := WriteByte(AddressByte(addr, true));
      ghost var head := ByteEvents(AddressByte(addr, true), !nack);
      if nack {
        SendStop();
        assert base + head + [Stop] == base + (head + [Stop]);
        AddressIsSeen(base[..|base| - 1], Seen().events, addr, true, false, [Stop]);
        return -ENODEV, [];
      }
      TurnAround();
      bufs := ReceiveData(lens);
      ghost var body := ReadEvents(reply, old(bytesRead), Sum(lens), Sum(lens), Refuses(lens));
      assert base + head + body == base + (head + body + []);
      if stop {
        SendStop();
        ghost var tail := if slaveSda then [Stop] else [];
        assert base + head + body + tail == base + (head + body + tail);
      }
      AddressIsSeen(base[..|base| - 1], Seen().events, addr, true, true, Seen().events[|base + head|..]);
      ret := 0;
    }

    /** After its address a slave that is to be read puts its first bit on the line. */
    method TurnAround()
      requires Valid() && !scl && sda
      modifies `scl, `sda, `slaveSda, `trace
      ensures Synced() && !scl && sda && slaveSda == BitOf(Reply(reply, bytesRead), 7)
      ensures Seen().events == old(Seen().events)
    {
      hide SeeAll, BitOf;
      Drive(false, true, BitOf(Reply(reply, bytesRead), 7));
    }
  }

  /** The test `(n | len) == 0` refuses the last byte of the last buffer, if it has one. */
  predicate Refuses(lens: seq<nat>) {
    lens != [] && lens[|lens| - 1] > 0
  }

  lemma SumOneMore(lens: seq<nat>, b: int)
    requires 0 <= b < |lens|
    ensures Sum(lens[..b + 1]) == Sum(lens[..b]) + lens[b] <= Sum(lens)
  {
    assert lens[..b + 1][..b] == lens[..b];
    SumOfPrefix(lens, b + 1);
  }

  lemma {:induction false} SumOfPrefix(lens: seq<nat>, b: int)
    requires 0 <= b <= |lens|
    ensures Sum(lens[..b]) <= Sum(lens)
    decreases |lens|
  {
    if b == |lens| {
      assert lens[..b] == lens;
    } else {
      assert lens[..|lens| - 1][..b] == lens[..b];
      SumOfPrefix(lens[..|lens| - 1], b);
    }
  }

  lemma LastByteOfAll(lens: seq<nat>, b: int, j: int)
    requires 0 <= b < |lens| && 0 <= j < lens[b]
    ensures b == |lens| - 1 && j + 1 == lens[b] <==> Refuses(lens) && Sum(lens[..b]) + j + 1 == Sum(lens)
  {
    SumOneMore(lens, b);
    assert lens[..|lens|] == lens;
    if b < |lens| - 1 && Refuses(lens) {
      SumOneMore(lens, |lens| - 1);
      SumOfPrefix(lens[..|lens| - 1], b + 1);
      assert lens[..|lens| - 1][..b + 1] == lens[..b + 1];
    }
  }

  lemma NothingRead(reply: Bytes, first: nat, total: nat, refuse: bool, base: seq<Event>, lens: seq<nat>)
    ensures Sum(lens[..0]) == 0 && Concat([]) == Replies(reply, first, 0)
    ensures base + ReadEvents(reply, first, 0, total, refuse) == base
  {
  }

  lemma OneMoreRead(reply: Bytes, first: nat, n: nat, total: nat, refuse: bool, base: seq<Event>)
    ensures Replies(reply, first, n + 1) == Replies(reply, first, n) + [Reply(reply, first + n)]
    ensures base + ReadEvents(reply, first, n + 1, total, refuse) ==
            base + ReadEvents(reply, first, n, total, refuse) +
            ByteEvents(Reply(reply, first + n), !(refuse && n + 1 == total))
  {
  }

  const ENODEV := 19

  /** The address in the upper seven bits, and the direction. */
  function AddressByte(addr: bv16, read: bool): bv8 {
    (((addr << 1) | (if read then 1 else 0)) & 0xff) as bv8
  }

  /** After a start, eight bits that spell the address and the direction, and an answer. */
  ghost predicate Addressed(es: seq<Event>, addr: bv16, read: bool) {
    && |es| >= 10 && es[0] == Start && es[9].Bit?
    && Spelled(es[1..9]) == 2 * (addr as int % 128) + if read then 1 else 0
  }

  /** The seven low bits of an address. */
  function Low(addr: bv16): bv8 {
    (addr & 0x7f) as bv8
  }

  lemma LowIs(addr: bv16)
    ensures Low(addr) < 128 && addr as int == 128 * ((addr >> 7) as int) + ValueOf(Low(addr))
  {
  }

  lemma AddressOfLow(addr: bv16, read: bool)
    ensures AddressByte(addr, read) == (Low(addr) << 1) | (if read then 1 else 0)
  {
  }

  lemma Doubled(c: bv8, read: bool)
    requires c < 128
    ensures ValueOf((c << 1) | (if read then 1 else 0)) == 2 * ValueOf(c) + (if read then 1 else 0)
    ensures ValueOf(c) < 128
  {
  }

  lemma RestOf128(n: nat, q: nat, r: nat)
    requires n == 128 * q + r && r < 128
    ensures n % 128 == r
  {
  }

  /** Twice the low seven bits of the address, plus one for a read. */
  lemma AddressByteIs(addr: bv16, read: bool)
    ensures ValueOf(AddressByte(addr, read)) == 2 * (addr as int % 128) + if read then 1 else 0
  {
    hide AddressByte, Low, ValueOf;
    LowIs(addr);
    AddressOfLow(addr, read);
    Doubled(Low(addr), read);
    RestOf128(addr as int, (addr >> 7) as int, ValueOf(Low(addr)));
  }

  lemma AddressIsSeen(base: seq<Event>, es: seq<Event>, addr: bv16, read: bool, ack: bool, tail: seq<Event>)
    requires es == base + [Start] + ByteEvents(AddressByte(addr, read), ack) + tail
    ensures Addressed(es[|base|..], addr, read)
  {
    hide AddressByte, ByteEvents, ValueOf, BitNumber, ReadByte;
    var nine, seen := ByteEvents(AddressByte(addr, read), ack), es[|base|..];
    ByteSpells(AddressByte(addr, read), ack);
    ByteReadsBack(AddressByte(addr, read), ack);
    AddressByteIs(addr, read);
    assert seen == [Start] + nine + tail;
    assert seen[1..9] == nine[..8] && seen[9] == nine[8];
  }

  /** The bytes that go out when `acked` of them are acknowledged: those, and the one that is refused. */
  function SentPart(data: Bytes, acked: int): Bytes {
    if 0 <= acked < |data| then data[..acked + 1] else data
  }

  lemma NoBuffers(bufs: seq<Bytes>, data: Bytes, acks: seq<bool>, first: nat)
    ensures Concat(bufs[..0]) == [] && BytesEvents(data[..0], acks, first) == []
  {
  }

  lemma OneMoreByte(data: Bytes, n: nat, acks: seq<bool>, first: nat, base: seq<Event>)
    requires n < |data|
    ensures base + BytesEvents(data[..n + 1], acks, first) ==
            base + BytesEvents(data[..n], acks, first) + ByteEvents(data[n], Acks(acks, first + n))
  {
    assert data[..n + 1][..n] == data[..n];
  }
}
