/** WebSocket frames (sections 5.2 and 5.3 of RFC 6455): what a byte stream carries, as a function. */
module WebSocketFrames {
  import opened Arithmetic
  import opened Basics

  const CLOSE: bv8 := 8

  predicate Final(b0: bv8) { b0 & 0x80 != 0 }
  function Opcode(b0: bv8): bv8 { b0 & 0x0f }
  predicate IsControl(b0: bv8) { Opcode(b0) >= CLOSE }
  function ShortLength(b1: bv8): nat { ValueOf(b1 & 0x7f) }
  predicate IsMasked(b1: bv8) { b1 & 0x80 != 0 }

  /** How many bytes stand between the two header bytes and the payload. */
  function OptSize(b1: bv8): nat {
    (if ShortLength(b1) == 126 then 2 else 0) + if IsMasked(b1) then 4 else 0
  }

  const NO_MASK: Bytes := [0, 0, 0, 0]

  function Unmask(s: Bytes, mask: Bytes, pos: nat): (r: Bytes)
    requires |mask| == 4
    ensures |r| == |s|
  {
    seq(|s|, i requires 0 <= i < |s| => s[i] ^ mask[(pos + i) % 4])
  }

  /** Payload bytes, each with the first header byte of its frame. */
  type Typed = seq<(bv8, bv8)>

  function Tagged(flags: bv8, s: Bytes): (r: Typed)
    ensures |r| == |s|
  {
    seq(|s|, i requires 0 <= i < |s| => (flags, s[i]))
  }

  lemma TaggedJoins(flags: bv8, a: Bytes, b: Bytes)
    ensures Tagged(flags, a + b) == Tagged(flags, a) + Tagged(flags, b)
  {
  }

  lemma TopBit(b: bv8)
    ensures b & 0x80 != 0 <==> ValueOf(b) >= 128
    ensures ValueOf(b & 0x7f) == ValueOf(b) % 128
  {
  }

  lemma LowNibble(b: bv8)
    ensures ValueOf(b & 0x0f) == ValueOf(b) % 16
  {
  }

  lemma NotBelowEight(b: bv8)
    ensures b >= 8 <==> ValueOf(b) >= 8
  {
  }

  /** The fields of the two header bytes, by number. */
  lemma HeaderFields(b: bv8)
    ensures Final(b) <==> ValueOf(b) >= 128
    ensures IsMasked(b) <==> ValueOf(b) >= 128
    ensures ValueOf(Opcode(b)) == ValueOf(b) % 16
    ensures IsControl(b) <==> ValueOf(b) % 16 >= 8
    ensures ShortLength(b) == ValueOf(b) % 128
  {
    TopBit(b);
    LowNibble(b);
    NotBelowEight(Opcode(b));
    hide ValueOf;
  }

  /** Where a reader stands: before a header, before the optional part of one, or in a payload of
      which `size` bytes are to come. */
  datatype Phase =
    | AtHeader
    | AtOpt(flags: bv8, short: nat, need: nat)
    | AtBody(flags: bv8, size: nat, mask: Bytes, pos: nat)

  predicate ValidPhase(ph: Phase) {
    match ph
    case AtHeader => true
    case AtOpt(_, short, need) => need == 2 || need == 4 || need == 6
    case AtBody(_, _, mask, _) => |mask| == 4
  }

  function AfterHeader(b0: bv8, b1: bv8): Phase {
    if OptSize(b1) == 0 then AtBody(b0, ShortLength(b1), NO_MASK, 0)
    else AtOpt(b0, ShortLength(b1), OptSize(b1))
  }

  function TwoBytes(hi: bv8, lo: bv8): nat { ValueOf(hi) * 256 + ValueOf(lo) }

  function AfterOpt(flags: bv8, short: nat, opt: Bytes): Phase
    requires |opt| == 2 || |opt| == 4 || |opt| == 6
  {
    var size := if |opt| % 4 == 2 then TwoBytes(opt[0], opt[1]) else short;
    AtBody(flags, size, if |opt| >= 4 then opt[|opt| - 4..] else NO_MASK, 0)
  }

  function Rank(ph: Phase): nat {
    match ph case AtBody(_, _, _, _) => 1 case AtOpt(_, _, _) => 0 case AtHeader => 0
  }

  /** The payload that a stream carries from a phase on, as far as it goes; `None` when the stream is
      outside what the reader accepts: a fragment, a length in eight bytes, or a control frame with a
      payload. */
  function Carried(ph: Phase, s: Bytes): Option<Typed>
    requires ValidPhase(ph)
    decreases |s|, Rank(ph)
  {
    match ph
    case AtHeader =>
      if |s| < 2 then Some([])
      else if !Final(s[0]) || ShortLength(s[1]) == 127 then None
      else Carried(AfterHeader(s[0], s[1]), s[2..])
    case AtOpt(flags, short, need) =>
      if |s| < need then Some([]) else Carried(AfterOpt(flags, short, s[..need]), s[need..])
    case AtBody(flags, size, mask, pos) =>
      if IsControl(flags) && size != 0 then None
      else if |s| < size then Some(Tagged(flags, Unmask(s, mask, pos)))
      else
        Prefixed(Tagged(flags, Unmask(s[..size], mask, pos)),
                 if size == 0 then Carried(AtHeader, s) else Carried(AtHeader, s[size..]))
  }

  function Prefixed(a: Typed, o: Option<Typed>): Option<Typed> {
    if o.None? then None else Some(a + o.value)
  }

  // ---------- frames as a sender makes them ----------

  /** One unfragmented frame; `long` is the two-byte length, required from 126 bytes on. */
  datatype Frame = Frame(flags: bv8, long: bool, mask: Option<Bytes>, payload: Bytes) {
    ghost predicate Valid() {
      && Final(flags) && |payload| < 0x10000
      && (!long ==> |payload| < 126)
      && (mask.Some? ==> |mask.value| == 4)
      && (IsControl(flags) ==> payload == [])
    }
  }

  /** The length field and the mask flag. */
  function SecondByte(f: Frame): bv8
    requires f.Valid()
  {
    (if f.long then 126 else ByteOf(|f.payload|)) | if f.mask.Some? then 0x80 else 0
  }

  function OptBytes(f: Frame): Bytes
    requires f.Valid()
  {
    (if f.long then [ByteOf(|f.payload| / 256), ByteOf(|f.payload| % 256)] else []) +
    if f.mask.Some? then f.mask.value else []
  }

  function MaskOf(f: Frame): (m: Bytes)
    requires f.Valid()
    ensures |m| == 4
  {
    if f.mask.Some? then f.mask.value else NO_MASK
  }

  function Encode(f: Frame): Bytes
    requires f.Valid()
  {
    [f.flags, SecondByte(f)] + (OptBytes(f) + Unmask(f.payload, MaskOf(f), 0))
  }

  ghost predicate AllValid(fs: seq<Frame>) {
    forall i :: 0 <= i < |fs| ==> fs[i].Valid()
  }

  function EncodeAll(fs: seq<Frame>): Bytes
    requires AllValid(fs)
  {
    if fs == [] then [] else Encode(fs[0]) + EncodeAll(fs[1..])
  }

  function Payloads(fs: seq<Frame>): Typed {
    if fs == [] then [] else Tagged(fs[0].flags, fs[0].payload) + Payloads(fs[1..])
  }

  lemma SmallByte(n: nat)
    requires n < 127
    ensures ByteOf(n) < 127
  {
    hide ByteOf;
  }

  lemma HeaderBits(b: bv8)
    requires b < 127
    ensures (b | 0x80) & 0x7f == b && b & 0x7f == b && (b | 0x80) & 0x80 != 0 && b & 0x80 == 0
    ensures b | 0 == b
  {
  }

  lemma SecondByteReadsBack(f: Frame)
    requires f.Valid()
    ensures ShortLength(SecondByte(f)) == if f.long then 126 else |f.payload|
    ensures IsMasked(SecondByte(f)) == f.mask.Some?
    ensures OptSize(SecondByte(f)) == |OptBytes(f)|
  {
    hide ByteOf;
    var b: bv8 := if f.long then 126 else ByteOf(|f.payload|);
    if !f.long {
      SmallByte(|f.payload|);
    }
    HeaderBits(b);
  }

  /** The frame on the wire, byte by byte. */
  lemma WireFormat(f: Frame)
    requires f.Valid()
    ensures var e, n := Encode(f), |f.payload|;
            var o := 2 + (if f.long then 2 else 0) + (if f.mask.Some? then 4 else 0);
            && |e| == o + n && e[0] == f.flags
            && ValueOf(e[1]) == (if f.mask.Some? then 128 else 0) + (if f.long then 126 else n)
            && (f.long ==> 256 * ValueOf(e[2]) + ValueOf(e[3]) == n)
            && (f.mask.Some? ==> e[o - 4..o] == f.mask.value)
            && forall i :: 0 <= i < n ==>
                 e[o + i] == f.payload[i] ^ (if f.mask.Some? then f.mask.value[i % 4] else 0)
  {
    hide Encode, ValueOf;
    WireHead(f);
    forall i | 0 <= i < |f.payload|
      ensures Encode(f)[OptEnd(f) + i] == f.payload[i] ^ (if f.mask.Some? then f.mask.value[i % 4] else 0)
    {
      WireBody(f, i);
    }
  }

  /** Where the options end and the payload begins. */
  function OptEnd(f: Frame): nat {
    2 + (if f.long then 2 else 0) + (if f.mask.Some? then 4 else 0)
  }

  lemma WireHead(f: Frame)
    requires f.Valid()
    ensures var e, o := Encode(f), OptEnd(f);
            && |e| == o + |f.payload| && e[0] == f.flags
            && ValueOf(e[1]) == (if f.mask.Some? then 128 else 0) + (if f.long then 126 else |f.payload|)
            && (f.long ==> 256 * ValueOf(e[2]) + ValueOf(e[3]) == |f.payload|)
            && (f.mask.Some? ==> e[o - 4..o] == f.mask.value)
  {
    hide ByteOf, ValueOf, SecondByte, Unmask, MaskOf, OptBytes;
    SecondByteIs(f);
    OptLayout(f);
    var e, opt := Encode(f), OptBytes(f);
    var o := OptEnd(f);
    assert e[2..o] == opt;
    if f.mask.Some? {
      assert e[o - 4..o] == opt[|opt| - 4..];
    }
    if f.long {
      assert e[2] == opt[0] && e[3] == opt[1];
    }
  }

  lemma WireBody(f: Frame, i: nat)
    requires f.Valid() && i < |f.payload|
    ensures |Encode(f)| == OptEnd(f) + |f.payload|
    ensures Encode(f)[OptEnd(f) + i] == f.payload[i] ^ (if f.mask.Some? then f.mask.value[i % 4] else 0)
  {
    hide Encode, Unmask, MaskOf;
    BodyFollows(f);
    BodyAt(f, i);
  }

  lemma BodyFollows(f: Frame)
    requires f.Valid()
    ensures |Encode(f)| == OptEnd(f) + |f.payload| && Encode(f)[OptEnd(f)..] == Unmask(f.payload, MaskOf(f), 0)
  {
    hide ByteOf, ValueOf, SecondByte, Unmask, MaskOf, OptBytes;
    OptLayout(f);
  }

  lemma OptLayout(f: Frame)
    requires f.Valid()
    ensures |OptBytes(f)| == (if f.long then 2 else 0) + (if f.mask.Some? then 4 else 0)
    ensures f.long ==> 256 * ValueOf(OptBytes(f)[0]) + ValueOf(OptBytes(f)[1]) == |f.payload|
    ensures f.mask.Some? ==> OptBytes(f)[|OptBytes(f)| - 4..] == f.mask.value
  {
    hide ByteOf, ValueOf;
  }

  lemma BodyAt(f: Frame, i: nat)
    requires f.Valid() && i < |f.payload|
    ensures Unmask(f.payload, MaskOf(f), 0)[i] == f.payload[i] ^ (if f.mask.Some? then f.mask.value[i % 4] else 0)
  {
    assert NO_MASK[i % 4] == 0;
  }

  lemma SecondByteIs(f: Frame)
    requires f.Valid()
    ensures ValueOf(SecondByte(f)) == (if f.mask.Some? then 128 else 0) + (if f.long then 126 else |f.payload|)
  {
    hide ByteOf;
    var b: bv8 := if f.long then 126 else ByteOf(|f.payload|);
    if !f.long {
      SmallByte(|f.payload|);
    }
    MaskBit(b);
  }

  lemma MaskBit(b: bv8)
    requires b < 127
    ensures ValueOf(b | 0x80) == 128 + ValueOf(b) && ValueOf(b | 0) == ValueOf(b)
  {
  }

  // ---------- a well-made stream carries its payloads ----------

  lemma UnmaskTwice(s: Bytes, mask: Bytes, pos: nat)
    requires |mask| == 4
    ensures Unmask(Unmask(s, mask, pos), mask, pos) == s
  {
    forall i | 0 <= i < |s|
      ensures Unmask(Unmask(s, mask, pos), mask, pos)[i] == s[i]
    {
      XorTwice(s[i], mask[(pos + i) % 4]);
    }
  }

  lemma OptReadsBack(f: Frame)
    requires f.Valid() && OptBytes(f) != []
    ensures |OptBytes(f)| == 2 || |OptBytes(f)| == 4 || |OptBytes(f)| == 6
    ensures AfterOpt(f.flags, ShortLength(SecondByte(f)), OptBytes(f)) == AtBody(f.flags, |f.payload|, MaskOf(f), 0)
  {
    hide ByteOf, SecondByte, ShortLength;
    SecondByteReadsBack(f);
    var opt := OptBytes(f);
    if f.mask.Some? {
      assert opt[|opt| - 4..] == f.mask.value;
    }
  }

  lemma BodyCarries(f: Frame, rest: Bytes)
    requires f.Valid()
    ensures Carried(AtBody(f.flags, |f.payload|, MaskOf(f), 0), Unmask(f.payload, MaskOf(f), 0) + rest) ==
            Prefixed(Tagged(f.flags, f.payload), Carried(AtHeader, rest))
  {
    hide IsControl, MaskOf;
    var body := Unmask(f.payload, MaskOf(f), 0);
    var s := body + rest;
    assert s[..|f.payload|] == body && s[|f.payload|..] == rest;
    UnmaskTwice(f.payload, MaskOf(f), 0);
    if f.payload == [] {
      assert s == rest;
    }
  }

  /** One frame in front of a stream puts its payload in front of what the stream carries. */
  lemma FrameCarries(f: Frame, rest: Bytes)
    requires f.Valid()
    ensures Carried(AtHeader, Encode(f) + rest) == Prefixed(Tagged(f.flags, f.payload), Carried(AtHeader, rest))
  {
    hide Unmask, SecondByte, OptBytes, ShortLength, IsMasked, Final, AfterOpt, MaskOf;
    var opt, body := OptBytes(f), Unmask(f.payload, MaskOf(f), 0) + rest;
    HeaderCarries(f, rest);
    BodyCarries(f, rest);
    if opt == [] {
      NoOptions(f);
      SecondByteReadsBack(f);
      assert opt + body == body;
    } else {
      OptReadsBack(f);
      assert (opt + body)[..|opt|] == opt && (opt + body)[|opt|..] == body;
    }
  }

  lemma HeaderCarries(f: Frame, rest: Bytes)
    requires f.Valid()
    ensures OptSize(SecondByte(f)) == |OptBytes(f)|
    ensures Carried(AtHeader, Encode(f) + rest) ==
            Carried(AfterHeader(f.flags, SecondByte(f)), OptBytes(f) + (Unmask(f.payload, MaskOf(f), 0) + rest))
  {
    hide Unmask, SecondByte, OptBytes, ShortLength, AfterHeader, MaskOf, OptSize;
    var s := Encode(f) + rest;
    SecondByteReadsBack(f);
    assert s[0] == f.flags && s[1] == SecondByte(f);
    assert s[2..] == OptBytes(f) + (Unmask(f.payload, MaskOf(f), 0) + rest);
  }

  lemma NoOptions(f: Frame)
    requires f.Valid() && OptBytes(f) == []
    ensures !f.long && MaskOf(f) == NO_MASK
  {
    hide ByteOf;
  }

  /** A stream of valid frames, masked or not, carries exactly the payloads one after another. */
  lemma {:induction false} StreamCarriesPayloads(fs: seq<Frame>)
    requires AllValid(fs)
    ensures Carried(AtHeader, EncodeAll(fs)) == Some(Payloads(fs))
  {
    hide Encode, Carried;
    if fs == [] {
      EmptyStream();
    } else {
      StreamCarriesPayloads(fs[1..]);
      FrameCarries(fs[0], EncodeAll(fs[1..]));
    }
  }

  lemma EmptyStream()
    ensures Carried(AtHeader, []) == Some([])
  {
  }
}

/** `websocket_read` and `websocket_write`: the resumable reader and the frame writer. */
module WebSockets {
  import opened Arithmetic
  import opened Basics
  import opened WebSocketFrames

  /** The transport. A read may give any number of the bytes still to come, or none at all: every
      chunking, and every pattern of calls that would block, is one of its behaviours. */
  class Wire {
    var pending: Bytes
    var sent: Bytes
    /** The last read gave less than it was asked for. */
    ghost var short: bool

    constructor (incoming: Bytes)
      ensures pending == incoming && sent == []
    {
      pending, sent := incoming, [];
    }

    method Read(n: nat) returns (got: Bytes)
      modifies `pending, `short
      ensures |got| <= n && old(pending) == got + pending && short == (|got| < n)
    {
      var k :| 0 <= k <= n && k <= |pending|;
      got := pending[..k];
      pending := pending[k..];
      short := k < n;
    }

    method Write(s: Bytes)
      modifies `sent
      ensures sent == old(sent) + s
    {
      sent := sent + s;
    }
  }

  datatype State = FrameHeader | FrameOpt | Payload | Control

  datatype ReadResult = Data(bytes: Bytes) | NoData | Closed

  datatype Turn = Continue | Return(result: ReadResult)

  class WebSocket {
    const sock: Wire
    var msgSz: nat
    var mask: Bytes
    var state: State
    var toRecv: nat
    var maskPos: nat
    var bufPos: nat
    var buf: Bytes
    var opts: bv8
    var wsFlags: bv8
    var lastFlags: bv8

    constructor (s: Wire, o: bv8)
      ensures Valid() && AtRest() && sock == s && opts == o
      ensures PhaseNow() == AtHeader && Stream() == s.pending
    {
      sock := s;
      state, toRecv, maskPos, bufPos := FrameHeader, 2, 0, 0;
      opts := o;
      buf, mask, msgSz, wsFlags, lastFlags := [0, 0, 0, 0, 0, 0], NO_MASK, 0, 0, 0;
    }

    ghost predicate Valid()
      reads this
    {
      && |buf| == 6 && |mask| == 4 && maskPos < 256
      && match state
         case FrameHeader => bufPos + toRecv == 2 && maskPos == 0
         case FrameOpt =>
           (bufPos + toRecv == 2 || bufPos + toRecv == 4 || bufPos + toRecv == 6) && maskPos == 0 && mask == NO_MASK
         case Payload => toRecv == 0 && bufPos == 0 && !IsControl(lastFlags)
         case Control => toRecv == 0 && bufPos == 0 && IsControl(lastFlags)
    }

    ghost function PhaseNow(): (ph: Phase)
      requires Valid()
      reads this
      ensures ValidPhase(ph)
    {
      match state
      case FrameHeader => AtHeader
      case FrameOpt => AtOpt(lastFlags, msgSz, bufPos + toRecv)
      case _ => AtBody(lastFlags, msgSz, mask, maskPos)
    }

    /** The header bytes already taken from the transport, and everything still to come. */
    ghost function Stream(): Bytes
      requires Valid()
      reads this, sock
    {
      buf[..bufPos] + sock.pending
    }

    /** The payload bytes that are still to be returned; `None` outside what the reader accepts. */
    ghost function ToCome(): Option<Typed>
      requires Valid()
      reads this, sock
    {
      Carried(PhaseNow(), Stream())
    }

    /** Between two calls a header that is being read is not complete. */
    ghost predicate AtRest()
      reads this
    {
      state == FrameHeader || state == FrameOpt ==> 0 < toRecv
    }

    /** Takes header bytes from the transport, as many as it gives. */
    method FillHeader() returns (complete: bool)
      requires Valid() && toRecv != 0
      modifies `buf, `bufPos, `toRecv, sock`pending, sock`short
      ensures Valid() && PhaseNow() == old(PhaseNow()) && Stream() == old(Stream())
      ensures complete <==> toRecv == 0
      ensures !complete ==> sock.short
    {
      ghost var before := Stream();
      var out := sock.Read(toRecv);
      if |out| == 0 {
        assert sock.pending == old(sock.pending);
        return false;
      }
      buf := buf[..bufPos] + out + buf[bufPos + |out|..];
      bufPos := bufPos + |out|;
      toRecv := toRecv - |out|;
      assert buf[..bufPos] == old(buf[..bufPos]) + out;
      complete := toRecv == 0;
    }

    /** The two header bytes are complete. */
    method ParseHeader()
      requires Valid() && state == FrameHeader && toRecv == 0 && ToCome().Some?
      modifies this
      ensures Valid() && state != FrameHeader
      ensures ToCome() == old(ToCome()) && |Stream()| < |old(Stream())|
    {
      hide Carried, ShortLength, IsMasked, IsControl, Final;
      ghost var phase := AfterHeader(buf[0], buf[1]);
      HeaderIsRead(buf[..bufPos], sock.pending);
      var frameType := buf[0];
      var sz, need := ShortLength(buf[1]), 0;
      if sz == 126 {
        need := need + 2;
      }
      if IsMasked(buf[1]) {
        need := need + 4;
      }
      wsFlags := if Opcode(frameType) == 0 then (wsFlags & 0x0f) | (frameType & 0xf0) else frameType;
      lastFlags, mask, bufPos, toRecv, msgSz := frameType, NO_MASK, 0, need, sz;
      state := if need != 0 then FrameOpt else if IsControl(frameType) then Control else Payload;
      assert PhaseNow() == phase;
      assert Stream() == sock.pending;
    }

    /** The length and the mask in the optional part of the header. */
    method OptParts() returns (size: nat, key: Bytes)
      requires Valid() && state == FrameOpt && toRecv == 0
      ensures |key| == 4 && AfterOpt(lastFlags, msgSz, buf[..bufPos]) == AtBody(lastFlags, size, key, 0)
    {
      hide TwoBytes, AfterOpt;
      OptFields(lastFlags, msgSz, buf, bufPos);
      size, key := msgSz, mask;
      if bufPos % 4 == 2 {
        size := TwoBytes(buf[0], buf[1]);
      }
      if bufPos >= 4 {
        key := buf[bufPos - 4..bufPos];
      }
    }

    /** The length and the mask are complete. */
    method ParseOpt()
      requires Valid() && state == FrameOpt && toRecv == 0 && ToCome().Some?
      modifies this
      ensures Valid() && (state == Payload || state == Control)
      ensures ToCome() == old(ToCome()) && |Stream()| < |old(Stream())|
    {
      hide Carried, IsControl, AfterOpt;
      OptIsRead(lastFlags, msgSz, buf[..bufPos], sock.pending);
      var size, key := OptParts();
      msgSz, mask, bufPos := size, key, 0;
      state := if IsControl(lastFlags) then Control else Payload;
      assert Stream() == sock.pending;
    }

    /** `p[i] ^= mask[mask_pos++ & 3]`, with the one-byte counter. */
    method UnmaskBytes(out: Bytes) returns (plain: Bytes)
      requires |mask| == 4 && maskPos < 256
      modifies `maskPos
      ensures plain == Unmask(out, mask, old(maskPos))
      ensures maskPos == (old(maskPos) + |out|) % 256
    {
      hide Unmask;
      plain := [];
      ghost var start := maskPos;
      UnmaskNothing(mask, start);
      assert out[..0] == [];
      for i := 0 to |out|
        invariant maskPos == (start + i) % 256 && plain == Unmask(out[..i], mask, start)
      {
        CounterWraps(start + i, 0);
        CounterSteps(start + i);
        UnmaskOneMore(out, mask, start, i);
        plain := plain + [out[i] ^ mask[maskPos % 4]];
        maskPos := (maskPos + 1) % 256;
      }
      assert out[..|out|] == out;
    }

    /** The end of a frame: back to the header, and the answer to a control frame. */
    method FinishFrame() returns (closed: bool)
      requires Valid() && (state == Payload || state == Control) && msgSz == 0
      modifies this, sock`sent
      ensures Valid() && AtRest() && PhaseNow() == AtHeader && Stream() == sock.pending && state == FrameHeader
      ensures closed <==> old(state) == Control && Opcode(lastFlags) == CLOSE
      ensures lastFlags == old(lastFlags)
      ensures sock.sent == if closed then old(sock.sent) + [0x88, 0] else old(sock.sent)
    {
      hide IsControl, Opcode;
      var lastState := state;
      state, toRecv, maskPos, bufPos := FrameHeader, 2, 0, 0;
      closed := false;
      if lastState == Control && Opcode(lastFlags) == CLOSE {
        sock.Write([0x88, 0]);
        closed := true;
      }
    }

    /** Payload bytes, as many as fit in `size` and as the transport gives. */
    method TakeBody(size: nat) returns (turn: Turn)
      requires Valid() && (state == Payload || state == Control) && 0 < size && ToCome().Some?
      modifies this, sock
      ensures Valid()
      ensures AtRest()
      ensures turn.Continue? ==> state == FrameHeader && |Stream()| == |old(Stream())|
      ensures Delivers(turn, lastFlags, old(ToCome()), ToCome(), size)
      ensures turn == Return(NoData) ==> sock.short
      ensures sock.sent == if turn == Return(Closed) then old(sock.sent) + [0x88, 0] else old(sock.sent)
    {
      hide Carried, Unmask;
      assert Stream() == sock.pending;
      BodyIsRead(lastFlags, msgSz, mask, maskPos, sock.pending);
      if msgSz == 0 {
        var closed := FinishFrame();
        return if closed then Return(Closed) else Continue;
      }
      var sz := if size < msgSz then size else msgSz;
      var out := sock.Read(sz);
      if |out| == 0 {
        assert sock.pending == old(sock.pending);
        return Return(NoData);
      }
      PartIsRead(lastFlags, msgSz, mask, maskPos, out, sock.pending);
      var plain := UnmaskBytes(out);
      msgSz := msgSz - |out|;
      if msgSz == 0 {
        var closed := FinishFrame();
      }
      assert buf[..bufPos] + sock.pending == sock.pending;
      turn := Return(Data(plain));
    }

    /** One call of the reader. Whatever it returns has been taken from the front of what was to come;
        a call that returns nothing loses nothing, and it does so only because the transport gave less than
        asked or because of a close frame, which alone is answered. */
    method Read(size: nat) returns (r: ReadResult)
      requires Valid() && 0 < size && ToCome().Some?
      modifies this, sock
      ensures Valid() && AtRest() && ToCome().Some?
      ensures Delivers(Return(r), lastFlags, old(ToCome()), ToCome(), size)
      ensures r.NoData? ==> sock.short
      ensures sock.sent == if r.Closed? then old(sock.sent) + [0x88, 0] else old(sock.sent)
    {
      hide Carried;
      ghost var start := ToCome();
      while true
        invariant Valid() && ToCome() == start && sock.sent == old(sock.sent)
        decreases |Stream()|, if state == Payload || state == Control then 1 else 0
      {
        if toRecv != 0 {
          var complete := FillHeader();
          if !complete {
            return NoData;
          }
        }
        match state
        case FrameHeader => ParseHeader();
        case FrameOpt => ParseOpt();
        case _ =>
          var turn := TakeBody(size);
          if turn.Return? {
            return turn.result;
          }
      }
    }

    /** Sends one unmasked frame with the type set in `opts`. */
    method WriteFrame(payload: Bytes)
      requires |payload| < 0x10000 && !IsControl(opts)
      modifies sock`sent
      ensures WrittenFrame(opts, payload).Valid()
      ensures sock.sent == old(sock.sent) + Encode(WrittenFrame(opts, payload))
      ensures |sock.sent| > |old(sock.sent)| && ValueOf(sock.sent[|old(sock.sent)|]) == 128 + ValueOf(opts) % 16
    {
      TypeIsWritten(opts, payload);
      hide ByteOf, Encode, IsControl, FlagByte;
      var size := |payload|;
      var header: Bytes;
      if size < 126 {
        header := [FlagByte(opts), ByteOf(size)];
      } else {
        header := [FlagByte(opts), 126, ByteOf(size / 256), ByteOf(size % 256)];
      }
      sock.Write(header);
      sock.Write(payload);
      WriterEncodes(opts, payload, header);
      assert old(sock.sent) + header + payload == old(sock.sent) + (header + payload);
    }
  }

  lemma HeaderIsRead(h: Bytes, rest: Bytes)
    requires |h| == 2 && Carried(AtHeader, h + rest).Some?
    ensures Final(h[0]) && ShortLength(h[1]) != 127
    ensures Carried(AtHeader, h + rest) == Carried(AfterHeader(h[0], h[1]), rest)
  {
    hide Final, ShortLength, AfterHeader;
    assert (h + rest)[2..] == rest;
  }

  lemma OptFields(flags: bv8, short: nat, buf: Bytes, n: nat)
    requires n <= |buf| && (n == 2 || n == 4 || n == 6)
    ensures AfterOpt(flags, short, buf[..n]) ==
            AtBody(flags, if n % 4 == 2 then TwoBytes(buf[0], buf[1]) else short,
                   if n >= 4 then buf[n - 4..n] else NO_MASK, 0)
  {
    assert n >= 4 ==> buf[..n][n - 4..] == buf[n - 4..n];
  }

  lemma OptIsRead(flags: bv8, short: nat, opt: Bytes, rest: Bytes)
    requires |opt| == 2 || |opt| == 4 || |opt| == 6
    ensures Carried(AtOpt(flags, short, |opt|), opt + rest) == Carried(AfterOpt(flags, short, opt), rest)
  {
    hide AfterOpt;
    assert (opt + rest)[..|opt|] == opt && (opt + rest)[|opt|..] == rest;
  }

  /** What one turn does to the payload to come: bytes are returned while `flags` is the first header byte of the very
      frame they came in. */
  ghost predicate Delivers(turn: Turn, flags: bv8, before: Option<Typed>, after: Option<Typed>, size: nat) {
    if turn.Return? && turn.result.Data? then
      0 < |turn.result.bytes| <= size && before == Prefixed(Tagged(flags, turn.result.bytes), after)
    else
      before == after
  }

  lemma BodyIsRead(flags: bv8, size: nat, mask: Bytes, pos: nat, s: Bytes)
    requires |mask| == 4 && Carried(AtBody(flags, size, mask, pos), s).Some?
    ensures IsControl(flags) ==> size == 0
    ensures size == 0 ==> Carried(AtBody(flags, size, mask, pos), s) == Carried(AtHeader, s)
  {
    hide Unmask;
    if size == 0 && Carried(AtHeader, s).Some? {
      assert Unmask(s[..0], mask, pos) == [] by { UnmaskNothing(mask, pos); }
      assert s[..0] == [] && Tagged(flags, []) == [];
      assert [] + Carried(AtHeader, s).value == Carried(AtHeader, s).value;
    }
  }

  lemma UnmaskNothing(mask: Bytes, pos: nat)
    requires |mask| == 4
    ensures Unmask([], mask, pos) == []
  {
  }

  lemma UnmaskOneMore(s: Bytes, mask: Bytes, pos: nat, i: nat)
    requires |mask| == 4 && i < |s|
    ensures Unmask(s[..i + 1], mask, pos) == Unmask(s[..i], mask, pos) + [s[i] ^ mask[(pos + i) % 4]]
  {
  }

  lemma UnmaskSplit(a: Bytes, b: Bytes, mask: Bytes, pos: nat)
    requires |mask| == 4
    ensures Unmask(a + b, mask, pos) == Unmask(a, mask, pos) + Unmask(b, mask, (pos + |a|) % 256)
  {
    forall i | 0 <= i < |a + b|
      ensures Unmask(a + b, mask, pos)[i] == (Unmask(a, mask, pos) + Unmask(b, mask, (pos + |a|) % 256))[i]
    {
      if i >= |a| {
        CounterWraps(pos + |a|, i - |a|);
      }
    }
  }

  lemma CounterSteps(n: nat)
    ensures (n % 256 + 1) % 256 == (n + 1) % 256
  {
  }

  lemma CounterWraps(n: nat, i: nat)
    ensures (n % 256 + i) % 4 == (n + i) % 4
  {
    assert n == n / 256 * 256 + n % 256;
    assert n + i == (n % 256 + i) + 4 * (n / 256 * 64);
  }

  /** Taking part of a payload: the taken part comes first, the rest of the frame is still to come. */
  lemma PartIsRead(flags: bv8, size: nat, mask: Bytes, pos: nat, out: Bytes, rest: Bytes)
    requires |mask| == 4 && !IsControl(flags) && 0 < |out| <= size
    ensures Carried(AtBody(flags, size, mask, pos), out + rest) ==
            Prefixed(Tagged(flags, Unmask(out, mask, pos)),
                     if |out| == size then Carried(AtHeader, rest)
                     else Carried(AtBody(flags, size - |out|, mask, (pos + |out|) % 256), rest))
  {
    hide Unmask, IsControl, Carried, Prefixed, Tagged;
    var s, k, pos' := out + rest, |out|, (pos + |out|) % 256;
    BodyUnfolds(flags, size, mask, pos, s);
    BodyUnfolds(flags, size - k, mask, pos', rest);
    if |s| < size {
      UnmaskSplit(out, rest, mask, pos);
      TaggedJoins(flags, Unmask(out, mask, pos), Unmask(rest, mask, pos'));
      PrefixedSome(Tagged(flags, Unmask(out, mask, pos)), Tagged(flags, Unmask(rest, mask, pos')));
    } else if k == size {
      assert s[..size] == out && s[size..] == rest;
    } else {
      var more := rest[..size - k];
      assert s[..size] == out + more && s[size..] == rest[size - k..];
      UnmaskSplit(out, more, mask, pos);
      TaggedJoins(flags, Unmask(out, mask, pos), Unmask(more, mask, pos'));
      PrefixedTwice(Tagged(flags, Unmask(out, mask, pos)), Tagged(flags, Unmask(more, mask, pos')),
                    Carried(AtHeader, rest[size - k..]));
    }
  }

  lemma BodyUnfolds(flags: bv8, size: nat, mask: Bytes, pos: nat, s: Bytes)
    requires |mask| == 4 && !IsControl(flags)
    ensures Carried(AtBody(flags, size, mask, pos), s) ==
            if |s| < size then Some(Tagged(flags, Unmask(s, mask, pos)))
            else Prefixed(Tagged(flags, Unmask(s[..size], mask, pos)), Carried(AtHeader, s[size..]))
  {
    hide Unmask, IsControl, Tagged;
    assert size == 0 ==> s[size..] == s;
  }

  lemma PrefixedSome(a: Typed, b: Typed)
    ensures Prefixed(a, Some(b)) == Some(a + b)
  {
  }

  lemma PrefixedTwice(a: Typed, b: Typed, o: Option<Typed>)
    ensures Prefixed(a + b, o) == Prefixed(a, Prefixed(b, o))
  {
    if o.Some? {
      assert a + b + o.value == a + (b + o.value);
    }
  }

  function FlagByte(opts: bv8): bv8 { 0x80 | (opts & 0x0f) }

  /** The final flag, no reserved bits, and the type. */
  lemma FlagByteIs(opts: bv8)
    ensures ValueOf(FlagByte(opts)) == 128 + ValueOf(opts) % 16
  {
  }

  lemma TypeIsWritten(opts: bv8, payload: Bytes)
    ensures ValueOf(WrittenFrame(opts, payload).flags) == 128 + ValueOf(opts) % 16
    ensures var f := WrittenFrame(opts, payload);
            f.Valid() ==> |Encode(f)| > 0 && Encode(f)[0] == f.flags
  {
    hide SecondByte, OptBytes, Unmask, MaskOf;
    FlagByteIs(opts);
  }

  function WrittenFrame(opts: bv8, payload: Bytes): Frame {
    Frame(FlagByte(opts), |payload| >= 126, None, payload)
  }

  lemma WriterHeader(opts: bv8, payload: Bytes)
    requires |payload| < 0x10000 && !IsControl(opts)
    ensures var f := WrittenFrame(opts, payload);
            f.Valid() && SecondByte(f) == if |payload| < 126 then ByteOf(|payload|) else 126
  {
    hide ByteOf, Final, IsControl, FlagByte;
    WriterFlags(opts);
    if |payload| < 126 {
      SmallByte(|payload|);
      HeaderBits(ByteOf(|payload|));
    }
  }

  lemma WriterOptions(opts: bv8, payload: Bytes)
    requires WrittenFrame(opts, payload).Valid()
    ensures OptBytes(WrittenFrame(opts, payload)) ==
            if |payload| < 126 then [] else [ByteOf(|payload| / 256), ByteOf(|payload| % 256)]
    ensures MaskOf(WrittenFrame(opts, payload)) == NO_MASK
  {
    hide ByteOf, Final, IsControl, FlagByte;
  }

  lemma JoinPieces(a: bv8, b: bv8, opt: Bytes, payload: Bytes, header: Bytes)
    requires header == [a, b] + opt
    ensures [a, b] + (opt + payload) == header + payload
  {
  }

  /** The writer's two pieces are the encoding of one frame. */
  lemma WriterEncodes(opts: bv8, payload: Bytes, header: Bytes)
    requires |payload| < 0x10000 && !IsControl(opts)
    requires header == [FlagByte(opts), if |payload| < 126 then ByteOf(|payload|) else 126] +
                       if |payload| < 126 then [] else [ByteOf(|payload| / 256), ByteOf(|payload| % 256)]
    ensures WrittenFrame(opts, payload).Valid()
    ensures Encode(WrittenFrame(opts, payload)) == header + payload
  {
    hide *;
    var f := WrittenFrame(opts, payload);
    WriterHeader(opts, payload);
    WriterOptions(opts, payload);
    UnmaskedIsPlain(payload);
    EncodeParts(f);
    WrittenParts(opts, payload);
    JoinPieces(f.flags, SecondByte(f), OptBytes(f), payload, header);
  }

  lemma EncodeParts(f: Frame)
    requires f.Valid()
    ensures Encode(f) == [f.flags, SecondByte(f)] + (OptBytes(f) + Unmask(f.payload, MaskOf(f), 0))
  {
  }

  lemma WrittenParts(opts: bv8, payload: Bytes)
    ensures WrittenFrame(opts, payload).flags == FlagByte(opts) && WrittenFrame(opts, payload).payload == payload
  {
  }

  lemma WriterFlags(opts: bv8)
    requires !IsControl(opts)
    ensures Final(FlagByte(opts)) && !IsControl(FlagByte(opts))
  {
  }

  lemma UnmaskedIsPlain(s: Bytes)
    ensures Unmask(s, NO_MASK, 0) == s
  {
    forall i | 0 <= i < |s|
      ensures Unmask(s, NO_MASK, 0)[i] == s[i]
    {
      assert NO_MASK[(0 + i) % 4] == 0;
      XorZero(s[i]);
    }
  }

  lemma XorZero(b: bv8)
    ensures b ^ 0 == b
  {
  }

  /** An exhausted transport between two calls: nothing is left to come. */
  lemma NothingIsLeft(ph: Phase, s: Bytes)
    requires ValidPhase(ph) && Carried(ph, s).Some?
    requires match ph case AtHeader => |s| < 2 case AtOpt(_, _, need) => |s| < need case AtBody(_, _, _, _) => s == []
    ensures Carried(ph, s) == Some([])
  {
    EmptyStream();
    if ph.AtBody? {
      UnmaskNothing(ph.mask, ph.pos);
      if ph.size == 0 {
        BodyIsRead(ph.flags, 0, ph.mask, ph.pos, s);
      }
    }
  }

  /** A whole session: frames on the wire, any sequence of positive read sizes, any chunking. What has been
      returned, each byte with the flags the reader held at its return, is always the front of the payloads with the
      flags of their frames, and all of them as soon as the transport is exhausted. */
  method Session(incoming: Bytes, ghost fs: seq<Frame>, sizes: seq<nat>) returns (out: Typed, exhausted: bool)
    requires AllValid(fs) && incoming == EncodeAll(fs) && forall i :: 0 <= i < |sizes| ==> 0 < sizes[i]
    ensures out <= Payloads(fs)
    ensures exhausted ==> out == Payloads(fs)
  {
    hide Carried, EncodeAll;
    StreamCarriesPayloads(fs);
    var wire := new Wire(incoming);
    var ws := new WebSocket(wire, 1);
    out := [];
    ghost var left := Payloads(fs);
    for i := 0 to |sizes|
      invariant ws.Valid() && ws.AtRest() && fresh(ws) && fresh(ws.sock) && ws.ToCome() == Some(left)
      invariant out + left == Payloads(fs)
    {
      var r := ws.Read(sizes[i]);
      if r.Data? {
        ghost var rest := ws.ToCome().value;
        var typed := Tagged(ws.lastFlags, r.bytes);
        assert out + (typed + rest) == out + typed + rest;
        out := out + typed;
        left := rest;
      }
    }
    exhausted := ws.sock.pending == [];
    if exhausted {
      NothingIsLeft(ws.PhaseNow(), ws.Stream());
      assert out + [] == out;
    }
  }

  lemma {:induction false} OneMoreFrame(fs: seq<Frame>, f: Frame)
    requires AllValid(fs) && f.Valid()
    ensures AllValid(fs + [f]) && EncodeAll(fs + [f]) == EncodeAll(fs) + Encode(f)
    ensures Payloads(fs + [f]) == Payloads(fs) + Tagged(f.flags, f.payload)
  {
    hide Encode, Tagged;
    if fs != [] {
      OneMoreFrame(fs[1..], f);
      assert (fs + [f])[1..] == fs[1..] + [f];
    }
  }

  /** The reader inverts the writer: messages written one after another, and what was sent then read in any
      pieces. */
  method Loopback(opts: bv8, msgs: seq<Bytes>, sizes: seq<nat>) returns (out: Typed, exhausted: bool)
    requires !IsControl(opts) && forall i :: 0 <= i < |msgs| ==> |msgs[i]| < 0x10000
    requires forall i :: 0 <= i < |sizes| ==> 0 < sizes[i]
    ensures out <= Tagged(FlagByte(opts), Concat(msgs))
    ensures exhausted ==> out == Tagged(FlagByte(opts), Concat(msgs))
    ensures forall i :: 0 <= i < |out| ==> ValueOf(out[i].0) == 128 + ValueOf(opts) % 16
  {
    FlagByteIs(opts);
    hide EncodeAll, Payloads, IsControl, Encode, FlagByte, WrittenFrame, Concat;
    var wire := new Wire([]);
    var writer := new WebSocket(wire, opts);
    ghost var fs: seq<Frame> := [];
    NoFrames();
    NoMessages(FlagByte(opts), msgs);
    for i := 0 to |msgs|
      invariant fresh(writer) && fresh(wire) && writer.sock == wire && writer.opts == opts
      invariant AllValid(fs) && wire.sent == EncodeAll(fs)
      invariant Payloads(fs) == Tagged(FlagByte(opts), Concat(msgs[..i]))
    {
      writer.WriteFrame(msgs[i]);
      OneMoreFrame(fs, WrittenFrame(opts, msgs[i]));
      WrittenParts(opts, msgs[i]);
      fs := fs + [WrittenFrame(opts, msgs[i])];
      assert msgs[..i + 1] == msgs[..i] + [msgs[i]];
      ConcatOneMore(msgs[..i], msgs[i]);
      TaggedJoins(FlagByte(opts), Concat(msgs[..i]), msgs[i]);
    }
    assert msgs[..|msgs|] == msgs;
    out, exhausted := Session(wire.sent, fs, sizes);
  }

  lemma NoFrames()
    ensures EncodeAll([]) == [] && Payloads([]) == []
  {
  }

  lemma NoMessages(flags: bv8, msgs: seq<Bytes>)
    ensures Tagged(flags, Concat(msgs[..0])) == []
  {
  }
}
