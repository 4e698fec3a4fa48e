/** The receive side of a connected TCP socket: a chain of packet buffers, of which the first may have
    been read in part. */
module TcpReceive {
  import opened Basics

  /** The bytes of the chain, without the `offset` bytes of the first buffer that were read before. */
  function UnreadOf(chain: seq<Bytes>, offset: nat): Bytes
    requires chain == [] || offset <= |chain[0]|
  {
    if chain == [] then [] else chain[0][offset..] + Concat(chain[1..])
  }

  lemma AppendChain(chain: seq<Bytes>, offset: nat, p: seq<Bytes>)
    requires chain != [] && offset <= |chain[0]|
    ensures (chain + p)[0] == chain[0]
    ensures UnreadOf(chain + p, offset) == UnreadOf(chain, offset) + Concat(p)
  {
    assert (chain + p)[1..] == chain[1..] + p;
    ConcatAppends(chain[1..], p);
    assert chain[0][offset..] + (Concat(chain[1..]) + Concat(p)) == chain[0][offset..] + Concat(chain[1..]) + Concat(p);
  }

  lemma WholeChain(chain: seq<Bytes>)
    ensures UnreadOf(chain, 0) == Concat(chain)
  {
    if chain != [] {
      assert chain[0][0..] == chain[0];
    }
  }

  /** Taking `n` bytes from the first buffer: they are the front of the unread bytes, and the rest is what
      remains, whether the buffer is used up or not. */
  lemma TakeFront(chain: seq<Bytes>, offset: nat, n: nat)
    requires chain != [] && offset + n <= |chain[0]|
    ensures var bytes := chain[0][offset..offset + n];
            && UnreadOf(chain, offset) == bytes + UnreadOf(chain, offset + n)
            && (offset + n == |chain[0]| ==> UnreadOf(chain, offset + n) == UnreadOf(chain[1..], 0))
  {
    var p, rest := chain[0], Concat(chain[1..]);
    var bytes := p[offset..offset + n];
    assert p[offset..] == bytes + p[offset + n..];
    assert bytes + p[offset + n..] + rest == bytes + (p[offset + n..] + rest);
    if offset + n == |p| {
      WholeChain(chain[1..]);
      assert p[offset + n..] + rest == rest;
    }
  }

  datatype State = New | Listening | Connecting | Connected | PeerClosed

  datatype Received = Data(bytes: Bytes) | Eof | Again | TimedOut | NotConnected

  /** What each poll of a waiting call brings: nothing, or a packet; the empty packet is the end of the stream. A call
      times out after the last of them. */
  type Polls = seq<Option<seq<Bytes>>>

  datatype Wait = NonBlocking | Blocking(polls: Polls)

  /** The first packet that the polls bring. */
  function Brought(polls: Polls): Option<seq<Bytes>> {
    if polls == [] then None else if polls[0].Some? then polls[0] else Brought(polls[1..])
  }

  function PollBytes(polls: Polls): Bytes {
    match Brought(polls) case None => [] case Some(p) => Concat(p)
  }

  lemma {:induction false} NothingBrought(polls: Polls, k: nat)
    requires k <= |polls| && forall i :: 0 <= i < k ==> polls[i] == None
    ensures Brought(polls) == if k == |polls| then None else Brought(polls[k..])
  {
    if k > 0 {
      NothingBrought(polls[1..], k - 1);
      assert k < |polls| ==> polls[1..][k - 1..] == polls[k..];
    }
  }

  class TcpSocket {
    var chain: seq<Bytes>
    var recvOffset: nat
    var state: State
    /** What `tcp_recved` has been told in total. */
    var recved: nat
    ghost var arrived: Bytes
    ghost var consumed: Bytes

    /** The bytes that have arrived and have not been read. */
    ghost function Unread(): Bytes
      requires chain == [] || recvOffset <= |chain[0]|
      reads this
    {
      UnreadOf(chain, recvOffset)
    }

    ghost predicate Valid()
      reads this
    {
      && (chain == [] ==> recvOffset == 0)
      && (chain != [] ==> recvOffset == 0 || recvOffset < |chain[0]|)
      && arrived == consumed + Unread()
      && recved == |consumed|
    }

    constructor (initial: State)
      ensures Valid() && state == initial && arrived == [] && consumed == [] && Unread() == []
    {
      chain, recvOffset, state, recved := [], 0, initial, 0;
      arrived, consumed := [], [];
    }

    /** `_lwip_tcp_recv`: a packet, itself a chain of buffers, or the end of the stream. */
    method Deliver(p: seq<Bytes>)
      requires Valid()
      modifies this
      ensures Valid()
      ensures state == if p == [] then PeerClosed else old(state)
      ensures Unread() == old(Unread()) + Concat(p) && arrived == old(arrived) + Concat(p)
      ensures chain == old(chain) + p && recvOffset == old(recvOffset)
      ensures consumed == old(consumed) && recved == old(recved)
    {
      hide UnreadOf;
      if |p| == 0 {
        state := PeerClosed;
        return;
      }
      hide Concat;
      ghost var before := Unread();
      if chain == [] {
        NothingUnread();
        WholeChain(p);
        chain := p;
      } else {
        AppendChain(chain, recvOffset, p);
        chain := chain + p;
      }
      assert consumed + (before + Concat(p)) == consumed + before + Concat(p);
      arrived := arrived + Concat(p);
    }

    /** The waiting loop: polls until there is a buffer, the connection ends or the time is over. */
    method Await(polls: Polls)
      requires Valid() && chain == []
      modifies this
      ensures Valid() && consumed == old(consumed) && recved == old(recved) && recvOffset == 0
      ensures var b := if old(state) == Connected then Brought(polls) else None;
              && chain == (if b.Some? then b.value else [])
              && state == (if b == Some([]) then PeerClosed else old(state))
              && arrived == old(arrived) + (if b.Some? then Concat(b.value) else [])
    {
      hide Concat, UnreadOf, Brought;
      var used := 0;
      assert arrived + [] == arrived;
      while state == Connected && chain == [] && used < |polls|
        invariant Valid() && consumed == old(consumed) && recved == old(recved) && recvOffset == 0
        invariant used <= |polls| && (old(state) != Connected ==> state == old(state))
        invariant old(state) != Connected ==> used == 0 && chain == [] && arrived == old(arrived)
        invariant old(state) == Connected && state == Connected && chain == [] ==>
                    arrived == old(arrived) && forall i :: 0 <= i < used ==> polls[i] == None
        invariant old(state) == Connected && !(state == Connected && chain == []) ==>
                    var b := Brought(polls);
                    && b.Some? && chain == b.value && state == (if b.value == [] then PeerClosed else Connected)
                    && arrived == old(arrived) + Concat(b.value)
        decreases |polls| - used
      {
        if polls[used].Some? {
          NothingBrought(polls, used);
          FoundHere(polls[used..]);
          Deliver(polls[used].value);
        }
        used := used + 1;
      }
      if old(state) == Connected && state == Connected && chain == [] {
        NothingBrought(polls, |polls|);
      }
    }

    /** What is left once there is a buffer: the front of it, as far as it fits. */
    method TakeBytes(len: nat, peek: bool) returns (bytes: Bytes)
      requires Valid() && chain != []
      modifies this
      ensures Valid() && state == old(state) && arrived == old(arrived)
      ensures var ready := |old(chain)[0]| - old(recvOffset); |bytes| == if len < ready then len else ready
      ensures if peek then bytes <= Unread() && Unread() == old(Unread()) && consumed == old(consumed)
              else old(Unread()) == bytes + Unread() && consumed == old(consumed) + bytes
    {
      hide Concat, UnreadOf;
      var p := chain[0];
      var remaining := |p| - recvOffset;
      var n := if len > remaining then remaining else len;
      bytes := p[recvOffset..recvOffset + n];
      TakeFront(chain, recvOffset, n);
      if !peek {
        remaining := remaining - n;
        if remaining == 0 {
          chain := chain[1..];
          recvOffset := 0;
        } else {
          recvOffset := recvOffset + n;
        }
        recved := recved + n;
        Associate(consumed, bytes, Unread());
        consumed := consumed + bytes;
      }
    }

    /** What a call finds to read: the chain, or what it brings in by waiting. */
    ghost function Ready(wait: Wait): seq<Bytes>
      reads this
    {
      if chain == [] && state == Connected && wait.Blocking? && Brought(wait.polls).Some? then Brought(wait.polls).value
      else chain
    }

    /** `lwip_tcp_receive`, waiting included. Reading takes the next bytes of the stream from the first buffer, peeking
        takes nothing; data is never refused while there is some, and what is returned is as much of the front buffer
        as fits. */
    method Receive(len: nat, peek: bool, wait: Wait) returns (r: Received)
      requires Valid()
      modifies this
      ensures Valid()
      ensures r.Data? <==> old(state) != Listening && old(Ready(wait)) != []
      ensures r.Data? ==>
                var front := |old(Ready(wait))[0]| - old(recvOffset);
                |r.bytes| == if len < front then len else front
      ensures old(chain) != [] ==> arrived == old(arrived)
      ensures old(chain) == [] ==> arrived == old(arrived) + Concat(old(Ready(wait)))
      ensures r.Data? && !peek ==>
                UnreadOf(old(Ready(wait)), old(recvOffset)) == r.bytes + Unread() && consumed == old(consumed) + r.bytes
      ensures r.Data? && peek ==> Unread() == UnreadOf(old(Ready(wait)), old(recvOffset)) && r.bytes <= Unread()
      ensures !r.Data? ==> Unread() == old(Unread())
      ensures !r.Data? || peek ==> consumed == old(consumed)
      ensures !r.Data? ==>
                r == if old(state) == Listening then NotConnected
                     else if wait == NonBlocking then (if old(state) == PeerClosed then Eof else Again)
                     else if old(state) == New || old(state) == Connecting then NotConnected
                     else if old(state) == PeerClosed || Brought(wait.polls) == Some([]) then Eof else TimedOut
    {
      hide Concat, UnreadOf, Brought;
      NothingUnread();
      if state == Listening {
        NothingThere(arrived);
        return NotConnected;
      }
      if chain == [] {
        NothingThere(arrived);
        if wait == NonBlocking {
          return if state == PeerClosed then Eof else Again;
        }
        Await(wait.polls);
        if state == PeerClosed {
          if chain == [] {
            return Eof;
          }
        } else if state != Connected {
          return NotConnected;
        } else if chain == [] {
          return TimedOut;
        }
      }
      var bytes := TakeBytes(len, peek);
      r := Data(bytes);
    }
  }

  lemma NothingThere(s: Bytes)
    ensures Concat([]) == [] && s + Concat([]) == s
  {
  }

  lemma FoundHere(polls: Polls)
    requires polls != [] && polls[0].Some?
    ensures Brought(polls) == polls[0]
  {
  }

  lemma Associate(a: Bytes, b: Bytes, c: Bytes)
    ensures a + (b + c) == a + b + c
  {
  }

  lemma NothingUnread()
    ensures UnreadOf([], 0) == []
  {
  }

  datatype Event = Packet(p: seq<Bytes>) | Read(len: nat, peek: bool, wait: Wait)

  /** What arrives during one event. */
  ghost predicate Brings(e: Event, got: Bytes) {
    match e
    case Packet(p) => got == Concat(p)
    case Read(_, _, NonBlocking) => got == []
    case Read(_, _, Blocking(polls)) => got == [] || got == PollBytes(polls)
  }

  /** Any interleaving of packets and reads, peeking or not, waiting or not: what consuming reads returned, followed by
      what is still unread, is everything that the events brought, and the window was reopened by exactly what was
      read. */
  method Run(initial: State, events: seq<Event>) returns (out: Bytes, s: TcpSocket, ghost got: seq<Bytes>)
    ensures s.Valid()
    ensures |got| == |events| && forall i :: 0 <= i < |events| ==> Brings(events[i], got[i])
    ensures out + s.Unread() == Concat(got) && s.recved == |out|
  {
    hide UnreadOf, Concat, PollBytes;
    s := new TcpSocket(initial);
    out, got := [], [];
    NothingThere([]);
    for i := 0 to |events|
      invariant fresh(s) && s.Valid() && out == s.consumed && s.arrived == Concat(got)
      invariant |got| == i && forall k :: 0 <= k < i ==> Brings(events[k], got[k])
    {
      ghost var before, bytes: Bytes := s.arrived, [];
      match events[i] {
        case Packet(p) =>
          s.Deliver(p);
          bytes := Concat(p);
        case Read(len, peek, wait) =>
          NothingThere(before);
          ghost var ready := s.Ready(wait);
          ghost var idle := s.chain == [];
          var r := s.Receive(len, peek, wait);
          bytes := if idle then Concat(ready) else [];
          if wait.Blocking? {
            BroughtByPolls(wait.polls);
          }
          if r.Data? && !peek {
            out := out + r.bytes;
          }
      }
      assert before + [] == before;
      ConcatOneMore(got, bytes);
      got := got + [bytes];
    }
  }

  lemma BroughtByPolls(polls: Polls)
    ensures Brought(polls).Some? ==> Concat(Brought(polls).value) == PollBytes(polls)
  {
  }
}
