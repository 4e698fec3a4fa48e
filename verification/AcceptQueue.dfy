/** The accept queue of a listening TCP socket: a circular buffer of connections that is filled by one
    callback, emptied by `accept()` and thinned out by the error callback of connections not yet
    accepted. */
module AcceptQueue {
  import opened Arithmetic
  import opened Basics

  /** A connection, by the address of its control block. */
  type Pcb = nat

  datatype Err = Ok | Buf

  function Next(i: int, alloc: int): int {
    if i + 1 >= alloc then 0 else i + 1
  }

  /** The queue fields of a socket; with `alloc` zero there is a single slot. */
  datatype Ring = Ring(alloc: nat, slots: seq<Option<Pcb>>, iget: nat, iput: nat) {
    function Capacity(): nat {
      if alloc == 0 then 1 else alloc
    }

    predicate Valid() {
      iget < Capacity() && iput < Capacity() <= |slots|
    }

    /** An arrival would be refused. */
    predicate Full()
      requires Valid()
    {
      slots[iput] != None
    }
  }

  // ---------- the three operations ----------

  function Put(r: Ring, p: Pcb): (r': Ring)
    requires r.Valid()
    ensures r'.Valid() && r'.alloc == r.alloc
  {
    if r.Full() then r else r.(slots := r.slots[r.iput := Some(p)], iput := Next(r.iput, r.alloc))
  }

  /** Takes what is in the slot `chosen`, if anything. */
  function Take(r: Ring, chosen: nat): (r': Ring)
    requires r.Valid() && chosen < r.Capacity()
    ensures r'.Valid() && r'.alloc == r.alloc
  {
    if r.slots[chosen] == None then r else r.(slots := r.slots[chosen := None], iget := Next(r.iget, r.alloc))
  }

  /** The number of turns that a search at slot `i` still makes: it ends on reaching `iput`, after one turn at
      least. */
  function Left(i: int, iput: int, cap: int): int {
    if i < iput then iput - i else iput - i + cap
  }

  /** The search for `p` from slot `i` on: once it has been found, each slot is copied into the one before. */
  function Search(r: Ring, p: Pcb, i: nat, shift: int): (f: (seq<Option<Pcb>>, int))
    requires r.Valid() && i < r.Capacity() && -1 <= shift < r.Capacity()
    ensures |f.0| == |r.slots| && -1 <= f.1 < r.Capacity()
    decreases Left(i, r.iput, r.Capacity())
  {
    var moved := if shift == -1 then r.slots else r.slots[shift := r.slots[i]];
    var shift' := if shift == -1 && r.slots[i] != Some(p) then -1 else i;
    var next := Next(i, r.alloc);
    if next == r.iput then (moved, shift') else Search(r.(slots := moved), p, next, shift')
  }

  lemma SearchUnfolds(r: Ring, p: Pcb, i: nat, shift: int)
    requires r.Valid() && i < r.Capacity() && -1 <= shift < r.Capacity()
    ensures var moved := if shift == -1 then r.slots else r.slots[shift := r.slots[i]];
            var shift' := if shift == -1 && r.slots[i] != Some(p) then -1 else i;
            && 0 <= Next(i, r.alloc) < r.Capacity()
            && Search(r, p, i, shift) ==
               if Next(i, r.alloc) == r.iput then (moved, shift')
               else Search(r.(slots := moved), p, Next(i, r.alloc), shift')
    ensures Next(i, r.alloc) != r.iput ==>
              i == r.iput || Left(Next(i, r.alloc), r.iput, r.Capacity()) < Left(i, r.iput, r.Capacity())
    ensures 0 < Left(i, r.iput, r.Capacity())
  {
  }

  function Drop(r: Ring, p: Pcb): (r': Ring)
    requires r.Valid()
    ensures r'.Valid() && r'.alloc == r.alloc && r'.iget == r.iget
  {
    var (s, shift) := Search(r, p, r.iget, -1);
    if shift == -1 then r.(slots := s) else r.(slots := s[shift := None], iput := shift)
  }

  class Listener {
    const alloc: nat
    const slots: array<Option<Pcb>>
    var iget: nat
    var iput: nat

    function State(): Ring
      reads this, slots
    {
      Ring(alloc, slots[..], iget, iput)
    }

    /** `listen(backlog)`. The backlog is stored in one byte; when that byte is zero although an array was
        allocated, the single-slot field is the pointer to the array and looks like a connection. */
    constructor (backlog: int, arrayAddress: Pcb)
      ensures State().Valid() && fresh(slots)
      ensures Holds(State(), []) <==> backlog <= 1 || backlog % 256 != 0
      ensures State().Capacity() == if backlog <= 1 || backlog % 256 == 0 then 1 else backlog % 256
    {
      var wanted := if backlog < 0 then 0 else backlog;
      iget, iput := 0, 0;
      if wanted <= 1 {
        alloc := 0;
        slots := new Option<Pcb>[1](_ => None);
      } else {
        alloc := wanted % 256;
        if wanted % 256 == 0 {
          slots := new Option<Pcb>[1](_ => Some(arrayAddress));
        } else {
          slots := new Option<Pcb>[wanted](_ => None);
        }
      }
      new;
      assert Slot(0, 0, State().Capacity()) == 0;
    }

    /** The accept callback. */
    method Arrive(p: Pcb, err: Err) returns (r: Err)
      requires State().Valid()
      modifies `iput, slots
      ensures r == if err.Ok? && old(State().Full()) then Buf else Ok
      ensures State() == if err.Ok? then Put(old(State()), p) else old(State())
    {
      if !err.Ok? {
        return Ok;
      }
      if slots[iput] == None {
        slots[iput] := Some(p);
        iput := Next(iput, alloc);
        return Ok;
      }
      r := Buf;
    }

    /** `accept()` looking at the slot it has chosen: the slot at `iget` when the call began. */
    method Look(chosen: nat) returns (r: Option<Pcb>)
      requires State().Valid() && chosen < State().Capacity()
      modifies `iget, slots
      ensures r == old(slots[chosen]) && State() == Take(old(State()), chosen)
    {
      r := slots[chosen];
      if r != None {
        iget := Next(iget, alloc);
        slots[chosen] := None;
      }
    }

    /** The error callback of a connection that waits in the queue. */
    method Error(p: Pcb)
      requires State().Valid()
      modifies `iput, slots
      ensures State() == Drop(old(State()), p)
    {
      hide Search, Next, Left;
      ghost var start, found := State(), Search(State(), p, iget, -1);
      var shiftDown, i, first := -1, iget, true;
      while first || i != iput
        invariant 0 <= i < start.Capacity() && -1 <= shiftDown < start.Capacity()
        invariant State() == start.(slots := slots[..])
        invariant found == if first || i != iput then Search(State(), p, i, shiftDown) else (slots[..], shiftDown)
        decreases first, if i == iput then 0 else Left(i, iput, start.Capacity())
      {
        SearchUnfolds(State(), p, i, shiftDown);
        ghost var moved := if shiftDown == -1 then slots[..] else slots[..][shiftDown := slots[i]];
        first := false;
        if shiftDown == -1 {
          if slots[i] == Some(p) {
            shiftDown := i;
          }
        } else {
          slots[shiftDown] := slots[i];
          shiftDown := i;
        }
        assert slots[..] == moved;
        i := Next(i, alloc);
      }
      if shiftDown != -1 {
        slots[shiftDown] := None;
        iput := shiftDown;
      }
    }
  }

  // ---------- the queue that a ring holds ----------

  /** Slot `i` is `k` places after `start` for exactly one `k`. */
  function Distance(start: int, i: int, cap: int): int {
    if i >= start then i - start else i - start + cap
  }

  lemma NextPlace(start: int, k: int, alloc: int, cap: int)
    requires 0 <= start < cap && 0 <= k < cap && cap == (if alloc == 0 then 1 else alloc)
    ensures Next(Slot(start, k, cap), alloc) == Slot(start, k + 1, cap)
  {
  }

  lemma PlacesAreDistinct(start: int, j: int, k: int, cap: int)
    requires 0 <= start < cap && 0 <= j < cap && 0 <= k < cap && j != k
    ensures Slot(start, j, cap) != Slot(start, k, cap)
  {
  }

  ghost predicate Distinct(q: seq<Pcb>) {
    forall i, j :: 0 <= i < j < |q| ==> q[i] != q[j]
  }

  function Without(q: seq<Pcb>, p: Pcb): seq<Pcb> {
    if q == [] then [] else if q[0] == p then q[1..] else [q[0]] + Without(q[1..], p)
  }

  lemma {:induction false} WithoutAt(q: seq<Pcb>, j: int)
    requires Distinct(q) && 0 <= j < |q|
    ensures Without(q, q[j]) == q[..j] + q[j + 1..]
  {
    if j > 0 {
      assert q[1..][j - 1] == q[j];
      WithoutAt(q[1..], j - 1);
      assert [q[0]] + (q[1..][..j - 1] + q[1..][j..]) == q[..j] + q[j + 1..];
    }
  }

  lemma {:induction false} WithoutAbsent(q: seq<Pcb>, p: Pcb)
    requires p !in q
    ensures Without(q, p) == q
  {
    if q != [] {
      WithoutAbsent(q[1..], p);
    }
  }

  /** The ring holds the queue `q`: its occupied slots are the cyclic interval from `iget` to `iput`, oldest
      connection first, and all the others are free. */
  ghost predicate Holds(r: Ring, q: seq<Pcb>) {
    var cap := r.Capacity();
    && r.Valid() && |q| <= cap
    && r.iput == Slot(r.iget, if |q| == cap then 0 else |q|, cap)
    && (forall k :: 0 <= k < |q| ==> r.slots[Slot(r.iget, k, cap)] == Some(q[k]))
    && (forall k :: |q| <= k < cap ==> r.slots[Slot(r.iget, k, cap)] == None)
  }

  /** An arrival joins the end of the queue, and is refused exactly when the queue is full. */
  lemma PutAppends(r: Ring, q: seq<Pcb>, p: Pcb)
    requires Holds(r, q)
    ensures r.Full() <==> |q| == r.Capacity()
    ensures Holds(Put(r, p), if |q| == r.Capacity() then q else q + [p])
  {
    var cap, n := r.Capacity(), |q|;
    assert Slot(r.iget, 0, cap) == r.iget;
    if n < cap {
      NextPlace(r.iget, n, r.alloc, cap);
      forall k | 0 <= k < cap && k != n
        ensures Slot(r.iget, k, cap) != r.iput
      {
        PlacesAreDistinct(r.iget, k, n, cap);
      }
    }
  }

  lemma ChosenIsQueued(r: Ring, q: seq<Pcb>, chosen: nat) returns (k: int)
    requires Holds(r, q) && chosen < r.Capacity()
    ensures 0 <= k < r.Capacity() && chosen == Slot(r.iget, k, r.Capacity())
    ensures k == 0 <==> chosen == r.iget
    ensures r.slots[chosen] == if k < |q| then Some(q[k]) else None
  {
    k := Distance(r.iget, chosen, r.Capacity());
    assert chosen == Slot(r.iget, k, r.Capacity());
  }

  /** A take from the slot at `iget` finds nothing exactly when the queue is empty, and is the oldest connection
      otherwise. */
  lemma TakeIsFirst(r: Ring, q: seq<Pcb>)
    requires Holds(r, q)
    ensures r.slots[r.iget] == if q == [] then None else Some(q[0])
    ensures Holds(Take(r, r.iget), if q == [] then q else q[1..])
    ensures q != [] ==> Take(r, r.iget).iget == Slot(r.iget, 1, r.Capacity())
  {
    var k := ChosenIsQueued(r, q, r.iget);
    if q != [] {
      NextPlace(r.iget, 0, r.alloc, r.Capacity());
      TakeKeepsOrder(r, q, Take(r, r.iget));
    }
  }

  lemma TakeKeepsOrder(r: Ring, q: seq<Pcb>, t: Ring)
    requires Holds(r, q) && q != []
    requires t == r.(slots := r.slots[r.iget := None], iget := Slot(r.iget, 1, r.Capacity()))
    ensures Holds(t, q[1..])
  {
    var cap := r.Capacity();
    forall k | 0 <= k < cap
      ensures t.slots[Slot(t.iget, k, cap)] == if k < |q| - 1 then Some(q[k + 1]) else None
    {
      if k < cap - 1 {
        assert Slot(t.iget, k, cap) == Slot(r.iget, k + 1, cap);
        PlacesAreDistinct(r.iget, 0, k + 1, cap);
      } else {
        assert Slot(t.iget, k, cap) == r.iget;
      }
    }
  }

  /** A take from any other occupied slot leaves the oldest connection behind `iget`: the ring holds no queue at
      all any more. */
  lemma TakeBreaksOrder(r: Ring, q: seq<Pcb>, chosen: nat)
    requires Holds(r, q) && chosen < r.Capacity() && chosen != r.iget && r.slots[chosen] != None
    ensures !exists q' :: Holds(Take(r, chosen), q')
  {
    var cap, t := r.Capacity(), Take(r, chosen);
    var k := ChosenIsQueued(r, q, chosen);
    NextPlace(r.iget, 0, r.alloc, cap);
    forall q'
      ensures !Holds(t, q')
    {
      PlacesAreDistinct(r.iget, 0, k, cap);
      assert t.slots[r.iget] == Some(q[0]);
      assert Slot(t.iget, cap - 1, cap) == r.iget && Slot(t.iget, k - 1, cap) == chosen;
    }
  }

  // ---------- the search of the error callback ----------

  /** How many turns the search makes: once around when the ring is full or empty. */
  function Turns(q: seq<Pcb>, cap: int): int {
    if q == [] then cap else |q|
  }

  /** After `k` turns: `p` is not among the first `k` connections and nothing has moved, or it was found at
      `j` and those behind it have moved down by one place. */
  ghost predicate Shifted(r: Ring, t: seq<Option<Pcb>>, q: seq<Pcb>, p: Pcb, k: int, j: int, shift: int) {
    var cap := r.Capacity();
    && r.Valid() && |t| == |r.slots|
    && if shift == -1 then t == r.slots && j == -1 && (forall m :: 0 <= m < k && m < |q| ==> q[m] != p)
       else
         && 0 <= j < k <= |q| <= cap && q[j] == p && shift == Slot(r.iget, k - 1, cap)
         && forall m :: 0 <= m < cap ==>
              t[Slot(r.iget, m, cap)] == r.slots[Slot(r.iget, if j <= m < k - 1 then m + 1 else m, cap)]
  }

  lemma ShiftOne(r: Ring, t: seq<Option<Pcb>>, q: seq<Pcb>, p: Pcb, k: int, j: int, shift: int)
    requires Shifted(r, t, q, p, k, j, shift) && shift != -1 && k < |q|
    ensures Shifted(r, t[shift := t[Slot(r.iget, k, r.Capacity())]], q, p, k + 1, j, Slot(r.iget, k, r.Capacity()))
  {
    var cap := r.Capacity();
    var t' := t[shift := t[Slot(r.iget, k, cap)]];
    forall m | 0 <= m < cap
      ensures t'[Slot(r.iget, m, cap)] == r.slots[Slot(r.iget, if j <= m < k then m + 1 else m, cap)]
    {
      if m != k - 1 {
        PlacesAreDistinct(r.iget, m, k - 1, cap);
      }
    }
  }

  /** Where the search is after one more turn. */
  lemma SearchTurn(r: Ring, q: seq<Pcb>, k: int)
    requires Holds(r, q) && 0 <= k < Turns(q, r.Capacity())
    ensures var cap := r.Capacity(); var i := Slot(r.iget, k, cap);
            && 0 <= i < cap && Next(i, r.alloc) == Slot(r.iget, k + 1, cap) && 0 <= Next(i, r.alloc) < cap
            && (Next(i, r.alloc) == r.iput <==> k + 1 == Turns(q, cap))
            && (k < |q| ==> r.slots[i] == Some(q[k])) && (k >= |q| ==> q == [] && r.slots[i] == None)
  {
    NextPlace(r.iget, k, r.alloc, r.Capacity());
  }

  lemma {:induction false} SearchShifts(r: Ring, t: Ring, q: seq<Pcb>, p: Pcb, k: int, j: int, shift: int)
    returns (j': int)
    requires Holds(r, q) && t == r.(slots := t.slots) && Shifted(r, t.slots, q, p, k, j, shift)
    requires 0 <= k < Turns(q, r.Capacity()) && -1 <= shift < r.Capacity()
    ensures var i := Slot(r.iget, k, r.Capacity());
            && 0 <= i < r.Capacity()
            && var f := Search(t, p, i, shift);
            Shifted(r, f.0, q, p, Turns(q, r.Capacity()), j', f.1)
    decreases Turns(q, r.Capacity()) - k
  {
    hide Holds, Slot;
    var cap := r.Capacity();
    var i := Slot(r.iget, k, cap);
    SearchTurn(r, q, k);
    var moved := if shift == -1 then t.slots else t.slots[shift := t.slots[i]];
    var shift' := if shift == -1 && t.slots[i] != Some(p) then -1 else i;
    j' := if shift == -1 && shift' != -1 then k else j;
    OneTurnShifts(r, t.slots, q, p, k, j, shift);
    if Next(i, r.alloc) != r.iput {
      j' := SearchShifts(r, t.(slots := moved), q, p, k + 1, j', shift');
    }
  }

  lemma OneTurnShifts(r: Ring, t: seq<Option<Pcb>>, q: seq<Pcb>, p: Pcb, k: int, j: int, shift: int)
    requires Holds(r, q) && Shifted(r, t, q, p, k, j, shift) && 0 <= k < Turns(q, r.Capacity())
    ensures var i := Slot(r.iget, k, r.Capacity());
            && 0 <= i < |t| && -1 <= shift < |t|
            && var moved := if shift == -1 then t else t[shift := t[i]];
            var shift' := if shift == -1 && t[i] != Some(p) then -1 else i;
            Shifted(r, moved, q, p, k + 1, if shift == -1 && shift' != -1 then k else j, shift')
  {
    SearchTurn(r, q, k);
    if shift != -1 {
      ShiftOne(r, t, q, p, k, j, shift);
    }
  }

  /** The error callback removes exactly the failed connection, wherever it waits, and keeps the others in order:
      also when the queue is full, is empty or has a single slot. */
  lemma DropRemoves(r: Ring, q: seq<Pcb>, p: Pcb)
    requires Holds(r, q) && Distinct(q)
    ensures Holds(Drop(r, p), Without(q, p)) && Distinct(Without(q, p))
  {
    hide Without, Shifted;
    var cap := r.Capacity();
    assert Slot(r.iget, 0, cap) == r.iget;
    SearchStarts(r, q, p);
    var j := SearchShifts(r, r, q, p, 0, -1, -1);
    var f := Search(r, p, r.iget, -1);
    SearchFinds(r, f.0, q, p, Turns(q, cap), j, f.1);
    if f.1 == -1 {
      WithoutAbsent(q, p);
    } else {
      WithoutAt(q, j);
      DistinctButOne(q, j);
      GapIsClosed(r, f.0, q, p, j, f.1);
    }
  }

  lemma SearchStarts(r: Ring, q: seq<Pcb>, p: Pcb)
    requires Holds(r, q)
    ensures 0 < Turns(q, r.Capacity()) && Shifted(r, r.slots, q, p, 0, -1, -1)
  {
  }

  lemma SearchFinds(r: Ring, t: seq<Option<Pcb>>, q: seq<Pcb>, p: Pcb, k: int, j: int, shift: int)
    requires Shifted(r, t, q, p, k, j, shift)
    ensures if shift == -1 then t == r.slots && (k >= |q| ==> p !in q) else 0 <= j < k <= |q| && q[j] == p
  {
    hide Slot;
  }

  lemma DistinctButOne(q: seq<Pcb>, j: int)
    requires Distinct(q) && 0 <= j < |q|
    ensures Distinct(q[..j] + q[j + 1..])
  {
  }

  lemma GapSlot(r: Ring, t: seq<Option<Pcb>>, q: seq<Pcb>, p: Pcb, j: int, shift: int, m: int)
    requires Holds(r, q) && shift != -1 && q != [] && Shifted(r, t, q, p, |q|, j, shift) && 0 <= m < r.Capacity()
    ensures 0 <= shift < r.Capacity() <= |t| && 0 <= Slot(r.iget, m, r.Capacity()) < r.Capacity()
    ensures t[shift := None][Slot(r.iget, m, r.Capacity())] ==
            if m >= |q| - 1 then None else if m < j then Some(q[m]) else Some(q[m + 1])
  {
    if m != |q| - 1 {
      PlacesAreDistinct(r.iget, m, |q| - 1, r.Capacity());
    }
  }

  lemma GapIsClosed(r: Ring, t: seq<Option<Pcb>>, q: seq<Pcb>, p: Pcb, j: int, shift: int)
    requires Holds(r, q) && shift != -1 && q != [] && Shifted(r, t, q, p, |q|, j, shift)
    ensures 0 <= shift < |t| && Holds(r.(slots := t[shift := None], iput := shift), q[..j] + q[j + 1..])
  {
    GapSlot(r, t, q, p, j, shift, 0);
    hide Slot;
    var w, t' := q[..j] + q[j + 1..], t[shift := None];
    forall m | 0 <= m < r.Capacity()
      ensures t'[Slot(r.iget, m, r.Capacity())] == if m < |w| then Some(w[m]) else None
    {
      GapSlot(r, t, q, p, j, shift, m);
    }
  }
}
