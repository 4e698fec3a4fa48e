/** Whole runs of the accept queue: any interleaving of arrivals, failures and any number of `accept()` calls,
    each of which may wait. */
module AcceptRuns {
  import opened Arithmetic
  import opened Basics
  import opened AcceptQueue

  /** A call of `accept()` begins by looking at the slot of the moment; if that is empty it waits, looking at the
      same slot at each poll, until it finds a connection there or gives up. */
  datatype Event = Arrival(p: Pcb) | Failure(p: Pcb) | Begin(id: int) | Poll(id: int) | GiveUp(id: int)

  // ---------- what the socket does ----------

  /** The queue, the slot that each waiting call looks at, and what the calls have returned so far. */
  datatype System = System(ring: Ring, waiting: map<int, nat>, taken: seq<Pcb>) {
    predicate Valid() {
      ring.Valid() && forall id :: id in waiting ==> waiting[id] < ring.Capacity()
    }
  }

  function LookAt(s: System, id: int, chosen: nat): (s': System)
    requires s.Valid() && chosen < s.ring.Capacity()
    ensures s'.Valid() && s'.ring.alloc == s.ring.alloc
  {
    match s.ring.slots[chosen]
    case None => s.(waiting := s.waiting[id := chosen])
    case Some(p) => s.(ring := Take(s.ring, chosen), waiting := s.waiting - {id}, taken := s.taken + [p])
  }

  function Step(s: System, e: Event): (s': System)
    requires s.Valid()
    ensures s'.Valid() && s'.ring.alloc == s.ring.alloc
  {
    match e
    case Arrival(p) => s.(ring := Put(s.ring, p))
    case Failure(p) => s.(ring := Drop(s.ring, p))
    case Begin(id) => if id in s.waiting then s else LookAt(s, id, s.ring.iget)
    case Poll(id) => if id in s.waiting then LookAt(s, id, s.waiting[id]) else s
    case GiveUp(id) => s.(waiting := s.waiting - {id})
  }

  function StepAll(s: System, events: seq<Event>): (s': System)
    requires s.Valid()
    ensures s'.Valid() && s'.ring.alloc == s.ring.alloc
  {
    if events == [] then s else Step(StepAll(s, events[..|events| - 1]), events[|events| - 1])
  }

  function Idle(r: Ring): System {
    System(r, map[], [])
  }

  // ---------- what a queue should do ----------

  /** The queue, what `accept()` has returned, what was admitted and what failed while it waited; and for each
      waiting call how many connections other calls have taken since it began, modulo the capacity. */
  datatype History = History(queue: seq<Pcb>, taken: seq<Pcb>, admitted: seq<Pcb>, dropped: seq<Pcb>,
                             lag: map<int, nat>)

  function Later(n: nat, cap: nat): nat {
    if n + 1 >= cap then 0 else n + 1
  }

  /** A call takes the oldest connection, or goes on waiting when there is none. */
  function TakeFor(h: History, id: int, lag: nat, cap: nat): History {
    if h.queue == [] then h.(lag := h.lag[id := lag])
    else
      h.(queue := h.queue[1..], taken := h.taken + [h.queue[0]],
         lag := map other | other in h.lag && other != id :: Later(h.lag[other], cap))
  }

  /** A plain first-in first-out queue of at most `cap` connections. */
  function After(h: History, e: Event, cap: nat): History {
    match e
    case Arrival(p) =>
      if |h.queue| < cap then h.(queue := h.queue + [p], admitted := h.admitted + [p]) else h
    case Failure(p) =>
      if p in h.queue then h.(queue := Without(h.queue, p), dropped := h.dropped + [p]) else h
    case Begin(id) => if id in h.lag then h else TakeFor(h, id, 0, cap)
    case Poll(id) => if id in h.lag then TakeFor(h, id, h.lag[id], cap) else h
    case GiveUp(id) => h.(lag := h.lag - {id})
  }

  function AfterAll(events: seq<Event>, cap: nat): History {
    if events == [] then History([], [], [], [], map[])
    else After(AfterAll(events[..|events| - 1], cap), events[|events| - 1], cap)
  }

  /** lwIP never announces a connection that already waits in the queue. */
  ghost predicate Fresh(events: seq<Event>, cap: nat) {
    forall i :: 0 <= i < |events| && events[i].Arrival? ==> events[i].p !in AfterAll(events[..i], cap).queue
  }

  // ---------- when the socket does it ----------

  /** A poll is late when a connection waits and other calls have moved the queue on since the call began. */
  predicate Late(h: History, e: Event) {
    e.Poll? && e.id in h.lag && h.lag[e.id] != 0 && h.queue != []
  }

  ghost predicate NeverLate(events: seq<Event>, cap: nat) {
    forall i :: 0 <= i < |events| ==> !Late(AfterAll(events[..i], cap), events[i])
  }

  /** The ring holds the queue, and the slot of each waiting call lies behind `iget` by its lag. */
  ghost predicate Agrees(s: System, h: History) {
    && s.Valid() && Holds(s.ring, h.queue) && Distinct(h.queue) && s.taken == h.taken
    && s.waiting.Keys == h.lag.Keys
    && forall id :: id in h.lag ==> h.lag[id] < s.ring.Capacity() && SlotLags(s, id, h.lag[id])
  }

  ghost predicate SlotLags(s: System, id: int, lag: nat) {
    id in s.waiting && s.ring.iget == Slot(s.waiting[id], lag, s.ring.Capacity())
  }

  lemma SlotOfLag(chosen: int, lag: int, cap: int)
    requires 0 <= chosen < cap && 0 <= lag < cap
    ensures Slot(chosen, lag, cap) == chosen <==> lag == 0
    ensures Slot(Slot(chosen, lag, cap), 1, cap) == Slot(chosen, Later(lag, cap), cap) && Later(lag, cap) < cap
  {
  }

  /** A look at the current slot does what the queue should do. */
  lemma LookAgrees(s: System, h: History, id: int, lag: nat)
    requires Agrees(s, h) && lag < s.ring.Capacity() && (id in h.lag ==> h.lag[id] == lag)
    requires var chosen := if id in s.waiting then s.waiting[id] else s.ring.iget;
             s.ring.iget == Slot(chosen, lag, s.ring.Capacity()) && (lag == 0 || h.queue == [])
    ensures var chosen := if id in s.waiting then s.waiting[id] else s.ring.iget;
            && chosen < s.ring.Capacity()
            && Agrees(LookAt(s, id, chosen), TakeFor(h, id, lag, s.ring.Capacity()))
  {
    hide Holds, Distinct, Slot;
    var cap := s.ring.Capacity();
    var chosen := if id in s.waiting then s.waiting[id] else s.ring.iget;
    SlotOfLag(chosen, lag, cap);
    if h.queue == [] {
      EmptyEverywhere(s.ring, chosen);
    } else {
      TakeIsFirst(s.ring, h.queue);
      TailIsDistinct(h.queue);
      var s', h' := LookAt(s, id, chosen), TakeFor(h, id, lag, cap);
      forall other | other in h'.lag
        ensures h'.lag[other] < cap && SlotLags(s', other, h'.lag[other])
      {
        assert SlotLags(s, other, h.lag[other]);
        SlotOfLag(s.waiting[other], h.lag[other], cap);
      }
    }
  }

  lemma EmptyEverywhere(r: Ring, chosen: nat)
    requires Holds(r, []) && chosen < r.Capacity()
    ensures r.slots[chosen] == None
  {
    var k := ChosenIsQueued(r, [], chosen);
  }

  lemma TailIsDistinct(q: seq<Pcb>)
    requires Distinct(q) && q != []
    ensures Distinct(q[1..])
  {
  }

  lemma OneMoreIsDistinct(q: seq<Pcb>, p: Pcb)
    requires Distinct(q) && p !in q
    ensures Distinct(q + [p])
  {
  }

  lemma ArrivalAgrees(s: System, h: History, p: Pcb)
    requires Agrees(s, h) && p !in h.queue
    ensures Agrees(Step(s, Arrival(p)), After(h, Arrival(p), s.ring.Capacity()))
  {
    hide Holds, Distinct, Slot;
    HeldIsBounded(s.ring, h.queue);
    PutAppends(s.ring, h.queue, p);
    OneMoreIsDistinct(h.queue, p);
    var s', h' := Step(s, Arrival(p)), After(h, Arrival(p), s.ring.Capacity());
    forall id | id in h'.lag
      ensures SlotLags(s', id, h'.lag[id])
    {
      assert SlotLags(s, id, h.lag[id]);
    }
  }

  lemma HeldIsBounded(r: Ring, q: seq<Pcb>)
    requires Holds(r, q)
    ensures |q| <= r.Capacity()
  {
  }

  lemma FailureAgrees(s: System, h: History, p: Pcb)
    requires Agrees(s, h)
    ensures Agrees(Step(s, Failure(p)), After(h, Failure(p), s.ring.Capacity()))
  {
    hide Holds, Distinct, Slot, Without, Drop;
    DropRemoves(s.ring, h.queue, p);
    if p !in h.queue {
      WithoutAbsent(h.queue, p);
    }
    var s', h' := Step(s, Failure(p)), After(h, Failure(p), s.ring.Capacity());
    forall id | id in h'.lag
      ensures SlotLags(s', id, h'.lag[id])
    {
      assert SlotLags(s, id, h.lag[id]);
    }
  }

  lemma GiveUpAgrees(s: System, h: History, id: int)
    requires Agrees(s, h)
    ensures Agrees(Step(s, GiveUp(id)), After(h, GiveUp(id), s.ring.Capacity()))
  {
    hide Holds, Distinct, Slot;
    var s', h' := Step(s, GiveUp(id)), After(h, GiveUp(id), s.ring.Capacity());
    forall other | other in h'.lag
      ensures SlotLags(s', other, h'.lag[other])
    {
      assert SlotLags(s, other, h.lag[other]);
    }
  }

  /** Every event that is not a late poll does what the queue should do. */
  lemma StepAgrees(s: System, h: History, e: Event)
    requires Agrees(s, h) && (e.Arrival? ==> e.p !in h.queue) && !Late(h, e)
    ensures Agrees(Step(s, e), After(h, e, s.ring.Capacity()))
  {
    hide Holds, Distinct, LookAt, TakeFor;
    match e
    case Arrival(p) => ArrivalAgrees(s, h, p);
    case Failure(p) => FailureAgrees(s, h, p);
    case GiveUp(id) => GiveUpAgrees(s, h, id);
    case Begin(id) =>
      if id !in h.lag {
        LookAgrees(s, h, id, 0);
      }
    case Poll(id) =>
      if id in h.lag {
        assert SlotLags(s, id, h.lag[id]);
        LookAgrees(s, h, id, h.lag[id]);
      }
  }

  /** A late poll never does: it overlooks the connections that wait, or it takes another than the oldest and
      leaves a ring that holds no queue. */
  lemma LatePollDiffers(s: System, h: History, e: Event)
    requires Agrees(s, h) && Late(h, e)
    ensures Step(s, e).taken != After(h, e, s.ring.Capacity()).taken
    ensures Step(s, e).ring == s.ring || !exists q :: Holds(Step(s, e).ring, q)
  {
    hide Holds;
    var cap := s.ring.Capacity();
    assert SlotLags(s, e.id, h.lag[e.id]);
    var chosen := s.waiting[e.id];
    SlotOfLag(chosen, h.lag[e.id], cap);
    var k := ChosenIsQueued(s.ring, h.queue, chosen);
    if k < |h.queue| {
      TakeBreaksOrder(s.ring, h.queue, chosen);
      assert (s.taken + [h.queue[k]])[|s.taken|] != (h.taken + [h.queue[0]])[|h.taken|];
    }
  }

  /** The calls have returned the same connections in the same order, at every moment of the run. */
  ghost predicate Follows(r: Ring, events: seq<Event>) {
    forall i :: 0 <= i <= |events| ==> SameSoFar(r, events[..i])
  }

  ghost predicate SameSoFar(r: Ring, events: seq<Event>) {
    r.Valid() && StepAll(Idle(r), events).taken == AfterAll(events, r.Capacity()).taken
  }

  lemma {:induction false} AgreesIfNeverLate(r: Ring, events: seq<Event>)
    requires Holds(r, []) && Fresh(events, r.Capacity()) && NeverLate(events, r.Capacity())
    ensures Agrees(StepAll(Idle(r), events), AfterAll(events, r.Capacity()))
  {
    if events != [] {
      hide Holds, Agrees, Step, After;
      var init := events[..|events| - 1];
      PrefixIsFresh(events, r.Capacity(), |init|);
      PrefixIsNeverLate(events, r.Capacity(), |init|);
      AgreesIfNeverLate(r, init);
      StepAgrees(StepAll(Idle(r), init), AfterAll(init, r.Capacity()), events[|init|]);
    }
  }

  lemma PrefixIsFresh(events: seq<Event>, cap: nat, n: nat)
    requires Fresh(events, cap) && n <= |events|
    ensures Fresh(events[..n], cap)
  {
    hide AfterAll;
    assert forall i :: 0 <= i < n ==> events[..n][..i] == events[..i];
  }

  lemma PrefixIsNeverLate(events: seq<Event>, cap: nat, n: nat)
    requires NeverLate(events, cap) && n <= |events|
    ensures NeverLate(events[..n], cap)
  {
    hide AfterAll, Late;
    assert forall i :: 0 <= i < n ==> events[..n][..i] == events[..i];
  }

  lemma NeverLateGrows(events: seq<Event>, cap: nat)
    requires events != [] && NeverLate(events[..|events| - 1], cap)
    requires !Late(AfterAll(events[..|events| - 1], cap), events[|events| - 1])
    ensures NeverLate(events, cap)
  {
    hide AfterAll, Late;
    var init := events[..|events| - 1];
    assert forall i :: 0 <= i < |init| ==> init[..i] == events[..i];
  }

  lemma PrefixFollows(r: Ring, events: seq<Event>, n: nat)
    requires Follows(r, events) && n <= |events|
    ensures Follows(r, events[..n]) && SameSoFar(r, events)
  {
    hide SameSoFar;
    assert events[..|events|] == events;
    assert forall i :: 0 <= i <= n ==> events[..n][..i] == events[..i];
  }

  lemma {:induction false} NeverLateIfFollows(r: Ring, events: seq<Event>)
    requires Holds(r, []) && Fresh(events, r.Capacity()) && Follows(r, events)
    ensures NeverLate(events, r.Capacity())
  {
    if events != [] {
      hide Holds, Agrees, Step, After, Late, AfterAll, StepAll, Fresh, NeverLate, Follows, SameSoFar;
      var cap, n := r.Capacity(), |events| - 1;
      PrefixIsFresh(events, cap, n);
      PrefixFollows(r, events, n);
      NeverLateIfFollows(r, events[..n]);
      AgreesIfNeverLate(r, events[..n]);
      LastIsNotLate(r, events);
      NeverLateGrows(events, cap);
    }
  }

  lemma LastIsNotLate(r: Ring, events: seq<Event>)
    requires events != [] && SameSoFar(r, events)
    requires Agrees(StepAll(Idle(r), events[..|events| - 1]), AfterAll(events[..|events| - 1], r.Capacity()))
    ensures !Late(AfterAll(events[..|events| - 1], r.Capacity()), events[|events| - 1])
  {
    hide Agrees, Step, After, Late;
    var s, h := StepAll(Idle(r), events[..|events| - 1]), AfterAll(events[..|events| - 1], r.Capacity());
    if Late(h, events[|events| - 1]) {
      LatePollDiffers(s, h, events[|events| - 1]);
    }
  }

  /** The exact condition: a run hands out connections like a plain queue if and only if no poll is late. */
  lemma FollowsIffNeverLate(r: Ring, events: seq<Event>)
    requires Holds(r, []) && Fresh(events, r.Capacity())
    ensures Follows(r, events) <==> NeverLate(events, r.Capacity())
  {
    assert r.Valid();
    hide Holds, Agrees, SameSoFar, Fresh, NeverLate;
    if Follows(r, events) {
      NeverLateIfFollows(r, events);
    }
    if NeverLate(events, r.Capacity()) {
      forall i | 0 <= i <= |events|
        ensures SameSoFar(r, events[..i])
      {
        PrefixIsFresh(events, r.Capacity(), i);
        PrefixIsNeverLate(events, r.Capacity(), i);
        AgreesIfNeverLate(r, events[..i]);
        AgreementIsSame(r, events[..i]);
      }
    }
  }

  lemma AgreementIsSame(r: Ring, events: seq<Event>)
    requires r.Valid() && Agrees(StepAll(Idle(r), events), AfterAll(events, r.Capacity()))
    ensures SameSoFar(r, events)
  {
  }

  // ---------- conditions on the callers ----------

  /** No call begins while another waits. */
  ghost predicate NoOverlap(events: seq<Event>, cap: nat) {
    forall i :: 0 <= i < |events| && events[i].Begin? ==> AfterAll(events[..i], cap).lag == map[]
  }

  ghost predicate NobodyLags(h: History) {
    forall id :: id in h.lag ==> h.lag[id] == 0
  }

  lemma {:induction false} AloneIsNeverLate(events: seq<Event>, cap: nat)
    requires NoOverlap(events, cap)
    ensures NeverLate(events, cap) && NobodyLags(AfterAll(events, cap)) && |AfterAll(events, cap).lag| <= 1
  {
    if events != [] {
      hide Without, After, AfterAll, NeverLate;
      var init := events[..|events| - 1];
      assert forall i :: 0 <= i < |init| ==> init[..i] == events[..i];
      AloneIsNeverLate(init, cap);
      OneCallAtATime(AfterAll(init, cap), events[|init|], cap);
      OneMoreEvent(events, cap);
      NeverLateGrows(events, cap);
    }
  }

  lemma OneMoreEvent(events: seq<Event>, cap: nat)
    requires events != []
    ensures AfterAll(events, cap) == After(AfterAll(events[..|events| - 1], cap), events[|events| - 1], cap)
  {
  }

  lemma OneCallAtATime(h: History, e: Event, cap: nat)
    requires NobodyLags(h) && |h.lag| <= 1 && (e.Begin? ==> h.lag == map[])
    ensures !Late(h, e) && NobodyLags(After(h, e, cap)) && |After(h, e, cap).lag| <= 1
  {
    hide Without;
    match e
    case Arrival(_) =>
    case Failure(_) =>
    case Begin(id) => assert h.lag.Keys == {};
    case Poll(id) => OnlyCall(h.lag, id);
    case GiveUp(id) => OnlyCall(h.lag, id);
  }

  lemma OnlyCall(m: map<int, nat>, id: int)
    requires |m| <= 1
    ensures id in m ==> m.Keys == {id} && m - {id} == map[]
    ensures id !in m ==> m - {id} == m
  {
    if id in m {
      assert m.Keys == {id} + (m.Keys - {id});
      assert |m.Keys - {id}| == |m.Keys| - 1 == 0;
    }
  }

  lemma {:induction false} SingleSlotIsNeverLate(events: seq<Event>)
    ensures NeverLate(events, 1) && NobodyLags(AfterAll(events, 1))
  {
    if events != [] {
      hide Without, After, AfterAll, NeverLate;
      var init := events[..|events| - 1];
      SingleSlotIsNeverLate(init);
      OneMoreEvent(events, 1);
      NobodyLagsAtOne(AfterAll(init, 1), events[|init|]);
      NeverLateGrows(events, 1);
    }
  }

  lemma NobodyLagsAtOne(h: History, e: Event)
    requires NobodyLags(h)
    ensures !Late(h, e) && NobodyLags(After(h, e, 1))
  {
    hide Without;
  }

  /** What callers can see to: one call at a time, or a backlog of one. Then every run follows the plain queue. */
  lemma CarefulCallersFollow(r: Ring, events: seq<Event>)
    requires Holds(r, []) && Fresh(events, r.Capacity()) && (NoOverlap(events, r.Capacity()) || r.Capacity() == 1)
    ensures Follows(r, events) && Agrees(StepAll(Idle(r), events), AfterAll(events, r.Capacity()))
  {
    hide Holds, Fresh, NoOverlap, Follows, NeverLate, Agrees;
    if r.Capacity() == 1 {
      SingleSlotIsNeverLate(events);
    } else {
      AloneIsNeverLate(events, r.Capacity());
    }
    FollowsIffNeverLate(r, events);
    AgreesIfNeverLate(r, events);
  }

  lemma OneMore(events: seq<Event>, e: Event, cap: nat)
    requires Fresh(events, cap) && (e.Arrival? ==> e.p !in AfterAll(events, cap).queue)
    ensures Fresh(events + [e], cap) && AfterAll(events + [e], cap) == After(AfterAll(events, cap), e, cap)
  {
    hide AfterAll, After;
    var all := events + [e];
    assert all[..|all| - 1] == events;
    OneMoreEvent(all, cap);
    assert forall i :: 0 <= i < |events| ==> all[..i] == events[..i];
  }

  /** Two calls wait, and the first one takes a connection. */
  function Overlap(): seq<Event> {
    [] + [Begin(1)] + [Begin(2)] + [Arrival(1)] + [Poll(1)]
  }

  lemma OverlapHistory(cap: nat)
    requires 2 <= cap
    ensures Fresh(Overlap(), cap) && AfterAll(Overlap(), cap) == History([], [1], [1], [], map[2 := 1])
  {
    hide Fresh;
    NothingIsFresh(cap);
    var e1: seq<Event> := [] + [Begin(1)];
    var e2 := e1 + [Begin(2)];
    var e3 := e2 + [Arrival(1)];
    OneMore([], Begin(1), cap);
    OneMore(e1, Begin(2), cap);
    OneMore(e2, Arrival(1), cap);
    OneMore(e3, Poll(1), cap);
    var lag: map<int, nat> := map[1 := 0, 2 := 0];
    assert AfterAll(e3, cap) == History([1], [], [1], [], lag);
    assert (map other | other in lag && other != 1 :: Later(lag[other], cap)) == map[2 := 1];
  }

  lemma NothingIsFresh(cap: nat)
    ensures Fresh([], cap) && AfterAll([], cap) == History([], [], [], [], map[])
  {
  }

  /** Two overlapping calls are enough: with room for two connections or more, the second waits on although a
      connection is there. */
  lemma OverlapIsLate(cap: nat)
    requires 2 <= cap
    ensures var events := Overlap() + [Arrival(2)] + [Poll(2)]; Fresh(events, cap) && !NeverLate(events, cap)
  {
    hide Fresh, AfterAll, Overlap;
    OverlapHistory(cap);
    var before := Overlap() + [Arrival(2)];
    var events := before + [Poll(2)];
    OneMore(Overlap(), Arrival(2), cap);
    OneMore(before, Poll(2), cap);
    assert events[..|before|] == before;
    assert Late(AfterAll(before, cap), events[|before|]);
  }

  /** Overlapping calls are harmless in every run exactly when there is a single slot. */
  lemma OverlapIsSafeIff(cap: nat)
    requires 0 < cap
    ensures (forall events :: Fresh(events, cap) ==> NeverLate(events, cap)) <==> cap == 1
  {
    hide Fresh, NeverLate;
    if cap == 1 {
      forall events
        ensures NeverLate(events, cap)
      {
        SingleSlotIsNeverLate(events);
      }
    } else {
      OverlapIsLate(cap);
    }
  }

  // ---------- the jam ----------

  /** The slot at `iget` is empty although the one before it is occupied, and arrivals go elsewhere. */
  predicate Jammed(s: System) {
    && s.Valid() && 2 <= s.ring.Capacity() && s.ring.iput != s.ring.iget
    && s.ring.slots[s.ring.iget] == None && s.ring.slots[LastSlot(s.ring)] != None
    && forall id :: id in s.waiting ==> s.waiting[id] == s.ring.iget
  }

  function LastSlot(r: Ring): (i: nat)
    requires r.Valid()
    ensures i < r.Capacity()
  {
    Slot(r.iget, r.Capacity() - 1, r.Capacity())
  }

  /** A search that ends before the last slot leaves that slot alone, and the first one if it is empty. */
  lemma {:induction false} SearchStays(r: Ring, p: Pcb, i: nat, shift: int)
    requires r.Valid() && r.iput != r.iget && i < r.Capacity() && -1 <= shift < r.Capacity()
    requires Distance(r.iget, i, r.Capacity()) < Distance(r.iget, r.iput, r.Capacity())
    requires shift != -1 ==>
               shift != r.iget && Distance(r.iget, shift, r.Capacity()) < Distance(r.iget, i, r.Capacity())
    requires i == r.iget ==> r.slots[i] == None
    ensures var f := Search(r, p, i, shift);
            && f.0[r.iget] == r.slots[r.iget] && f.0[LastSlot(r)] == r.slots[LastSlot(r)]
            && (f.1 == -1 || (f.1 != r.iget && f.1 != LastSlot(r)))
    decreases Left(i, r.iput, r.Capacity())
  {
    hide Distance, Next, Left, LastSlot, Search;
    var moved := if shift == -1 then r.slots else r.slots[shift := r.slots[i]];
    var shift' := if shift == -1 && r.slots[i] != Some(p) then -1 else i;
    var next := Next(i, r.alloc);
    SearchUnfolds(r, p, i, shift);
    DistanceOf(r, i);
    DistanceOf(r, r.iput);
    if shift != -1 {
      DistanceOf(r, shift);
    }
    if next != r.iput {
      SameDistance(r, next, r.iput);
      DistanceOf(r, next);
      LastOfMoved(r, moved);
      SearchStays(r.(slots := moved), p, next, shift');
    }
  }

  lemma DistanceOf(r: Ring, i: nat)
    requires r.Valid() && i < r.Capacity()
    ensures 0 <= Distance(r.iget, i, r.Capacity()) < r.Capacity()
    ensures Distance(r.iget, i, r.Capacity()) == 0 <==> i == r.iget
    ensures Distance(r.iget, i, r.Capacity()) == r.Capacity() - 1 <==> i == LastSlot(r)
    ensures Next(i, r.alloc) < r.Capacity()
    ensures Distance(r.iget, i, r.Capacity()) < r.Capacity() - 1 ==>
              Distance(r.iget, Next(i, r.alloc), r.Capacity()) == Distance(r.iget, i, r.Capacity()) + 1
  {
  }

  lemma SameDistance(r: Ring, i: nat, j: nat)
    requires r.Valid() && i < r.Capacity() && j < r.Capacity()
    ensures Distance(r.iget, i, r.Capacity()) == Distance(r.iget, j, r.Capacity()) ==> i == j
  {
  }

  lemma LastOfMoved(r: Ring, moved: seq<Option<Pcb>>)
    requires r.Valid() && |moved| == |r.slots|
    ensures r.(slots := moved).Valid() && LastSlot(r.(slots := moved)) == LastSlot(r)
  {
  }

  lemma JamStays(s: System, e: Event)
    requires Jammed(s)
    ensures Jammed(Step(s, e)) && Step(s, e).taken == s.taken
    ensures Step(s, e).ring.iget == s.ring.iget
    ensures Step(s, e).ring.slots[LastSlot(s.ring)] == s.ring.slots[LastSlot(s.ring)]
  {
    match e
    case Failure(p) => SearchStays(s.ring, p, s.ring.iget, -1);
    case _ =>
  }

  /** From a jam there is no way out: whatever arrives, fails, calls or gives up, no call ever returns a
      connection again, and the one in the last slot waits for good. */
  lemma {:induction false} JamIsForever(s: System, events: seq<Event>)
    requires Jammed(s)
    ensures Jammed(StepAll(s, events)) && StepAll(s, events).taken == s.taken
    ensures StepAll(s, events).ring.iget == s.ring.iget
    ensures StepAll(s, events).ring.slots[LastSlot(s.ring)] == s.ring.slots[LastSlot(s.ring)]
  {
    if events != [] {
      hide Jammed, Step;
      JamIsForever(s, events[..|events| - 1]);
      JamStays(StepAll(s, events[..|events| - 1]), events[|events| - 1]);
    }
  }

  function Empty(cap: nat, at: nat): Ring {
    Ring(cap, seq(cap, _ => None), at, at)
  }

  /** Connections that arrive and are taken at once. */
  function Rounds(n: nat): seq<Event> {
    if n == 0 then [] else Rounds(n - 1) + [Arrival(1)] + [Begin(1)]
  }

  function JamRun(cap: nat): seq<Event>
    requires 2 <= cap
  {
    Overlap() + Rounds(cap - 2) + [Arrival(2)] + [Arrival(3)] + [Poll(2)]
  }

  lemma {:induction false} StepInParts(s: System, a: seq<Event>, b: seq<Event>)
    requires s.Valid()
    ensures StepAll(s, a + b) == StepAll(StepAll(s, a), b)
    decreases |b|
  {
    hide Step;
    if b == [] {
      assert a + b == a;
    } else {
      assert (a + b)[..|a + b| - 1] == a + b[..|b| - 1];
      StepInParts(s, a, b[..|b| - 1]);
    }
  }

  lemma OneStep(s: System, e: Event)
    requires s.Valid()
    ensures StepAll(s, [e]) == Step(s, e)
  {
    assert StepAll(s, [e][..0]) == s;
  }

  lemma TwoSteps(s: System, e: Event, f: Event)
    requires s.Valid()
    ensures StepAll(s, [e, f]) == Step(Step(s, e), f)
  {
    hide Step;
    assert [e, f] == [e] + [f];
    StepInParts(s, [e], [f]);
    OneStep(s, e);
    OneStep(Step(s, e), f);
  }

  /** One connection passes through an empty ring. */
  lemma PassThrough(cap: nat, at: nat, waiting: map<int, nat>, taken: seq<Pcb>)
    requires 2 <= cap && at + 1 < cap && 1 !in waiting && forall id :: id in waiting ==> waiting[id] < cap
    ensures StepAll(System(Empty(cap, at), waiting, taken), [Arrival(1), Begin(1)]) ==
            System(Empty(cap, at + 1), waiting, taken + [1])
  {
    var s := System(Empty(cap, at), waiting, taken);
    TwoSteps(s, Arrival(1), Begin(1));
    var s1 := Step(s, Arrival(1));
    assert s1.ring.slots[at := None] == Empty(cap, at).slots;
    assert waiting - {1} == waiting;
  }

  /** An empty ring and a call that looks at slot zero. */
  function Stale(cap: nat, at: nat, taken: seq<Pcb>): (s: System)
    requires at < cap
    ensures s.Valid()
  {
    System(Empty(cap, at), map[2 := 0], taken)
  }

  lemma PassOne(cap: nat, at: nat, taken: seq<Pcb>)
    requires at + 1 < cap
    ensures StepAll(Stale(cap, at, taken), [Arrival(1), Begin(1)]) == Stale(cap, at + 1, taken + [1])
  {
    PassThrough(cap, at, map[2 := 0], taken);
  }

  lemma {:induction false} PassMany(cap: nat, n: nat, taken: seq<Pcb>) returns (taken': seq<Pcb>)
    requires 2 <= cap && n <= cap - 2
    ensures StepAll(Stale(cap, 1, taken), Rounds(n)) == Stale(cap, 1 + n, taken')
  {
    hide StepAll, Stale, System.Valid;
    if n == 0 {
      taken' := taken;
      NoSteps(Stale(cap, 1, taken));
    } else {
      var before := PassMany(cap, n - 1, taken);
      assert Rounds(n) == Rounds(n - 1) + [Arrival(1), Begin(1)];
      StepInParts(Stale(cap, 1, taken), Rounds(n - 1), [Arrival(1), Begin(1)]);
      PassOne(cap, n, before);
      taken' := before + [1];
    }
  }

  lemma NoSteps(s: System)
    requires s.Valid()
    ensures StepAll(s, []) == s
  {
  }

  /** The first call takes a connection from under the second, which goes on looking at slot zero. */
  lemma JamOpens(cap: nat)
    requires 2 <= cap
    ensures StepAll(Idle(Empty(cap, 0)), Overlap()) ==
            Stale(cap, 1, [1])
  {
    var s := Idle(Empty(cap, 0));
    assert Overlap() == [Begin(1), Begin(2)] + [Arrival(1), Poll(1)];
    StepInParts(s, [Begin(1), Begin(2)], [Arrival(1), Poll(1)]);
    TwoSteps(s, Begin(1), Begin(2));
    var s2 := System(Empty(cap, 0), map[1 := 0, 2 := 0], []);
    assert Step(Step(s, Begin(1)), Begin(2)) == s2;
    TwoSteps(s2, Arrival(1), Poll(1));
    assert Step(s2, Arrival(1)).ring.slots[0 := None] == Empty(cap, 0).slots;
    assert map[1 := 0 as nat, 2 := 0] - {1} == map[2 := 0 as nat];
  }

  /** When the write position has come round, the second call takes the newer of two connections. */
  lemma JamCloses(cap: nat, taken: seq<Pcb>)
    requires 2 <= cap
    ensures var s := StepAll(Stale(cap, cap - 1, taken), [Arrival(2), Arrival(3), Poll(2)]);
            Jammed(s) && s.taken == taken + [3] && s.ring.slots[LastSlot(s.ring)] == Some(2)
  {
    var s := Stale(cap, cap - 1, taken);
    assert [Arrival(2), Arrival(3), Poll(2)] == [Arrival(2), Arrival(3)] + [Poll(2)];
    StepInParts(s, [Arrival(2), Arrival(3)], [Poll(2)]);
    TwoSteps(s, Arrival(2), Arrival(3));
    var s2 := Step(Step(s, Arrival(2)), Arrival(3));
    OneStep(s2, Poll(2));
    assert s2.ring.slots[0] == Some(3) && s2.ring.slots[cap - 1] == Some(2);
    assert s2.waiting - {2} == map[];
  }

  /** For every capacity from two on there is such a run: two overlapping calls suffice to take connections out of
      order and to stop the socket for good. */
  lemma JamIsReached(cap: nat)
    requires 2 <= cap
    ensures Holds(Empty(cap, 0), []) && Fresh(JamRun(cap), cap)
    ensures var s := StepAll(Idle(Empty(cap, 0)), JamRun(cap));
            Jammed(s) && s.taken != [] && s.taken[|s.taken| - 1] == 3 && s.ring.slots[LastSlot(s.ring)] == Some(2)
  {
    hide StepAll, Empty, Jammed, Overlap, Fresh, Stale;
    assert Holds(Empty(cap, 0), []) && Empty(cap, 0).Valid() by {
      EmptyHolds(cap);
    }
    var close := [Arrival(2), Arrival(3), Poll(2)];
    var s := Idle(Empty(cap, 0));
    assert JamRun(cap) == Overlap() + Rounds(cap - 2) + close;
    StepInParts(s, Overlap() + Rounds(cap - 2), close);
    StepInParts(s, Overlap(), Rounds(cap - 2));
    JamOpens(cap);
    var taken := PassMany(cap, cap - 2, [1]);
    JamCloses(cap, taken);
    JamRunIsFresh(cap);
  }

  lemma {:induction false} RoundsAreFresh(cap: nat, n: nat)
    requires 2 <= cap
    ensures var events := Overlap() + Rounds(n);
            Fresh(events, cap) && AfterAll(events, cap).queue == [] && 1 !in AfterAll(events, cap).lag
  {
    hide Fresh, AfterAll, Overlap;
    if n == 0 {
      OverlapHistory(cap);
      assert Overlap() + Rounds(0) == Overlap();
    } else {
      RoundsAreFresh(cap, n - 1);
      var events := Overlap() + Rounds(n - 1);
      OneMore(events, Arrival(1), cap);
      OneMore(events + [Arrival(1)], Begin(1), cap);
      assert Overlap() + Rounds(n) == events + [Arrival(1)] + [Begin(1)];
    }
  }

  lemma JamRunIsFresh(cap: nat)
    requires 2 <= cap
    ensures Fresh(JamRun(cap), cap)
  {
    hide Fresh, AfterAll, Overlap, Rounds;
    RoundsAreFresh(cap, cap - 2);
    var events := Overlap() + Rounds(cap - 2);
    OneMore(events, Arrival(2), cap);
    OneMore(events + [Arrival(2)], Arrival(3), cap);
    OneMore(events + [Arrival(2)] + [Arrival(3)], Poll(2), cap);
  }

  lemma EmptyHolds(cap: nat)
    requires 0 < cap
    ensures Holds(Empty(cap, 0), [])
  {
  }

  // ---------- the socket as it runs ----------

  function CapacityOf(backlog: int): nat {
    if backlog <= 1 || backlog % 256 == 0 then 1 else backlog % 256
  }

  /** The listening socket goes through the run event by event. For every backlog that `listen` lays out
      properly, it follows the plain queue whenever no poll is late. */
  method Run(backlog: int, address: Pcb, events: seq<Event>)
    returns (taken: seq<Pcb>, start: Ring, end: System)
    requires backlog <= 1 || backlog % 256 != 0
    ensures Holds(start, []) && start.Capacity() == CapacityOf(backlog)
    ensures end == StepAll(Idle(start), events) && taken == end.taken
    ensures Fresh(events, CapacityOf(backlog)) && NeverLate(events, CapacityOf(backlog)) ==>
              taken == AfterAll(events, CapacityOf(backlog)).taken &&
              Holds(end.ring, AfterAll(events, CapacityOf(backlog)).queue)
  {
    hide Holds, Put, Take, Drop, StepAll;
    var listener := new Listener(backlog, address);
    taken := [];
    var waiting: map<int, nat> := map[];
    start := listener.State();
    assert events[..0] == [];
    NoSteps(Idle(start));
    for i := 0 to |events|
      invariant fresh(listener) && fresh(listener.slots) && listener.State().Valid()
      invariant System(listener.State(), waiting, taken) == StepAll(Idle(start), events[..i])
    {
      assert events[..i + 1] == events[..i] + [events[i]];
      StepInParts(Idle(start), events[..i], [events[i]]);
      OneStep(StepAll(Idle(start), events[..i]), events[i]);
      match events[i]
      case Arrival(p) =>
        var r := listener.Arrive(p, Ok);
      case Failure(p) =>
        listener.Error(p);
      case Begin(id) =>
        if id !in waiting {
          taken, waiting := Call(listener, id, listener.iget, waiting, taken);
        }
      case Poll(id) =>
        if id in waiting {
          taken, waiting := Call(listener, id, waiting[id], waiting, taken);
        }
      case GiveUp(id) =>
        waiting := waiting - {id};
    }
    assert events[..|events|] == events;
    end := System(listener.State(), waiting, taken);
    if Fresh(events, CapacityOf(backlog)) && NeverLate(events, CapacityOf(backlog)) {
      AgreesIfNeverLate(start, events);
    }
  }

  /** One look of a call at its slot. */
  method Call(listener: Listener, id: int, chosen: nat, waiting: map<int, nat>, taken: seq<Pcb>)
    returns (taken': seq<Pcb>, waiting': map<int, nat>)
    requires listener.State().Valid() && chosen < listener.State().Capacity()
    requires forall other :: other in waiting ==> waiting[other] < listener.State().Capacity()
    modifies listener`iget, listener.slots
    ensures System(listener.State(), waiting', taken') ==
            LookAt(System(old(listener.State()), waiting, taken), id, chosen)
  {
    hide Take;
    var r := listener.Look(chosen);
    if r.Some? {
      taken', waiting' := taken + [r.value], waiting - {id};
    } else {
      taken', waiting' := taken, waiting[id := chosen];
      NothingTaken(old(listener.State()), chosen);
    }
  }

  lemma NothingTaken(r: Ring, chosen: nat)
    requires r.Valid() && chosen < r.Capacity() && r.slots[chosen] == None
    ensures Take(r, chosen) == r
  {
  }

  // ---------- what every history has in common ----------

  /** `a` is `b` with some entries left out. */
  predicate Subsequence(a: seq<Pcb>, b: seq<Pcb>) {
    if a == [] then true
    else if b == [] then false
    else if a[|a| - 1] == b[|b| - 1] then Subsequence(a[..|a| - 1], b[..|b| - 1])
    else Subsequence(a, b[..|b| - 1])
  }

  lemma {:induction false} SubsequenceSkips(a: seq<Pcb>, b: seq<Pcb>)
    requires b != [] && Subsequence(a, b[..|b| - 1])
    ensures Subsequence(a, b)
    decreases |b|, 0
  {
    if a != [] && a[|a| - 1] == b[|b| - 1] {
      SubsequenceShortens(a, b[..|b| - 1]);
    }
  }

  lemma {:induction false} SubsequenceShortens(a: seq<Pcb>, b: seq<Pcb>)
    requires a != [] && Subsequence(a, b)
    ensures Subsequence(a[..|a| - 1], b)
    decreases |b|, 1
  {
    var a' := a[..|a| - 1];
    if a[|a| - 1] == b[|b| - 1] {
      SubsequenceSkips(a', b);
    } else {
      SubsequenceShortens(a, b[..|b| - 1]);
      SubsequenceSkips(a', b);
    }
  }

  lemma {:induction false} SubsequenceIsTransitive(a: seq<Pcb>, b: seq<Pcb>, c: seq<Pcb>)
    requires Subsequence(a, b) && Subsequence(b, c)
    ensures Subsequence(a, c)
    decreases |c|
  {
    if a != [] {
      var c' := c[..|c| - 1];
      if b[|b| - 1] != c[|c| - 1] {
        SubsequenceIsTransitive(a, b, c');
        SubsequenceSkips(a, c);
      } else if a[|a| - 1] == b[|b| - 1] {
        SubsequenceIsTransitive(a[..|a| - 1], b[..|b| - 1], c');
      } else {
        SubsequenceIsTransitive(a, b[..|b| - 1], c');
        SubsequenceSkips(a, c);
      }
    }
  }

  lemma {:induction false} SubsequenceOfItself(a: seq<Pcb>)
    ensures Subsequence(a, a)
  {
    if a != [] {
      SubsequenceOfItself(a[..|a| - 1]);
    }
  }

  lemma {:induction false} SubsequenceAppends(a: seq<Pcb>, b: seq<Pcb>, tail: seq<Pcb>)
    requires Subsequence(a, b)
    ensures Subsequence(a + tail, b + tail)
    decreases |tail|
  {
    if tail == [] {
      assert a + tail == a && b + tail == b;
    } else {
      var init := tail[..|tail| - 1];
      SubsequenceAppends(a, b, init);
      assert (a + tail)[..|a + tail| - 1] == a + init && (b + tail)[..|b + tail| - 1] == b + init;
    }
  }

  /** Dropping one waiting connection leaves the others in order. */
  lemma WithoutIsSubsequence(front: seq<Pcb>, q: seq<Pcb>, j: int)
    requires 0 <= j < |q|
    ensures Subsequence(front + (q[..j] + q[j + 1..]), front + q)
  {
    var a, tail := front + q[..j], q[j + 1..];
    SubsequenceOfItself(a);
    assert (a + [q[j]])[..|a|] == a;
    SubsequenceSkips(a, a + [q[j]]);
    SubsequenceAppends(a, a + [q[j]], tail);
    assert a + tail == front + (q[..j] + q[j + 1..]);
    assert a + [q[j]] + tail == front + q;
  }

  lemma {:induction false} FirstPlace(q: seq<Pcb>, p: Pcb) returns (j: int)
    requires p in q
    ensures 0 <= j < |q| && q[j] == p && Without(q, p) == q[..j] + q[j + 1..]
  {
    if q[0] == p {
      j := 0;
    } else {
      j := FirstPlace(q[1..], p);
      assert [q[0]] + (q[1..][..j] + q[1..][j + 1..]) == q[..j + 1] + q[j + 2..];
      j := j + 1;
    }
  }

  ghost predicate InOrder(h: History, cap: nat) {
    && Subsequence(h.taken + h.queue, h.admitted) && |h.queue| <= cap
    && multiset(h.admitted) == multiset(h.taken) + multiset(h.queue) + multiset(h.dropped)
  }

  lemma ArrivalKeepsOrder(h: History, p: Pcb, cap: nat)
    requires InOrder(h, cap) && |h.queue| < cap
    ensures InOrder(h.(queue := h.queue + [p], admitted := h.admitted + [p]), cap)
  {
    hide Subsequence;
    SubsequenceAppends(h.taken + h.queue, h.admitted, [p]);
    assert h.taken + (h.queue + [p]) == h.taken + h.queue + [p];
  }

  lemma TakeKeepsHistory(h: History, id: int, lag: nat, cap: nat)
    requires InOrder(h, cap)
    ensures InOrder(TakeFor(h, id, lag, cap), cap)
  {
    hide Subsequence;
    if h.queue != [] {
      assert h.queue == [h.queue[0]] + h.queue[1..];
      assert h.taken + [h.queue[0]] + h.queue[1..] == h.taken + h.queue;
    }
  }

  lemma WithoutOne(q: seq<Pcb>, p: Pcb, j: int)
    requires 0 <= j < |q| && q[j] == p && Without(q, p) == q[..j] + q[j + 1..]
    ensures |Without(q, p)| == |q| - 1
    ensures multiset(q) == multiset(Without(q, p)) + multiset{p}
  {
    hide Without;
    assert q == q[..j] + [p] + q[j + 1..];
  }

  lemma FailureKeepsOrder(h: History, p: Pcb, cap: nat)
    requires InOrder(h, cap) && p in h.queue
    ensures InOrder(h.(queue := Without(h.queue, p), dropped := h.dropped + [p]), cap)
  {
    hide Subsequence, Without;
    var j := FirstPlace(h.queue, p);
    WithoutIsSubsequence(h.taken, h.queue, j);
    SubsequenceIsTransitive(h.taken + Without(h.queue, p), h.taken + h.queue, h.admitted);
    WithoutOne(h.queue, p, j);
    assert multiset(h.dropped + [p]) == multiset(h.dropped) + multiset{p};
  }

  /** In every run of the plain queue: connections are accepted in the order of their arrival, never more wait than
      the capacity allows, and none is lost or invented. */
  lemma {:induction false} AcceptsInOrder(events: seq<Event>, cap: nat)
    ensures InOrder(AfterAll(events, cap), cap)
  {
    if events == [] {
      assert Subsequence([], []);
    } else {
      hide InOrder, Without, TakeFor;
      AcceptsInOrder(events[..|events| - 1], cap);
      var h := AfterAll(events[..|events| - 1], cap);
      match events[|events| - 1]
      case Arrival(p) => if |h.queue| < cap { ArrivalKeepsOrder(h, p, cap); }
      case Failure(p) => if p in h.queue { FailureKeepsOrder(h, p, cap); }
      case Begin(id) => if id !in h.lag { TakeKeepsHistory(h, id, 0, cap); }
      case Poll(id) => if id in h.lag { TakeKeepsHistory(h, id, h.lag[id], cap); }
      case GiveUp(id) => CallsDoNotMatter(h, h.lag - {id}, cap);
    }
  }

  lemma CallsDoNotMatter(h: History, lag: map<int, nat>, cap: nat)
    requires InOrder(h, cap)
    ensures InOrder(h.(lag := lag), cap)
  {
  }
}
