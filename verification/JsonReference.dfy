/** What the parser accepts, well formed or not: a recursive reader of the same texts, without a stack and without
    a heap. Commas and colons are blanks to it, any closing bracket closes, and an object takes its values in
    pairs, the first of each being the key; a key without a value is left to whoever reads next. */
module JsonReference {
  import opened Basics
  import opened JsonObjects
  import opened JsonScanner
  import opened JsonMachine

  datatype Tree = Leaf(v: Val) | List(items: seq<Tree>) | Dict(entries: map<Val, Tree>)

  datatype Token = Wrong | Blank | Value(v: Val) | Open(list: bool) | Shut

  /** The token at `p`, and where the next one starts. */
  function Lex(t: string, p: nat): (Token, nat) {
    var c := Cur(t, p);
    if IsSkipped(c) then (Blank, p + 1)
    else if c == 'n' && Spells(t, p + 1, "ull") then (Value(Val.None), p + 4)
    else if c == 'f' && Spells(t, p + 1, "alse") then (Value(Bool(false)), p + 5)
    else if c == 't' && Spells(t, p + 1, "rue") then (Value(Bool(true)), p + 4)
    else if c == '"' && ScanString(t, p + 1).Found? then
      (Value(Str(ScanString(t, p + 1).text)), ScanString(t, p + 1).next)
    else if c == '-' || IsDigit(c) then
      var q := RunEnd(t, p + 1);
      match NumberValue(t[p..q])
      case None => (Wrong, q)
      case Some(v) => (Value(v), q)
    else if c == '[' then (Open(true), p + 1)
    else if c == '{' then (Open(false), p + 1)
    else if c == ']' || c == '}' then (Shut, p + 1)
    else (Wrong, p + 1)
  }

  lemma LexAdvances(t: string, p: nat)
    ensures !Lex(t, p).0.Wrong? ==> p < |t| && p < Lex(t, p).1
    ensures Lex(t, p).0.Value? ==> !Lex(t, p).0.v.Ref?
  {
    hide ScanString, NumberValue, RunEnd;
    ScanAdvances(t, p + 1);
    if Cur(t, p) == '-' || IsDigit(Cur(t, p)) {
      NumbersAreNoReferences(t[p..RunEnd(t, p + 1)]);
    }
  }

  lemma NumbersAreNoReferences(s: string)
    ensures NumberValue(s).Some? ==> !NumberValue(s).value.Ref?
  {
  }

  function New(list: bool): Tree {
    if list then List([]) else Dict(map[])
  }

  predicate IsContainer(c: Tree) {
    c.List? || c.Dict?
  }

  /** The container with `x` added; an object takes it under the key that waits. */
  function Add(c: Tree, key: Option<Val>, x: Tree): (c': Tree)
    requires IsContainer(c) && (c.Dict? ==> key.Some?)
    ensures IsContainer(c')
  {
    if c.List? then List(c.items + [x]) else Dict(c.entries[key.value := x])
  }

  function KeyAfter(c: Tree, key: Option<Val>): Option<Val> {
    if c.Dict? then Option.None else key
  }

  datatype Filled = Filled(c: Tree, key: Option<Val>, next: nat) | Broken

  /** Reads into the container `c` up to its closing bracket. */
  function Fill(t: string, p: nat, c: Tree, key: Option<Val>): (f: Filled)
    requires IsContainer(c)
    ensures f.Filled? ==> p < f.next
    decreases if p < |t| then |t| - p else 0
  {
    LexAdvances(t, p);
    var (token, q) := Lex(t, p);
    match token
    case Wrong => Broken
    case Blank => Fill(t, q, c, key)
    case Shut => Filled(c, key, q)
    case Value(v) =>
      if c.Dict? && key.None? then Fill(t, q, c, Some(v)) else Fill(t, q, Add(c, key, Leaf(v)), KeyAfter(c, key))
    case Open(list) =>
      if c.Dict? && key.None? then Broken
      else
        match Fill(t, q, New(list), KeyAfter(c, key))
        case Broken => Broken
        case Filled(x, key', next) => Fill(t, next, Add(c, key, x), key')
  }

  /** Reads one value. */
  function Parse(t: string, p: nat): Option<(Tree, nat)>
    decreases if p < |t| then |t| - p else 0
  {
    LexAdvances(t, p);
    var (token, q) := Lex(t, p);
    match token
    case Wrong => Option.None
    case Shut => Option.None
    case Blank => Parse(t, q)
    case Value(v) => Some((Leaf(v), q))
    case Open(list) =>
      match Fill(t, q, New(list), Option.None)
      case Broken => Option.None
      case Filled(x, _, next) => Some((x, next))
  }

  function LoadTree(t: string): Option<Tree> {
    match Parse(t, 0)
    case None => Option.None
    case Some((x, q)) => if Cur(t, SkipSpace(t, q)) == EOF then Some(x) else Option.None
  }

  // ---------- trees in the heap ----------

  /** The value `v` is the tree `x`, its containers at places from `lo` on. */
  ghost predicate Denotes(h: Heap, lo: nat, v: Val, x: Tree)
    decreases x
  {
    match x
    case Leaf(w) => v == w
    case List(xs) =>
      && v.Ref? && lo <= v.r < |h| && h[v.r].ListObj? && |h[v.r].items| == |xs|
      && forall i :: 0 <= i < |xs| ==> Denotes(h, v.r + 1, h[v.r].items[i], xs[i])
    case Dict(m) =>
      && v.Ref? && lo <= v.r < |h| && h[v.r].DictObj? && h[v.r].entries.Keys == m.Keys
      && forall k :: k in m ==> Denotes(h, v.r + 1, h[v.r].entries[k], m[k])
  }

  /** A tree rests only on the containers made for it. */
  lemma {:induction false} DenotesIsLocal(h: Heap, h': Heap, lo: nat, lo': nat, v: Val, x: Tree)
    requires Denotes(h, lo, v, x) && lo' <= lo && |h| <= |h'|
    requires forall i :: lo <= i < |h| ==> h'[i] == h[i]
    ensures Denotes(h', lo', v, x)
    decreases x
  {
    match x
    case Leaf(_) =>
    case List(xs) =>
      forall i | 0 <= i < |xs|
        ensures Denotes(h', v.r + 1, h'[v.r].items[i], xs[i])
      {
        DenotesIsLocal(h, h', v.r + 1, v.r + 1, h[v.r].items[i], xs[i]);
      }
    case Dict(m) =>
      forall k | k in m
        ensures Denotes(h', v.r + 1, h'[v.r].entries[k], m[k])
      {
        DenotesIsLocal(h, h', v.r + 1, v.r + 1, h[v.r].entries[k], m[k]);
      }
  }
}

/** The explicit stack and the recursive reader agree on every text. */
module JsonAgreement {
  import opened Basics
  import opened JsonObjects
  import opened JsonScanner
  import opened JsonMachine
  import opened JsonReference

  function Empty(list: bool): Obj {
    if list then ListObj([]) else DictObj(map[])
  }

  /** What a round does with a token. */
  function OnToken(st: State, token: Token, q: nat): Step
    requires st.Valid()
  {
    match token
    case Wrong => Fail
    case Blank => Go(q, st)
    case Value(v) => Attach(st, v, false, q)
    case Open(list) => Attach(st.(heap := st.heap + [Empty(list)]), Ref(|st.heap|), true, q)
    case Shut => Close(st, q)
  }

  lemma RoundIsOnToken(t: string, p: nat, st: State)
    requires st.Valid()
    ensures Round(t, p, st) == OnToken(st, Lex(t, p).0, Lex(t, p).1)
  {
    hide ScanString, NumberValue, RunEnd, Spells, Attach, Close;
  }

  /** The rest of a run after one step. */
  function Continue(t: string, s: Step): Step
    requires s.Go? ==> s.st.Valid()
  {
    if s.Go? then Rounds(t, s.next, s.st) else s
  }

  lemma RoundsContinue(t: string, p: nat, st: State)
    requires st.Valid()
    ensures var s := OnToken(st, Lex(t, p).0, Lex(t, p).1);
            (s.Go? ==> s.st.Valid()) && Rounds(t, p, st) == Continue(t, s)
  {
    hide Round, Lex, OnToken;
    RoundIsOnToken(t, p, st);
    RoundAdvances(t, p, st);
  }

  // ---------- one value more ----------

  predicate Takes(o: Obj, key: Option<Val>) {
    o.ListObj? || key.Some?
  }

  function Store(o: Obj, key: Option<Val>, v: Val): Obj
    requires Takes(o, key)
  {
    match o
    case ListObj(items) => ListObj(items + [v])
    case DictObj(entries) => DictObj(entries[key.value := v])
  }

  lemma StoreDenotes(h: Heap, h': Heap, r: nat, c: Tree, key: Option<Val>, v: Val, x: Tree)
    requires Denotes(h, r, Ref(r), c) && IsContainer(c) && (c.Dict? ==> key.Some?)
    requires |h| <= |h'| && h'[r] == Store(h[r], key, v) && forall i :: r < i < |h| ==> h'[i] == h[i]
    requires Denotes(h', r + 1, v, x)
    ensures Denotes(h', r, Ref(r), Add(c, key, x))
  {
    match c
    case List(xs) =>
      forall i | 0 <= i < |xs|
        ensures Denotes(h', r + 1, h'[r].items[i], xs[i])
      {
        DenotesIsLocal(h, h', r + 1, r + 1, h[r].items[i], xs[i]);
      }
    case Dict(m) =>
      forall k | k in m && k != key.value
        ensures Denotes(h', r + 1, h'[r].entries[k], m[k])
      {
        DenotesIsLocal(h, h', r + 1, r + 1, h[r].entries[k], m[k]);
      }
  }

  lemma KindsAgree(h: Heap, r: nat, c: Tree)
    requires Denotes(h, r, Ref(r), c) && IsContainer(c)
    ensures r < |h| && (h[r].ListObj? <==> c.List?) && (h[r].DictObj? <==> c.Dict?)
  {
  }

  /** The machine stands inside the container at `r`, which is the tree `c`. */
  ghost predicate Inside(st: State, r: nat, c: Tree) {
    st.Valid() && st.top == Some(Ref(r)) && IsContainer(c) && Denotes(st.heap, r, Ref(r), c)
  }

  /** From `st` to `st'` nothing but the container at `r` and newer ones has changed. */
  ghost predicate Only(st: State, st': State, r: nat) {
    && st'.stack == st.stack && st'.top == st.top && |st.heap| <= |st'.heap|
    && forall i :: 0 <= i < r && i < |st.heap| ==> st'.heap[i] == st.heap[i]
  }

  lemma TakesLeaf(st: State, r: nat, c: Tree, v: Val, q: nat) returns (st': State)
    requires Inside(st, r, c) && (c.Dict? ==> st.key.Some?)
    ensures Attach(st, v, false, q) == Go(q, st')
    ensures Inside(st', r, Add(c, st.key, Leaf(v))) && st'.key == KeyAfter(c, st.key) && Only(st, st', r)
  {
    hide Denotes;
    KindsAgree(st.heap, r, c);
    st' := State(st.heap[r := Store(st.heap[r], st.key, v)], st.stack, st.top, KeyAfter(c, st.key));
    LeafDenotes(st'.heap, r + 1, v);
    StoreDenotes(st.heap, st'.heap, r, c, st.key, v, Leaf(v));
  }

  lemma LeafDenotes(h: Heap, lo: nat, v: Val)
    ensures Denotes(h, lo, v, Leaf(v))
  {
  }

  lemma OpensContainer(st: State, r: nat, c: Tree, list: bool, q: nat) returns (inner: State)
    requires Inside(st, r, c) && (c.Dict? ==> st.key.Some?)
    ensures r < |st.heap| && Takes(st.heap[r], st.key)
    ensures Attach(st.(heap := st.heap + [Empty(list)]), Ref(|st.heap|), true, q) == Go(q, inner)
    ensures Inside(inner, |st.heap|, New(list)) && inner.key == KeyAfter(c, st.key)
    ensures inner.stack == st.stack + [r]
    ensures inner.heap == st.heap[r := Store(st.heap[r], st.key, Ref(|st.heap|))] + [Empty(list)]
  {
    hide Denotes;
    KindsAgree(st.heap, r, c);
    var n := |st.heap|;
    var h := st.heap + [Empty(list)];
    assert h[r := Store(h[r], st.key, Ref(n))] == st.heap[r := Store(st.heap[r], st.key, Ref(n))] + [Empty(list)];
    inner := State(h[r := Store(h[r], st.key, Ref(n))], st.stack + [r], Some(Ref(n)), KeyAfter(c, st.key));
    EmptyDenotes(inner.heap, n, list);
  }

  lemma EmptyDenotes(h: Heap, n: nat, list: bool)
    requires n < |h| && h[n] == Empty(list)
    ensures Denotes(h, n, Ref(n), New(list))
  {
  }

  /** Back in the outer container, which now holds the finished one. */
  lemma ShutsContainer(st: State, r: nat, c: Tree, list: bool, inner: State, filled: State, x: Tree, q: nat)
    returns (st': State)
    requires Inside(st, r, c) && (c.Dict? ==> st.key.Some?) && r < |st.heap| && Takes(st.heap[r], st.key)
    requires inner.stack == st.stack + [r] && inner.top == Some(Ref(|st.heap|))
    requires inner.heap == st.heap[r := Store(st.heap[r], st.key, Ref(|st.heap|))] + [Empty(list)]
    requires Inside(filled, |st.heap|, x) && Only(inner, filled, |st.heap|)
    ensures Close(filled, q) == Go(q, st')
    ensures Inside(st', r, Add(c, st.key, x)) && st'.key == filled.key && Only(st, st', r)
  {
    hide Denotes;
    var n := |st.heap|;
    st' := filled.(stack := st.stack, top := Some(Ref(r)));
    assert filled.stack[..|filled.stack| - 1] == st.stack;
    DenotesIsLocal(filled.heap, filled.heap, n, r + 1, Ref(n), x);
    StoreDenotes(st.heap, filled.heap, r, c, st.key, Ref(n), x);
  }

  // ---------- the agreement ----------

  ghost predicate FillsAs(t: string, p: nat, st: State, r: nat, f: Filled, st': State)
    requires st.Valid()
  {
    match f
    case Broken => Rounds(t, p, st) == Fail
    case Filled(c, key, next) =>
      && Inside(st', r, c) && st'.key == key && Only(st, st', r)
      && (Close(st', next).Go? ==> Close(st', next).st.Valid())
      && Rounds(t, p, st) == Continue(t, Close(st', next))
  }

  lemma OnlyTwice(st: State, st1: State, st2: State, r: nat)
    requires Only(st, st1, r) && Only(st1, st2, r)
    ensures Only(st, st2, r)
  {
  }

  /** What one more step does to the claim. */
  lemma FillsOn(t: string, p: nat, st: State, r: nat, q: nat, st1: State, f: Filled, st': State)
    requires st.Valid() && st1.Valid() && Rounds(t, p, st) == Rounds(t, q, st1) && Only(st, st1, r)
    requires FillsAs(t, q, st1, r, f, st')
    ensures FillsAs(t, p, st, r, f, st')
  {
    hide Rounds, Close, Inside;
    if f.Filled? {
      hide Only;
      OnlyTwice(st, st1, st', r);
    }
  }

  lemma {:induction false} FillAgrees(t: string, p: nat, st: State, r: nat, c: Tree) returns (st': State)
    requires Inside(st, r, c)
    ensures FillsAs(t, p, st, r, Fill(t, p, c, st.key), st')
    decreases if p < |t| then |t| - p else 0
  {
    hide Lex, Attach, Close, Rounds, Denotes, Only, FillsAs;
    LexAdvances(t, p);
    RoundsContinue(t, p, st);
    var (token, q) := Lex(t, p);
    st' := st;
    match token
    case Wrong => BrokenHere(t, p, st, r);
    case Shut => ShutHere(t, p, st, r, c, q);
    case Blank =>
      st' := FillAgrees(t, q, st, r, c);
      OnlyItself(st, r);
      FillsOn(t, p, st, r, q, st, Fill(t, q, c, st.key), st');
    case Value(v) => st' := ValueAgrees(t, p, st, r, c, v, q);
    case Open(list) =>
      KindsAgree(st.heap, r, c);
      if c.Dict? && st.key.None? {
        NoKeyNoContainer(st, r, list, q);
        BrokenHere(t, p, st, r);
      } else {
        st' := OpenAgrees(t, p, st, r, c, list, q);
      }
  }

  lemma OnlyItself(st: State, r: nat)
    ensures Only(st, st, r)
  {
  }

  lemma BrokenHere(t: string, p: nat, st: State, r: nat)
    requires st.Valid() && Rounds(t, p, st) == Fail
    ensures FillsAs(t, p, st, r, Broken, st)
  {
  }

  lemma ShutHere(t: string, p: nat, st: State, r: nat, c: Tree, q: nat)
    requires Inside(st, r, c) && (Close(st, q).Go? ==> Close(st, q).st.Valid())
    requires Rounds(t, p, st) == Continue(t, Close(st, q))
    ensures FillsAs(t, p, st, r, Filled(c, st.key, q), st)
  {
    hide Rounds, Close, Inside;
    OnlyItself(st, r);
  }

  lemma NoKeyNoContainer(st: State, r: nat, list: bool, q: nat)
    requires st.Valid() && st.top == Some(Ref(r)) && r < |st.heap| && st.heap[r].DictObj? && st.key.None?
    ensures Attach(st.(heap := st.heap + [Empty(list)]), Ref(|st.heap|), true, q) == Fail
  {
  }

  lemma KeyIsTaken(st: State, r: nat, c: Tree, v: Val, q: nat)
    requires Inside(st, r, c) && c.Dict? && st.key.None?
    ensures Attach(st, v, false, q) == Go(q, st.(key := Some(v))) && Inside(st.(key := Some(v)), r, c)
    ensures Only(st, st.(key := Some(v)), r)
  {
    KindsAgree(st.heap, r, c);
  }

  lemma {:induction false} ValueAgrees(t: string, p: nat, st: State, r: nat, c: Tree, v: Val, q: nat)
    returns (st': State)
    requires Inside(st, r, c) && p < |t| && p < q
    requires Attach(st, v, false, q).Go? ==> Attach(st, v, false, q).st.Valid()
    requires Rounds(t, p, st) == Continue(t, Attach(st, v, false, q))
    ensures FillsAs(t, p, st, r,
                    if c.Dict? && st.key.None? then Fill(t, q, c, Some(v))
                    else Fill(t, q, Add(c, st.key, Leaf(v)), KeyAfter(c, st.key)), st')
    decreases |t| - p, 0
  {
    hide Attach, Rounds, Denotes, Only, FillsAs, Fill;
    if c.Dict? && st.key.None? {
      KeyIsTaken(st, r, c, v, q);
      var st1 := st.(key := Some(v));
      st' := FillAgrees(t, q, st1, r, c);
      FillsOn(t, p, st, r, q, st1, Fill(t, q, c, Some(v)), st');
    } else {
      var st1 := TakesLeaf(st, r, c, v, q);
      st' := FillAgrees(t, q, st1, r, Add(c, st.key, Leaf(v)));
      FillsOn(t, p, st, r, q, st1, Fill(t, q, Add(c, st.key, Leaf(v)), KeyAfter(c, st.key)), st');
    }
  }

  lemma {:induction false} OpenAgrees(t: string, p: nat, st: State, r: nat, c: Tree, list: bool, q: nat)
    returns (st': State)
    requires Inside(st, r, c) && p < |t| && p < q && (c.Dict? ==> st.key.Some?)
    requires var s := Attach(st.(heap := st.heap + [Empty(list)]), Ref(|st.heap|), true, q);
             (s.Go? ==> s.st.Valid()) && Rounds(t, p, st) == Continue(t, s)
    ensures FillsAs(t, p, st, r,
                    match Fill(t, q, New(list), KeyAfter(c, st.key))
                    case Broken => Broken
                    case Filled(x, key', next) => Fill(t, next, Add(c, st.key, x), key'), st')
    decreases |t| - p, 0
  {
    hide Attach, Rounds, Denotes, Fill, Close;
    var inner := OpensContainer(st, r, c, list, q);
    var filled := FillAgrees(t, q, inner, |st.heap|, New(list));
    var f := Fill(t, q, New(list), KeyAfter(c, st.key));
    st' := st;
    if f.Filled? {
      var st1 := ShutsContainer(st, r, c, list, inner, filled, f.c, f.next);
      hide FillsAs, Only;
      st' := FillAgrees(t, f.next, st1, r, Add(c, st.key, f.c));
      FillsOn(t, p, st, r, f.next, st1, Fill(t, f.next, Add(c, st.key, f.c), f.key), st');
    }
  }

  // ---------- whole texts ----------

  /** The machine on an empty stack does what the recursive reader does. */
  ghost predicate ParsesAs(t: string, s: Step, o: Option<(Tree, nat)>) {
    match o
    case None => s == Fail
    case Some((x, q)) =>
      s.Finish? && s.next == q && s.st.stack == [] && s.st.top.Some? && Denotes(s.st.heap, 0, s.st.top.value, x)
  }

  lemma {:induction false} ParseAgrees(t: string, p: nat)
    ensures ParsesAs(t, Rounds(t, p, START), Parse(t, p))
    decreases if p < |t| then |t| - p else 0
  {
    hide Lex, Rounds, Denotes, Fill, Close;
    LexAdvances(t, p);
    RoundsContinue(t, p, START);
    var (token, q) := Lex(t, p);
    match token
    case Wrong =>
    case Shut => NothingToClose(q);
    case Blank => ParseAgrees(t, q);
    case Value(v) => LeafDenotes([], 0, v);
    case Open(list) => ContainerAgrees(t, p, list, q);
  }

  lemma NothingToClose(q: nat)
    ensures Close(START, q) == Fail
  {
  }

  lemma ContainerAgrees(t: string, p: nat, list: bool, q: nat)
    requires var s := Attach(START.(heap := START.heap + [Empty(list)]), Ref(|START.heap|), true, q);
             (s.Go? ==> s.st.Valid()) && Rounds(t, p, START) == Continue(t, s)
    ensures ParsesAs(t, Rounds(t, p, START),
                     match Fill(t, q, New(list), Option.None)
                     case Broken => Option.None
                     case Filled(x, _, next) => Some((x, next)))
  {
    hide Rounds, Denotes, Fill;
    var inner := State([Empty(list)], [], Some(Ref(0)), Option.None);
    assert START.heap + [Empty(list)] == inner.heap;
    EmptyDenotes(inner.heap, 0, list);
    var filled := FillAgrees(t, q, inner, 0, New(list));
  }

  /** On every text the parser with its stack and its heap returns the tree that the recursive reader returns, or
      fails with it. */
  lemma LoadIsLoadTree(t: string)
    ensures Load(t).Loaded? <==> LoadTree(t).Some?
    ensures Load(t).Loaded? ==> Denotes(Load(t).heap, 0, Load(t).value, LoadTree(t).value)
  {
    hide Rounds, Denotes, Parse;
    ParseAgrees(t, 0);
  }
}
