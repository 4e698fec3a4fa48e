/** `mod_json_load` as it runs: a cursor, a string buffer and the parser's stack, changed in place. */
module JsonLoader {
  import opened Basics
  import opened JsonObjects
  import opened JsonScanner
  import opened JsonMachine

  datatype Turn = Continue | Success | Failure

  /** The turn that a step of the specification describes. */
  function TurnOf(s: Step): Turn {
    match s
    case Go(_, _) => Continue
    case Finish(_, _) => Success
    case Fail => Failure
  }

  /** The string scan from `p0` has collected `done` and stands at `p`. */
  ghost predicate Scanned(t: string, p0: nat, done: string, p: nat) {
    match ScanString(t, p)
    case Bad => ScanString(t, p0).Bad?
    case Found(rest, next) => ScanString(t, p0) == Found(done + rest, next)
  }

  lemma ScanStarts(t: string, p: nat)
    ensures Scanned(t, p, "", p)
  {
    assert forall s: string :: "" + s == s;
  }

  lemma ScanContinues(t: string, p0: nat, done: string, p: nat)
    requires Scanned(t, p0, done, p) && Cur(t, p) != EOF && Cur(t, p) != '"'
    ensures p < StringStep(t, p).1
    ensures Scanned(t, p0, done + StringStep(t, p).0, StringStep(t, p).1)
  {
    var (piece, q) := StringStep(t, p);
    assert p < q;
    hide StringStep;
    if ScanString(t, q).Found? && q <= |t| {
      assert done + (piece + ScanString(t, q).text) == done + piece + ScanString(t, q).text;
    }
  }

  lemma ScanEnds(t: string, p0: nat, done: string, p: nat)
    requires Scanned(t, p0, done, p) && (Cur(t, p) == EOF || Cur(t, p) == '"')
    ensures ScanString(t, p0) == if Cur(t, p) == EOF then Bad else Found(done, p + 1)
  {
    assert done + "" == done;
  }

  class Loader {
    const t: string
    var pos: nat
    var vstr: string
    var heap: Heap
    var stack: seq<nat>
    var top: Option<Val>
    var key: Option<Val>

    constructor (text: string)
      ensures t == text && pos == 0 && St() == START
    {
      t := text;
      pos, vstr := 0, "";
      heap, stack, top, key := [], [], Option.None, Option.None;
    }

    ghost function St(): State
      reads this
    {
      State(heap, stack, top, key)
    }

    /** The turn taken is the one of `s`, and the object has moved to its position and state. */
    ghost predicate Follows(turn: Turn, s: Step)
      reads this
    {
      turn == TurnOf(s) && (s.Fail? || (pos == s.next && St() == s.st))
    }

    /** The hexadecimal digits of one escape, from behind the `u`. */
    method ReadHex() returns (num: bv32)
      modifies `pos
      ensures pos == old(pos) + 4 && num == Hex(t, old(pos), 4)
    {
      num := 0;
      for i := 0 to 4
        invariant pos == old(pos) + i && num == Hex(t, old(pos), i)
      {
        num := (num << 4) | Nibble(Cur(t, pos)) as bv32;
        pos := pos + 1;
      }
    }

    /** One round of the string loop: a plain character or an escape. */
    method ReadPiece()
      modifies `pos, `vstr
      ensures vstr == old(vstr) + StringStep(t, old(pos)).0
      ensures pos == StringStep(t, old(pos)).1
    {
      hide Hex, Utf8, Nibble;
      var c := Cur(t, pos);
      pos := pos + 1;
      if c == '\\' {
        c := Cur(t, pos);
        pos := pos + 1;
        if c == 'u' {
          var num := ReadHex();
          vstr := vstr + Utf8(num);
          return;
        }
        c := Unescape(c);
      }
      vstr := vstr + [c];
    }

    /** The characters of a string, up to and including the closing quote. */
    method ReadString() returns (ok: bool)
      modifies `pos, `vstr
      ensures match ScanString(t, old(pos))
              case Bad => !ok
              case Found(s, next) => ok && vstr == s && pos == next
    {
      hide ScanString, StringStep;
      vstr := "";
      ScanStarts(t, pos);
      while Cur(t, pos) != EOF && Cur(t, pos) != '"'
        invariant Scanned(t, old(pos), vstr, pos)
        decreases |t| - pos
      {
        ScanContinues(t, old(pos), vstr, pos);
        ReadPiece();
      }
      ScanEnds(t, old(pos), vstr, pos);
      ok := Cur(t, pos) != EOF;
      pos := pos + 1;
    }

    /** The number whose first character `first` has been read. */
    method ReadNumber(first: char) returns (v: Option<Val>)
      requires 1 <= pos <= |t| && first == t[pos - 1] && !IsFloatMark(first)
      modifies `pos, `vstr
      ensures pos == RunEnd(t, old(pos)) && pos <= |t|
      ensures v == NumberValue(t[old(pos) - 1..pos])
    {
      hide ParseInteger, DigitsValue;
      var flt := false;
      vstr := [first];
      while IsNumChar(Cur(t, pos))
        invariant old(pos) <= pos <= |t| && RunEnd(t, pos) == RunEnd(t, old(pos))
        invariant vstr == t[old(pos) - 1..pos]
        invariant flt <==> exists i :: 1 <= i < |vstr| && IsFloatMark(vstr[i])
        decreases |t| - pos
      {
        ghost var before := vstr;
        if IsFloatMark(Cur(t, pos)) {
          flt := true;
        }
        vstr := vstr + [Cur(t, pos)];
        assert vstr[|before|] == Cur(t, pos);
        assert forall i :: 1 <= i < |before| ==> vstr[i] == before[i];
        pos := pos + 1;
      }
      if flt {
        v := Some(Float(vstr));
      } else {
        match ParseInteger(vstr)
        case Some(n) => v := Some(Int(n));
        case None => v := Option.None;
      }
    }

    /** The second half of the loop body: into the list or dictionary at the top of the stack. */
    method AttachValue(next: Val, enter: bool) returns (turn: Turn)
      requires St().Valid()
      modifies `heap, `stack, `top, `key
      ensures Follows(turn, Attach(old(St()), next, enter, pos))
    {
      if top.None? {
        top := Some(next);
        return if enter then Continue else Success;
      }
      var r := top.value.r;
      match heap[r] {
        case ListObj(items) =>
          heap := heap[r := ListObj(items + [next])];
        case DictObj(entries) =>
          if key.None? {
            key := Some(next);
            return if enter then Failure else Continue;
          }
          heap := heap[r := DictObj(entries[key.value := next])];
          key := Option.None;
      }
      if enter {
        stack := stack + [r];
        top := Some(next);
      }
      turn := Continue;
    }

    method CloseContainer() returns (turn: Turn)
      requires St().Valid()
      modifies `stack, `top
      ensures Follows(turn, Close(old(St()), pos))
    {
      if top.None? {
        return Failure;
      }
      if |stack| == 0 {
        return Success;
      }
      top := Some(Ref(stack[|stack| - 1]));
      stack := stack[..|stack| - 1];
      turn := Continue;
    }

    /** The rest of `null`, `true` or `false`, compared letter by letter. */
    method ReadWord(word: string) returns (ok: bool)
      modifies `pos
      ensures ok == Spells(t, old(pos), word)
      ensures ok ==> pos == old(pos) + |word|
    {
      var i := 0;
      while i < |word| && Cur(t, pos) == word[i]
        invariant 0 <= i <= |word| && pos == old(pos) + i
        invariant forall j :: 0 <= j < i ==> Cur(t, old(pos) + j) == word[j]
      {
        pos := pos + 1;
        i := i + 1;
      }
      ok := i == |word|;
      assert !ok ==> Cur(t, old(pos) + i) != word[i];
    }

    method AttachWord(word: string, v: Val) returns (turn: Turn)
      requires St().Valid()
      modifies `pos, `heap, `stack, `top, `key
      ensures if Spells(t, old(pos), word) then Follows(turn, Attach(old(St()), v, false, old(pos) + |word|))
              else turn == Failure
    {
      var ok := ReadWord(word);
      if !ok {
        return Failure;
      }
      turn := AttachValue(v, false);
    }

    /** One round of the main loop. */
    method RunRound() returns (turn: Turn)
      requires St().Valid()
      modifies this
      ensures Follows(turn, Round(t, old(pos), old(St())))
    {
      hide Attach, Close, ScanString, NumberValue, RunEnd, Spells;
      var cur := Cur(t, pos);
      if cur == EOF {
        return Failure;
      }
      pos := pos + 1;
      if IsSkipped(cur) {
        return Continue;
      } else if cur == 'n' {
        turn := AttachWord("ull", Val.None);
      } else if cur == 'f' {
        turn := AttachWord("alse", Bool(false));
      } else if cur == 't' {
        turn := AttachWord("rue", Bool(true));
      } else if cur == '"' {
        var ok := ReadString();
        if !ok {
          return Failure;
        }
        turn := AttachValue(Str(vstr), false);
      } else if cur == '-' || IsDigit(cur) {
        var v := ReadNumber(cur);
        if v.None? {
          return Failure;
        }
        turn := AttachValue(v.value, false);
      } else if cur == '[' {
        heap := heap + [ListObj([])];
        turn := AttachValue(Ref(|heap| - 1), true);
      } else if cur == '{' {
        heap := heap + [DictObj(map[])];
        turn := AttachValue(Ref(|heap| - 1), true);
      } else if cur == '}' || cur == ']' {
        turn := CloseContainer();
      } else {
        return Failure;
      }
    }

    method EatSpace()
      modifies `pos
      ensures pos == SkipSpace(t, old(pos))
    {
      while IsSpace(Cur(t, pos))
        invariant SkipSpace(t, pos) == SkipSpace(t, old(pos))
        decreases |t| - pos
      {
        pos := pos + 1;
      }
    }

    method Run() returns (r: Result)
      requires pos == 0 && St() == START
      modifies this
      ensures r == Load(t)
    {
      hide Round, SkipSpace, IsSpace;
      var turn := Continue;
      while turn == Continue
        invariant turn == Continue ==> St().Valid() && Rounds(t, pos, St()) == Rounds(t, 0, START)
        invariant turn != Continue ==> Follows(turn, Rounds(t, 0, START))
        decreases turn == Continue, if pos < |t| then |t| - pos else 0
      {
        RoundAdvances(t, pos, St());
        turn := RunRound();
      }
      if turn == Failure {
        return ValueError;
      }
      EatSpace();
      if Cur(t, pos) != EOF || top.None? || |stack| != 0 {
        return ValueError;
      }
      r := Loaded(heap, top.value);
    }
  }
}
