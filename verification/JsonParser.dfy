/** The objects that the JSON parser builds. Lists and dictionaries live in a heap and are changed in
    place after they have been put into their parent, as in the interpreter. */
module JsonObjects {
  import opened Basics

  datatype Val = None | Bool(b: bool) | Int(n: int) | Float(text: string) | Str(s: string) | Ref(r: nat)

  datatype Obj = ListObj(items: seq<Val>) | DictObj(entries: map<Val, Val>)

  type Heap = seq<Obj>

  /** `stack_top`, the stack below it, and the dictionary key that waits for its value. */
  datatype State = State(heap: Heap, stack: seq<nat>, top: Option<Val>, key: Option<Val>) {
    ghost predicate Valid() {
      && (forall i :: 0 <= i < |stack| ==> stack[i] < |heap|)
      && (top.Some? ==> top.value.Ref? && top.value.r < |heap|)
      && (top.None? ==> stack == [] && key.None?)
    }
  }

  datatype Result = Loaded(heap: Heap, value: Val) | ValueError
}

/** The reader: bytes, strings and numbers. A byte zero stands for the end of the stream. */
module JsonScanner {
  import opened Arithmetic
  import opened Basics
  import opened JsonObjects

  const EOF: char := '\0'

  function Cur(t: string, p: nat): char {
    if p < |t| then t[p] else EOF
  }

  predicate IsSkipped(c: char) {
    c == ',' || c == ':' || c == ' ' || c == '\t' || c == '\n' || c == '\r'
  }

  /** `unichar_isspace`. */
  predicate IsSpace(c: char) {
    c == ' ' || 9 as char <= c <= 13 as char
  }

  predicate IsDigit(c: char) { '0' <= c <= '9' }

  predicate IsFloatMark(c: char) { c == '.' || c == 'E' || c == 'e' }

  predicate IsNumChar(c: char) {
    IsFloatMark(c) || c == '+' || c == '-' || IsDigit(c)
  }

  /** The character classes, by their codes. */
  lemma CharacterClasses(c: char)
    ensures IsSkipped(c) <==> c as int in {0x2c, 0x3a, 0x20, 0x09, 0x0a, 0x0d}
    ensures IsSpace(c) <==> c as int in {0x20, 0x09, 0x0a, 0x0b, 0x0c, 0x0d}
    ensures IsDigit(c) <==> 0x30 <= c as int <= 0x39
    ensures IsFloatMark(c) <==> c as int in {0x2e, 0x45, 0x65}
    ensures IsNumChar(c) <==> 0x30 <= c as int <= 0x39 || c as int in {0x2b, 0x2d, 0x2e, 0x45, 0x65}
    ensures EOF as int == 0
  {
  }

  function Byte(c: char): bv8 {
    ByteOf(c as int % 256)
  }

  function AsChar(b: bv8): char {
    ValueOf(b) as char
  }

  /** The byte arithmetic on one hexadecimal digit, without any check that it is one. */
  function Nibble(c: char): bv8 {
    var n := (Byte(c) | 0x20) - 0x30;
    if n > 9 then n - 39 else n
  }

  function Hex(t: string, p: nat, count: nat): bv32
    decreases count
  {
    if count == 0 then 0 else (Hex(t, p, count - 1) << 4) | Nibble(Cur(t, p + count - 1)) as bv32
  }

  /** `vstr_add_char`: the UTF-8 bytes of a code point. */
  function Utf8(c: bv32): string {
    if c < 0x80 then [Low(c)]
    else if c < 0x800 then [Low((c >> 6) | 0xC0), Low((c & 0x3F) | 0x80)]
    else if c < 0x10000 then [Low((c >> 12) | 0xE0), Low(((c >> 6) & 0x3F) | 0x80), Low((c & 0x3F) | 0x80)]
    else [Low((c >> 18) | 0xF0), Low(((c >> 12) & 0x3F) | 0x80), Low(((c >> 6) & 0x3F) | 0x80), Low((c & 0x3F) | 0x80)]
  }

  function Low(c: bv32): char {
    AsChar((c & 0xff) as bv8)
  }

  /** The byte that a one-letter escape stands for; any other letter stands for itself. */
  function Unescape(c: char): char {
    match c
    case 'b' => 8 as char
    case 'f' => 12 as char
    case 'n' => 10 as char
    case 'r' => 13 as char
    case 't' => 9 as char
    case _ => c
  }

  datatype Scan = Found(text: string, next: nat) | Bad

  /** What one round of the string loop adds, and where the next round starts. */
  function StringStep(t: string, p: nat): (string, nat) {
    if Cur(t, p) != '\\' then ([Cur(t, p)], p + 1)
    else if Cur(t, p + 1) != 'u' then ([Unescape(Cur(t, p + 1))], p + 2)
    else (Utf8(Hex(t, p + 2, 4)), p + 6)
  }

  /** The rest of a string whose opening quote has been read. */
  function ScanString(t: string, p: nat): Scan
    decreases |t| - p
  {
    if Cur(t, p) == EOF then Bad
    else if Cur(t, p) == '"' then Found("", p + 1)
    else
      var (piece, q) := StringStep(t, p);
      if q > |t| then Bad
      else
        match ScanString(t, q)
        case Bad => Bad
        case Found(rest, next) => Found(piece + rest, next)
  }

  /** The end of the run of number characters from `p` on. */
  function RunEnd(t: string, p: nat): (q: nat)
    ensures p <= q && (p <= |t| ==> q <= |t|)
    decreases |t| - p
  {
    if IsNumChar(Cur(t, p)) then RunEnd(t, p + 1) else p
  }

  /** Digits read from the left. */
  function DigitsValue(s: string): int
    requires forall i :: 0 <= i < |s| ==> IsDigit(s[i])
  {
    if s == "" then 0 else 10 * DigitsValue(s[..|s| - 1]) + (s[|s| - 1] as int - '0' as int)
  }

  /** The text behind an optional sign. */
  function Unsigned(s: string): string {
    if |s| > 0 && (s[0] == '-' || s[0] == '+') then s[1..] else s
  }

  /** `mp_parse_num_integer` in base ten, on the characters that the number loop lets through. */
  function ParseInteger(s: string): Option<int> {
    var neg := |s| > 0 && s[0] == '-';
    var ds := Unsigned(s);
    if ds == "" || exists i :: 0 <= i < |ds| && !IsDigit(ds[i]) then Option.None
    else Some(if neg then -DigitsValue(ds) else DigitsValue(ds))
  }

  /** The value of the text of a number. */
  function NumberValue(s: string): Option<Val> {
    if exists i :: 1 <= i < |s| && IsFloatMark(s[i]) then Some(Float(s))
    else match ParseInteger(s)
      case Some(n) => Some(Int(n))
      case None => Option.None
  }
}

/** The explicit-stack parser, as a function from one position and state to the next. */
module JsonMachine {
  import opened Basics
  import opened JsonObjects
  import opened JsonScanner

  datatype Step = Go(next: nat, st: State) | Finish(next: nat, st: State) | Fail

  /** Puts `v` into the innermost container, or makes it the result; `enter` says that it is a new
      container to go into. */
  function Attach(st: State, v: Val, enter: bool, p: nat): Step
    requires st.Valid()
  {
    if st.top.None? then
      if enter then Go(p, st.(top := Some(v))) else Finish(p, st.(top := Some(v)))
    else
      var r := st.top.value.r;
      match st.heap[r]
      case ListObj(items) => Enter(st.(heap := st.heap[r := ListObj(items + [v])]), v, enter, p)
      case DictObj(entries) =>
        if st.key.None? then
          if enter then Fail else Go(p, st.(key := Some(v)))
        else
          Enter(st.(heap := st.heap[r := DictObj(entries[st.key.value := v])], key := Option.None), v, enter, p)
  }

  function Enter(st: State, v: Val, enter: bool, p: nat): Step
    requires st.top.Some? && st.top.value.Ref?
  {
    if enter then Go(p, st.(stack := st.stack + [st.top.value.r], top := Some(v))) else Go(p, st)
  }

  function Close(st: State, p: nat): Step
    requires st.Valid()
  {
    if st.top.None? then Fail
    else if |st.stack| == 0 then Finish(p, st)
    else Go(p, st.(stack := st.stack[..|st.stack| - 1], top := Some(Ref(st.stack[|st.stack| - 1]))))
  }

  predicate Spells(t: string, p: nat, word: string) {
    forall i :: 0 <= i < |word| ==> Cur(t, p + i) == word[i]
  }

  /** One round of the main loop. */
  function Round(t: string, p: nat, st: State): Step
    requires st.Valid()
  {
    var c := Cur(t, p);
    if c == EOF then Fail
    else if IsSkipped(c) then Go(p + 1, st)
    else if c == 'n' then
      if Spells(t, p + 1, "ull") then Attach(st, Val.None, false, p + 4) else Fail
    else if c == 'f' then
      if Spells(t, p + 1, "alse") then Attach(st, Bool(false), false, p + 5) else Fail
    else if c == 't' then
      if Spells(t, p + 1, "rue") then Attach(st, Bool(true), false, p + 4) else Fail
    else if c == '"' then
      match ScanString(t, p + 1)
      case Bad => Fail
      case Found(s, next) => Attach(st, Str(s), false, next)
    else if c == '-' || IsDigit(c) then
      var q := RunEnd(t, p + 1);
      match NumberValue(t[p..q])
      case None => Fail
      case Some(v) => Attach(st, v, false, q)
    else if c == '[' then
      Attach(st.(heap := st.heap + [ListObj([])]), Ref(|st.heap|), true, p + 1)
    else if c == '{' then
      Attach(st.(heap := st.heap + [DictObj(map[])]), Ref(|st.heap|), true, p + 1)
    else if c == '}' || c == ']' then Close(st, p + 1)
    else Fail
  }

  lemma {:induction false} ScanAdvances(t: string, p: nat)
    ensures ScanString(t, p).Found? ==> p < ScanString(t, p).next <= |t|
    decreases |t| - p
  {
    if Cur(t, p) != EOF && Cur(t, p) != '"' {
      var (piece, q) := StringStep(t, p);
      if q <= |t| {
        ScanAdvances(t, q);
      }
    }
  }

  /** Every round moves forward and keeps the state well formed. */
  lemma RoundAdvances(t: string, p: nat, st: State)
    requires st.Valid()
    ensures Round(t, p, st).Go? ==> p < |t| && p < Round(t, p, st).next && Round(t, p, st).st.Valid()
    ensures Round(t, p, st).Finish? ==> Round(t, p, st).st.top.Some?
  {
    hide ScanString, NumberValue, RunEnd, Spells;
    ScanAdvances(t, p + 1);
  }

  /** The rounds from `p` on. */
  function Rounds(t: string, p: nat, st: State): Step
    requires st.Valid()
    decreases if p < |t| then |t| - p else 0
  {
    RoundAdvances(t, p, st);
    match Round(t, p, st)
    case Go(next, st') => Rounds(t, next, st')
    case Finish(next, st') => Finish(next, st')
    case Fail => Fail
  }

  function SkipSpace(t: string, p: nat): nat
    decreases |t| - p
  {
    if IsSpace(Cur(t, p)) then SkipSpace(t, p + 1) else p
  }

  /** The end of the text, after the value. */
  function Conclude(t: string, step: Step): Result {
    if !step.Finish? then ValueError
    else if Cur(t, SkipSpace(t, step.next)) != EOF then ValueError
    else if step.st.top.None? || |step.st.stack| != 0 then ValueError
    else Loaded(step.st.heap, step.st.top.value)
  }

  const START := State([], [], Option.None, Option.None)

  function Load(t: string): Result {
    Conclude(t, Rounds(t, 0, START))
  }
}
