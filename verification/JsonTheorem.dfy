/** Strings, numbers and whitespace: the scanner reads back what the grammar writes. */
module JsonTokens {
  import opened Arithmetic
  import opened Basics
  import opened JsonObjects
  import opened JsonScanner
  import opened JsonMachine
  import opened JsonGrammar

  /** The text `s` stands at position `p`. */
  ghost predicate At(t: string, p: nat, s: string) {
    p + |s| <= |t| && t[p..p + |s|] == s
  }

  lemma AtSplit(t: string, p: nat, a: string, b: string)
    requires At(t, p, a + b)
    ensures At(t, p, a) && At(t, p + |a|, b)
  {
    var s := a + b;
    assert t[p..p + |a|] == t[p..p + |s|][..|a|] == s[..|a|] == a;
    assert t[p + |a|..p + |a| + |b|] == t[p..p + |s|][|a|..] == s[|a|..] == b;
  }

  lemma AtChar(t: string, p: nat, s: string, k: nat)
    requires At(t, p, s) && k < |s|
    ensures p + k < |t| && Cur(t, p + k) == s[k]
  {
    assert t[p..p + |s|][k] == t[p + k];
  }

  // ---------- strings ----------

  lemma NibbleOfByte(b: bv8)
    requires 0x30 <= b <= 0x39 || 0x41 <= b <= 0x46 || 0x61 <= b <= 0x66
    ensures var n := (b | 0x20) - 0x30;
            (if n > 9 then n - 39 else n) ==
            if b <= 0x39 then b - 0x30 else if b <= 0x46 then b - 55 else b - 87
  {
  }

  lemma ByteOfAsChar(b: bv8)
    ensures Byte(AsChar(b)) == b
  {
    hide ByteOf, ValueOf;
    SameByte(Byte(AsChar(b)), b);
  }

  lemma NibbleOfHexDigit(n: bv8, upper: bool)
    requires n < 16
    ensures Nibble(HexDigit(n, upper)) == n
  {
    var b: bv8 := if n < 10 then n + 0x30 else if upper then n + 55 else n + 87;
    ByteOfAsChar(b);
    NibbleOfByte(b);
  }

  function Combine(a: bv8, b: bv8, c: bv8, d: bv8): bv32 {
    Joined(Joined(Joined(Joined(0, a), b), c), d)
  }

  function Joined(n: bv32, digit: bv8): bv32 {
    (n << 4) | digit as bv32
  }

  /** The digits of the grammar are the usual ones. */
  lemma HexDigitIs(n: bv8, upper: bool)
    requires n < 16
    ensures HexDigit(n, upper) == (if upper then "0123456789ABCDEF" else "0123456789abcdef")[NibbleNumber(n)]
  {
    var b: bv8 := if n < 10 then n + 0x30 else if upper then n + 55 else n + 87;
    assert ValueOf(b) == NibbleNumber(n) + if n < 10 then 48 else if upper then 55 else 87;
  }

  function NibbleNumber(n: bv8): nat
    requires n < 16
  {
    if n == 0 then 0 else if n == 1 then 1 else if n == 2 then 2 else if n == 3 then 3
    else if n == 4 then 4 else if n == 5 then 5 else if n == 6 then 6 else if n == 7 then 7
    else if n == 8 then 8 else if n == 9 then 9 else if n == 10 then 10 else if n == 11 then 11
    else if n == 12 then 12 else if n == 13 then 13 else if n == 14 then 14 else 15
  }

  /** Four digits from the left: the code is their number to the base sixteen. */
  lemma CodeOfNibbles(code: bv16)
    ensures code == (FirstNibble(code) as bv16 << 12) | (SecondNibble(code) as bv16 << 8) |
                    (ThirdNibble(code) as bv16 << 4) | FourthNibble(code) as bv16
  {
  }

  /** The short escapes. */
  lemma EscapesAre()
    ensures CharMeaning(Escape('n')) == "\n" && CharMeaning(Escape('r')) == "\r" && CharMeaning(Escape('t')) == "\t"
    ensures CharMeaning(Escape('b')) == "\U{0008}" && CharMeaning(Escape('f')) == "\U{000c}"
    ensures CharMeaning(Escape('"')) == "\"" && CharMeaning(Escape('\\')) == "\\" && CharMeaning(Escape('/')) == "/"
  {
  }

  predicate IsOne(u: bv8, c: bv32) {
    u & 0x80 == 0 && c == u as bv32
  }

  predicate IsTwo(u: bv8, v: bv8, c: bv32) {
    u & 0xe0 == 0xc0 && v & 0xc0 == 0x80 && c == ((u & 0x1f) as bv32 << 6) | (v & 0x3f) as bv32
  }

  predicate IsThree(u: bv8, v: bv8, w: bv8, c: bv32) {
    && u & 0xf0 == 0xe0 && v & 0xc0 == 0x80 && w & 0xc0 == 0x80
    && c == ((u & 0x0f) as bv32 << 12) | ((v & 0x3f) as bv32 << 6) | (w & 0x3f) as bv32
  }

  /** The bytes of a code of sixteen bits are its UTF-8 encoding: the right number of them, the marks of first and later
      bytes, and the code in the other bits. */
  lemma Utf8Is(c: bv32)
    requires c < 0x10000
    ensures var s := Utf8(c);
            if c < 0x80 then |s| == 1 && IsOne(Byte(s[0]), c)
            else if c < 0x800 then |s| == 2 && IsTwo(Byte(s[0]), Byte(s[1]), c)
            else |s| == 3 && IsThree(Byte(s[0]), Byte(s[1]), Byte(s[2]), c)
  {
    hide AsChar, Byte, Low, IsOne, IsTwo, IsThree;
    if c < 0x80 {
      OneByte(c);
    } else if c < 0x800 {
      TwoBytesOf(c);
    } else {
      ThreeBytesOf(c);
    }
  }

  lemma LowReadsBack(c: bv32)
    ensures Byte(Low(c)) == (c & 0xff) as bv8
  {
    hide AsChar, Byte;
    ByteOfAsChar((c & 0xff) as bv8);
  }

  lemma OneByte(c: bv32)
    requires c < 0x80
    ensures IsOne(Byte(Low(c)), c)
  {
    hide Byte, Low;
    LowReadsBack(c);
  }

  lemma TwoBytesOf(c: bv32)
    requires c < 0x800
    ensures IsTwo(Byte(Low((c >> 6) | 0xC0)), Byte(Low((c & 0x3F) | 0x80)), c)
  {
    hide Byte, Low;
    LowReadsBack((c >> 6) | 0xC0);
    LowReadsBack((c & 0x3F) | 0x80);
  }

  lemma ThreeBytesOf(c: bv32)
    requires c < 0x10000
    ensures IsThree(Byte(Low((c >> 12) | 0xE0)), Byte(Low(((c >> 6) & 0x3F) | 0x80)), Byte(Low((c & 0x3F) | 0x80)), c)
  {
    hide Byte, Low;
    LowReadsBack((c >> 12) | 0xE0);
    LowReadsBack(((c >> 6) & 0x3F) | 0x80);
    LowReadsBack((c & 0x3F) | 0x80);
  }

  lemma NibblesMakeCode(code: bv16)
    ensures Combine(FirstNibble(code), SecondNibble(code), ThirdNibble(code), FourthNibble(code)) == code as bv32
  {
  }

  lemma HexOfFour(t: string, p: nat)
    ensures Hex(t, p, 4) == Combine(Nibble(Cur(t, p)), Nibble(Cur(t, p + 1)), Nibble(Cur(t, p + 2)),
                                    Nibble(Cur(t, p + 3)))
  {
    hide Nibble, Cur, Hex, Joined;
    HexOneMore(t, p, 0);
    HexOneMore(t, p, 1);
    HexOneMore(t, p, 2);
    HexOneMore(t, p, 3);
  }

  lemma HexOneMore(t: string, p: nat, count: nat)
    ensures Hex(t, p, 0) == 0 && Hex(t, p, count + 1) == Joined(Hex(t, p, count), Nibble(Cur(t, p + count)))
  {
    hide Nibble, Cur;
  }

  lemma HexReadsCode(t: string, p: nat, code: bv16, upper: (bool, bool, bool, bool))
    requires At(t, p, HexText(code, upper))
    ensures Hex(t, p, 4) == code as bv32
  {
    hide Nibble, HexDigit, Hex, Combine, FirstNibble, SecondNibble, ThirdNibble, FourthNibble;
    var s := HexText(code, upper);
    AtChar(t, p, s, 0);
    AtChar(t, p, s, 1);
    AtChar(t, p, s, 2);
    AtChar(t, p, s, 3);
    NibblesAreSmall(code);
    NibbleOfHexDigit(FirstNibble(code), upper.0);
    NibbleOfHexDigit(SecondNibble(code), upper.1);
    NibbleOfHexDigit(ThirdNibble(code), upper.2);
    NibbleOfHexDigit(FourthNibble(code), upper.3);
    HexOfFour(t, p);
    NibblesMakeCode(code);
  }

  lemma ScanChar(t: string, p: nat, c: StrChar)
    requires c.Valid() && At(t, p, CharText(c))
    ensures Cur(t, p) != EOF && Cur(t, p) != '"'
    ensures StringStep(t, p) == (CharMeaning(c), p + |CharText(c)|)
  {
    hide Hex, Utf8, HexText, At, Unescape;
    AtChar(t, p, CharText(c), 0);
    match c
    case Plain(_) =>
    case Escape(e) =>
      AtChar(t, p, CharText(c), 1);
      EscapeMeans(e);
    case Unicode(code, upper) =>
      AtChar(t, p, CharText(c), 1);
      AtSplit(t, p, ['\\', 'u'], HexText(code, upper));
      HexReadsCode(t, p + 2, code, upper);
      FourDigits(code, upper);
  }

  lemma EscapeMeans(e: char)
    ensures CharMeaning(Escape(e)) == [Unescape(e)]
  {
  }

  lemma FourDigits(code: bv16, upper: (bool, bool, bool, bool))
    ensures |HexText(code, upper)| == 4
  {
  }

  /** Every way of writing a string is read back as the string. */
  lemma {:induction false} ScanChars(t: string, p: nat, cs: seq<StrChar>)
    requires ValidChars(cs) && At(t, p, CharsText(cs) + "\"")
    ensures ScanString(t, p) == Found(StringMeaning(cs), p + |CharsText(cs)| + 1)
    decreases |cs|
  {
    hide StringStep, CharText, CharMeaning;
    if cs == [] {
      AtChar(t, p, "\"", 0);
      assert CharsText(cs) + "\"" == "\"";
    } else {
      var head, rest := CharText(cs[0]), CharsText(cs[1..]) + "\"";
      assert CharsText(cs) + "\"" == head + rest;
      AtSplit(t, p, head, rest);
      ScanChar(t, p, cs[0]);
      ScanChars(t, p + |head|, cs[1..]);
    }
  }

  // ---------- numbers ----------

  lemma {:induction false} RunReads(t: string, p: nat, s: string)
    requires At(t, p, s) && (forall i :: 0 <= i < |s| ==> IsNumChar(s[i]))
    requires !IsNumChar(Cur(t, p + |s|))
    ensures RunEnd(t, p) == p + |s|
    decreases |s|
  {
    if s != "" {
      AtChar(t, p, s, 0);
      assert s == [s[0]] + s[1..];
      AtSplit(t, p, [s[0]], s[1..]);
      RunReads(t, p + 1, s[1..]);
    }
  }

  lemma IntegerReads(negative: bool, ds: string)
    requires ds != "" && forall i :: 0 <= i < |ds| ==> IsDigit(ds[i])
    ensures NumberValue((if negative then "-" else "") + ds) ==
            Some(Int(if negative then -DigitsValue(ds) else DigitsValue(ds)))
    ensures WrittenAs(ds, DigitsValue(ds))
  {
    hide DigitsValue, WrittenAs;
    ValueIsWritten(ds);
    var s := (if negative then "-" else "") + ds;
    if negative {
      assert s[1..] == ds;
    } else {
      assert s == ds;
      assert IsDigit(s[0]);
    }
    assert forall i :: 1 <= i < |s| ==> IsDigit(s[i]);
  }

  lemma DigitIs(d: nat)
    requires d < 10
    ensures IsDigit(DIGITS[d]) && DIGITS[d] as int - '0' as int == d
  {
  }

  lemma DigitBack(c: char)
    requires IsDigit(c)
    ensures 0 <= c as int - '0' as int < 10 && DIGITS[c as int - '0' as int] == c
  {
  }

  /** One digit more multiplies by ten. */
  lemma OneMoreDigit(s: string, c: char)
    requires AllDigits(s) && IsDigit(c)
    ensures AllDigits(s + [c]) && DigitsValue(s + [c]) == 10 * DigitsValue(s) + (c as int - '0' as int)
  {
    assert (s + [c])[..|s|] == s;
  }

  predicate AllDigits(s: string) {
    forall i :: 0 <= i < |s| ==> IsDigit(s[i])
  }

  /** The decimal writing of every number is read as that number. */
  lemma {:induction false} DecimalReads(n: nat)
    ensures AllDigits(Decimal(n)) && DigitsValue(Decimal(n)) == n
  {
    hide DigitsValue, IsDigit;
    NoDigits();
    if n < 10 {
      DigitIs(n);
      OneMoreDigit("", DIGITS[n]);
      assert "" + [DIGITS[n]] == [DIGITS[n]];
    } else {
      DecimalReads(n / 10);
      DigitIs(n % 10);
      OneMoreDigit(Decimal(n / 10), DIGITS[n % 10]);
    }
  }

  lemma NoDigits()
    ensures DigitsValue("") == 0
  {
  }

  lemma {:induction false} ZerosReadAsNothing(k: nat, ds: string)
    requires AllDigits(ds)
    ensures AllDigits(Zeros(k) + ds) && DigitsValue(Zeros(k) + ds) == DigitsValue(ds)
    decreases |ds|, k
  {
    hide DigitsValue, IsDigit;
    NoDigits();
    DigitIs(0);
    if ds != "" {
      var init, c := ds[..|ds| - 1], ds[|ds| - 1];
      ZerosReadAsNothing(k, init);
      OneMoreDigit(Zeros(k) + init, c);
      OneMoreDigit(init, c);
      assert ds == init + [c] && Zeros(k) + ds == Zeros(k) + init + [c];
    } else if k > 0 {
      ZerosReadAsNothing(k - 1, "");
      assert Zeros(k - 1) + "" == Zeros(k - 1) && Zeros(k) + "" == Zeros(k);
      OneMoreDigit(Zeros(k - 1), '0');
    } else {
      assert Zeros(0) + "" == "";
    }
  }

  lemma DecimalOneMore(n: nat, d: nat)
    requires d < 10
    ensures n > 0 ==> Decimal(10 * n + d) == Decimal(n) + [DIGITS[d]]
    ensures Decimal(d) == [DIGITS[d]] && Decimal(0) == "0"
  {
    assert n > 0 ==> (10 * n + d) / 10 == n && (10 * n + d) % 10 == d;
  }

  lemma WrittenOneMore(init: string, n: int, d: nat)
    requires WrittenAs(init, n) && d < 10
    ensures WrittenAs(init + [DIGITS[d]], 10 * n + d)
  {
    var k :| 0 <= k <= |init| && init == Zeros(k) + Decimal(n);
    DecimalOneMore(n, d);
    hide Decimal;
    if n == 0 {
      assert init + [DIGITS[d]] == Zeros(k + 1) + Decimal(d);
    } else {
      assert init + [DIGITS[d]] == Zeros(k) + Decimal(10 * n + d);
    }
  }

  lemma WrittenAlone(d: nat)
    requires d < 10
    ensures WrittenAs([DIGITS[d]], d)
  {
    assert [DIGITS[d]] == Zeros(0) + Decimal(d);
  }

  /** The value of any digits is the number of which they are the decimal writing, and no other. */
  lemma {:induction false} ValueIsWritten(ds: string)
    requires ds != "" && AllDigits(ds)
    ensures 0 <= DigitsValue(ds) && WrittenAs(ds, DigitsValue(ds))
  {
    hide DigitsValue, IsDigit, WrittenAs, Decimal;
    var init, c := ds[..|ds| - 1], ds[|ds| - 1];
    var d := c as int - '0' as int;
    DigitBack(c);
    OneMoreDigit(init, c);
    NoDigits();
    assert ds == init + [c];
    if init == "" {
      assert ds == [DIGITS[d]];
      WrittenAlone(d);
    } else {
      ValueIsWritten(init);
      WrittenOneMore(init, DigitsValue(init), d);
    }
  }

  lemma WrittenOnce(ds: string, n: int)
    requires WrittenAs(ds, n)
    ensures AllDigits(ds) && DigitsValue(ds) == n
  {
    hide DigitsValue, IsDigit;
    var k :| 0 <= k <= |ds| && ds == Zeros(k) + Decimal(n);
    DecimalReads(n);
    ZerosReadAsNothing(k, Decimal(n));
  }

  /** An optional sign and a decimal writing. */
  ghost predicate SignedAs(s: string, n: int) {
    || WrittenAs(s, n)
    || (s != "" && s[0] == '+' && WrittenAs(s[1..], n))
    || (s != "" && s[0] == '-' && WrittenAs(s[1..], -n))
  }

  /** Any text is read as a number if and only if it writes that number. */
  lemma IntegerIff(s: string, n: int)
    ensures ParseInteger(s) == Some(n) <==> SignedAs(s, n)
  {
    hide WrittenAs, DigitsValue;
    WrittenByDigits(s, n);
    assert AllDigits(s) && s != "" ==> IsDigit(s[0]);
    DigitsIff(Unsigned(s), if s != "" && s[0] == '-' then -n else n);
    assert !AllDigits(Unsigned(s)) ==> exists i :: 0 <= i < |Unsigned(s)| && !IsDigit(Unsigned(s)[i]);
  }

  lemma DigitsIff(ds: string, n: int)
    ensures WrittenAs(ds, n) <==> ds != "" && AllDigits(ds) && DigitsValue(ds) == n
  {
    hide DigitsValue, WrittenAs, IsDigit;
    WrittenByDigits(ds, n);
    if ds != "" && AllDigits(ds) {
      ValueIsWritten(ds);
    }
  }

  lemma WrittenByDigits(ds: string, n: int)
    ensures WrittenAs(ds, n) ==> ds != "" && AllDigits(ds) && DigitsValue(ds) == n
  {
    hide DigitsValue, WrittenAs;
    if WrittenAs(ds, n) {
      WrittenOnce(ds, n);
      SomeDigit(ds, n);
    }
  }

  lemma SomeDigit(ds: string, n: int)
    requires WrittenAs(ds, n)
    ensures ds != ""
  {
  }

  // ---------- whitespace ----------

  lemma RoundSkips(t: string, p: nat, st: State)
    requires st.Valid() && IsSkipped(Cur(t, p))
    ensures Round(t, p, st) == Go(p + 1, st)
  {
  }

  lemma {:induction false} SkipRounds(t: string, p: nat, s: string, st: State)
    requires st.Valid() && At(t, p, s) && forall i :: 0 <= i < |s| ==> IsSkipped(s[i])
    ensures Rounds(t, p, st) == Rounds(t, p + |s|, st)
    decreases |s|
  {
    hide Round, IsSkipped;
    if s != "" {
      AtChar(t, p, s, 0);
      assert s == [s[0]] + s[1..];
      AtSplit(t, p, [s[0]], s[1..]);
      RoundSkips(t, p, st);
      SkipRounds(t, p + 1, s[1..], st);
    }
  }

  lemma {:induction false} SkipTrailing(t: string, p: nat, s: string)
    requires At(t, p, s) && IsWhite(s) && p + |s| == |t|
    ensures SkipSpace(t, p) == |t|
    decreases |s|
  {
    if s != "" {
      AtChar(t, p, s, 0);
      assert s == [s[0]] + s[1..];
      AtSplit(t, p, [s[0]], s[1..]);
      SkipTrailing(t, p + 1, s[1..]);
    }
  }
}

/** The explicit-stack parser agrees with the recursive grammar. */
module JsonTheorem {
  import opened Basics
  import opened JsonObjects
  import opened JsonScanner
  import opened JsonMachine
  import opened JsonGrammar
  import opened JsonTokens

  /** The innermost container waits for a value: a list, or a dictionary with a pending key. */
  ghost predicate Awaits(st: State) {
    && st.Valid() && st.top.Some?
    && match st.heap[st.top.value.r]
       case ListObj(_) => st.key.None?
       case DictObj(_) => st.key.Some?
  }

  /** The container after it has received `v`. */
  function Put(o: Obj, key: Option<Val>, v: Val): Obj {
    match o
    case ListObj(items) => ListObj(items + [v])
    case DictObj(entries) => if key.Some? then DictObj(entries[key.value := v]) else o
  }

  /** `st'` differs from `st` only by what container `n` holds and by new objects. */
  ghost predicate Grown(st: State, st': State, n: nat) {
    && st.Valid() && st'.Valid() && st'.stack == st.stack && st'.top == st.top && st'.key.None?
    && |st.heap| <= |st'.heap|
    && forall i :: 0 <= i < |st.heap| && i != n ==> st'.heap[i] == st.heap[i]
  }

  /** The value `v` of document `d` has been put into the innermost container, and nothing else. */
  ghost predicate Received(st: State, st': State, v: Val, d: Doc) {
    && Awaits(st) && Grown(st, st', st.top.value.r)
    && st'.heap[st.top.value.r] == Put(st.heap[st.top.value.r], st.key, v)
    && Means(st'.heap, |st.heap|, v, d)
  }

  /** The array at `v`, seen from outside: what its items mean. */
  lemma ArrayParts(h: Heap, lo: nat, v: Val, d: Doc)
    requires d.Array? && Means(h, lo, v, d)
    ensures v.Ref? && lo <= v.r < |h| && h[v.r].ListObj? && |h[v.r].items| == |d.items|
    ensures forall i :: 0 <= i < |d.items| ==> Means(h, v.r + 1, h[v.r].items[i], d.items[i].value)
  {
  }

  lemma ArrayWhole(h: Heap, lo: nat, v: Val, d: Doc)
    requires d.Array? && v.Ref? && lo <= v.r < |h| && h[v.r].ListObj? && |h[v.r].items| == |d.items|
    requires forall i :: 0 <= i < |d.items| ==> Means(h, v.r + 1, h[v.r].items[i], d.items[i].value)
    ensures Means(h, lo, v, d)
  {
  }

  ghost predicate HasKeysOf(entries: map<Val, Val>, ms: seq<Member>) {
    forall k :: k in entries <==> exists i :: 0 <= i < |ms| && KeyOf(ms[i]) == k
  }

  /** The object at `v`: what the last member of each key means. */
  lemma ObjectParts(h: Heap, lo: nat, v: Val, d: Doc)
    requires d.Object? && Means(h, lo, v, d)
    ensures v.Ref? && lo <= v.r < |h| && h[v.r].DictObj? && HasKeysOf(h[v.r].entries, d.members)
    ensures forall i :: 0 <= i < |d.members| && IsLast(d.members, i) ==>
              && KeyOf(d.members[i]) in h[v.r].entries
              && Means(h, v.r + 1, h[v.r].entries[KeyOf(d.members[i])], d.members[i].value)
  {
  }

  lemma ObjectWhole(h: Heap, lo: nat, v: Val, d: Doc)
    requires d.Object? && v.Ref? && lo <= v.r < |h| && h[v.r].DictObj? && HasKeysOf(h[v.r].entries, d.members)
    requires forall i :: 0 <= i < |d.members| && IsLast(d.members, i) ==>
               && KeyOf(d.members[i]) in h[v.r].entries
               && Means(h, v.r + 1, h[v.r].entries[KeyOf(d.members[i])], d.members[i].value)
    ensures Means(h, lo, v, d)
  {
  }

  lemma ScalarMeans(h: Heap, h': Heap, lo: nat, lo': nat, v: Val, d: Doc)
    requires IsScalar(d) && Means(h, lo, v, d)
    ensures Means(h', lo', v, d)
  {
  }

  /** A value keeps its meaning when only objects below it change and new ones appear. */
  lemma {:induction false} MeansIsLocal(h: Heap, h': Heap, lo: nat, lo': nat, v: Val, d: Doc)
    requires Means(h, lo, v, d) && lo' <= lo && |h| <= |h'|
    requires forall i :: lo <= i < |h| ==> h'[i] == h[i]
    ensures Means(h', lo', v, d)
    decreases d
  {
    hide Means, KeyOf, IsLast, HasKeysOf;
    if d.Array? {
      ArrayParts(h, lo, v, d);
      forall i | 0 <= i < |d.items|
        ensures Means(h', v.r + 1, h[v.r].items[i], d.items[i].value)
      {
        MeansIsLocal(h, h', v.r + 1, v.r + 1, h[v.r].items[i], d.items[i].value);
      }
      ArrayWhole(h', lo', v, d);
    } else if d.Object? {
      ObjectParts(h, lo, v, d);
      forall i | 0 <= i < |d.members| && IsLast(d.members, i)
        ensures Means(h', v.r + 1, h[v.r].entries[KeyOf(d.members[i])], d.members[i].value)
      {
        MeansIsLocal(h, h', v.r + 1, v.r + 1, h[v.r].entries[KeyOf(d.members[i])], d.members[i].value);
      }
      ObjectWhole(h', lo', v, d);
    } else {
      ScalarMeans(h, h', lo, lo', v, d);
    }
  }

  predicate IsScalar(d: Doc) {
    !d.Array? && !d.Object?
  }

  function ScalarValue(d: Doc): Val
    requires IsScalar(d) && ValidDoc(d)
  {
    match d
    case Null => Val.None
    case True => Bool(true)
    case False => Bool(false)
    case Integer(negative, ds) => Int(if negative then -DigitsValue(ds) else DigitsValue(ds))
    case Real(s) => Float(s)
    case Text(cs) => Str(StringMeaning(cs))
  }

  lemma RoundReadsNumber(t: string, p: nat, st: State, s: string, v: Val)
    requires st.Valid() && s != "" && At(t, p, s) && (s[0] == '-' || IsDigit(s[0]))
    requires forall i :: 0 <= i < |s| ==> IsNumChar(s[i])
    requires !IsNumChar(Cur(t, p + |s|)) && NumberValue(s) == Some(v)
    ensures Round(t, p, st) == Attach(st, v, false, p + |s|)
  {
    hide NumberValue, Attach;
    AtChar(t, p, s, 0);
    assert s == [s[0]] + s[1..];
    AtSplit(t, p, [s[0]], s[1..]);
    RunReads(t, p + 1, s[1..]);
  }

  lemma RoundReadsString(t: string, p: nat, st: State, cs: seq<StrChar>)
    requires st.Valid() && ValidChars(cs) && At(t, p, Quoted(cs))
    ensures Round(t, p, st) == Attach(st, Str(StringMeaning(cs)), false, p + |Quoted(cs)|)
  {
    hide ScanString, Attach, Round, CharsText, StringMeaning, At;
    AtChar(t, p, Quoted(cs), 0);
    assert Quoted(cs) == "\"" + (CharsText(cs) + "\"");
    AtSplit(t, p, "\"", CharsText(cs) + "\"");
    ScanChars(t, p + 1, cs);
    RoundOnQuote(t, p, st, StringMeaning(cs), p + |Quoted(cs)|);
  }

  lemma RoundOnQuote(t: string, p: nat, st: State, s: string, next: nat)
    requires st.Valid() && Cur(t, p) == '"' && ScanString(t, p + 1) == Found(s, next)
    ensures Round(t, p, st) == Attach(st, Str(s), false, next)
  {
    hide ScanString, Attach;
  }

  lemma RoundReadsWord(t: string, p: nat, st: State, d: Doc)
    requires st.Valid() && (d.Null? || d.True? || d.False?) && At(t, p, Write(d))
    ensures Round(t, p, st) == Attach(st, ScalarValue(d), false, p + |Write(d)|)
  {
    hide Attach;
    var w := Write(d);
    forall k | 0 <= k < |w|
      ensures Cur(t, p + k) == w[k]
    {
      AtChar(t, p, w, k);
    }
    assert Cur(t, p + 0) == w[0];
    assert Spells(t, p + 1, w[1..]);
    if d.Null? {
      assert w[1..] == "ull";
    } else if d.True? {
      assert w[1..] == "rue";
    } else {
      assert w[1..] == "alse";
    }
  }

  /** A scalar is read in one round. */
  lemma RoundReadsScalar(t: string, p: nat, st: State, d: Doc)
    requires st.Valid() && IsScalar(d) && ValidDoc(d) && At(t, p, Write(d))
    requires !IsNumChar(Cur(t, p + |Write(d)|))
    ensures Round(t, p, st) == Attach(st, ScalarValue(d), false, p + |Write(d)|)
    ensures forall h, lo :: Means(h, lo, ScalarValue(d), d)
  {
    hide Round, Attach, NumberValue, At, Quoted, DigitsValue, WrittenAs;
    match d
    case Integer(negative, ds) =>
      ValueIsWritten(ds);
      IntegerReads(negative, ds);
      RoundReadsNumber(t, p, st, Write(d), ScalarValue(d));
    case Real(s) =>
      RealReads(s);
      RoundReadsNumber(t, p, st, s, Float(s));
    case Text(cs) => RoundReadsString(t, p, st, cs);
    case _ => RoundReadsWord(t, p, st, d);
  }

  lemma RealReads(s: string)
    requires IsRealText(s)
    ensures NumberValue(s) == Some(Float(s))
  {
  }

  // ---------- values inside containers ----------

  lemma AttachScalar(st: State, v: Val, d: Doc, p: nat) returns (st': State)
    requires Awaits(st) && forall h, lo :: Means(h, lo, v, d)
    ensures Attach(st, v, false, p) == Go(p, st') && Received(st, st', v, d)
  {
    hide Means;
    st' := Attach(st, v, false, p).st;
    assert Means(st'.heap, |st.heap|, v, d);
  }

  /** The round that opens a container: the new object is already in its parent. */
  lemma AttachContainer(st: State, o: Obj, p: nat) returns (inner: State)
    requires Awaits(st) && (o == ListObj([]) || o == DictObj(map[]))
    ensures Attach(st.(heap := st.heap + [o]), Ref(|st.heap|), true, p) == Go(p, inner)
    ensures inner.Valid() && inner.key.None? && inner.top == Some(Ref(|st.heap|))
    ensures inner.stack == st.stack + [st.top.value.r]
    ensures inner.heap == st.heap[st.top.value.r := Put(st.heap[st.top.value.r], st.key, Ref(|st.heap|))] + [o]
  {
    inner := Attach(st.(heap := st.heap + [o]), Ref(|st.heap|), true, p).st;
  }

  /** Closing the container that was opened from `st` gives back its parent with the value in it. */
  lemma CloseContainer(st: State, inner: State, filled: State, d: Doc, p: nat) returns (st': State)
    requires Awaits(st) && inner.Valid() && inner.top == Some(Ref(|st.heap|))
    requires inner.stack == st.stack + [st.top.value.r]
    requires exists o ::
               inner.heap == st.heap[st.top.value.r := Put(st.heap[st.top.value.r], st.key, Ref(|st.heap|))] + [o]
    requires Grown(inner, filled, |st.heap|) && Means(filled.heap, |st.heap|, Ref(|st.heap|), d)
    ensures Close(filled, p) == Go(p, st') && Received(st, st', Ref(|st.heap|), d)
  {
    hide Means;
    st' := Close(filled, p).st;
    assert filled.stack[..|filled.stack| - 1] == st.stack;
  }

  lemma RoundOpens(t: string, p: nat, st: State, d: Doc)
    requires st.Valid() && !IsScalar(d) && At(t, p, Write(d))
    ensures Round(t, p, st) ==
            Attach(st.(heap := st.heap + [if d.Array? then ListObj([]) else DictObj(map[])]), Ref(|st.heap|),
                   true, p + 1)
  {
    hide Attach, WriteItems, WriteMembers;
    AtChar(t, p, Write(d), 0);
  }

  lemma RoundCloses(t: string, p: nat, st: State)
    requires st.Valid() && (Cur(t, p) == ']' || Cur(t, p) == '}')
    ensures Round(t, p, st) == Close(st, p + 1)
  {
    hide Close;
  }

  lemma GoOn(t: string, p: nat, st: State, next: nat, st': State)
    requires st.Valid() && Round(t, p, st) == Go(next, st')
    ensures st'.Valid() && Rounds(t, p, st) == Rounds(t, next, st')
  {
    hide Round;
    RoundAdvances(t, p, st);
  }

  lemma WhiteIsSkipped(s: string)
    requires IsWhite(s)
    ensures forall i :: 0 <= i < |s| ==> IsSkipped(s[i]) && !IsNumChar(s[i])
  {
  }

  /** What follows a value is not part of a number. */
  lemma NotANumberNext(t: string, p: nat, after: string)
    requires IsWhite(after) && At(t, p, after) && !IsNumChar(Cur(t, p + |after|))
    ensures !IsNumChar(Cur(t, p))
  {
    hide IsNumChar;
    WhiteIsSkipped(after);
    if after != "" {
      AtChar(t, p, after, 0);
    }
  }

  /** An open list or dictionary that waits for its next item or key. */
  ghost predicate Open(st: State) {
    st.Valid() && st.top.Some? && st.key.None?
  }

  ghost predicate ListGrown(st: State, st': State, vals: seq<Val>, items: seq<Item>) {
    && Open(st) && Grown(st, st', st.top.value.r)
    && var n := st.top.value.r;
       && st.heap[n].ListObj? && st'.heap[n] == ListObj(st.heap[n].items + vals) && |vals| == |items|
       && forall i :: 0 <= i < |items| ==> Means(st'.heap, n + 1, vals[i], items[i].value)
  }

  ghost predicate HasKey(ms: seq<Member>, k: Val) {
    exists i :: 0 <= i < |ms| && KeyOf(ms[i]) == k
  }

  ghost predicate DictGrown(st: State, st': State, ms: seq<Member>) {
    && Open(st) && Grown(st, st', st.top.value.r)
    && var n := st.top.value.r;
       && st.heap[n].DictObj? && st'.heap[n].DictObj?
       && (forall k :: k in st'.heap[n].entries <==> k in st.heap[n].entries || HasKey(ms, k))
       && (forall k :: k in st.heap[n].entries && !HasKey(ms, k) ==> st'.heap[n].entries[k] == st.heap[n].entries[k])
       && (forall i :: 0 <= i < |ms| && IsLast(ms, i) ==>
             KeyOf(ms[i]) in st'.heap[n].entries &&
             Means(st'.heap, n + 1, st'.heap[n].entries[KeyOf(ms[i])], ms[i].value))
  }

  /** Inside a container, the rounds over the text of a document put its value there and go on behind it. */
  lemma {:induction false} ReadsValue(t: string, p: nat, st: State, d: Doc) returns (st': State, v: Val)
    requires Awaits(st) && ValidDoc(d) && At(t, p, Write(d)) && !IsNumChar(Cur(t, p + |Write(d)|))
    ensures Received(st, st', v, d)
    ensures Rounds(t, p, st) == Rounds(t, p + |Write(d)|, st')
    decreases d, 1
  {
    hide Round, Rounds, Means, At, Attach, Close, Received, IsNumChar;
    if IsScalar(d) {
      RoundReadsScalar(t, p, st, d);
      v := ScalarValue(d);
      st' := AttachScalar(st, v, d, p + |Write(d)|);
      GoOn(t, p, st, p + |Write(d)|, st');
    } else {
      RoundOpens(t, p, st, d);
      var inner := AttachContainer(st, if d.Array? then ListObj([]) else DictObj(map[]), p + 1);
      GoOn(t, p, st, p + 1, inner);
      var filled, q := ReadsContent(t, p, inner, d);
      v := Ref(|st.heap|);
      st' := CloseContainer(st, inner, filled, d, q + 1);
      RoundCloses(t, q, filled);
      GoOn(t, q, filled, q + 1, st');
    }
  }

  // ---------- how the text of a container falls into parts ----------

  lemma SplitContainer(t: string, p: nat, d: Doc)
    requires !IsScalar(d) && At(t, p, Write(d))
    ensures At(t, p + 1, d.ws)
    ensures var w := if d.Array? then WriteItems(d.items) else WriteMembers(d.members);
            && At(t, p + 1 + |d.ws|, w) && |Write(d)| == |d.ws| + |w| + 2
            && Cur(t, p + 1 + |d.ws| + |w|) == if d.Array? then ']' else '}'
  {
    hide At, WriteItems, WriteMembers;
    var w := if d.Array? then WriteItems(d.items) else WriteMembers(d.members);
    var open, close := if d.Array? then "[" else "{", if d.Array? then "]" else "}";
    assert Write(d) == open + (d.ws + (w + close));
    AtSplit(t, p, open, d.ws + (w + close));
    AtSplit(t, p + 1, d.ws, w + close);
    AtSplit(t, p + 1 + |d.ws|, w, close);
    AtChar(t, p + 1 + |d.ws| + |w|, close, 0);
  }

  lemma SplitItem(t: string, p: nat, i: Item)
    requires At(t, p, WriteItem(i))
    ensures At(t, p, i.before) && At(t, p + |i.before|, Write(i.value))
    ensures At(t, p + |i.before| + |Write(i.value)|, i.after)
    ensures |WriteItem(i)| == |i.before| + |Write(i.value)| + |i.after|
  {
    hide At, Write;
    assert WriteItem(i) == i.before + (Write(i.value) + i.after);
    AtSplit(t, p, i.before, Write(i.value) + i.after);
    AtSplit(t, p + |i.before|, Write(i.value), i.after);
  }

  lemma SplitItems(t: string, p: nat, items: seq<Item>)
    requires items != [] && At(t, p, WriteItems(items))
    ensures var p1 := p + |WriteItem(items[0])|;
            && At(t, p, WriteItem(items[0]))
            && if |items| == 1 then p + |WriteItems(items)| == p1
               else
                 && Cur(t, p1) == ',' && At(t, p1 + 1, WriteItems(items[1..]))
                 && p + |WriteItems(items)| == p1 + 1 + |WriteItems(items[1..])|
  {
    hide At, WriteItem;
    var tail := if |items| == 1 then "" else "," + WriteItems(items[1..]);
    AtSplit(t, p, WriteItem(items[0]), tail);
    if |items| > 1 {
      AtChar(t, p + |WriteItem(items[0])|, tail, 0);
      AtSplit(t, p + |WriteItem(items[0])|, ",", WriteItems(items[1..]));
    }
  }

  lemma SplitMember(t: string, p: nat, m: Member)
    requires At(t, p, WriteMember(m))
    ensures var p1 := p + |m.before|;
            var p2 := p1 + |Quoted(m.key)|;
            var p3 := p2 + |m.colon.0| + 1 + |m.colon.1|;
            && At(t, p, m.before) && At(t, p1, Quoted(m.key))
            && At(t, p2, m.colon.0) && Cur(t, p2 + |m.colon.0|) == ':' && At(t, p2 + |m.colon.0| + 1, m.colon.1)
            && At(t, p3, Write(m.value)) && At(t, p3 + |Write(m.value)|, m.after)
            && p + |WriteMember(m)| == p3 + |Write(m.value)| + |m.after|
  {
    hide At, Write, Quoted;
    var tail := m.colon.0 + (":" + (m.colon.1 + (Write(m.value) + m.after)));
    AtSplit(t, p, m.before, Quoted(m.key) + tail);
    AtSplit(t, p + |m.before|, Quoted(m.key), tail);
    SplitColon(t, p + |m.before| + |Quoted(m.key)|, m.colon.0, m.colon.1, Write(m.value) + m.after);
    AtSplit(t, p + |m.before| + |Quoted(m.key)| + |m.colon.0| + 1 + |m.colon.1|, Write(m.value), m.after);
  }

  lemma SplitColon(t: string, p: nat, before: string, after: string, rest: string)
    requires At(t, p, before + (":" + (after + rest)))
    ensures At(t, p, before) && Cur(t, p + |before|) == ':' && At(t, p + |before| + 1, after)
    ensures At(t, p + |before| + 1 + |after|, rest)
  {
    hide At;
    AtSplit(t, p, before, ":" + (after + rest));
    AtChar(t, p + |before|, ":" + (after + rest), 0);
    AtSplit(t, p + |before|, ":", after + rest);
    AtSplit(t, p + |before| + 1, after, rest);
  }

  lemma SplitMembers(t: string, p: nat, ms: seq<Member>)
    requires ms != [] && At(t, p, WriteMembers(ms))
    ensures var p1 := p + |WriteMember(ms[0])|;
            && At(t, p, WriteMember(ms[0]))
            && if |ms| == 1 then p + |WriteMembers(ms)| == p1
               else
                 && Cur(t, p1) == ',' && At(t, p1 + 1, WriteMembers(ms[1..]))
                 && p + |WriteMembers(ms)| == p1 + 1 + |WriteMembers(ms[1..])|
  {
    hide At, WriteMember;
    var tail := if |ms| == 1 then "" else "," + WriteMembers(ms[1..]);
    AtSplit(t, p, WriteMember(ms[0]), tail);
    if |ms| > 1 {
      AtChar(t, p + |WriteMember(ms[0])|, tail, 0);
      AtSplit(t, p + |WriteMember(ms[0])|, ",", WriteMembers(ms[1..]));
    }
  }

  lemma SkipWhite(t: string, p: nat, s: string, st: State)
    requires st.Valid() && At(t, p, s) && IsWhite(s)
    ensures Rounds(t, p, st) == Rounds(t, p + |s|, st)
  {
    hide Rounds, At;
    WhiteIsSkipped(s);
    SkipRounds(t, p, s, st);
  }

  lemma SkipMark(t: string, p: nat, st: State)
    requires st.Valid() && (Cur(t, p) == ',' || Cur(t, p) == ':')
    ensures Rounds(t, p, st) == Rounds(t, p + 1, st)
  {
    hide Rounds, Round;
    RoundSkips(t, p, st);
    GoOn(t, p, st, p + 1, st);
  }

  // ---------- items and members ----------

  /** From just behind the opening bracket to the closing one. */
  lemma {:induction false} ReadsContent(t: string, p: nat, inner: State, d: Doc) returns (filled: State, q: nat)
    requires Open(inner) && ValidDoc(d) && !IsScalar(d) && At(t, p, Write(d))
    requires inner.heap[inner.top.value.r] == if d.Array? then ListObj([]) else DictObj(map[])
    ensures Grown(inner, filled, inner.top.value.r)
    ensures Means(filled.heap, inner.top.value.r, inner.top.value, d)
    ensures q + 1 == p + |Write(d)| && (Cur(t, q) == ']' || Cur(t, q) == '}')
    ensures Rounds(t, p + 1, inner) == Rounds(t, q, filled)
    decreases d, 0
  {
    hide Rounds, At, IsNumChar, Write, WriteItems, WriteMembers, Means, IsWhite, ValidDoc, Grown, ListGrown, DictGrown;
    ContentIsValid(d);
    SplitContainer(t, p, d);
    SkipWhite(t, p + 1, d.ws, inner);
    BracketIsNotANumber(if d.Array? then ']' else '}');
    var start := p + 1 + |d.ws|;
    if d.Array? {
      q := start + |WriteItems(d.items)|;
      var vals;
      filled, vals := ReadsItems(t, start, inner, d.items);
      ListMeans(inner, filled, vals, d);
    } else {
      q := start + |WriteMembers(d.members)|;
      filled := ReadsMembers(t, start, inner, d.members);
      DictMeans(inner, filled, d);
    }
  }

  lemma ContentIsValid(d: Doc)
    requires ValidDoc(d) && !IsScalar(d)
    ensures IsWhite(d.ws) && (if d.Array? then ValidItems(d.items) else ValidMembers(d.members))
  {
  }

  lemma ListMeans(st: State, st': State, vals: seq<Val>, d: Doc)
    requires d.Array? && ListGrown(st, st', vals, d.items) && st.heap[st.top.value.r] == ListObj([])
    ensures Grown(st, st', st.top.value.r) && Means(st'.heap, st.top.value.r, st.top.value, d)
  {
    assert st'.heap[st.top.value.r].items == vals;
  }

  lemma DictMeans(st: State, st': State, d: Doc)
    requires d.Object? && DictGrown(st, st', d.members) && st.heap[st.top.value.r] == DictObj(map[])
    ensures Grown(st, st', st.top.value.r) && Means(st'.heap, st.top.value.r, st.top.value, d)
  {
    var n := st.top.value.r;
    assert forall k :: k in st'.heap[n].entries <==> HasKey(d.members, k);
  }

  lemma BracketIsNotANumber(c: char)
    requires c == ']' || c == '}' || c == ','
    ensures !IsNumChar(c)
  {
  }

  /** One item has been appended. */
  ghost predicate ItemRead(st: State, st': State, v: Val, i: Item) {
    && Open(st) && Grown(st, st', st.top.value.r)
    && var n := st.top.value.r;
       && st.heap[n].ListObj? && st'.heap[n] == ListObj(st.heap[n].items + [v])
       && Means(st'.heap, n + 1, v, i.value)
  }

  lemma {:induction false} ReadsItem(t: string, p: nat, st: State, i: Item) returns (st': State, v: Val)
    requires Open(st) && st.heap[st.top.value.r].ListObj? && IsWhite(i.before) && ValidDoc(i.value) && IsWhite(i.after)
    requires At(t, p, WriteItem(i)) && !IsNumChar(Cur(t, p + |WriteItem(i)|))
    ensures ItemRead(st, st', v, i)
    ensures Rounds(t, p, st) == Rounds(t, p + |WriteItem(i)|, st')
    decreases i, 0
  {
    hide Rounds, Means, At, IsNumChar, IsWhite, Write, WriteItem, Cur;
    SplitItem(t, p, i);
    SkipWhite(t, p, i.before, st);
    var p1 := p + |i.before|;
    var p2 := p1 + |Write(i.value)|;
    NotANumberNext(t, p2, i.after);
    st', v := ReadsValue(t, p1, st, i.value);
    SkipWhite(t, p2, i.after, st');
    MeansIsLocal(st'.heap, st'.heap, |st.heap|, st.top.value.r + 1, v, i.value);
  }

  lemma {:induction false} ReadsItems(t: string, p: nat, st: State, items: seq<Item>)
    returns (st': State, vals: seq<Val>)
    requires Open(st) && st.heap[st.top.value.r].ListObj? && ValidItems(items)
    requires At(t, p, WriteItems(items)) && !IsNumChar(Cur(t, p + |WriteItems(items)|))
    ensures ListGrown(st, st', vals, items)
    ensures Rounds(t, p, st) == Rounds(t, p + |WriteItems(items)|, st')
    decreases items, 1
  {
    hide Rounds, Means, At, IsNumChar, IsWhite, WriteItem, Cur, ListGrown, ItemRead;
    if items == [] {
      st', vals := st, [];
      NoItems(st);
    } else {
      hide WriteItems;
      SplitItems(t, p, items);
      var p1 := p + |WriteItem(items[0])|;
      BracketIsNotANumber(',');
      var st1, v := ReadsItem(t, p, st, items[0]);
      ItemLeavesOpen(st, st1, v, items[0]);
      if |items| == 1 {
        st', vals := st1, [v];
        OnlyItem(st, st1, v, items);
      } else {
        SkipMark(t, p1, st1);
        var rest;
        st', rest := ReadsItems(t, p1 + 1, st1, items[1..]);
        vals := [v] + rest;
        ItemsJoin(st, st1, st', v, rest, items);
      }
    }
  }

  lemma NoItems(st: State)
    requires Open(st) && st.heap[st.top.value.r].ListObj?
    ensures ListGrown(st, st, [], [])
  {
    hide Means;
    var n := st.top.value.r;
    assert st.heap[n].items + [] == st.heap[n].items;
  }

  lemma ItemLeavesOpen(st: State, st': State, v: Val, i: Item)
    requires ItemRead(st, st', v, i)
    ensures Open(st') && st'.heap[st'.top.value.r].ListObj?
  {
    hide Means;
  }

  lemma OnlyItem(st: State, st': State, v: Val, items: seq<Item>)
    requires |items| == 1 && ItemRead(st, st', v, items[0])
    ensures ListGrown(st, st', [v], items)
  {
    hide Means;
  }

  lemma ItemsJoin(st: State, st1: State, st': State, v: Val, rest: seq<Val>, items: seq<Item>)
    requires |items| > 1 && ItemRead(st, st1, v, items[0]) && ListGrown(st1, st', rest, items[1..])
    ensures ListGrown(st, st', [v] + rest, items)
  {
    hide Means;
    var n, vals := st.top.value.r, [v] + rest;
    MeansIsLocal(st1.heap, st'.heap, n + 1, n + 1, v, items[0].value);
    assert st.heap[n].items + [v] + rest == st.heap[n].items + vals;
    forall i | 0 <= i < |items|
      ensures Means(st'.heap, n + 1, vals[i], items[i].value)
    {
      if i > 0 {
        assert items[i] == items[1..][i - 1];
      }
    }
  }

  /** One member has been stored, replacing any earlier one with its key. */
  ghost predicate MemberRead(st: State, st': State, v: Val, m: Member) {
    && Open(st) && Grown(st, st', st.top.value.r)
    && var n := st.top.value.r;
       && st.heap[n].DictObj? && st'.heap[n] == DictObj(st.heap[n].entries[KeyOf(m) := v])
       && Means(st'.heap, n + 1, v, m.value)
  }

  lemma RoundReadsKey(t: string, p: nat, st: State, cs: seq<StrChar>)
    requires Open(st) && st.heap[st.top.value.r].DictObj? && ValidChars(cs) && At(t, p, Quoted(cs))
    ensures var st' := st.(key := Some(Str(StringMeaning(cs))));
            Awaits(st') && Rounds(t, p, st) == Rounds(t, p + |Quoted(cs)|, st')
  {
    hide Round, Rounds, At, Quoted, StringMeaning;
    RoundReadsString(t, p, st, cs);
    GoOn(t, p, st, p + |Quoted(cs)|, st.(key := Some(Str(StringMeaning(cs)))));
  }

  lemma {:induction false} ReadsMember(t: string, p: nat, st: State, m: Member) returns (st': State, v: Val)
    requires Open(st) && st.heap[st.top.value.r].DictObj? && IsWhite(m.before) && ValidChars(m.key)
    requires IsWhite(m.colon.0) && IsWhite(m.colon.1) && ValidDoc(m.value) && IsWhite(m.after)
    requires At(t, p, WriteMember(m)) && !IsNumChar(Cur(t, p + |WriteMember(m)|))
    ensures MemberRead(st, st', v, m)
    ensures Rounds(t, p, st) == Rounds(t, p + |WriteMember(m)|, st')
    decreases m, 0
  {
    hide Rounds, Means, At, IsNumChar, Quoted, IsWhite, Write, WriteMember, Cur, StringMeaning, ValidChars;
    SplitMember(t, p, m);
    SkipWhite(t, p, m.before, st);
    var p1 := p + |m.before|;
    RoundReadsKey(t, p1, st, m.key);
    var keyed := st.(key := Some(Str(StringMeaning(m.key))));
    var p2 := p1 + |Quoted(m.key)|;
    SkipWhite(t, p2, m.colon.0, keyed);
    SkipMark(t, p2 + |m.colon.0|, keyed);
    SkipWhite(t, p2 + |m.colon.0| + 1, m.colon.1, keyed);
    var p3 := p2 + |m.colon.0| + 1 + |m.colon.1|;
    var p4 := p3 + |Write(m.value)|;
    NotANumberNext(t, p4, m.after);
    st', v := ReadsValue(t, p3, keyed, m.value);
    SkipWhite(t, p4, m.after, st');
    MeansIsLocal(st'.heap, st'.heap, |st.heap|, st.top.value.r + 1, v, m.value);
  }

  lemma {:induction false} ReadsMembers(t: string, p: nat, st: State, ms: seq<Member>) returns (st': State)
    requires Open(st) && st.heap[st.top.value.r].DictObj? && ValidMembers(ms)
    requires At(t, p, WriteMembers(ms)) && !IsNumChar(Cur(t, p + |WriteMembers(ms)|))
    ensures DictGrown(st, st', ms)
    ensures Rounds(t, p, st) == Rounds(t, p + |WriteMembers(ms)|, st')
    decreases ms, 1
  {
    hide Rounds, Means, At, IsNumChar, IsWhite, ValidChars, WriteMember, Cur, DictGrown, MemberRead;
    if ms == [] {
      st' := st;
      NoMembers(st);
    } else {
      hide WriteMembers;
      SplitMembers(t, p, ms);
      var p1 := p + |WriteMember(ms[0])|;
      BracketIsNotANumber(',');
      var st1, v := ReadsMember(t, p, st, ms[0]);
      MemberLeavesOpen(st, st1, v, ms[0]);
      if |ms| == 1 {
        st' := st1;
        OnlyMember(st, st1, v, ms);
      } else {
        SkipMark(t, p1, st1);
        st' := ReadsMembers(t, p1 + 1, st1, ms[1..]);
        MembersJoin(st, st1, st', v, ms);
      }
    }
  }

  lemma NoMembers(st: State)
    requires Open(st) && st.heap[st.top.value.r].DictObj?
    ensures DictGrown(st, st, [])
  {
    hide Means;
  }

  lemma MemberLeavesOpen(st: State, st': State, v: Val, m: Member)
    requires MemberRead(st, st', v, m)
    ensures Open(st') && st'.heap[st'.top.value.r].DictObj?
  {
    hide Means;
  }

  lemma OnlyMember(st: State, st': State, v: Val, ms: seq<Member>)
    requires |ms| == 1 && MemberRead(st, st', v, ms[0])
    ensures DictGrown(st, st', ms)
  {
    hide Means, KeyOf;
    assert forall k :: HasKey(ms, k) <==> k == KeyOf(ms[0]);
  }

  lemma KeysJoin(ms: seq<Member>, k: Val)
    requires ms != []
    ensures HasKey(ms, k) <==> k == KeyOf(ms[0]) || HasKey(ms[1..], k)
  {
    hide KeyOf;
    var rest := ms[1..];
    if i :| 0 <= i < |rest| && KeyOf(rest[i]) == k {
      assert KeyOf(ms[i + 1]) == k;
    }
    if i :| 0 <= i < |ms| && KeyOf(ms[i]) == k {
      assert i > 0 ==> rest[i - 1] == ms[i];
    }
  }

  lemma MembersJoin(st: State, st1: State, st': State, v: Val, ms: seq<Member>)
    requires |ms| > 1 && MemberRead(st, st1, v, ms[0]) && DictGrown(st1, st', ms[1..])
    ensures DictGrown(st, st', ms)
  {
    hide Means, KeyOf, HasKey, IsLast;
    var n, rest := st.top.value.r, ms[1..];
    forall k
      ensures HasKey(ms, k) <==> k == KeyOf(ms[0]) || HasKey(rest, k)
    {
      KeysJoin(ms, k);
    }
    forall i | 0 <= i < |ms| && IsLast(ms, i)
      ensures KeyOf(ms[i]) in st'.heap[n].entries &&
              Means(st'.heap, n + 1, st'.heap[n].entries[KeyOf(ms[i])], ms[i].value)
    {
      if i == 0 {
        MeansIsLocal(st1.heap, st'.heap, n + 1, n + 1, v, ms[0].value);
        LastIsNotRepeated(ms);
      } else {
        LastInRest(ms, i);
      }
    }
  }

  lemma LastInRest(ms: seq<Member>, i: int)
    requires 0 < i < |ms| && IsLast(ms, i)
    ensures ms[1..][i - 1] == ms[i] && IsLast(ms[1..], i - 1)
  {
    hide KeyOf;
    assert forall j :: 0 <= j < |ms[1..]| ==> ms[1..][j] == ms[j + 1];
  }

  lemma LastIsNotRepeated(ms: seq<Member>)
    requires ms != [] && IsLast(ms, 0)
    ensures !HasKey(ms[1..], KeyOf(ms[0]))
  {
    hide KeyOf;
    assert forall i :: 0 <= i < |ms[1..]| ==> ms[1..][i] == ms[i + 1];
  }

  // ---------- whole texts ----------

  /** The law of the parser: any valid text of any document, with whitespace around it, is loaded as
      the value of the document. */
  lemma LoadsEveryText(before: string, d: Doc, after: string)
    requires IsWhite(before) && IsWhite(after) && ValidDoc(d)
    ensures var r := Load(before + Write(d) + after);
            r.Loaded? && Means(r.heap, 0, r.value, d)
  {
    hide Round, Rounds, Means, At, Attach, Close, IsNumChar, Grown, Write, ValidDoc, IsWhite;
    var t := before + Write(d) + after;
    var p := |before|;
    var q := p + |Write(d)|;
    TextParts(t, before, Write(d), after);
    WhiteIsSkipped(before);
    SkipRounds(t, 0, before, START);
    assert !IsNumChar(Cur(t, q)) by {
      EndIsNotANumber();
      NotANumberNext(t, q, after);
    }
    SkipTrailing(t, q, after);
    TopLevel(t, p, d);
  }

  lemma TextParts(t: string, before: string, text: string, after: string)
    requires t == before + text + after
    ensures At(t, 0, before) && At(t, |before|, text) && At(t, |before| + |text|, after)
    ensures |t| == |before| + |text| + |after|
  {
    hide At;
    assert t == before + (text + after);
    WholeText(t);
    AtSplit(t, 0, before, text + after);
    AtSplit(t, |before|, text, after);
  }

  lemma WholeText(t: string)
    ensures At(t, 0, t)
  {
  }

  lemma EndIsNotANumber()
    ensures !IsNumChar(EOF)
  {
  }

  lemma TopLevel(t: string, p: nat, d: Doc)
    requires ValidDoc(d) && At(t, p, Write(d)) && !IsNumChar(Cur(t, p + |Write(d)|))
    ensures var r := Rounds(t, p, START);
            && r.Finish? && r.next == p + |Write(d)| && r.st.stack == [] && r.st.top.Some?
            && Means(r.st.heap, 0, r.st.top.value, d)
  {
    hide Round, Means, At, IsNumChar;
    if IsScalar(d) {
      RoundReadsScalar(t, p, START, d);
    } else {
      RoundOpens(t, p, START, d);
      var inner := State([if d.Array? then ListObj([]) else DictObj(map[])], [], Some(Ref(0)), Option.None);
      assert START.heap + [if d.Array? then ListObj([]) else DictObj(map[])] == inner.heap;
      GoOn(t, p, START, p + 1, inner);
      var filled, q := ReadsContent(t, p, inner, d);
      RoundCloses(t, q, filled);
    }
  }
}
