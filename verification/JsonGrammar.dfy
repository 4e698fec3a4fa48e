/** The grammar of section 2 of RFC 4627, as trees that keep every choice a writer has: whitespace,
    escapes, duplicate keys. `Text` writes such a tree, `Means` says what it denotes. */
module JsonGrammar {
  import opened JsonObjects
  import opened JsonScanner

  /** One character of a string literal, as written. */
  datatype StrChar =
    | Plain(c: char)
    | Escape(letter: char)
    | Unicode(code: bv16, upper: (bool, bool, bool, bool))
  {
    predicate Valid() {
      match this
      case Plain(c) => c >= ' ' && c != '"' && c != '\\'
      case Escape(c) => c in {'"', '\\', '/', 'b', 'f', 'n', 'r', 't'}
      case Unicode(_, _) => true
    }
  }

  datatype Doc =
    | Null | True | False
    | Integer(negative: bool, digits: string)
    | Real(text: string)
    | Text(chars: seq<StrChar>)
    | Array(ws: string, items: seq<Item>)
    | Object(ws: string, members: seq<Member>)

  datatype Item = Item(before: string, value: Doc, after: string)

  datatype Member = Member(before: string, key: seq<StrChar>, colon: (string, string), value: Doc, after: string)

  predicate IsWhite(s: string) {
    forall i :: 0 <= i < |s| ==> s[i] == ' ' || s[i] == '\t' || s[i] == '\n' || s[i] == '\r'
  }

  predicate ValidChars(cs: seq<StrChar>) {
    forall i :: 0 <= i < |cs| ==> cs[i].Valid()
  }

  /** A superset of the RFC's numbers with a fraction or an exponent. */
  predicate IsRealText(s: string) {
    && |s| > 0 && (s[0] == '-' || IsDigit(s[0]))
    && (forall i :: 0 <= i < |s| ==> IsNumChar(s[i]))
    && (exists i :: 1 <= i < |s| && IsFloatMark(s[i]))
  }

  predicate ValidDoc(d: Doc)
    decreases d, 1
  {
    match d
    case Integer(_, ds) => ds != "" && forall i :: 0 <= i < |ds| ==> IsDigit(ds[i])
    case Real(s) => IsRealText(s)
    case Text(cs) => ValidChars(cs)
    case Array(ws, items) => IsWhite(ws) && ValidItems(items)
    case Object(ws, members) => IsWhite(ws) && ValidMembers(members)
    case _ => true
  }

  predicate ValidItems(items: seq<Item>)
    decreases items, 0
  {
    items == [] ||
    (IsWhite(items[0].before) && ValidDoc(items[0].value) && IsWhite(items[0].after) && ValidItems(items[1..]))
  }

  predicate ValidMembers(ms: seq<Member>)
    decreases ms, 0
  {
    ms == [] ||
    (IsWhite(ms[0].before) && ValidChars(ms[0].key) && IsWhite(ms[0].colon.0) && IsWhite(ms[0].colon.1) &&
     ValidDoc(ms[0].value) && IsWhite(ms[0].after) && ValidMembers(ms[1..]))
  }

  // ---------- writing ----------

  function HexDigit(n: bv8, upper: bool): char
    requires n < 16
  {
    if n < 10 then AsChar(n + 0x30) else if upper then AsChar(n + 55) else AsChar(n + 87)
  }

  function FirstNibble(code: bv16): bv8 { ((code >> 12) & 0xf) as bv8 }
  function SecondNibble(code: bv16): bv8 { ((code >> 8) & 0xf) as bv8 }
  function ThirdNibble(code: bv16): bv8 { ((code >> 4) & 0xf) as bv8 }
  function FourthNibble(code: bv16): bv8 { (code & 0xf) as bv8 }

  lemma NibblesAreSmall(code: bv16)
    ensures FirstNibble(code) < 16 && SecondNibble(code) < 16 && ThirdNibble(code) < 16 && FourthNibble(code) < 16
  {
  }

  /** The four digits of a code unit, each in either case. */
  function HexText(code: bv16, upper: (bool, bool, bool, bool)): string {
    NibblesAreSmall(code);
    [HexDigit(FirstNibble(code), upper.0), HexDigit(SecondNibble(code), upper.1),
     HexDigit(ThirdNibble(code), upper.2), HexDigit(FourthNibble(code), upper.3)]
  }

  function CharText(c: StrChar): string {
    match c
    case Plain(c) => [c]
    case Escape(c) => ['\\', c]
    case Unicode(code, upper) => ['\\', 'u'] + HexText(code, upper)
  }

  function CharsText(cs: seq<StrChar>): string {
    if cs == [] then "" else CharText(cs[0]) + CharsText(cs[1..])
  }

  function Quoted(cs: seq<StrChar>): string {
    "\"" + CharsText(cs) + "\""
  }

  function Write(d: Doc): string
    decreases d, 1
  {
    match d
    case Null => "null"
    case True => "true"
    case False => "false"
    case Integer(negative, ds) => (if negative then "-" else "") + ds
    case Real(s) => s
    case Text(cs) => Quoted(cs)
    case Array(ws, items) => "[" + ws + WriteItems(items) + "]"
    case Object(ws, members) => "{" + ws + WriteMembers(members) + "}"
  }

  function WriteItem(i: Item): string
    decreases i, 2
  {
    i.before + Write(i.value) + i.after
  }

  function WriteItems(items: seq<Item>): string
    decreases items, 0
  {
    if items == [] then ""
    else WriteItem(items[0]) + (if |items| == 1 then "" else "," + WriteItems(items[1..]))
  }

  function WriteMember(m: Member): string
    decreases m, 2
  {
    m.before + (Quoted(m.key) + (m.colon.0 + (":" + (m.colon.1 + (Write(m.value) + m.after)))))
  }

  function WriteMembers(ms: seq<Member>): string
    decreases ms, 0
  {
    if ms == [] then ""
    else WriteMember(ms[0]) + (if |ms| == 1 then "" else "," + WriteMembers(ms[1..]))
  }

  // ---------- meaning ----------

  const DIGITS := "0123456789"

  /** The decimal writing of a number, without leading zeros. */
  function Decimal(n: nat): string {
    if n < 10 then [DIGITS[n]] else Decimal(n / 10) + [DIGITS[n % 10]]
  }

  function Zeros(k: nat): string {
    if k == 0 then "" else Zeros(k - 1) + "0"
  }

  /** The digits are the decimal writing of `n`, perhaps behind zeros. */
  predicate WrittenAs(ds: string, n: int) {
    0 <= n && exists k :: 0 <= k <= |ds| && ds == Zeros(k) + Decimal(n)
  }

  function CharMeaning(c: StrChar): string {
    match c
    case Plain(c) => [c]
    case Escape(c) =>
      [match c
       case 'b' => 8 as char
       case 'f' => 12 as char
       case 'n' => 10 as char
       case 'r' => 13 as char
       case 't' => 9 as char
       case _ => c]
    case Unicode(code, _) => Utf8(code as bv32)
  }

  function StringMeaning(cs: seq<StrChar>): string {
    if cs == [] then "" else CharMeaning(cs[0]) + StringMeaning(cs[1..])
  }

  function KeyOf(m: Member): Val {
    Str(StringMeaning(m.key))
  }

  /** No later member has the key of member `i`. */
  predicate IsLast(ms: seq<Member>, i: int)
    requires 0 <= i < |ms|
  {
    forall j :: i < j < |ms| ==> KeyOf(ms[j]) != KeyOf(ms[i])
  }

  /** `v` is the value that the document denotes. Containers are found in the heap, at places from
      `lo` on: an array holds the values of its items in order, an object the value of the last member
      of each key and nothing else. */
  ghost predicate Means(h: Heap, lo: nat, v: Val, d: Doc)
    decreases d
  {
    match d
    case Null => v == Val.None
    case True => v == Bool(true)
    case False => v == Bool(false)
    case Integer(negative, ds) => v.Int? && WrittenAs(ds, if negative then -v.n else v.n)
    case Real(s) => v == Float(s)
    case Text(cs) => v == Str(StringMeaning(cs))
    case Array(_, items) =>
      && v.Ref? && lo <= v.r < |h| && h[v.r].ListObj?
      && |h[v.r].items| == |items|
      && forall i :: 0 <= i < |items| ==> Means(h, v.r + 1, h[v.r].items[i], items[i].value)
    case Object(_, ms) =>
      && v.Ref? && lo <= v.r < |h| && h[v.r].DictObj?
      && (forall k :: k in h[v.r].entries <==> exists i :: 0 <= i < |ms| && KeyOf(ms[i]) == k)
      && forall i :: 0 <= i < |ms| && IsLast(ms, i) ==>
           KeyOf(ms[i]) in h[v.r].entries && Means(h, v.r + 1, h[v.r].entries[KeyOf(ms[i])], ms[i].value)
  }
}
