/** Base64 as the binascii module does it (section 4 of RFC 4648). */
module Base64 {
  import opened Arithmetic
  import opened Basics

  const PAD: bv8 := 0x3d
  const NEWLINE: bv8 := 0x0a

  /** The character of a sextet; 64 stands for the padding. */
  function Letter(v: bv8): bv8 {
    if v < 26 then v + 0x41
    else if v < 52 then v + 71
    else if v < 62 then v - 4
    else if v == 62 then 0x2b
    else if v == 63 then 0x2f
    else PAD
  }

  function Sextet(ch: bv8): Option<bv8> {
    if 0x41 <= ch <= 0x5a then Some(ch - 0x41)
    else if 0x61 <= ch <= 0x7a then Some(ch - 71)
    else if 0x30 <= ch <= 0x39 then Some(ch + 4)
    else if ch == 0x2b then Some(62)
    else if ch == 0x2f then Some(63)
    else None
  }

  lemma SextetOfLetter(v: bv8)
    requires v < 64
    ensures Sextet(Letter(v)) == Some(v) && Letter(v) != PAD
  {
  }

  const UPPER := "ABCDEFGHIJKLMNOPQRSTUVWXYZ"
  const LOWER := "abcdefghijklmnopqrstuvwxyz"
  const DIGITS := "0123456789"

  /** The alphabet of Table 1 in section 4 of RFC 4648. */
  const ALPHABET := UPPER + LOWER + DIGITS + "+/"

  predicate IsChar(b: bv8, c: char) {
    ValueOf(b) == c as int
  }

  lemma UpperAt(n: nat)
    requires n < 26
    ensures |UPPER| == 26 && UPPER[n] as int == 65 + n
  {
  }

  lemma LowerAt(n: nat)
    requires n < 26
    ensures |LOWER| == 26 && LOWER[n] as int == 97 + n
  {
  }

  lemma DigitAt(n: nat)
    requires n < 10
    ensures |DIGITS| == 10 && DIGITS[n] as int == 48 + n
  {
  }

  function CharCode(n: nat): nat {
    if n < 26 then 65 + n else if n < 52 then 71 + n else if n < 62 then n - 4 else if n == 62 then 43 else 47
  }

  lemma AlphabetAt(n: nat)
    requires n < 64
    ensures |ALPHABET| == 64 && ALPHABET[n] as int == CharCode(n)
  {
    hide UPPER, LOWER, DIGITS;
    UpperAt(if n < 26 then n else 0);
    LowerAt(if 26 <= n < 52 then n - 26 else 0);
    DigitAt(if 52 <= n < 62 then n - 52 else 0);
  }

  lemma LetterCode(v: bv8)
    requires v < 64
    ensures ValueOf(v) < 64 && ValueOf(Letter(v)) == CharCode(ValueOf(v))
  {
  }

  /** The letters are the alphabet in its order, and 64 stands for the sign of equality. */
  lemma LetterIs(v: bv8)
    requires v <= 64
    ensures |ALPHABET| == 64 && ValueOf(v) <= 64 && (v == 64 <==> ValueOf(v) == 64)
    ensures IsChar(Letter(v), if ValueOf(v) == 64 then '=' else ALPHABET[ValueOf(v)])
  {
    hide ALPHABET, ValueOf, Letter;
    AlphabetAt(0);
    PadCode();
    if v < 64 {
      LetterCode(v);
      AlphabetAt(ValueOf(v));
    } else {
      assert v == 64;
    }
  }

  lemma PadCode()
    ensures Letter(64) == PAD && ValueOf(64) == 64 && IsChar(PAD, '=') && IsChar(NEWLINE, '\n')
  {
  }

  lemma SextetOfCode(ch: bv8, v: bv8)
    ensures Sextet(ch) == Some(v) <==> v < 64 && ch == Letter(v)
  {
  }

  /** A character is read as the place it has in the alphabet, and any other character is not a letter. */
  lemma SextetIs(ch: bv8)
    ensures |ALPHABET| == 64
    ensures Sextet(ch).Some? <==> exists k :: 0 <= k < 64 && IsChar(ch, ALPHABET[k])
    ensures forall k :: 0 <= k < 64 && IsChar(ch, ALPHABET[k]) ==> Sextet(ch) == Some(ByteOf(k))
  {
    hide ALPHABET, ValueOf, Letter, Sextet, ByteOf;
    AlphabetAt(0);
    if Sextet(ch).Some? {
      var v := Sextet(ch).value;
      SextetOfCode(ch, v);
      LetterIs(v);
      assert IsChar(ch, ALPHABET[ValueOf(v)]);
    }
    forall k | 0 <= k < 64 && IsChar(ch, ALPHABET[k])
      ensures Sextet(ch) == Some(ByteOf(k))
    {
      SmallByteOf(k);
      LetterIs(ByteOf(k));
      SameByte(ch, Letter(ByteOf(k)));
      SextetOfCode(ch, ByteOf(k));
    }
  }

  lemma SmallByteOf(k: nat)
    requires k < 64
    ensures ByteOf(k) < 64 && ValueOf(ByteOf(k)) == k
  {
    hide ByteOf;
  }

  // ---------- encoding ----------

  function First(a: bv8): bv8 { (a & 0xfc) >> 2 }
  function Second(a: bv8, b: bv8): bv8 { ((a & 0x03) << 4) | ((b & 0xf0) >> 4) }
  function Third(b: bv8, c: bv8): bv8 { ((b & 0x0f) << 2) | ((c & 0xc0) >> 6) }
  function Fourth(c: bv8): bv8 { c & 0x3f }

  /** The first pass: four numbers below 64 for each three bytes, and 64 for padding. */
  function Numbers(data: Bytes): Bytes {
    if |data| == 0 then []
    else if |data| == 1 then [First(data[0]), (data[0] & 0x03) << 4, 64, 64]
    else if |data| == 2 then [First(data[0]), Second(data[0], data[1]), (data[1] & 0x0f) << 2, 64]
    else [First(data[0]), Second(data[0], data[1]), Third(data[1], data[2]), Fourth(data[2])] + Numbers(data[3..])
  }

  function Letters(ns: Bytes): Bytes {
    seq(|ns|, i requires 0 <= i < |ns| => Letter(ns[i]))
  }

  function Encode(data: Bytes, newline: bool): Bytes {
    Letters(Numbers(data)) + if newline then [NEWLINE] else []
  }

  function Low2(a: bv8): bv8 { a & 0x03 }
  function Low4(b: bv8): bv8 { b & 0x0f }
  function High4(b: bv8): bv8 { (b & 0xf0) >> 4 }
  function High2(c: bv8): bv8 { (c & 0xc0) >> 6 }

  lemma BytesSplit(a: bv8)
    ensures ValueOf(a) == 4 * ValueOf(First(a)) + ValueOf(Low2(a))
    ensures ValueOf(a) == 16 * ValueOf(High4(a)) + ValueOf(Low4(a))
    ensures ValueOf(a) == 64 * ValueOf(High2(a)) + ValueOf(Fourth(a))
  {
  }

  lemma NumbersJoin(a: bv8, b: bv8)
    ensures ValueOf(Second(a, b)) == 16 * ValueOf(Low2(a)) + ValueOf(High4(b))
    ensures ValueOf(Third(a, b)) == 4 * ValueOf(Low4(a)) + ValueOf(High2(b))
    ensures ValueOf((a & 0x03) << 4) == 16 * ValueOf(Low2(a))
    ensures ValueOf((a & 0x0f) << 2) == 4 * ValueOf(Low4(a))
  {
  }

  /** The numbers of a group are the digits to base 64 of what its bytes spell, with zeros for the missing bits. */
  lemma GroupIs(a: bv8, b: bv8, c: bv8)
    ensures 65536 * ValueOf(a) + 256 * ValueOf(b) + ValueOf(c) ==
            262144 * ValueOf(First(a)) + 4096 * ValueOf(Second(a, b)) + 64 * ValueOf(Third(b, c)) + ValueOf(Fourth(c))
    ensures 4 * (256 * ValueOf(a) + ValueOf(b)) ==
            4096 * ValueOf(First(a)) + 64 * ValueOf(Second(a, b)) + ValueOf((b & 0x0f) << 2)
    ensures 16 * ValueOf(a) == 64 * ValueOf(First(a)) + ValueOf((a & 0x03) << 4)
  {
    hide First, Second, Third, Fourth, Low2, Low4, High2, High4, ValueOf;
    BytesSplit(a);
    BytesSplit(b);
    BytesSplit(c);
    NumbersJoin(a, b);
    NumbersJoin(b, c);
  }

  // ---------- decoding ----------

  /** The registers of the decoder; `stopped` after the padding that ends the input. */
  datatype Decoder = Decoder(shift: bv32, nbits: int, hadpad: bool, stopped: bool, out: Bytes) {
    predicate Valid() { nbits == 0 || nbits == 2 || nbits == 4 || nbits == 6 }
  }

  function Top(shift: bv32, nbits: int): bv8 {
    ((if nbits == 0 then shift else if nbits == 2 then shift >> 2 else shift >> 4) & 0xff) as bv8
  }

  /** One round of the decoding loop. */
  function Feed(d: Decoder, ch: bv8): Decoder {
    if d.stopped then d
    else if ch == PAD then
      if d.nbits == 2 || (d.nbits == 4 && d.hadpad) then d.(nbits := 0, stopped := true) else d.(hadpad := true)
    else match Sextet(ch)
      case None => d
      case Some(v) => Push(d.(hadpad := false), v)
  }

  function Shifted(shift: bv32, v: bv8): bv32 { (shift << 6) | v as bv32 }

  function Push(d: Decoder, v: bv8): Decoder {
    var shift := Shifted(d.shift, v);
    if d.nbits + 6 >= 8 then d.(shift := shift, nbits := d.nbits - 2, out := d.out + [Top(shift, d.nbits - 2)])
    else d.(shift := shift, nbits := d.nbits + 6)
  }

  function FeedAll(d: Decoder, s: Bytes): Decoder
    decreases |s|
  {
    if s == [] then d else FeedAll(Feed(d, s[0]), s[1..])
  }

  const FRESH := Decoder(0, 0, false, false, [])

  /** The decoded bytes; `None` for incorrect padding. */
  function Decode(s: Bytes): Option<Bytes> {
    var d := FeedAll(FRESH, s);
    if d.nbits != 0 then None else Some(d.out)
  }

  lemma {:induction false} FeedInParts(d: Decoder, a: Bytes, b: Bytes)
    ensures FeedAll(d, a + b) == FeedAll(FeedAll(d, a), b)
    decreases |a|
  {
    if a == [] {
      assert a + b == b;
    } else {
      assert (a + b)[1..] == a[1..] + b;
      FeedInParts(Feed(d, a[0]), a[1..], b);
    }
  }

  // ---------- the decoder undoes the encoder ----------

  lemma SextetsAreSmall(a: bv8, b: bv8)
    ensures First(a) < 64 && Second(a, b) < 64 && Third(a, b) < 64 && Fourth(a) < 64
  {
  }

  lemma FirstByteBack(s: bv32, a: bv8, b: bv8)
    ensures Top(Shifted(Shifted(s, First(a)), Second(a, b)), 4) == a
  {
  }

  lemma SecondByteBack(s: bv32, a: bv8, b: bv8, c: bv8)
    ensures Top(Shifted(Shifted(s, Second(a, b)), Third(b, c)), 2) == b
  {
  }

  lemma ThirdByteBack(s: bv32, b: bv8, c: bv8)
    ensures Top(Shifted(Shifted(s, Third(b, c)), Fourth(c)), 0) == c
  {
  }

  lemma PaddedIsZero(a: bv8)
    ensures (a & 0x03) << 4 == Second(a, 0) && (a & 0x0f) << 2 == Third(a, 0)
  {
  }

  lemma FeedLetter(d: Decoder, v: bv8)
    requires v < 64 && !d.stopped
    ensures Feed(d, Letter(v)) == Push(d.(hadpad := false), v)
  {
    hide Letter, Sextet;
    SextetOfLetter(v);
  }

  lemma PushTwo(d: Decoder, a: bv8, b: bv8)
    requires d.nbits == 0
    ensures var d2 := Push(Push(d, First(a)), Second(a, b));
            && d2.nbits == 4 && d2.out == d.out + [a] && d2.stopped == d.stopped && d2.hadpad == d.hadpad
            && d2.shift == Shifted(Shifted(d.shift, First(a)), Second(a, b))
  {
    hide First, Second, Shifted, Top;
    FirstByteBack(d.shift, a, b);
  }

  lemma PushThree(d: Decoder, a: bv8, b: bv8, c: bv8)
    requires d.nbits == 0
    ensures var d3 := Push(Push(Push(d, First(a)), Second(a, b)), Third(b, c));
            && d3.nbits == 2 && d3.out == d.out + [a, b] && d3.stopped == d.stopped && d3.hadpad == d.hadpad
            && d3.shift == Shifted(Shifted(Shifted(d.shift, First(a)), Second(a, b)), Third(b, c))
  {
    hide First, Second, Third, Shifted, Top;
    PushTwo(d, a, b);
    SecondByteBack(Shifted(d.shift, First(a)), a, b, c);
    assert d.out + [a] + [b] == d.out + [a, b];
  }

  lemma PushFour(d: Decoder, a: bv8, b: bv8, c: bv8)
    requires d.nbits == 0
    ensures var d4 := Push(Push(Push(Push(d, First(a)), Second(a, b)), Third(b, c)), Fourth(c));
            d4.nbits == 0 && d4.out == d.out + [a, b, c] && d4.stopped == d.stopped && d4.hadpad == d.hadpad
  {
    hide First, Second, Third, Fourth, Shifted, Top;
    PushThree(d, a, b, c);
    ThirdByteBack(Shifted(Shifted(d.shift, First(a)), Second(a, b)), b, c);
    assert d.out + [a, b] + [c] == d.out + [a, b, c];
  }

  lemma FeedFour(d: Decoder, w: bv8, x: bv8, y: bv8, z: bv8)
    ensures FeedAll(d, [w, x, y, z]) == Feed(Feed(Feed(Feed(d, w), x), y), z)
  {
    hide Feed;
    var s := [w, x, y, z];
    assert s[1..] == [x, y, z] && s[1..][1..] == [y, z] && s[1..][1..][1..] == [z] && s[1..][1..][1..][1..] == [];
    var d1 := Feed(d, w);
    var d2 := Feed(d1, x);
    var d3 := Feed(d2, y);
    assert FeedAll(d3, [z]) == Feed(d3, z);
    assert FeedAll(d2, [y, z]) == FeedAll(d3, [z]);
    assert FeedAll(d1, [x, y, z]) == FeedAll(d2, [y, z]);
  }

  /** The decoder has taken `data` in and stands at a group boundary, stopped if there was padding. */
  ghost predicate Took(d: Decoder, d': Decoder, data: Bytes, padded: bool) {
    d'.nbits == 0 && d'.out == d.out + data && d'.stopped == padded && (!padded ==> d'.hadpad == false)
  }

  lemma TakesThree(d: Decoder, a: bv8, b: bv8, c: bv8)
    requires d.nbits == 0 && !d.stopped
    ensures Took(d, FeedAll(d, [Letter(First(a)), Letter(Second(a, b)), Letter(Third(b, c)), Letter(Fourth(c))]),
                 [a, b, c], false)
  {
    hide First, Second, Third, Fourth, Letter, Feed, FeedAll, Push;
    SextetsAreSmall(a, b);
    SextetsAreSmall(b, c);
    SextetsAreSmall(c, c);
    FeedFour(d, Letter(First(a)), Letter(Second(a, b)), Letter(Third(b, c)), Letter(Fourth(c)));
    var e := d.(hadpad := false);
    PushTwo(e, a, b);
    PushThree(e, a, b, c);
    PushFour(e, a, b, c);
    FeedLetter(d, First(a));
    PushKeepsFlags(e, First(a));
    var e1 := Push(e, First(a));
    FeedLetter(e1, Second(a, b));
    var e2 := Push(e1, Second(a, b));
    FeedLetter(e2, Third(b, c));
    var e3 := Push(e2, Third(b, c));
    FeedLetter(e3, Fourth(c));
  }

  lemma PushKeepsFlags(d: Decoder, v: bv8)
    ensures Push(d, v).hadpad == d.hadpad && Push(d, v).stopped == d.stopped
    ensures d.hadpad == false ==> Push(d, v).(hadpad := false) == Push(d, v)
  {
  }

  lemma PadLetter()
    ensures Letter(64) == PAD
  {
  }

  lemma TakesTwo(d: Decoder, a: bv8, b: bv8)
    requires d.nbits == 0 && !d.stopped
    ensures Took(d, FeedAll(d, [Letter(First(a)), Letter(Second(a, b)), Letter((b & 0x0f) << 2), PAD]), [a, b], true)
  {
    hide First, Second, Third, Letter, FeedAll, Push, Sextet, Top, Shifted;
    SextetsAreSmall(a, b);
    SextetsAreSmall(b, 0);
    PaddedIsZero(b);
    FeedFour(d, Letter(First(a)), Letter(Second(a, b)), Letter(Third(b, 0)), PAD);
    var e := d.(hadpad := false);
    PushThree(e, a, b, 0);
    FeedLetter(d, First(a));
    PushKeepsFlags(e, First(a));
    var e1 := Push(e, First(a));
    FeedLetter(e1, Second(a, b));
    PushKeepsFlags(e1, Second(a, b));
    var e2 := Push(e1, Second(a, b));
    FeedLetter(e2, Third(b, 0));
  }

  lemma TakesOne(d: Decoder, a: bv8)
    requires d.nbits == 0 && !d.stopped
    ensures Took(d, FeedAll(d, [Letter(First(a)), Letter((a & 0x03) << 4), PAD, PAD]), [a], true)
  {
    hide First, Second, Letter, FeedAll, Push, Sextet, Top, Shifted;
    SextetsAreSmall(a, 0);
    PaddedIsZero(a);
    FeedFour(d, Letter(First(a)), Letter(Second(a, 0)), PAD, PAD);
    var e := d.(hadpad := false);
    PushTwo(e, a, 0);
    FeedLetter(d, First(a));
    PushKeepsFlags(e, First(a));
    var e1 := Push(e, First(a));
    FeedLetter(e1, Second(a, 0));
  }

  lemma LettersSplit(a: Bytes, b: Bytes)
    ensures Letters(a + b) == Letters(a) + Letters(b)
  {
    hide Letter;
  }

  /** Feeding the encoding of `data` adds `data` to the output. */
  lemma {:induction false} EncodedIsTaken(d: Decoder, data: Bytes)
    requires d.nbits == 0 && !d.stopped && !d.hadpad
    ensures Took(d, FeedAll(d, Letters(Numbers(data))), data, |data| % 3 != 0)
    decreases |data|
  {
    hide First, Second, Third, Fourth, Letter, Feed;
    PadLetter();
    if |data| == 0 {
      assert d.out + data == d.out;
    } else if |data| == 1 {
      var a := data[0];
      assert Letters(Numbers(data)) == [Letter(First(a)), Letter((a & 0x03) << 4), PAD, PAD];
      TakesOne(d, a);
      assert data == [a];
    } else if |data| == 2 {
      var a, b := data[0], data[1];
      assert Letters(Numbers(data)) == [Letter(First(a)), Letter(Second(a, b)), Letter((b & 0x0f) << 2), PAD];
      TakesTwo(d, a, b);
      assert data == [a, b];
    } else {
      LongDataIsTaken(d, data);
    }
  }

  lemma {:induction false} LongDataIsTaken(d: Decoder, data: Bytes)
    requires d.nbits == 0 && !d.stopped && !d.hadpad && |data| >= 3
    ensures Took(d, FeedAll(d, Letters(Numbers(data))), data, |data| % 3 != 0)
    decreases |data|, 0
  {
    hide First, Second, Third, Fourth, Letter, Feed, FeedAll, Letters;
    var a, b, c, rest := data[0], data[1], data[2], data[3..];
    var head := [First(a), Second(a, b), Third(b, c), Fourth(c)];
    LettersSplit(head, Numbers(rest));
    LettersOfFour(First(a), Second(a, b), Third(b, c), Fourth(c));
    FeedInParts(d, Letters(head), Letters(Numbers(rest)));
    TakesThree(d, a, b, c);
    var d4 := FeedAll(d, Letters(head));
    EncodedIsTaken(d4, rest);
    assert data == [a, b, c] + rest;
    assert d.out + [a, b, c] + rest == d.out + data;
  }

  lemma LettersOfFour(w: bv8, x: bv8, y: bv8, z: bv8)
    ensures Letters([w, x, y, z]) == [Letter(w), Letter(x), Letter(y), Letter(z)]
  {
    hide Letter;
  }

  lemma NewlineIsIgnored(d: Decoder)
    ensures FeedAll(d, [NEWLINE]) == d
  {
    assert [NEWLINE][1..] == [];
  }

  lemma {:induction false} StoppedIgnoresAll(d: Decoder, s: Bytes)
    requires d.stopped
    ensures FeedAll(d, s) == d
    decreases |s|
  {
    if s != [] {
      StoppedIgnoresAll(d, s[1..]);
    }
  }

  lemma EncodeIsTaken(d: Decoder, data: Bytes, newline: bool)
    requires d.nbits == 0 && !d.stopped && !d.hadpad
    ensures Took(d, FeedAll(d, Encode(data, newline)), data, |data| % 3 != 0)
  {
    hide FeedAll, Letters, Numbers;
    EncodedIsTaken(d, data);
    if newline {
      FeedInParts(d, Letters(Numbers(data)), [NEWLINE]);
      NewlineIsIgnored(FeedAll(d, Letters(Numbers(data))));
    } else {
      assert Letters(Numbers(data)) + [] == Letters(Numbers(data));
    }
  }

  /** Decoding undoes encoding, for every byte string, with or without the newline. */
  lemma DecodeOfEncode(data: Bytes, newline: bool)
    ensures Decode(Encode(data, newline)) == Some(data)
  {
    hide FeedAll, Encode;
    EncodeIsTaken(FRESH, data, newline);
    assert FRESH.out + data == data;
  }

  /** Two encodings one after the other decode to the joined data exactly when the first has no padding or the
      second is empty: the decoder stops at the padding. */
  lemma DecodeOfTwo(a: Bytes, b: Bytes, nl: bool, nl': bool)
    ensures Decode(Encode(a, nl) + Encode(b, nl')) == Some(if |a| % 3 == 0 then a + b else a)
    ensures Decode(Encode(a, nl) + Encode(b, nl')) == Some(a + b) <==> |a| % 3 == 0 || b == []
  {
    hide FeedAll, Encode;
    EncodeIsTaken(FRESH, a, nl);
    assert FRESH.out + a == a;
    var d := FeedAll(FRESH, Encode(a, nl));
    FeedInParts(FRESH, Encode(a, nl), Encode(b, nl'));
    if |a| % 3 == 0 {
      EncodeIsTaken(d, b, nl');
    } else {
      StoppedIgnoresAll(d, Encode(b, nl'));
      assert a == a + b ==> |b| == 0;
      assert b == [] ==> a + b == a;
    }
  }

  /** No character of the alphabet and no padding. */
  ghost predicate IsNoise(s: Bytes) {
    forall i :: 0 <= i < |s| ==> !IsChar(s[i], '=') && forall k :: 0 <= k < |ALPHABET| ==> !IsChar(s[i], ALPHABET[k])
  }

  lemma {:induction false} NoiseIsIgnored(d: Decoder, s: Bytes)
    requires IsNoise(s)
    ensures FeedAll(d, s) == d
    decreases |s|
  {
    hide ALPHABET;
    if s != [] {
      assert !IsChar(s[0], '=') && s[0] != PAD by {
        PadCode();
      }
      SextetIs(s[0]);
      NoiseIsIgnored(d, s[1..]);
    }
  }

  /** Bytes outside the alphabet, other than the padding, may stand anywhere. */
  lemma NoiseAnywhere(a: Bytes, noise: Bytes, b: Bytes)
    requires IsNoise(noise)
    ensures Decode(a + noise + b) == Decode(a + b)
  {
    hide FeedAll, Sextet;
    FeedInParts(FRESH, a + noise, b);
    FeedInParts(FRESH, a, noise);
    FeedInParts(FRESH, a, b);
    NoiseIsIgnored(FeedAll(FRESH, a), noise);
  }

  /** The registers and the output together never hold more than six bits for each character read. */
  lemma {:induction false} OutputIsBounded(d: Decoder, s: Bytes)
    requires d.Valid()
    ensures FeedAll(d, s).Valid()
    ensures 8 * |FeedAll(d, s).out| + FeedAll(d, s).nbits <= 8 * |d.out| + d.nbits + 6 * |s|
    decreases |s|
  {
    if s != [] {
      OneFeed(d, s[0]);
      OutputIsBounded(Feed(d, s[0]), s[1..]);
    }
  }

  lemma OneFeed(d: Decoder, c: bv8)
    requires d.Valid()
    ensures Feed(d, c).Valid() && 8 * |Feed(d, c).out| + Feed(d, c).nbits <= 8 * |d.out| + d.nbits + 6
  {
    hide Sextet, Shifted, Top;
  }
}

/** The two conversions as they run, on byte buffers of a size fixed beforehand. */
module Base64Codec {
  import opened Basics
  import opened Base64

  function EncodedLength(n: nat): nat {
    if n == 0 then 0 else ((n - 1) / 3 + 1) * 4
  }

  lemma {:induction false} NumbersLength(data: Bytes)
    ensures |Numbers(data)| == EncodedLength(|data|)
    decreases |data|
  {
    hide First, Second, Third, Fourth;
    if |data| >= 3 {
      NumbersLength(data[3..]);
    }
  }

  lemma NumbersOfThree(data: Bytes)
    requires |data| >= 3
    ensures Numbers(data) == [First(data[0]), Second(data[0], data[1]), Third(data[1], data[2]), Fourth(data[2])] +
            Numbers(data[3..])
  {
  }

  lemma NumbersOfFew(data: Bytes)
    requires |data| < 3
    ensures Numbers(data) ==
            if |data| == 0 then [] else if |data| == 1 then [First(data[0]), (data[0] & 0x03) << 4, 64, 64]
            else [First(data[0]), Second(data[0], data[1]), (data[1] & 0x0f) << 2, 64]
  {
  }

  /** The first pass: fills the front of `out` with the numbers of `data`. */
  method WriteNumbers(data: Bytes, out: array<bv8>)
    requires out.Length >= EncodedLength(|data|)
    modifies out
    ensures out[..EncodedLength(|data|)] == Numbers(data)
    ensures forall i :: EncodedLength(|data|) <= i < out.Length ==> out[i] == old(out[i])
  {
    hide First, Second, Third, Fourth, Numbers;
    var p, o, i := 0, 0, |data|;
    assert data[0..] == data && [] + Numbers(data) == Numbers(data);
    while i >= 3
      invariant 0 <= i && p + i == |data| && p % 3 == 0 && o == p / 3 * 4
      invariant o + EncodedLength(i) == EncodedLength(|data|)
      invariant out[..o] + Numbers(data[p..]) == Numbers(data)
      invariant forall k :: EncodedLength(|data|) <= k < out.Length ==> out[k] == old(out[k])
    {
      ghost var done, rest := out[..o], data[p..];
      NumbersOfThree(rest);
      WriteGroup(out, o, First(data[p]), Second(data[p], data[p + 1]), Third(data[p + 1], data[p + 2]),
                 Fourth(data[p + 2]));
      ghost var four := [First(data[p]), Second(data[p], data[p + 1]), Third(data[p + 1], data[p + 2]),
                         Fourth(data[p + 2])];
      assert rest[3..] == data[p + 3..];
      assert done + (four + Numbers(rest[3..])) == done + four + Numbers(rest[3..]);
      p, o, i := p + 3, o + 4, i - 3;
    }
    WriteTail(data, out, p, o, i);
  }

  /** The padded group at the end, if there is one. */
  method WriteTail(data: Bytes, out: array<bv8>, p: nat, o: nat, i: nat)
    requires p + i == |data| && i < 3 && o + EncodedLength(i) == EncodedLength(|data|) <= out.Length
    requires out[..o] + Numbers(data[p..]) == Numbers(data)
    modifies out
    ensures out[..EncodedLength(|data|)] == Numbers(data)
    ensures forall k :: EncodedLength(|data|) <= k < out.Length ==> out[k] == old(out[k])
  {
    hide First, Second, Numbers;
    ghost var done, rest := out[..o], data[p..];
    NumbersOfFew(rest);
    if i == 2 {
      WriteGroup(out, o, First(data[p]), Second(data[p], data[p + 1]), (data[p + 1] & 0x0f) << 2, 64);
    } else if i == 1 {
      WriteGroup(out, o, First(data[p]), (data[p] & 0x03) << 4, 64, 64);
    } else {
      assert done + Numbers(rest) == done;
    }
  }

  method WriteGroup(out: array<bv8>, o: nat, a: bv8, b: bv8, c: bv8, d: bv8)
    requires o + 4 <= out.Length
    modifies out
    ensures out[..o + 4] == old(out[..o]) + [a, b, c, d]
    ensures forall k :: o + 4 <= k < out.Length ==> out[k] == old(out[k])
  {
    out[o] := a;
    out[o + 1] := b;
    out[o + 2] := c;
    out[o + 3] := d;
  }

  /** `b2a_base64`: numbers first, then letters in place, then the newline. */
  method EncodeBytes(data: Bytes, newline: bool) returns (out: array<bv8>)
    ensures fresh(out) && out[..] == Encode(data, newline)
  {
    hide Letter, Numbers;
    var extra := if newline then 1 else 0;
    out := new bv8[EncodedLength(|data|) + extra];
    NumbersLength(data);
    WriteNumbers(data, out);
    var n := out.Length - extra;
    ghost var ns := Numbers(data);
    for j := 0 to n
      invariant forall k :: 0 <= k < n ==> out[k] == if k < j then Letter(ns[k]) else ns[k]
    {
      out[j] := Letter(out[j]);
    }
    assert out[..n] == Letters(ns);
    if newline {
      out[n] := NEWLINE;
      assert out[..] == out[..n] + [NEWLINE];
    } else {
      assert out[..] == out[..n] + [];
    }
  }

  /** `a2b_base64`. The output buffer is allocated beforehand and never overrun. */
  method DecodeBytes(input: Bytes) returns (r: Option<Bytes>)
    ensures r == Decode(input)
  {
    hide Sextet, Shifted, Top;
    var out := new bv8[|input| * 3 / 4 + 1];
    var len := 0;
    var shift: bv32, nbits, hadpad, stopped := 0, 0, false, false;
    assert input[..0] == [];
    var i := 0;
    while i < |input| && !stopped
      invariant 0 <= i <= |input| && 0 <= len <= out.Length
      invariant FeedAll(FRESH, input[..i]) == Decoder(shift, nbits, hadpad, stopped, out[..len])
      invariant 8 * len + nbits <= 6 * i && (nbits == 0 || nbits == 2 || nbits == 4 || nbits == 6)
    {
      FeedOneMore(input, i);
      if input[i] == PAD {
        if nbits == 2 || (nbits == 4 && hadpad) {
          nbits, stopped := 0, true;
        } else {
          hadpad := true;
        }
      } else {
        var sextet := Sextet(input[i]);
        if sextet.Some? {
          hadpad := false;
          shift := Shifted(shift, sextet.value);
          nbits := nbits + 6;
          if nbits >= 8 {
            nbits := nbits - 8;
            ghost var before := out[..len];
            out[len] := Top(shift, nbits);
            assert out[..len + 1] == before + [Top(shift, nbits)];
            len := len + 1;
          }
        }
      }
      i := i + 1;
    }
    RestIsIgnored(input, i);
    if nbits != 0 {
      return None;
    }
    r := Some(out[..len]);
  }

  lemma FeedOneMore(s: Bytes, i: int)
    requires 0 <= i < |s|
    ensures FeedAll(FRESH, s[..i + 1]) == Feed(FeedAll(FRESH, s[..i]), s[i])
  {
    hide Feed;
    assert s[..i + 1] == s[..i] + [s[i]];
    FeedInParts(FRESH, s[..i], [s[i]]);
    assert [s[i]][1..] == [];
  }

  lemma RestIsIgnored(s: Bytes, i: int)
    requires 0 <= i <= |s| && (i == |s| || FeedAll(FRESH, s[..i]).stopped)
    ensures FeedAll(FRESH, s) == FeedAll(FRESH, s[..i])
  {
    hide FeedAll;
    if i == |s| {
      assert s[..i] == s;
    } else {
      assert s == s[..i] + s[i..];
      FeedInParts(FRESH, s[..i], s[i..]);
      StoppedIgnoresAll(FeedAll(FRESH, s[..i]), s[i..]);
    }
  }
}
