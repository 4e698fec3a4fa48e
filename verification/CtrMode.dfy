/** Counter mode over an arbitrary block function (section 6.5 of NIST SP 800-38A). */
module CtrMode {
  import opened Arithmetic
  import opened Basics

  function Pow256(n: nat): nat {
    if n == 0 then 1 else 256 * Pow256(n - 1)
  }

  /** The number that the bytes spell, most significant first. */
  function Value(c: Bytes): nat {
    if c == [] then 0 else 256 * Value(c[..|c| - 1]) + ValueOf(c[|c| - 1])
  }

  /** One more, byte by byte from the right, with the carry. */
  function Increment(c: Bytes): (r: Bytes)
    ensures |r| == |c|
  {
    if c == [] then []
    else if c[|c| - 1] == 0xff then Increment(c[..|c| - 1]) + [0]
    else c[..|c| - 1] + [c[|c| - 1] + 1]
  }

  lemma {:induction false} ValueIsBounded(c: Bytes)
    ensures Value(c) < Pow256(|c|)
  {
    if c != [] {
      ValueIsBounded(c[..|c| - 1]);
    }
  }

  /** The carry chain adds one, modulo the range of the counter. */
  lemma {:induction false} IncrementAddsOne(c: Bytes)
    ensures Value(Increment(c)) == if Value(c) + 1 == Pow256(|c|) then 0 else Value(c) + 1
  {
    if c != [] {
      var init, last := c[..|c| - 1], c[|c| - 1];
      var r := Increment(c);
      IncrementAddsOne(init);
      ValueIsBounded(init);
      if last == 0xff {
        assert r[..|r| - 1] == Increment(init);
      } else {
        NextByte(last);
        assert r[..|r| - 1] == init;
      }
    }
  }

  lemma {:induction false} ValueIsInjective(a: Bytes, b: Bytes)
    requires |a| == |b| && Value(a) == Value(b)
    ensures a == b
  {
    hide ValueOf;
    if a != [] {
      var a', b' := a[..|a| - 1], b[..|b| - 1];
      var m, n := ValueOf(a[|a| - 1]), ValueOf(b[|b| - 1]);
      SameByte(a[|a| - 1], b[|b| - 1]);
      QuotientIsUnique(256, m, Value(a'), n, Value(b'));
      ValueIsInjective(a', b');
      assert a == a' + [a[|a| - 1]] && b == b' + [b[|b| - 1]];
    }
  }

  /** The counter after `k` blocks. */
  function CounterAt(iv: Bytes, k: nat): (c: Bytes)
    ensures |c| == |iv|
  {
    if k == 0 then iv else Increment(CounterAt(iv, k - 1))
  }

  lemma WrapsToZero(a: nat, m: nat)
    requires 0 < m
    ensures (a % m + 1 == m ==> (a + 1) % m == 0) && (a % m + 1 < m ==> (a + 1) % m == a % m + 1)
  {
    var q, r := a / m, a % m;
    assert a == q * m + r;
    if r + 1 == m {
      assert a + 1 == (q + 1) * m;
      Remainder(q + 1, 0, m);
    } else {
      Remainder(q, r + 1, m);
    }
  }

  lemma Remainder(q: nat, r: nat, m: nat)
    requires r < m
    ensures (q * m + r) % m == r
  {
    var n := q * m + r;
    assert n == n / m * m + n % m;
    QuotientIsUnique(m, r, q, n % m, n / m);
  }

  /** Block `k` is numbered `iv + k`, modulo 2^128 for sixteen bytes. */
  lemma {:induction false} CounterCounts(iv: Bytes, k: nat)
    ensures Pow256(|iv|) > 0
    ensures Value(CounterAt(iv, k)) == (Value(iv) + k) % Pow256(|iv|)
  {
    hide Value, Increment, Pow256;
    ValueIsBounded(iv);
    if k == 0 {
      Remainder(0, Value(iv), Pow256(|iv|));
    } else {
      CounterCounts(iv, k - 1);
      IncrementAddsOne(CounterAt(iv, k - 1));
      ValueIsBounded(CounterAt(iv, k - 1));
      WrapsToZero(Value(iv) + k - 1, Pow256(|iv|));
    }
  }

  // ---------- the key stream ----------

  /** An encryption of sixteen-byte blocks. */
  type BlockFunction = Bytes -> Bytes

  ghost predicate OnBlocks(e: BlockFunction) {
    forall c :: |c| == 16 ==> |e(c)| == 16
  }

  /** Byte `i` of the key stream: byte `i mod 16` of the encryption of counter block `i / 16`. */
  ghost function KeyByte(e: BlockFunction, iv: Bytes, i: nat): bv8
    requires OnBlocks(e) && |iv| == 16
  {
    e(CounterAt(iv, i / 16))[i % 16]
  }

  /** The counter of a block is sixteen bytes, so it counts modulo two to the power of 128. */
  lemma RangeIs()
    ensures Pow256(16) == 0x1_0000_0000_0000_0000_0000_0000_0000_0000
  {
    assert Pow256(8) == 0x1_0000_0000_0000_0000;
  }

  /** Byte `i` of the key stream is byte `i mod 16` of the encryption of whatever block spells the start value plus
      `i / 16`, most significant byte first. */
  lemma KeyByteIs(e: BlockFunction, iv: Bytes, i: nat, c: Bytes)
    requires OnBlocks(e) && |iv| == 16 == |c|
    requires Value(c) == (Value(iv) + i / 16) % 0x1_0000_0000_0000_0000_0000_0000_0000_0000
    ensures KeyByte(e, iv, i) == e(c)[i % 16]
  {
    hide Value, CounterAt, Pow256;
    RangeIs();
    CounterCounts(iv, i / 16);
    ValueIsInjective(c, CounterAt(iv, i / 16));
  }

  /** The message combined with the key stream from position `p` on. */
  ghost function Xored(e: BlockFunction, iv: Bytes, p: nat, m: Bytes): Bytes
    requires OnBlocks(e) && |iv| == 16
  {
    seq(|m|, i requires 0 <= i < |m| => m[i] ^ KeyByte(e, iv, p + i))
  }

  /** Splitting a message over several calls changes nothing. */
  lemma XoredSplits(e: BlockFunction, iv: Bytes, p: nat, a: Bytes, b: Bytes)
    requires OnBlocks(e) && |iv| == 16
    ensures Xored(e, iv, p, a + b) == Xored(e, iv, p, a) + Xored(e, iv, p + |a|, b)
  {
    hide KeyByte;
    var whole, parts := Xored(e, iv, p, a + b), Xored(e, iv, p, a) + Xored(e, iv, p + |a|, b);
    forall i | 0 <= i < |a + b|
      ensures whole[i] == parts[i]
    {
      if i >= |a| {
        assert p + i == p + |a| + (i - |a|);
      }
    }
  }

  /** A second pass from the same position restores the message. */
  lemma XoredTwice(e: BlockFunction, iv: Bytes, p: nat, m: Bytes)
    requires OnBlocks(e) && |iv| == 16
    ensures Xored(e, iv, p, Xored(e, iv, p, m)) == m
  {
    hide KeyByte;
    var twice := Xored(e, iv, p, Xored(e, iv, p, m));
    forall i | 0 <= i < |m|
      ensures twice[i] == m[i]
    {
      XorTwice(m[i], KeyByte(e, iv, p + i));
    }
  }

  class CtrCipher {
    const block: BlockFunction
    var counter: Bytes
    var encryptedCounter: Bytes
    var offset: nat
    ghost const iv: Bytes
    /** How many bytes have been processed. */
    ghost var pos: nat

    ghost predicate Valid()
      reads this
    {
      && OnBlocks(block) && |iv| == 16
      && offset == pos % 16
      && counter == CounterAt(iv, (pos + 15) / 16)
      && (offset != 0 ==> encryptedCounter == block(CounterAt(iv, pos / 16)))
    }

    constructor (e: BlockFunction, start: Bytes)
      requires OnBlocks(e) && |start| == 16
      ensures Valid() && block == e && iv == start && pos == 0
    {
      block, counter, encryptedCounter, offset := e, start, [], 0;
      iv, pos := start, 0;
    }

    /** The carry loop on the counter bytes. */
    method IncrementCounter()
      requires |counter| == 16
      modifies `counter
      ensures counter == Increment(old(counter))
    {
      hide Increment;
      var i := 15;
      ghost var c := counter;
      assert c[..16] == c && Increment(c) + [] == Increment(c);
      while i >= 0
        invariant -1 <= i <= 15 && |counter| == 16 && counter[..i + 1] == c[..i + 1]
        invariant Increment(c) == Increment(c[..i + 1]) + counter[i + 1..]
      {
        CarryStep(c, counter, i);
        counter := counter[i := counter[i] + 1];
        if counter[i] != 0 {
          return;
        }
        i := i - 1;
      }
      NothingToIncrement();
      assert Increment(c[..0]) + counter[0..] == counter;
    }

    /** One round of the byte loop. */
    method NextByteOut(x: bv8) returns (y: bv8)
      requires Valid()
      modifies `counter, `encryptedCounter, `offset, `pos
      ensures Valid() && pos == old(pos) + 1
      ensures y == x ^ KeyByte(block, iv, old(pos))
    {
      hide CounterAt;
      BlockNumbers(pos);
      if offset == 0 {
        encryptedCounter := block(counter);
        IncrementCounter();
        NextCounter(iv, pos / 16);
      }
      y := x ^ encryptedCounter[offset];
      offset := (offset + 1) % 16;
      pos := pos + 1;
    }

    /** `aes_process_ctr_impl`: any number of bytes, starting anywhere in a block. */
    method Process(input: Bytes) returns (out: Bytes)
      requires Valid()
      modifies `counter, `encryptedCounter, `offset, `pos
      ensures Valid() && pos == old(pos) + |input|
      ensures out == Xored(block, iv, old(pos), input)
    {
      hide CounterAt, KeyByte;
      out := [];
      for k := 0 to |input|
        invariant Valid() && pos == old(pos) + k && |out| == k
        invariant forall i :: 0 <= i < k ==> out[i] == input[i] ^ KeyByte(block, iv, old(pos) + i)
      {
        var y := NextByteOut(input[k]);
        out := out + [y];
      }
    }
  }

  lemma BlockNumbers(p: nat)
    ensures p % 16 == 0 ==> (p + 15) / 16 == p / 16
    ensures (p + 1 + 15) / 16 == p / 16 + 1
    ensures p % 16 != 0 ==> (p + 15) / 16 == p / 16 + 1
    ensures (p + 1) % 16 == (p % 16 + 1) % 16
    ensures (p + 1) % 16 != 0 ==> (p + 1) / 16 == p / 16
  {
  }

  lemma NextCounter(iv: Bytes, k: nat)
    ensures CounterAt(iv, k + 1) == Increment(CounterAt(iv, k))
  {
  }

  lemma NothingToIncrement()
    ensures Increment([]) == []
  {
  }

  /** One turn of the carry loop. */
  lemma CarryStep(c: Bytes, d: Bytes, i: int)
    requires |d| == |c| && 0 <= i < |c| && d[..i + 1] == c[..i + 1]
    requires Increment(c) == Increment(c[..i + 1]) + d[i + 1..]
    ensures var e := d[i := d[i] + 1];
            if e[i] != 0 then Increment(c) == e else e[..i] == c[..i] && Increment(c) == Increment(c[..i]) + e[i..]
  {
    hide Increment;
    IncrementLast(c[..i + 1]);
    var e := d[i := d[i] + 1];
    assert c[..i + 1][..i] == c[..i] && c[..i + 1][i] == c[i] == d[i];
    assert e[..i] == c[..i] && e[i..] == [e[i]] + d[i + 1..];
    if e[i] != 0 {
      assert e == c[..i] + [e[i]] + d[i + 1..];
    } else {
      assert Increment(c[..i]) + [e[i]] + d[i + 1..] == Increment(c[..i]) + e[i..];
    }
  }

  lemma IncrementLast(c: Bytes)
    requires c != []
    ensures Increment(c) == if c[|c| - 1] + 1 == 0 then Increment(c[..|c| - 1]) + [c[|c| - 1] + 1]
                            else c[..|c| - 1] + [c[|c| - 1] + 1]
  {
  }

  /** Encrypting in two calls and decrypting in one, with a second object from the same start. */
  method RoundTrip(e: BlockFunction, start: Bytes, a: Bytes, b: Bytes) returns (plain: Bytes)
    requires OnBlocks(e) && |start| == 16
    ensures plain == a + b
  {
    hide Xored;
    var enc := new CtrCipher(e, start);
    var x := enc.Process(a);
    var y := enc.Process(b);
    XoredSplits(e, start, 0, a, b);
    var dec := new CtrCipher(e, start);
    plain := dec.Process(x + y);
    XoredTwice(e, start, 0, a + b);
  }
}
