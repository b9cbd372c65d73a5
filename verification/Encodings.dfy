/** The byte strings that the audit MACs and the principal fingerprint hand to their hash. */
module Encodings {
  import opened Common

  datatype ByteOrder = BigEndian | LittleEndian

  function Pow256(k: nat): nat {
    if k == 0 then 1 else 256 * Pow256(k - 1)
  }

  /** The low `k` base-256 digits of `n`. */
  function Digits(order: ByteOrder, n: nat, k: nat): (r: Bytes)
    ensures |r| == k
  {
    if k == 0 then []
    else
      var low := (n % 256) as byte;
      match order
      case BigEndian => Digits(order, n / 256, k - 1) + [low]
      case LittleEndian => [low] + Digits(order, n / 256, k - 1)
  }

  lemma {:induction false} PowPlus(i: nat)
    ensures Pow256(i + 1) == 256 * Pow256(i) && Pow256(i) >= 1
  {
    if i > 0 {
      PowPlus(i - 1);
    }
  }

  lemma DivideTwice(n: nat, p: nat)
    requires p >= 1
    ensures n / 256 / p == n / (256 * p)
  {
    var q := n / 256 / p;
    var r, t := n % 256, n / 256 % p;
    assert n / 256 == p * q + t;
    assert n == 256 * (p * q + t) + r == (256 * p) * q + (256 * t + r);
    assert 0 <= 256 * t + r < 256 * p;
    QuotientUnique(n, 256 * p, q, 256 * t + r);
  }

  lemma QuotientUnique(n: nat, d: nat, q: nat, r: nat)
    requires d >= 1 && n == d * q + r && r < d
    ensures n / d == q
  {
    var k := n / d;
    assert n == d * k + n % d;
    assert d * (k - q) == r - n % d;
    Multiples(d, k - q);
  }

  lemma Multiples(d: int, x: int)
    requires d >= 0
    ensures x >= 1 ==> d * x >= d
    ensures x <= -1 ==> d * x <= -d
  {
  }

  /** The order of the bytes: the most significant first, or last. */
  lemma {:induction false} DigitAt(order: ByteOrder, n: nat, k: nat, i: nat)
    requires i < k
    ensures Pow256(i) >= 1 && Pow256(k - 1 - i) >= 1
    ensures Digits(order, n, k)[i] as int ==
      n / Pow256(if order.LittleEndian? then i else k - 1 - i) % 256
    decreases k
  {
    var weight := if order.LittleEndian? then i else k - 1 - i;
    PowPlus(i);
    PowPlus(k - 1 - i);
    if weight > 0 {
      DigitAt(order, n / 256, k - 1, if order.LittleEndian? then i - 1 else i);
      PowPlus(weight - 1);
      DivideTwice(n, Pow256(weight - 1));
    }
  }

  lemma {:induction false} DigitsInjective(order: ByteOrder, m: nat, n: nat, k: nat)
    requires m < Pow256(k) && n < Pow256(k)
    requires Digits(order, m, k) == Digits(order, n, k)
    ensures m == n
  {
    if k > 0 {
      var dm, dn := Digits(order, m, k), Digits(order, n, k);
      var low := if order.BigEndian? then k - 1 else 0;
      assert dm[low] == (m % 256) as byte && dn[low] == (n % 256) as byte;
      var high := (d: Bytes) requires |d| == k => if order.BigEndian? then d[..k - 1] else d[1..];
      assert high(dm) == Digits(order, m / 256, k - 1) && high(dn) == Digits(order, n / 256, k - 1);
      DigitsInjective(order, m / 256, n / 256, k - 1);
    }
  }

  /** `to_be_bytes` or `to_le_bytes` of a 64-bit value. */
  function Word(order: ByteOrder, n: nat): (r: Bytes)
    requires n <= U64_MAX
    ensures |r| == 8
  {
    Digits(order, n, 8)
  }

  /** A value after its own length. */
  function Prefixed(order: ByteOrder, value: Bytes): Bytes
    requires |value| <= U64_MAX
  {
    Word(order, |value|) + value
  }

  lemma WordSplit(order: ByteOrder, m: nat, x: Bytes, n: nat, y: Bytes)
    requires m <= U64_MAX && n <= U64_MAX
    requires Word(order, m) + x == Word(order, n) + y
    ensures m == n && x == y
  {
    var s, t := Word(order, m) + x, Word(order, n) + y;
    assert s[..8] == Word(order, m) && t[..8] == Word(order, n);
    assert s[8..] == x && t[8..] == y;
    assert Pow256(8) == U64_MAX + 1;
    DigitsInjective(order, m, n, 8);
  }

  /** A length-prefixed value can be read off the front of whatever follows it. */
  lemma PrefixedSplit(order: ByteOrder, v: Bytes, x: Bytes, w: Bytes, y: Bytes)
    requires |v| <= U64_MAX && |w| <= U64_MAX
    requires Prefixed(order, v) + x == Prefixed(order, w) + y
    ensures v == w && x == y
  {
    hide Word;
    PlusAssociative(Word(order, |v|), v, x);
    PlusAssociative(Word(order, |w|), w, y);
    WordSplit(order, |v|, v + x, |w|, w + y);
    assert (v + x)[..|v|] == v && (w + y)[..|v|] == w;
    assert (v + x)[|v|..] == x && (w + y)[|v|..] == y;
  }

  lemma PairSplit(order: ByteOrder, v: Bytes, x: Bytes, w: Bytes, y: Bytes)
    requires |v| <= U64_MAX && |x| <= U64_MAX && |w| <= U64_MAX && |y| <= U64_MAX
    requires Prefixed(order, v) + Prefixed(order, x) == Prefixed(order, w) + Prefixed(order, y)
    ensures v == w && x == y
  {
    hide Word;
    PrefixedSplit(order, v, Prefixed(order, x), w, Prefixed(order, y));
    WordSplit(order, |x|, x, |y|, y);
  }

  lemma SameHead(head: Bytes, x: Bytes, y: Bytes)
    requires head + x == head + y
    ensures x == y
  {
    assert (head + x)[|head|..] == x && (head + y)[|head|..] == y;
  }

  lemma FiveParts(a: Bytes, b: Bytes, c: Bytes, d: Bytes, e: Bytes)
    ensures a + b + c + d + e == a + (b + (c + (d + e)))
  {
  }

  /** The bytes of an ASCII literal. */
  function Ascii(s: string): (r: Bytes)
    ensures |r| == |s|
  {
    seq(|s|, i requires 0 <= i < |s| => (s[i] as int % 256) as byte)
  }

  lemma AsciiAt(s: string, i: nat)
    requires i < |s| && s[i] as int < 128
    ensures Ascii(s)[i] as int == s[i] as int
  {
  }

  /** A hash that has been fed `fed` so far. */
  class Hasher {
    var fed: Bytes

    constructor ()
      ensures fed == []
    {
      fed := [];
    }

    method Update(value: Bytes)
      modifies this
      ensures fed == old(fed) + value
    {
      fed := fed + value;
    }

    method UpdatePrefixed(order: ByteOrder, value: Bytes)
      requires |value| <= U64_MAX
      modifies this
      ensures fed == old(fed) + Prefixed(order, value)
    {
      Update(Word(order, |value|));
      Update(value);
      PlusAssociative(old(fed), Word(order, |value|), value);
    }
  }
}
