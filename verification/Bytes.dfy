/** Bytes, byte strings and counters, shared by the wire formats, the cipher and the statistics. */
module Bytes {

  /** An unsigned 8-bit number.  Sums wrap around as they do in the source's `unsigned char`. */
  type byte = b: int | 0 <= b < 256

  /** Text on the wire. */
  type Text = seq<byte>

  const UINT32 := 0x1_0000_0000

  /** An unsigned 32-bit counter. */
  type Count32 = n: int | 0 <= n < 0x1_0000_0000

  lemma WrapOnce(a: nat, b: nat)
    ensures (a % UINT32 + b) % UINT32 == (a + b) % UINT32
  {
    var q, r := a / UINT32, a % UINT32;
    assert a + b == (r + b) + q * UINT32;
  }

  function Plus(a: byte, b: byte): byte {
    (a + b) % 256
  }

  /** A sum that fits is the sum; any other has wrapped around once. */
  lemma PlusWraps(a: byte, b: byte)
    ensures Plus(a, b) == if a + b < 256 then a + b else a + b - 256
  {}

  lemma PlusTwice(a: byte, b: byte, c: byte)
    ensures Plus(Plus(a, b), c) == (a + b + c) % 256
  {
    PlusWraps(a, b);
    hide Plus;
    PlusWraps(Plus(a, b), c);
  }

  /** The bytes of a text in ASCII. */
  function Ascii(s: string): (t: Text)
    ensures |t| == |s| && forall i :: 0 <= i < |s| ==> t[i] == s[i] as int % 256
  {
    seq(|s|, i requires 0 <= i < |s| => s[i] as int % 256)
  }

  function Pow2(n: nat): (p: nat)
    ensures p > 0
  {
    if n == 0 then 1 else 2 * Pow2(n - 1)
  }

  /** The bitwise `&` of two unsigned numbers, lowest bit first. */
  function BitAnd(a: nat, b: nat): (r: nat)
    ensures r <= a && r <= b
  {
    if a == 0 then 0 else (if a % 2 == 1 && b % 2 == 1 then 1 else 0) + 2 * BitAnd(a / 2, b / 2)
  }

  /** Bit `k` of a number, counted from the lowest. */
  function Bit(n: nat, k: nat): nat {
    if k == 0 then n % 2 else Bit(n / 2, k - 1)
  }

  lemma NothingAnd(n: nat)
    ensures BitAnd(n, 0) == 0
  {}

  lemma AndHalves(a: nat, b: nat)
    ensures BitAnd(a, b) % 2 == (if a % 2 == 1 && b % 2 == 1 then 1 else 0)
    ensures BitAnd(a, b) / 2 == BitAnd(a / 2, b / 2)
  {
    var bit := if a % 2 == 1 && b % 2 == 1 then 1 else 0;
    var rest := BitAnd(a / 2, b / 2);
    assert BitAnd(a, b) == bit + 2 * rest;
    hide BitAnd;
    assert (bit + 2 * rest) / 2 == rest && (bit + 2 * rest) % 2 == bit;
  }

  /** A single bit is tested by a power of two. */
  lemma {:induction false} AndOneBit(n: nat, k: nat)
    ensures BitAnd(n, Pow2(k)) != 0 <==> Bit(n, k) == 1
  {
    AndHalves(n, Pow2(k));
    hide BitAnd;
    if k == 0 {
      NothingAnd(n / 2);
      assert Pow2(0) == 1;
    } else {
      assert Pow2(k) / 2 == Pow2(k - 1) && Pow2(k) % 2 == 0;
      AndOneBit(n / 2, k - 1);
    }
  }

  /** A mask of ones keeps what fits under it. */
  lemma {:induction false} AndOnes(n: nat, width: nat)
    requires n < Pow2(width)
    ensures BitAnd(Pow2(width) - 1, n) == n
  {
    if width > 0 {
      var m := Pow2(width - 1) - 1;
      AndOnes(n / 2, width - 1);
      AndHalves(2 * m + 1, n);
      assert (2 * m + 1) / 2 == m;
    }
  }

  /** And of any number it keeps the remainder. */
  lemma {:induction false} AndOnesIsRemainder(n: nat, width: nat) returns (q: nat)
    ensures n == q * Pow2(width) + BitAnd(Pow2(width) - 1, n)
  {
    if width == 0 {
      q := n;
      AndNothing(n);
    } else {
      var p := Pow2(width - 1);
      q := AndOnesIsRemainder(n / 2, width - 1);
      AndHalves(Pow2(width) - 1, n);
      assert Pow2(width) == 2 * p;
      assert (2 * p - 1) / 2 == p - 1 && (2 * p - 1) % 2 == 1;
      hide Pow2, BitAnd;
      DoubleQuotient(n, q, p, BitAnd(p - 1, n / 2));
    }
  }

  lemma AndNothing(n: nat)
    ensures Pow2(0) == 1 && BitAnd(0, n) == 0
  {}

  lemma DoubleQuotient(n: nat, q: nat, p: nat, r: nat)
    requires n / 2 == q * p + r
    ensures n == q * (2 * p) + (n % 2 + 2 * r)
  {
    assert q * (2 * p) == 2 * (q * p);
  }

  lemma BitAndSelf(n: nat)
    ensures BitAnd(n, n) == n
  {}

  lemma AndBelowOdd(m: nat)
    ensures BitAnd(2 * m + 1, 2 * m) == 2 * m
  {
    BitAndSelf(m);
    assert (2 * m + 1) / 2 == m && (2 * m) / 2 == m;
  }

  lemma AndBelowEven(m: nat)
    requires m > 0
    ensures BitAnd(2 * m, 2 * m - 1) == 2 * BitAnd(m, m - 1)
  {
    assert (2 * m) / 2 == m && (2 * m - 1) / 2 == m - 1;
  }

  /** The bitwise `^` of two unsigned numbers, lowest bit first. */
  function BitXor(a: nat, b: nat): (r: nat)
    decreases a + b
  {
    if a == 0 && b == 0 then 0 else (if a % 2 == b % 2 then 0 else 1) + 2 * BitXor(a / 2, b / 2)
  }

  lemma BitXorBound(a: nat, b: nat, width: nat)
    requires a < Pow2(width) && b < Pow2(width)
    ensures BitXor(a, b) < Pow2(width)
  {
    if width > 0 {
      BitXorBound(a / 2, b / 2, width - 1);
    }
  }

  lemma {:induction false} BitXorCancels(a: nat, b: nat)
    ensures BitXor(BitXor(a, b), b) == a
    decreases a + b
  {
    if a != 0 || b != 0 {
      BitXorCancels(a / 2, b / 2);
      XorHalves(a, b);
      XorHalves(BitXor(a, b), b);
    }
  }

  lemma {:induction false} BitXorAssociates(a: nat, b: nat, c: nat)
    ensures BitXor(BitXor(a, b), c) == BitXor(a, BitXor(b, c))
    decreases a + b + c
  {
    if a + b + c != 0 {
      BitXorAssociates(a / 2, b / 2, c / 2);
      XorHalves(a, b);
      XorHalves(b, c);
      XorHalves(BitXor(a, b), c);
      XorHalves(a, BitXor(b, c));
    }
  }

  lemma XorHalves(a: nat, b: nat)
    ensures BitXor(a, b) % 2 == (if a % 2 == b % 2 then 0 else 1)
    ensures BitXor(a, b) / 2 == BitXor(a / 2, b / 2)
  {}

  /** Bit by bit, `r` is the exclusive or of two numbers of the given width. */
  predicate IsXor(a: nat, b: nat, r: nat, width: nat) {
    if width == 0 then a == b == r == 0
    else r % 2 == (if a % 2 == b % 2 then 0 else 1) && IsXor(a / 2, b / 2, r / 2, width - 1)
  }

  lemma {:induction false} XorByBits(a: nat, b: nat, r: nat, width: nat)
    requires IsXor(a, b, r, width)
    ensures BitXor(a, b) == r
  {
    if width == 0 {
      assert BitXor(0, 0) == 0;
    } else {
      XorHalves(a, b);
      XorByBits(a / 2, b / 2, r / 2, width - 1);
    }
  }

  function Xor(a: byte, b: byte): byte {
    assert Pow2(8) == 256;
    BitXorBound(a, b, 8);
    BitXor(a, b)
  }

  /** Two bytes by their hexadecimal digits. */
  lemma DigitsXor(a1: nat, a0: nat, b1: nat, b0: nat, r1: nat, r0: nat)
    requires a1 < 16 && a0 < 16 && b1 < 16 && b0 < 16 && r1 < 16 && r0 < 16
    requires IsXor(a1, b1, r1, 4) && IsXor(a0, b0, r0, 4)
    ensures Xor(16 * a1 + a0, 16 * b1 + b0) == 16 * r1 + r0
  {
    XorByBits(a1, b1, r1, 4);
    XorByBits(a0, b0, r0, 4);
    PowersOfTwo();
    hide BitXor, IsXor, Pow2;
    XorShift(a1, b1, a0, b0, 4);
    assert Xor(16 * a1 + a0, 16 * b1 + b0) == BitXor(16 * a1 + a0, 16 * b1 + b0);
  }

  lemma PowersOfTwo()
    ensures Pow2(4) == 16 && Pow2(8) == 256
  {}

  /** The low and the high digits are combined apart. */
  lemma {:induction false} XorShift(a: nat, b: nat, low: nat, low': nat, width: nat)
    requires low < Pow2(width) && low' < Pow2(width)
    ensures BitXor(Pow2(width) * a + low, Pow2(width) * b + low') == Pow2(width) * BitXor(a, b) + BitXor(low, low')
  {
    hide BitXor;
    if width == 0 {
      XorZeros();
    } else {
      var p := Pow2(width - 1);
      var x, y := p * a + low / 2, p * b + low' / 2;
      XorShift(a, b, low / 2, low' / 2, width - 1);
      XorHalves(low, low');
      assert 2 * p * a == 2 * (p * a) && 2 * p * b == 2 * (p * b);
      XorOfDoubles(x, y, low % 2, low' % 2);
      assert 2 * p * BitXor(a, b) == 2 * (p * BitXor(a, b));
    }
  }

  lemma XorZeros()
    ensures BitXor(0, 0) == 0 && Pow2(0) == 1
  {}

  lemma XorOfDoubles(x: nat, y: nat, i: nat, j: nat)
    requires i < 2 && j < 2
    ensures BitXor(2 * x + i, 2 * y + j) == 2 * BitXor(x, y) + if i == j then 0 else 1
  {
    XorHalves(2 * x + i, 2 * y + j);
    assert (2 * x + i) / 2 == x && (2 * y + j) / 2 == y;
    hide BitXor;
  }

  lemma XorAssociates(a: byte, b: byte, c: byte)
    ensures Xor(Xor(a, b), c) == Xor(a, Xor(b, c))
  {
    BitXorAssociates(a, b, c);
  }

  lemma XorCancels(a: byte, b: byte)
    ensures Xor(Xor(a, b), b) == a
  {
    BitXorCancels(a, b);
  }

  lemma {:induction false} BitXorCommutes(a: nat, b: nat)
    ensures BitXor(a, b) == BitXor(b, a)
    decreases a + b
  {
    if a + b > 0 {
      BitXorCommutes(a / 2, b / 2);
    }
  }

  lemma XorTwice(k: byte, b: byte)
    ensures Xor(k, Xor(k, b)) == b
  {
    BitXorCommutes(k, b);
    BitXorCommutes(k, Xor(k, b));
    XorCancels(b, k);
  }

  lemma Associate<T>(a: seq<T>, b: seq<T>, c: seq<T>)
    ensures a + (b + c) == (a + b) + c
  {}

  lemma AppendNothing<T>(a: seq<T>)
    ensures a + [] == a && [] + a == a
  {}

  /** The concatenation of a list of byte strings, in order. */
  function Concat(parts: seq<seq<byte>>): seq<byte> {
    if parts == [] then [] else parts[0] + Concat(parts[1..])
  }

  lemma ConcatCons(first: seq<byte>, parts: seq<seq<byte>>)
    ensures Concat([first] + parts) == first + Concat(parts)
  {}

  /** The 16-bit number stored high byte first. */
  function BigEndian(high: byte, low: byte): nat {
    high * 256 + low
  }
}
