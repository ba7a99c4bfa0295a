/**
The shipped configuration: two-byte fields, a start byte of 1, and the inverted xor of all bytes as checksum.
*/
module TfXor {
  import opened Octets
  import opened TfFormat

  /** The exclusive or of the low n bits. */
  function XorBits(a: int, b: int, n: nat): (r: int)
    requires a >= 0 && b >= 0
    ensures 0 <= r < Pow2(n)
  {
    if n == 0 then 0 else (if a % 2 == b % 2 then 0 else 1) + 2 * XorBits(a / 2, b / 2, n - 1)
  }

  function Xor(a: byte, b: byte): byte {
    assert Pow2(8) == 256;
    XorBits(a, b, 8)
  }

  function XorAdd(c: int, b: byte): int {
    Xor(c % 256, b)
  }

  function XorEnd(c: int): int {
    255 - c % 256
  }

  const SHIPPED := Config(true, 1, 2, 2, 2, 1, 128, 2048, 10, 0, XorAdd, XorEnd)

  /** The checksum fits its one byte and the header fits the send buffer. */
  lemma ShippedOk()
    ensures SHIPPED.Ok() && SHIPPED.HeadLen() == 8
  {
  }

  lemma {:induction false} XorBitsCancel(a: int, b: int, n: nat)
    requires 0 <= a < Pow2(n) && b >= 0
    ensures XorBits(XorBits(a, b, n), b, n) == a
  {
    if n > 0 {
      assert Pow2(n) == 2 * Pow2(n - 1);
      hide Pow2;
      var x := XorBits(a, b, n);
      assert x / 2 == XorBits(a / 2, b / 2, n - 1) && x % 2 == if a % 2 == b % 2 then 0 else 1;
      XorBitsCancel(a / 2, b / 2, n - 1);
    }
  }

  lemma {:induction false} XorBitsSame(a: int, b: int, n: nat)
    requires a >= 0 && b >= 0
    ensures XorBits(a, b, n) == XorBits(b, a, n)
  {
    if n > 0 { XorBitsSame(a / 2, b / 2, n - 1); }
  }

  lemma XorCancels(a: byte, b: byte)
    ensures Xor(Xor(a, b), b) == a
  {
    XorBitsCancel(a, b, 8);
  }

  lemma XorRight(a: byte, b: byte, c: byte)
    requires Xor(a, b) == Xor(a, c)
    ensures b == c
  {
    XorBitsSame(a, b, 8);
    XorBitsSame(a, c, 8);
    hide XorBits;
    XorCancels(b, a);
    XorCancels(c, a);
  }

  lemma {:induction false} SumIsByte(bs: seq<byte>)
    ensures 0 <= SHIPPED.Sum(bs) < 256
  {
  }

  // ---------- the checksum, bit by bit

  /** A bit of the exclusive or is set exactly when one of the two is. */
  lemma {:induction false} XorBit(a: nat, b: nat, n: nat, i: nat)
    requires i < n
    ensures Bit(XorBits(a, b, n), i) <==> Bit(a, i) != Bit(b, i)
  {
    hide Bit, Pow2;
    var x, y := XorBits(a, b, n), XorBits(a / 2, b / 2, n - 1);
    assert x / 2 == y && x % 2 == if a % 2 == b % 2 then 0 else 1;
    if i > 0 {
      XorBit(a / 2, b / 2, n - 1, i - 1);
      BitUp(x, i - 1);
      BitUp(a, i - 1);
      BitUp(b, i - 1);
    } else {
      LowBit(x);
      LowBit(a);
      LowBit(b);
    }
  }

  lemma {:induction false} NotBit(c: nat, n: nat, i: nat)
    requires c < Pow2(n) && i < n
    ensures Bit(Pow2(n) - 1 - c, i) <==> !Bit(c, i)
  {
    var d := Pow2(n) - 1 - c;
    assert Pow2(n) == 2 * Pow2(n - 1);
    hide Bit, Pow2;
    if i > 0 {
      NotBit(c / 2, n - 1, i - 1);
      assert d / 2 == Pow2(n - 1) - 1 - c / 2;
      BitUp(d, i - 1);
      BitUp(c, i - 1);
    } else {
      LowBit(d);
      LowBit(c);
    }
  }

  /** How many of the bytes have bit i. */
  function Ones(bs: seq<byte>, i: nat): nat {
    if bs == [] then 0 else Ones(bs[..|bs| - 1], i) + if Bit(bs[|bs| - 1], i) then 1 else 0
  }

  lemma {:induction false} SumParity(bs: seq<byte>, i: nat)
    requires i < 8
    ensures 0 <= SHIPPED.Sum(bs) < 256 && (Bit(SHIPPED.Sum(bs), i) <==> Ones(bs, i) % 2 == 1)
  {
    hide Bit, Pow2, XorBits, Config.Sum;
    SumIsByte(bs);
    if bs == [] {
      Zero(i);
      NoSum();
    } else {
      var m := |bs| - 1;
      SumIsByte(bs[..m]);
      SumParity(bs[..m], i);
      NextSum(bs);
      XorBit(SHIPPED.Sum(bs[..m]), bs[m], 8, i);
    }
  }

  lemma NoSum()
    ensures SHIPPED.Sum([]) == 0
  {
    hide Pow2, XorBits;
  }

  lemma NextSum(bs: seq<byte>)
    requires bs != [] && 0 <= SHIPPED.Sum(bs[..|bs| - 1]) < 256
    ensures SHIPPED.Sum(bs) == XorBits(SHIPPED.Sum(bs[..|bs| - 1]), bs[|bs| - 1], 8)
  {
    hide Config.Sum, XorBits, Pow2, XorAdd;
    var m := |bs| - 1;
    SumSnoc(SHIPPED, bs[..m], bs[m]);
    assert bs[..m] + [bs[m]] == bs;
    Adds(SHIPPED.Sum(bs[..m]), bs[m]);
  }

  lemma Adds(c: byte, b: byte)
    ensures SHIPPED.add(c, b) == XorBits(c, b, 8)
  {
    hide XorBits, Pow2;
  }

  lemma Zero(i: nat)
    ensures !Bit(0, i)
  {
    Quotient(0, Pow2(i), 0);
  }

  /** A bit of the checksum is set exactly when an even number of the bytes have it. */
  lemma CheckParity(bs: seq<byte>, i: nat)
    requires i < 8
    ensures 0 <= SHIPPED.Check(bs) < 256 && (Bit(SHIPPED.Check(bs), i) <==> Ones(bs, i) % 2 == 0)
  {
    SumParity(bs, i);
    var c := SHIPPED.Sum(bs);
    assert Pow2(8) == 256;
    assert SHIPPED.Check(bs) == 255 - c by { hide Config.Sum; }
    hide Bit, Pow2, Config.Sum, Config.Check;
    NotBit(c, 8, i);
  }

  /** The message with id 0x0102, type 0x0304 and the one byte 5, as it goes over the wire. */
  lemma SampleFrame()
    ensures SHIPPED.Ok() && Fits(SHIPPED, Msg(0x0102, 0x0304, [5]))
    ensures Frame(SHIPPED, Msg(0x0102, 0x0304, [5])) == [1, 1, 2, 0, 1, 3, 4, 251, 5, 250]
  {
    ShippedOk();
    TwoBytes(0x0102);
    TwoBytes(1);
    TwoBytes(0x0304);
    var f := HeadFields(SHIPPED, 0x0102, 1, 0x0304);
    hide Num;
    assert f == [1, 1, 2, 0, 1, 3, 4];
    SampleSums();
    OneByte(251);
    OneByte(250);
  }

  lemma TwoBytes(n: int)
    requires 0 <= n < 0x1_0000
    ensures Num(n, 2) == [n / 256, n % 256]
  {
    assert Num(n / 256, 1) == Num(n / 256 / 256, 0) + [n / 256 % 256];
  }

  lemma OneByte(n: int)
    requires 0 <= n < 256
    ensures Num(n, 1) == [n]
  {
    assert Num(n, 1) == Num(n / 256, 0) + [n % 256];
  }

  lemma SampleSums()
    ensures SHIPPED.Check([1, 1, 2, 0, 1, 3, 4]) == 251 && SHIPPED.Check([5]) == 250
  {
    hide Config.Sum, XorBits;
    NoSum();
    SumMore([], 0, 5, 5);
    SumMore([], 0, 1, 1);
    SumMore([1], 1, 1, 0);
    SumMore([1, 1], 0, 2, 2);
    SumMore([1, 1, 2], 2, 0, 2);
    SumMore([1, 1, 2, 0], 2, 1, 3);
    SumMore([1, 1, 2, 0, 1], 3, 3, 0);
    SumMore([1, 1, 2, 0, 1, 3], 0, 4, 4);
    assert [] + [5] == [5] && [] + [1] == [1] && [1] + [1] == [1, 1] && [1, 1] + [2] == [1, 1, 2];
    assert [1, 1, 2] + [0] == [1, 1, 2, 0] && [1, 1, 2, 0] + [1] == [1, 1, 2, 0, 1];
    assert [1, 1, 2, 0, 1] + [3] == [1, 1, 2, 0, 1, 3] && [1, 1, 2, 0, 1, 3] + [4] == [1, 1, 2, 0, 1, 3, 4];
  }

  lemma SumMore(bs: seq<byte>, c: byte, b: byte, d: byte)
    requires c < 8 && b < 8
    requires d == Odd(c + b) + 2 * Odd(c / 2 + b / 2) + 4 * Odd(c / 4 + b / 4)
    ensures SHIPPED.Sum(bs) == c ==> SHIPPED.Sum(bs + [b]) == d
  {
    hide XorBits, Config.Sum, Pow2, Odd;
    XorSmall(c, b);
    if SHIPPED.Sum(bs) == c {
      assert (bs + [b])[..|bs|] == bs && (bs + [b])[|bs|] == b;
      NextSum(bs + [b]);
    }
  }

  function Odd(n: nat): nat {
    n % 2
  }

  lemma XorSmall(c: nat, b: nat)
    requires c < 8 && b < 8
    ensures XorBits(c, b, 8) == Odd(c + b) + 2 * Odd(c / 2 + b / 2) + 4 * Odd(c / 4 + b / 4)
  {
    XorNone(5);
    XorStep(c, b, 8);
    XorStep(c / 2, b / 2, 7);
    XorStep(c / 2 / 2, b / 2 / 2, 6);
    hide XorBits;
    assert c / 2 / 2 / 2 == 0 && b / 2 / 2 / 2 == 0 && c / 2 / 2 == c / 4 && b / 2 / 2 == b / 4;
  }

  lemma XorStep(a: nat, b: nat, n: nat)
    requires n > 0
    ensures XorBits(a, b, n) == Odd(a + b) + 2 * XorBits(a / 2, b / 2, n - 1)
  {
  }

  lemma {:induction false} XorNone(n: nat)
    ensures XorBits(0, 0, n) == 0
  {
    if n > 0 { XorNone(n - 1); }
  }

  /** A frame with one byte changed does not keep its checksum. */
  lemma {:induction false} OneByteShows(bs: seq<byte>, i: int, c: byte)
    requires 0 <= i < |bs| && c != bs[i]
    ensures SHIPPED.Check(bs[i := c]) != SHIPPED.Check(bs)
  {
    hide Xor;
    OneByteSum(bs, i, c);
    SumIsByte(bs);
    SumIsByte(bs[i := c]);
  }

  lemma {:induction false} OneByteSum(bs: seq<byte>, i: int, c: byte)
    requires 0 <= i < |bs| && c != bs[i]
    ensures SHIPPED.Sum(bs[i := c]) != SHIPPED.Sum(bs)
    decreases |bs|
  {
    hide Xor;
    var m := |bs| - 1;
    var p, q := bs[..m], bs[i := c][..m];
    SumIsByte(p);
    SumIsByte(q);
    if i == m {
      assert p == q;
      if SHIPPED.Sum(bs[i := c]) == SHIPPED.Sum(bs) { XorRight(SHIPPED.Sum(p), c, bs[i]); }
    } else {
      assert q == p[i := c];
      OneByteSum(p, i, c);
      XorCancels(SHIPPED.Sum(p), bs[m]);
      XorCancels(SHIPPED.Sum(q), bs[m]);
    }
  }
}
