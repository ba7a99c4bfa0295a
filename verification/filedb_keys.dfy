/**
The four ways the file database compares keys, and when each is the order of the numbers that stand for the keys.
*/
module FileKeys {
  import opened Octets

  const HALF32 := 0x8000_0000
  const HALF64 := 0x8000_0000_0000_0000

  /** The comparison has the sign of the difference. */
  predicate Agrees(c: int, a: int, b: int) {
    (c < 0 <==> a < b) && (c == 0 <==> a == b)
  }

  // ---------- bytes

  /** memcmp on keys of one length. */
  function Memcmp(a: seq<byte>, b: seq<byte>): int
    requires |a| == |b|
  {
    if a == [] then 0
    else if a[0] != b[0] then a[0] - b[0]
    else Memcmp(a[1..], b[1..])
  }

  /** The number a key spells, its first byte the highest. */
  function Big(a: seq<byte>): (n: nat)
    ensures n < Pow2(8 * |a|)
  {
    if a == [] then 0
    else
      Highest(a[0], |a| - 1, Big(a[1..]));
      a[0] * Pow2(8 * (|a| - 1)) + Big(a[1..])
  }

  lemma Highest(d: byte, k: nat, r: nat)
    requires r < Pow2(8 * k)
    ensures 0 <= d * Pow2(8 * k) + r < Pow2(8 * (k + 1))
  {
    Pow2Adds(8, 8 * k);
    assert Pow2(8) == 256 by { assert Pow2(4) == 16; Pow2Adds(4, 4); }
    var p := Pow2(8 * k);
    assert (d + 1) * p <= 256 * p;
    assert (d + 1) * p == d * p + p;
  }

  /** Byte keys are ordered as the numbers they spell, and only equal keys spell equal numbers. */
  lemma {:induction false} BytesAgree(a: seq<byte>, b: seq<byte>)
    requires |a| == |b|
    ensures Agrees(Memcmp(a, b), Big(a), Big(b)) && (Big(a) == Big(b) <==> a == b)
  {
    if a != [] {
      BytesAgree(a[1..], b[1..]);
      assert a == [a[0]] + a[1..] && b == [b[0]] + b[1..];
      if a[0] < b[0] {
        HigherByte(a[0], b[0], Pow2(8 * (|a| - 1)), Big(a[1..]), Big(b[1..]));
      } else if b[0] < a[0] {
        HigherByte(b[0], a[0], Pow2(8 * (|a| - 1)), Big(b[1..]), Big(a[1..]));
      }
    }
  }

  lemma HigherByte(d: nat, e: nat, p: nat, r: nat, s: nat)
    requires d < e && r < p
    ensures d * p + r < e * p + s
  {
    assert d * p + p == (d + 1) * p <= e * p;
  }

  // ---------- strings

  predicate Text(a: seq<byte>) {
    forall i :: 0 <= i < |a| ==> a[i] != 0
  }

  /** The character of a string at its front, the NUL at its end. */
  function Front(a: seq<byte>): byte {
    if a == [] then 0 else a[0]
  }

  /** strncmp. */
  function Strncmp(a: seq<byte>, b: seq<byte>, n: nat): int {
    if n == 0 then 0
    else if Front(a) != Front(b) then Front(a) - Front(b)
    else if a == [] || b == [] then 0
    else Strncmp(a[1..], b[1..], n - 1)
  }

  /** A string in a key of n bytes. */
  function Padded(a: seq<byte>, n: nat): (p: seq<byte>)
    requires |a| <= n
    ensures |p| == n
  {
    a + seq(n - |a|, i => 0)
  }

  lemma {:induction false} StrncmpIsMemcmp(a: seq<byte>, b: seq<byte>, n: nat)
    requires Text(a) && Text(b) && |a| <= n && |b| <= n
    ensures Strncmp(a, b, n) == Memcmp(Padded(a, n), Padded(b, n))
    decreases n
  {
    var p, q := Padded(a, n), Padded(b, n);
    if a == [] && b == [] {
      assert p == q;
      SameBytes(p);
    } else if a != [] && b != [] {
      StrncmpIsMemcmp(a[1..], b[1..], n - 1);
      assert p[1..] == Padded(a[1..], n - 1) && q[1..] == Padded(b[1..], n - 1);
    }
  }

  lemma {:induction false} SameBytes(a: seq<byte>)
    ensures Memcmp(a, a) == 0
  {
    if a != [] { SameBytes(a[1..]); }
  }

  lemma PaddedShorter(a: seq<byte>, b: seq<byte>, n: nat)
    requires Text(b) && |a| < |b| <= n
    ensures Padded(a, n) != Padded(b, n)
  {
    assert Padded(a, n)[|a|] == 0 && Padded(b, n)[|a|] == b[|a|];
  }

  lemma PaddedSame(a: seq<byte>, b: seq<byte>, n: nat)
    requires Text(a) && Text(b) && |a| <= n && |b| <= n && Padded(a, n) == Padded(b, n)
    ensures a == b
  {
    if |a| < |b| { PaddedShorter(a, b, n); }
    if |b| < |a| { PaddedShorter(b, a, n); }
    assert a == Padded(a, n)[..|a|] && b == Padded(b, n)[..|b|];
  }

  /** String keys are ordered as the numbers their padded bytes spell. */
  lemma StringsAgree(a: seq<byte>, b: seq<byte>, n: nat)
    requires Text(a) && Text(b) && |a| < n && |b| < n
    ensures Agrees(Strncmp(a, b, n), Big(Padded(a, n)), Big(Padded(b, n)))
    ensures Big(Padded(a, n)) == Big(Padded(b, n)) <==> a == b
  {
    StrncmpIsMemcmp(a, b, n);
    BytesAgree(Padded(a, n), Padded(b, n));
    if Padded(a, n) == Padded(b, n) { PaddedSame(a, b, n); }
  }

  // ---------- integers

  predicate IsInt32(x: int) {
    -HALF32 <= x < HALF32
  }

  predicate IsInt64(x: int) {
    -HALF64 <= x < HALF64
  }

  /** The low 32 bits of a number, as an int. */
  function ToInt32(x: int): (y: int)
    ensures IsInt32(y)
  {
    (x + HALF32) % (2 * HALF32) - HALF32
  }

  /** The low 64 bits of a number. */
  function ToInt64(x: int): (y: int)
    ensures IsInt64(y)
  {
    (x + HALF64) % (2 * HALF64) - HALF64
  }

  function CmpInt32(a: int, b: int): int {
    ToInt32(a - b)
  }

  /** The difference is taken in 64 bits and returned as an int. */
  function CmpInt64(a: int, b: int): int {
    ToInt32(ToInt64(a - b))
  }

  /** 32-bit keys compare as numbers exactly when their difference is a 32-bit number. */
  lemma Int32Agrees(a: int, b: int)
    requires IsInt32(a) && IsInt32(b)
    ensures Agrees(CmpInt32(a, b), a, b) <==> IsInt32(a - b)
  {
  }

  lemma Int64Cmp(a: int, b: int)
    ensures CmpInt64(a, b) == ToInt32(a - b)
  {
    var k := (a - b + HALF64) / (2 * HALF64);
    assert ToInt64(a - b) == a - b - k * (2 * HALF64);
    assert k * (2 * HALF64) == k * (2 * HALF32) * (2 * HALF32);
    var m := (a - b + HALF32) / (2 * HALF32);
    assert ToInt64(a - b) + HALF32 == (m - k * (2 * HALF32)) * (2 * HALF32) + (a - b + HALF32) % (2 * HALF32);
  }

  /** 64-bit keys compare as equal exactly when a multiple of 2^32 lies between them. */
  lemma Int64Equal(a: int, b: int)
    ensures CmpInt64(a, b) == 0 <==> (a - b) % (2 * HALF32) == 0
  {
    Int64Cmp(a, b);
  }

  /** 64-bit keys compare as numbers exactly when what is left of their difference in 32 bits has its sign. */
  lemma Int64Agrees(a: int, b: int)
    ensures var d := (a - b) % (2 * HALF32);
      Agrees(CmpInt64(a, b), a, b) <==> if a > b then 0 < d < HALF32 else if a < b then d >= HALF32 else true
  {
    Int64Cmp(a, b);
  }

  /** 64-bit keys whose difference is a 32-bit number compare as numbers. */
  lemma Int64Near(a: int, b: int)
    requires IsInt32(a - b)
    ensures Agrees(CmpInt64(a, b), a, b)
  {
    Int64Cmp(a, b);
  }

  /** All the keys from lo to hi compare as numbers. */
  ghost predicate Ordered(lo: int, hi: int, wide: bool) {
    forall a, b :: lo <= a <= hi && lo <= b <= hi ==> Agrees(if wide then CmpInt64(a, b) else CmpInt32(a, b), a, b)
  }

  /** A range of integer keys is in order exactly when it spans less than 2^31, in either width. */
  lemma OrderedRange(lo: int, hi: int, wide: bool)
    requires lo <= hi
    requires if wide then IsInt64(lo) && IsInt64(hi) else IsInt32(lo) && IsInt32(hi)
    ensures Ordered(lo, hi, wide) <==> hi - lo < HALF32
  {
    if hi - lo < HALF32 {
      forall a, b | lo <= a <= hi && lo <= b <= hi
        ensures Agrees(if wide then CmpInt64(a, b) else CmpInt32(a, b), a, b)
      {
        Int64Near(a, b);
        Int32Near(a, b);
      }
    } else {
      Int64Cmp(lo + HALF32, lo);
      assert ToInt32(HALF32) == -HALF32;
      assert !Agrees(if wide then CmpInt64(lo + HALF32, lo) else CmpInt32(lo + HALF32, lo), lo + HALF32, lo);
    }
  }

  lemma Int32Near(a: int, b: int)
    requires IsInt32(a - b)
    ensures Agrees(CmpInt32(a, b), a, b)
  {
  }

  // ---------- keys of any type

  const STRINGKEY := 0
  const BYTESKEY := 1
  const INT32KEY := 2
  const INT64KEY := 3

  /** The key types and sizes db_create and db_checker accept. */
  predicate KeyOk(keyType: int, keySize: nat) {
    if keyType == STRINGKEY || keyType == BYTESKEY then 4 <= keySize <= 128
    else if keyType == INT32KEY then keySize == 4
    else keyType == INT64KEY && keySize == 8
  }

  datatype Key = Chars(s: seq<byte>) | Raw(bs: seq<byte>) | Whole(n: int)

  /** A key argument is of the type the database was made for, as the program expects without asking. */
  predicate Suits(keyType: int, keySize: nat, k: Key) {
    match k
    case Chars(s) => keyType == STRINGKEY && Text(s)
    case Raw(bs) => keyType == BYTESKEY && |bs| == keySize
    case Whole(n) => (keyType == INT32KEY && IsInt32(n)) || (keyType == INT64KEY && IsInt64(n))
  }

  /** A string that leaves no room for its NUL. */
  predicate TooLong(keySize: nat, k: Key) {
    k.Chars? && |k.s| >= keySize
  }

  /** key_cmp */
  function KeyCmp(keyType: int, keySize: nat, a: Key, b: Key): int
    requires Suits(keyType, keySize, a) && Suits(keyType, keySize, b)
  {
    if keyType == STRINGKEY then Strncmp(a.s, b.s, keySize)
    else if keyType == BYTESKEY then Memcmp(a.bs, b.bs)
    else if keyType == INT32KEY then CmpInt32(a.n, b.n)
    else CmpInt64(a.n, b.n)
  }

  /** The number that stands for a key; an integer counts modulo 2^32, from base. */
  function Rank(keySize: nat, base: int, k: Key): int
    requires !TooLong(keySize, k)
  {
    match k
    case Chars(s) => Big(Padded(s, keySize))
    case Raw(bs) => Big(bs)
    case Whole(n) => (n - base) % (2 * HALF32)
  }

  /** Integer keys lie, modulo 2^32, less than 2^31 from base on. */
  predicate InWindow(base: int, k: Key) {
    k.Whole? ==> (k.n - base) % (2 * HALF32) < HALF32
  }

  /** Keys the program does not tell apart. */
  predicate Same(a: Key, b: Key) {
    if a.Whole? && b.Whole? then (a.n - b.n) % (2 * HALF32) == 0 else a == b
  }

  /** The comparison of two keys is that of the numbers that stand for them. */
  lemma CmpByRank(keyType: int, keySize: nat, base: int, a: Key, b: Key)
    requires Suits(keyType, keySize, a) && !TooLong(keySize, a) && InWindow(base, a)
    requires Suits(keyType, keySize, b) && !TooLong(keySize, b) && InWindow(base, b)
    ensures Agrees(KeyCmp(keyType, keySize, a, b), Rank(keySize, base, a), Rank(keySize, base, b))
    ensures Rank(keySize, base, a) == Rank(keySize, base, b) <==> Same(a, b)
  {
    hide Padded, Big, Strncmp, Memcmp, ToInt32, ToInt64;
    match a {
      case Chars(s) => StringsAgree(s, b.s, keySize);
      case Raw(bs) => BytesAgree(bs, b.bs);
      case Whole(n) =>
        Int64Cmp(n, b.n);
        Residues(n, b.n, base);
    }
  }

  lemma Residues(a: int, b: int, base: int)
    requires (a - base) % (2 * HALF32) < HALF32 && (b - base) % (2 * HALF32) < HALF32
    ensures Agrees(ToInt32(a - b), (a - base) % (2 * HALF32), (b - base) % (2 * HALF32))
    ensures (a - base) % (2 * HALF32) == (b - base) % (2 * HALF32) <==> (a - b) % (2 * HALF32) == 0
  {
    var p, q := (a - base) / (2 * HALF32), (b - base) / (2 * HALF32);
    var x, y := (a - base) % (2 * HALF32), (b - base) % (2 * HALF32);
    assert a - b == (p - q) * (2 * HALF32) + (x - y);
    Folded(p - q, x - y);
  }

  lemma Folded(k: int, d: int)
    requires -HALF32 < d < HALF32
    ensures ToInt32(k * (2 * HALF32) + d) == d && ((k * (2 * HALF32) + d) % (2 * HALF32) == 0 <==> d == 0)
  {
    Modulo(k, d + HALF32);
    Modulo(k, if d < 0 then d + 2 * HALF32 else d);
    if d < 0 { Modulo(k - 1, d + 2 * HALF32); }
  }

  lemma Modulo(k: int, r: int)
    requires 0 <= r < 2 * HALF32
    ensures (k * (2 * HALF32) + r) % (2 * HALF32) == r
  {
  }
}
