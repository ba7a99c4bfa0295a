/**
Base64 as in sections 4 and 5 of RFC 4648, stated on bits: the letters carry the bits of the input, six at a time.
*/
module Base64 {
  import opened Octets

  // ---------- bits

  /** The low k bits of n, the highest first. */
  function BitsOf(n: nat, k: nat): (r: seq<nat>)
    ensures |r| == k
  {
    if k == 0 then [] else BitsOf(n / 2, k - 1) + [n % 2]
  }

  /** The bits of several numbers of k bits each. */
  function Stream(ns: seq<nat>, k: nat): seq<nat>
  {
    if ns == [] then [] else Stream(ns[..|ns| - 1], k) + BitsOf(ns[|ns| - 1], k)
  }

  /** Bit i of BitsOf, from the highest. */
  lemma {:induction false} BitsAt(n: nat, k: nat, i: nat)
    requires i < k
    ensures BitsOf(n, k)[i] == if Bit(n, k - 1 - i) then 1 else 0
  {
    if i < k - 1 {
      BitsAt(n / 2, k - 1, i);
      BitUp(n, k - 2 - i);
    }
  }

  /** Bit j of the i-th number of a stream. */
  lemma {:induction false} StreamAt(ns: seq<nat>, k: nat, i: nat, j: nat)
    requires i < |ns| && j < k
    ensures |Stream(ns, k)| == |ns| * k && i * k + j < |ns| * k
    ensures Stream(ns, k)[i * k + j] == if Bit(ns[i], k - 1 - j) then 1 else 0
    decreases |ns|
  {
    var m := |ns| - 1;
    StreamLength(ns, k);
    StreamLength(ns[..m], k);
    assert |ns| * k == m * k + k;
    if i < m {
      StreamAt(ns[..m], k, i, j);
    } else {
      BitsAt(ns[m], k, j);
    }
  }

  lemma {:induction false} StreamLength(ns: seq<nat>, k: nat)
    ensures |Stream(ns, k)| == |ns| * k
  {
    if ns != [] {
      StreamLength(ns[..|ns| - 1], k);
      assert |ns| * k == (|ns| - 1) * k + k;
    }
  }

  lemma {:induction false} Length(ns: seq<nat>)
    ensures |Stream(ns, 6)| == 6 * |ns| && |Stream(ns, 8)| == 8 * |ns|
  {
    if ns != [] { Length(ns[..|ns| - 1]); }
  }

  lemma StreamSnoc(ns: seq<nat>, n: nat, k: nat)
    ensures Stream(ns + [n], k) == Stream(ns, k) + BitsOf(n, k)
  {
    assert (ns + [n])[..|ns|] == ns;
  }

  /** A number of j + k bits is its upper j and its lower k. */
  lemma {:induction false} Join(a: nat, b: nat, j: nat, k: nat)
    requires b < Pow2(k)
    ensures BitsOf(a * Pow2(k) + b, j + k) == BitsOf(a, j) + BitsOf(b, k)
    decreases k
  {
    if k > 0 {
      Join(a, b / 2, j, k - 1);
      Halve(a, b, Pow2(k - 1));
      assert Pow2(k) == 2 * Pow2(k - 1);
      assert BitsOf(b, k) == BitsOf(b / 2, k - 1) + [b % 2];
      var n := a * Pow2(k) + b;
      assert BitsOf(n, j + k) == BitsOf(n / 2, j + k - 1) + [n % 2];
    }
  }

  lemma Halve(a: nat, b: nat, p: int)
    requires p > 0
    ensures a * (2 * p) + b >= 0 && (a * (2 * p) + b) / 2 == a * p + b / 2 && (a * (2 * p) + b) % 2 == b % 2
  {
    assert a * (2 * p) == 2 * (a * p);
  }

  lemma Powers()
    ensures Pow2(2) == 4 && Pow2(4) == 16 && Pow2(6) == 64 && Pow2(8) == 256
  {
    assert Pow2(3) == 8 && Pow2(5) == 32 && Pow2(7) == 128;
  }

  /** A number of j + k bits, written as q * p + r with p the power of two for k bits, cut after its first j bits. */
  lemma Split(n: nat, q: nat, p: nat, r: nat, j: nat, k: nat)
    requires p == Pow2(k) && n == q * p + r && r < p
    ensures BitsOf(n, j + k) == BitsOf(q, j) + BitsOf(r, k)
  {
    hide BitsOf, Pow2;
    Join(q, r, j, k);
  }

  function S0(a: byte): nat { a / 4 }
  function S1(a: byte, b: byte): nat { a % 4 * 16 + b / 16 }
  function S2(b: byte, c: byte): nat { b % 16 * 4 + c / 64 }
  function S3(c: byte): nat { c % 64 }

  /** The four sextets of three bytes, bit for bit. */
  lemma Group(a: byte, b: byte, c: byte)
    ensures BitsOf(a, 8) + BitsOf(b, 8) + BitsOf(c, 8)
         == BitsOf(S0(a), 6) + BitsOf(S1(a, b), 6) + BitsOf(S2(b, c), 6) + BitsOf(S3(c), 6)
  {
    hide BitsOf, Pow2;
    Powers();
    Split(a, a / 4, 4, a % 4, 6, 2);
    Split(b, b / 16, 16, b % 16, 4, 4);
    Split(c, c / 64, 64, c % 64, 2, 6);
    Split(S1(a, b), a % 4, 16, b / 16, 2, 4);
    Split(S2(b, c), b % 16, 4, c / 64, 4, 2);
    var a1, a2, b1, b2, c1, c2 := BitsOf(a / 4, 6), BitsOf(a % 4, 2), BitsOf(b / 16, 4), BitsOf(b % 16, 4),
        BitsOf(c / 64, 2),
        BitsOf(c % 64, 6);
    Regroup(a1, a2, b1, b2, c1, c2);
  }

  lemma Regroup(a1: seq<nat>, a2: seq<nat>, b1: seq<nat>, b2: seq<nat>, c1: seq<nat>, c2: seq<nat>)
    ensures (a1 + a2) + (b1 + b2) + (c1 + c2) == a1 + (a2 + b1) + (b2 + c1) + c2
  {
  }

  // ---------- the alphabets

  /** The letter for a sextet; url selects the alphabet of section 5. */
  function Letter(url: bool, v: int): byte
    requires 0 <= v < 64
  {
    if v < 26 then 65 + v else if v < 52 then 97 + v - 26 else if v < 62 then 48 + v - 52
    else if v == 62 then (if url then 45 else 43) else if url then 95 else 47
  }

  const UPPER := "ABCDEFGHIJKLMNOPQRSTUVWXYZ"
  const LOWER := "abcdefghijklmnopqrstuvwxyz"
  const DIGITS := "0123456789"

  /** The 64 characters as RFC 4648 and the program list them. */
  function Alphabet(url: bool): (s: string)
    ensures |s| == 64
  {
    UPPER + LOWER + DIGITS + if url then "-_" else "+/"
  }

  /** The letter for v is the v-th of the alphabet. */
  lemma LetterListed(url: bool, v: int)
    requires 0 <= v < 64
    ensures Letter(url, v) == Alphabet(url)[v] as int
  {
    if v < 26 {
      UpperCase(v);
    } else if v < 52 {
      LowerCase(v - 26);
    } else if v < 62 {
      assert DIGITS[v - 52] as int == 48 + v - 52;
    }
  }

  lemma UpperCase(i: nat)
    requires i < 26
    ensures UPPER[i] as int == 65 + i
  {
    assert |UPPER| == 26;
  }

  lemma LowerCase(i: nat)
    requires i < 26
    ensures LOWER[i] as int == 97 + i
  {
    assert |LOWER| == 26;
  }

  const FOREIGN := 77
  const PAD: byte := 61

  /** The decoding table. */
  function Value(url: bool, c: byte): (v: nat)
    ensures v < 64 || v == FOREIGN
  {
    if 65 <= c <= 90 then c - 65 else if 97 <= c <= 122 then c - 97 + 26 else if 48 <= c <= 57 then c - 48 + 52
    else if c == (if url then 45 else 43) then 62 else if c == (if url then 95 else 47) then 63 else FOREIGN
  }

  /** The table inverts the alphabet, and knows no other characters. */
  lemma Inverse(url: bool, v: int, c: byte)
    requires 0 <= v < 64
    ensures Value(url, Letter(url, v)) == v && Letter(url, v) != PAD
    ensures Value(url, c) != FOREIGN ==> Letter(url, Value(url, c)) == c
  {
  }

  predicate Sextets(vs: seq<nat>) {
    forall i :: 0 <= i < |vs| ==> vs[i] < 64
  }

  function Letters(url: bool, vs: seq<nat>): (r: seq<byte>)
    requires Sextets(vs)
    ensures |r| == |vs|
  {
    seq(|vs|, i requires 0 <= i < |vs| => Letter(url, vs[i]))
  }

  function Values(url: bool, cs: seq<byte>): (r: seq<nat>)
    requires forall i :: 0 <= i < |cs| ==> Value(url, cs[i]) != FOREIGN
    ensures |r| == |cs| && Sextets(r)
  {
    seq(|cs|, i requires 0 <= i < |cs| => Value(url, cs[i]))
  }

  lemma ValuesOfLetters(url: bool, vs: seq<nat>)
    requires Sextets(vs)
    ensures forall i :: 0 <= i < |vs| ==> Value(url, Letters(url, vs)[i]) != FOREIGN && Letters(url, vs)[i] != PAD
    ensures Values(url, Letters(url, vs)) == vs
  {
    forall i | 0 <= i < |vs|
      ensures Value(url, Letters(url, vs)[i]) == vs[i] && Letters(url, vs)[i] != PAD
    {
      Inverse(url, vs[i], 0);
    }
  }

  // ---------- the two formats

  /** vs carries the bits of bs, followed by as few zero bits as fill the last sextet. */
  ghost predicate Carries(vs: seq<nat>, bs: seq<byte>) {
    && Sextets(vs) && |vs| == (|bs| * 8 + 5) / 6
    && Stream(vs, 6) == Stream(bs, 8) + BitsOf(0, |vs| * 6 - |bs| * 8)
  }

  function Padding(n: nat): nat {
    (3 - n % 3) % 3
  }

  /** What section 4 (or, with url and no padding, section 5) asks for. */
  ghost predicate IsEncoding(url: bool, padding: bool, bs: seq<byte>, cs: seq<byte>) {
    exists vs :: Carries(vs, bs) && cs == Letters(url, vs) + if padding then Pads(Padding(|bs|)) else []
  }

  function Pads(k: nat): (r: seq<byte>)
    ensures |r| == k
  {
    seq(k, _ => PAD)
  }

  /** How many characters come before the first '='. */
  function Body(cs: seq<byte>): (n: nat)
    ensures n <= |cs| && (n < |cs| ==> cs[n] == PAD) && forall i :: 0 <= i < n ==> cs[i] != PAD
  {
    if cs == [] || cs[0] == PAD then 0 else 1 + Body(cs[1..])
  }

  ghost predicate Decodable(url: bool, cs: seq<byte>) {
    (forall i :: 0 <= i < Body(cs) ==> Value(url, cs[i]) != FOREIGN) && Body(cs) % 4 != 1
  }

  /** bs is as many whole bytes as the bits of the characters make. */
  ghost predicate IsDecoding(url: bool, cs: seq<byte>, bs: seq<byte>)
    requires Decodable(url, cs)
  {
    var vs := Values(url, cs[..Body(cs)]);
    Length(vs);
    |bs| == |vs| * 6 / 8 && Stream(bs, 8) == Stream(vs, 6)[..|bs| * 8]
  }

  // ---------- what follows

  lemma {:induction false} BitsInjective(a: nat, b: nat, k: nat)
    requires a < Pow2(k) && b < Pow2(k) && BitsOf(a, k) == BitsOf(b, k)
    ensures a == b
  {
    if k > 0 {
      var x, y := BitsOf(a / 2, k - 1), BitsOf(b / 2, k - 1);
      SplitEqual(x, [a % 2], y, [b % 2]);
      BitsInjective(a / 2, b / 2, k - 1);
    }
  }

  lemma SplitEqual(p: seq<nat>, x: seq<nat>, q: seq<nat>, y: seq<nat>)
    requires |p| == |q| && p + x == q + y
    ensures p == q && x == y
  {
    assert (p + x)[..|p|] == p && (q + y)[..|q|] == q;
    assert (p + x)[|p|..] == x && (q + y)[|q|..] == y;
  }

  /** Numbers of k bits are known by their bits. */
  lemma {:induction false} StreamInjective(a: seq<nat>, b: seq<nat>, k: nat)
    requires |a| == |b| && Stream(a, k) == Stream(b, k)
    requires forall i :: 0 <= i < |a| ==> a[i] < Pow2(k) && b[i] < Pow2(k)
    ensures a == b
  {
    if a != [] {
      var m := |a| - 1;
      var p, q, x, y := Stream(a[..m], k), Stream(b[..m], k), BitsOf(a[m], k), BitsOf(b[m], k);
      StreamLength(a[..m], k);
      StreamLength(b[..m], k);
      hide Stream, BitsOf, Pow2;
      SplitEqual(p, x, q, y);
      StreamInjective(a[..m], b[..m], k);
      BitsInjective(a[m], b[m], k);
      assert a == a[..m] + [a[m]] && b == b[..m] + [b[m]];
    }
  }

  lemma {:induction false} BodyOf(cs: seq<byte>, n: nat)
    requires n <= |cs| && (n < |cs| ==> cs[n] == PAD) && forall i :: 0 <= i < n ==> cs[i] != PAD
    ensures Body(cs) == n
    decreases |cs|
  {
    if n > 0 { BodyOf(cs[1..], n - 1); }
  }

  /** The characters before the padding are the letters of the sextets. */
  lemma Stripped(url: bool, vs: seq<nat>, k: nat, cs: seq<byte>)
    requires Sextets(vs) && cs == Letters(url, vs) + Pads(k)
    ensures Body(cs) == |vs|
    ensures (forall i :: 0 <= i < |vs| ==> Value(url, cs[i]) != FOREIGN) && Values(url, cs[..|vs|]) == vs
  {
    ValuesOfLetters(url, vs);
    hide Letter, Value, Letters, Body;
    assert cs[..|vs|] == Letters(url, vs);
    BodyOf(cs, |vs|);
  }

  /** Decoding what was encoded gives back the bytes and nothing else, with or without padding, in either alphabet. */
  lemma RoundTrip(url: bool, padding: bool, bs: seq<byte>, cs: seq<byte>, r: seq<byte>)
    requires IsEncoding(url, padding, bs, cs)
    ensures Decodable(url, cs)
    ensures IsDecoding(url, cs, r) <==> r == bs
  {
    var vs :| Carries(vs, bs) && cs == Letters(url, vs) + if padding then Pads(Padding(|bs|)) else [];
    hide Stream, BitsOf, Letters, Letter, Value, Values, Body;
    FirstBits(bs, vs);
    assert Pads(0) == [];
    Stripped(url, vs, if padding then Padding(|bs|) else 0, cs);
    hide Carries;
    if |r| == |bs| && Stream(r, 8) == Stream(bs, 8) {
      Powers();
      StreamInjective(r, bs, 8);
    }
  }

  /** There is only one encoding. */
  lemma OneEncoding(url: bool, padding: bool, bs: seq<byte>, cs: seq<byte>, ds: seq<byte>)
    requires IsEncoding(url, padding, bs, cs) && IsEncoding(url, padding, bs, ds)
    ensures cs == ds
  {
    var pads := if padding then Pads(Padding(|bs|)) else [];
    var vs :| Carries(vs, bs) && cs == Letters(url, vs) + pads;
    var ws :| Carries(ws, bs) && ds == Letters(url, ws) + pads;
    hide Stream, BitsOf, Letters;
    Powers();
    StreamInjective(vs, ws, 6);
  }

  /** The characters of a string. */
  function Codes(s: string): (r: seq<byte>)
    requires forall i :: 0 <= i < |s| ==> s[i] < 128 as char
    ensures |r| == |s|
  {
    seq(|s|, i requires 0 <= i < |s| => s[i] as int)
  }

  /** The byte 0xFB, whose sextets are 62 and 48: "+w==", and "-w" for a URL. */
  lemma SampleOne(cs: seq<byte>)
    ensures IsEncoding(false, true, [0xFB], cs) <==> cs == Codes("+w==")
    ensures IsEncoding(true, false, [0xFB], cs) <==> cs == Codes("-w")
  {
    hide Carries, IsEncoding, Letters, Codes;
    Carried([0xFB]);
    SampleTexts();
    Sample(false, true, [0xFB], [62, 48], Codes("+w=="), cs);
    Sample(true, false, [0xFB], [62, 48], Codes("-w"), cs);
  }

  /** "fo" in the test vectors of section 10, and two bytes with a sextet 63. */
  lemma SampleTwo(cs: seq<byte>)
    ensures IsEncoding(false, true, Codes("fo"), cs) <==> cs == Codes("Zm8=")
    ensures IsEncoding(true, false, [0x03, 0xF0], cs) <==> cs == Codes("A_A")
  {
    hide Carries, IsEncoding, Letters;
    assert Codes("fo") == [102, 111];
    hide Codes;
    Carried([102, 111]);
    Carried([0x03, 0xF0]);
    SampleTexts();
    Sample(false, true, [102, 111], [25, 38, 60], Codes("Zm8="), cs);
    Sample(true, false, [0x03, 0xF0], [0, 63, 0], Codes("A_A"), cs);
  }

  lemma Carried(bs: seq<byte>)
    requires 1 <= |bs| <= 2
    ensures |bs| == 1 ==> Carries([S0(bs[0]), bs[0] % 4 * 16], bs)
    ensures |bs| == 2 ==> Carries([S0(bs[0]), S1(bs[0], bs[1]), bs[1] % 16 * 4], bs)
  {
    Nothing(false, bs);
    hide Stream, BitsOf, Carries;
    if |bs| == 1 {
      LastOne([], bs, 0);
      assert [] + [S0(bs[0]), bs[0] % 4 * 16] == [S0(bs[0]), bs[0] % 4 * 16];
    } else {
      LastTwo([], bs, 0);
      var vs := [S0(bs[0]), S1(bs[0], bs[1]), bs[1] % 16 * 4];
      assert [] + vs == vs;
    }
  }

  lemma SampleTexts()
    ensures Sextets([62, 48]) && Sextets([25, 38, 60]) && Sextets([0, 63, 0])
    ensures Codes("+w==") == Letters(false, [62, 48]) + Pads(2) && Codes("-w") == Letters(true, [62, 48])
    ensures Codes("Zm8=") == Letters(false, [25, 38, 60]) + Pads(1) && Codes("A_A") == Letters(true, [0, 63, 0])
  {
  }

  lemma Sample(url: bool, padding: bool, bs: seq<byte>, vs: seq<nat>, ds: seq<byte>, cs: seq<byte>)
    requires Carries(vs, bs) && ds == Letters(url, vs) + if padding then Pads(Padding(|bs|)) else []
    ensures IsEncoding(url, padding, bs, cs) <==> cs == ds
  {
    hide Carries, Letters;
    assert IsEncoding(url, padding, bs, ds);
    if IsEncoding(url, padding, bs, cs) { OneEncoding(url, padding, bs, cs, ds); }
  }

  lemma Sizes(n: nat, m: nat)
    requires m == (n * 8 + 5) / 6
    ensures m % 4 != 1 && m * 6 / 8 == n && n * 8 <= m * 6 < n * 8 + 6
  {
    var q, r := n / 3, n % 3;
    assert n == 3 * q + r;
    assert m == 4 * q + (r * 8 + 5) / 6;
  }

  lemma FirstBits(bs: seq<byte>, vs: seq<nat>)
    requires Carries(vs, bs)
    ensures |vs| % 4 != 1 && |vs| * 6 / 8 == |bs|
    ensures |bs| * 8 <= |vs| * 6 == |Stream(vs, 6)| && Stream(vs, 6)[..|bs| * 8] == Stream(bs, 8)
  {
    hide Stream, BitsOf;
    Length(vs);
    Length(bs);
    Sizes(|bs|, |vs|);
  }

  /** The length with padding, and without. */
  lemma EncodedLength(url: bool, padding: bool, bs: seq<byte>, cs: seq<byte>)
    requires IsEncoding(url, padding, bs, cs)
    ensures |cs| == if padding then (|bs| + 2) / 3 * 4 else (|bs| * 8 + 5) / 6
  {
    Room(|bs|);
    hide Carries;
    LettersFor(url, padding, bs, cs);
  }

  lemma LettersFor(url: bool, padding: bool, bs: seq<byte>, cs: seq<byte>)
    requires IsEncoding(url, padding, bs, cs)
    ensures |cs| == (|bs| * 8 + 5) / 6 + if padding then Padding(|bs|) else 0
  {
    hide Stream, BitsOf, Letters;
  }

  // ---------- the encoder

  /** Three more bytes, four more sextets. */
  lemma GroupStep(vs: seq<nat>, bs: seq<byte>, s: nat)
    requires Sextets(vs) && s + 3 <= |bs| && Stream(vs, 6) == Stream(bs[..s], 8)
    ensures var r := vs + [S0(bs[s]), S1(bs[s], bs[s + 1]), S2(bs[s + 1], bs[s + 2]), S3(bs[s + 2])];
            Sextets(r) && Stream(r, 6) == Stream(bs[..s + 3], 8)
  {
    hide Stream, BitsOf;
    Group(bs[s], bs[s + 1], bs[s + 2]);
    FirstThree(bs, s);
    Four(vs, S0(bs[s]), S1(bs[s], bs[s + 1]), S2(bs[s + 1], bs[s + 2]), S3(bs[s + 2]));
  }

  lemma FirstOne(bs: seq<byte>, s: nat)
    requires s < |bs|
    ensures Stream(bs[..s + 1], 8) == Stream(bs[..s], 8) + BitsOf(bs[s], 8)
  {
    assert bs[..s + 1][..s] == bs[..s];
  }

  lemma FirstThree(bs: seq<byte>, s: nat)
    requires s + 3 <= |bs|
    ensures Stream(bs[..s + 3], 8) == Stream(bs[..s], 8) +
      (BitsOf(bs[s], 8) + BitsOf(bs[s + 1], 8) + BitsOf(bs[s + 2], 8))
  {
    hide Stream, BitsOf;
    FirstOne(bs, s);
    FirstOne(bs, s + 1);
    FirstOne(bs, s + 2);
    Assoc3(Stream(bs[..s], 8), BitsOf(bs[s], 8), BitsOf(bs[s + 1], 8), BitsOf(bs[s + 2], 8));
  }

  lemma Two(ns: seq<nat>, a: nat, b: nat)
    ensures Stream(ns + [a, b], 6) == Stream(ns, 6) + (BitsOf(a, 6) + BitsOf(b, 6))
  {
    hide Stream, BitsOf;
    assert ns + [a] + [b] == ns + [a, b];
    StreamSnoc(ns, a, 6);
    StreamSnoc(ns + [a], b, 6);
    Assoc(Stream(ns, 6), BitsOf(a, 6), BitsOf(b, 6));
  }

  lemma Three(ns: seq<nat>, a: nat, b: nat, c: nat)
    ensures Stream(ns + [a, b, c], 6) == Stream(ns, 6) + (BitsOf(a, 6) + BitsOf(b, 6) + BitsOf(c, 6))
  {
    hide Stream, BitsOf;
    assert ns + [a] + [b] + [c] == ns + [a, b, c];
    StreamSnoc(ns, a, 6);
    StreamSnoc(ns + [a], b, 6);
    StreamSnoc(ns + [a] + [b], c, 6);
    Assoc3(Stream(ns, 6), BitsOf(a, 6), BitsOf(b, 6), BitsOf(c, 6));
  }

  lemma Four(ns: seq<nat>, a: nat, b: nat, c: nat, d: nat)
    ensures Stream(ns + [a, b, c, d], 6) == Stream(ns, 6) + (BitsOf(a, 6) + BitsOf(b, 6) + BitsOf(c, 6) + BitsOf(d, 6))
  {
    hide Stream, BitsOf;
    assert ns + [a] + [b] + [c] + [d] == ns + [a, b, c, d];
    StreamSnoc(ns, a, 6);
    StreamSnoc(ns + [a], b, 6);
    StreamSnoc(ns + [a] + [b], c, 6);
    StreamSnoc(ns + [a] + [b] + [c], d, 6);
    Assoc3(Stream(ns, 6), BitsOf(a, 6), BitsOf(b, 6), BitsOf(c, 6));
    Assoc(Stream(ns, 6), BitsOf(a, 6) + BitsOf(b, 6) + BitsOf(c, 6), BitsOf(d, 6));
  }

  lemma Assoc(a: seq<nat>, b: seq<nat>, c: seq<nat>)
    ensures a + b + c == a + (b + c)
  {
  }

  lemma Assoc3(s: seq<nat>, a: seq<nat>, b: seq<nat>, c: seq<nat>)
    ensures s + a + b + c == s + (a + b + c)
  {
  }

  lemma LastBitsOne(a: byte)
    ensures BitsOf(S0(a), 6) + BitsOf(a % 4 * 16, 6) == BitsOf(a, 8) + BitsOf(0, 4)
  {
    hide BitsOf, Pow2;
    Powers();
    Split(a, a / 4, 4, a % 4, 6, 2);
    Split(a % 4 * 16, a % 4, 16, 0, 2, 4);
    Assoc(BitsOf(a / 4, 6), BitsOf(a % 4, 2), BitsOf(0, 4));
  }

  /** The last byte of an input of 3q + 1 bytes. */
  lemma LastOne(vs: seq<nat>, bs: seq<byte>, m: nat)
    requires Sextets(vs) && |bs| == m + 1 && Stream(vs, 6) == Stream(bs[..m], 8) && |vs| * 3 == m * 4
    ensures Carries(vs + [S0(bs[m]), bs[m] % 4 * 16], bs)
  {
    hide Stream, BitsOf;
    LastBitsOne(bs[m]);
    FirstOne(bs, m);
    assert bs[..m + 1] == bs;
    Two(vs, S0(bs[m]), bs[m] % 4 * 16);
    Assoc(Stream(vs, 6), BitsOf(bs[m], 8), BitsOf(0, 4));
  }

  lemma LastBitsTwo(a: byte, b: byte)
    ensures BitsOf(S0(a), 6) + BitsOf(S1(a, b), 6) + BitsOf(b % 16 * 4, 6) == BitsOf(a, 8) + BitsOf(b, 8) + BitsOf(0, 2)
  {
    hide BitsOf, Pow2;
    Powers();
    Split(a, a / 4, 4, a % 4, 6, 2);
    Split(b, b / 16, 16, b % 16, 4, 4);
    Split(S1(a, b), a % 4, 16, b / 16, 2, 4);
    Split(b % 16 * 4, b % 16, 4, 0, 4, 2);
    Regroup(BitsOf(a / 4, 6), BitsOf(a % 4, 2), BitsOf(b / 16, 4), BitsOf(b % 16, 4), BitsOf(0, 2), []);
  }

  /** The last two bytes of an input of 3q + 2 bytes. */
  lemma LastTwo(vs: seq<nat>, bs: seq<byte>, m: nat)
    requires Sextets(vs) && |bs| == m + 2 && Stream(vs, 6) == Stream(bs[..m], 8) && |vs| * 3 == m * 4
    ensures Carries(vs + [S0(bs[m]), S1(bs[m], bs[m + 1]), bs[m + 1] % 16 * 4], bs)
  {
    hide Stream, BitsOf;
    LastBitsTwo(bs[m], bs[m + 1]);
    FirstOne(bs, m);
    FirstOne(bs, m + 1);
    assert bs[..m + 2] == bs;
    Three(vs, S0(bs[m]), S1(bs[m], bs[m + 1]), bs[m + 1] % 16 * 4);
    Assoc3(Stream(vs, 6), BitsOf(bs[m], 8), BitsOf(bs[m + 1], 8), BitsOf(0, 2));
  }

  lemma LettersMore(url: bool, vs: seq<nat>, ws: seq<nat>)
    requires Sextets(vs) && Sextets(ws)
    ensures Sextets(vs + ws) && Letters(url, vs + ws) == Letters(url, vs) + Letters(url, ws)
  {
  }

  /** The letters of ws are put at d. */
  method Put(dst: array<byte>, d: nat, url: bool, ws: seq<nat>, ghost vs: seq<nat>)
    requires Sextets(vs) && Sextets(ws) && d + |ws| <= dst.Length && dst[..d] == Letters(url, vs)
    modifies dst
    ensures dst[..d + |ws|] == Letters(url, vs + ws)
    ensures forall j :: d + |ws| <= j < dst.Length ==> dst[j] == old(dst[j])
  {
    var i := 0;
    while i < |ws|
      invariant 0 <= i <= |ws| && dst[..d] == Letters(url, vs)
      invariant forall j :: 0 <= j < i ==> dst[d + j] == Letter(url, ws[j])
      invariant forall j :: d + i <= j < dst.Length ==> dst[j] == old(dst[j])
    {
      dst[d + i] := Letter(url, ws[i]);
      i := i + 1;
    }
    LettersMore(url, vs, ws);
    hide Letter;
    assert dst[..d + |ws|] == dst[..d] + dst[d..d + |ws|];
  }

  /** The loop over whole groups of three bytes. */
  method EncodeGroups(src: seq<byte>, dst: array<byte>, url: bool) returns (s: nat, d: nat, ghost vs: seq<nat>)
    requires dst.Length >= |src| / 3 * 4
    modifies dst
    ensures s <= |src| < s + 3 && d * 3 == s * 4 && d == |vs| <= dst.Length
    ensures Sextets(vs) && dst[..d] == Letters(url, vs) && Stream(vs, 6) == Stream(src[..s], 8)
    ensures forall j :: d <= j < dst.Length ==> dst[j] == old(dst[j])
  {
    hide Stream, BitsOf, Letters, Letter, S0, S1, S2, S3;
    s, d, vs := 0, 0, [];
    Nothing(url, src);
    while |src| - s > 2
      invariant s <= |src| && d * 3 == s * 4 && d == |vs| <= dst.Length
      invariant Sextets(vs) && dst[..d] == Letters(url, vs) && Stream(vs, 6) == Stream(src[..s], 8)
      invariant forall j :: d <= j < dst.Length ==> dst[j] == old(dst[j])
    {
      GroupStep(vs, src, s);
      var ws := [S0(src[s]), S1(src[s], src[s + 1]), S2(src[s + 1], src[s + 2]), S3(src[s + 2])];
      SextetBounds(src[s], src[s + 1], src[s + 2]);
      Put(dst, d, url, ws, vs);
      vs := vs + ws;
      d := d + 4;
      s := s + 3;
    }
  }

  /** The one or two bytes that are left, without padding. */
  method EncodeRest(src: seq<byte>, dst: array<byte>, url: bool, s: nat, d: nat, ghost vs: seq<nat>)
    returns (n: nat, ghost ws: seq<nat>)
    requires s <= |src| < s + 3 && d * 3 == s * 4 && d == |vs| && (|src| * 8 + 5) / 6 <= dst.Length
    requires Sextets(vs) && dst[..d] == Letters(url, vs) && Stream(vs, 6) == Stream(src[..s], 8)
    modifies dst
    ensures d <= n <= dst.Length && Carries(ws, src) && n == |ws| && dst[..n] == Letters(url, ws)
    ensures forall j :: n <= j < dst.Length ==> dst[j] == old(dst[j])
  {
    hide Stream, BitsOf, Letters, Letter, S0, S1, S2, S3, Carries;
    Room(|src|);
    var len := |src| - s;
    if len == 1 {
      LastOne(vs, src, s);
      var last := [S0(src[s]), src[s] % 4 * 16];
      SextetBounds(src[s], 0, 0);
      Put(dst, d, url, last, vs);
      ws := vs + last;
    } else if len == 2 {
      LastTwo(vs, src, s);
      var last := [S0(src[s]), S1(src[s], src[s + 1]), src[s + 1] % 16 * 4];
      SextetBounds(src[s], src[s + 1], 0);
      Put(dst, d, url, last, vs);
      ws := vs + last;
    } else {
      AllDone(vs, src);
      ws := vs;
    }
    n := d + if len == 0 then 0 else len + 1;
  }

  /** ngx_encode_base64_internal; n is dst->len. */
  method Encode(src: seq<byte>, dst: array<byte>, url: bool, padding: bool) returns (n: nat)
    requires dst.Length >= if padding then (|src| + 2) / 3 * 4 else (|src| * 8 + 5) / 6
    modifies dst
    ensures n <= dst.Length && IsEncoding(url, padding, src, dst[..n])
    ensures forall j :: n <= j < dst.Length ==> dst[j] == old(dst[j])
  {
    hide Stream, BitsOf, Letters, Letter;
    Room(|src|);
    var s, d; ghost var vs, ws;
    s, d, vs := EncodeGroups(src, dst, url);
    n, ws := EncodeRest(src, dst, url, s, d, vs);
    if padding {
      PaddingFills(|src|);
      n := Pad(dst, n, Padding(|src|), Letters(url, ws));
    } else {
      assert Letters(url, ws) + [] == Letters(url, ws);
    }
  }

  /** The byte 0xFB written out in both formats. */
  method EncodeSample() returns (text: seq<byte>, urlText: seq<byte>)
    ensures text == Codes("+w==") && urlText == Codes("-w")
  {
    hide IsEncoding;
    var dst := new byte[4](_ => 0);
    var n := Encode([0xFB], dst, false, true);
    text := dst[..n];
    SampleOne(text);
    n := Encode([0xFB], dst, true, false);
    urlText := dst[..n];
    SampleOne(urlText);
  }

  lemma PaddingFills(n: nat)
    ensures (n * 8 + 5) / 6 + Padding(n) == (n + 2) / 3 * 4
  {
    Room(n);
  }

  /** The padded text is no shorter. */
  lemma Room(n: nat)
    ensures (n * 8 + 5) / 6 <= (n + 2) / 3 * 4
    ensures (n * 8 + 5) / 6 == n / 3 * 4 + if n % 3 == 0 then 0 else n % 3 + 1
  {
    var q, r := n / 3, n % 3;
    assert n == 3 * q + r;
  }

  lemma SextetBounds(a: byte, b: byte, c: byte)
    ensures Sextets([S0(a), S1(a, b), S2(b, c), S3(c)])
    ensures Sextets([S0(a), a % 4 * 16]) && Sextets([S0(a), S1(a, b), b % 16 * 4])
  {
  }

  lemma Nothing(url: bool, bs: seq<byte>)
    ensures Letters(url, []) == [] && Stream([], 6) == Stream(bs[..0], 8)
  {
  }

  /** An input of 3q bytes needs no zero bits. */
  lemma AllDone(vs: seq<nat>, bs: seq<byte>)
    requires Sextets(vs) && Stream(vs, 6) == Stream(bs[..|bs|], 8) && |vs| * 3 == |bs| * 4
    ensures Carries(vs, bs)
  {
    hide Stream;
    assert bs[..|bs|] == bs;
    assert Stream(bs, 8) + [] == Stream(bs, 8);
  }

  method Pad(dst: array<byte>, at: nat, k: nat, ghost before: seq<byte>) returns (n: nat)
    requires at + k <= dst.Length && dst[..at] == before
    modifies dst
    ensures n == at + k && dst[..n] == before + Pads(k)
    ensures forall j :: n <= j < dst.Length ==> dst[j] == old(dst[j])
  {
    n := at;
    while n < at + k
      invariant at <= n <= at + k && dst[..at] == before && forall j :: at <= j < n ==> dst[j] == PAD
      invariant forall j :: n <= j < dst.Length ==> dst[j] == old(dst[j])
    {
      dst[n] := PAD;
      n := n + 1;
    }
  }

  // ---------- the decoder

  /** The bytes four sextets make, each cut to eight bits. */
  function D0(x: nat, y: nat): byte { (x * 4 + y / 16) % 256 }
  function D1(y: nat, z: nat): byte { (y * 16 + z / 4) % 256 }
  function D2(z: nat, w: nat): byte { (z * 64 + w) % 256 }

  lemma Back(x: nat, y: nat, z: nat, w: nat)
    requires x < 64 && y < 64 && z < 64 && w < 64
    ensures D0(x, y) == x * 4 + y / 16 && D1(y, z) == y % 16 * 16 + z / 4 && D2(z, w) == z % 4 * 64 + w
    ensures S0(D0(x, y)) == x && S1(D0(x, y), D1(y, z)) == y && S2(D1(y, z), D2(z, w)) == z && S3(D2(z, w)) == w
  {
  }

  lemma FirstByte(x: nat, y: nat)
    requires x < 64 && y < 64
    ensures BitsOf(D0(x, y), 8) == BitsOf(x, 6) + BitsOf(y / 16, 2)
  {
    Back(x, y, 0, 0);
    hide BitsOf, Pow2, D0, S0, S1, S2, S3;
    Powers();
    Split(D0(x, y), x, 4, y / 16, 6, 2);
  }

  lemma SecondByte(y: nat, z: nat)
    requires y < 64 && z < 64
    ensures BitsOf(D1(y, z), 8) == BitsOf(y % 16, 4) + BitsOf(z / 4, 4)
  {
    Back(0, y, z, 0);
    hide BitsOf, Pow2, D1, S0, S1, S2, S3;
    Powers();
    Split(D1(y, z), y % 16, 16, z / 4, 4, 4);
  }

  lemma TailOne(x: nat, y: nat)
    requires x < 64 && y < 64
    ensures BitsOf(x, 6) + BitsOf(y, 6) == BitsOf(D0(x, y), 8) + BitsOf(y % 16, 4)
  {
    hide BitsOf, Pow2, D0;
    Powers();
    FirstByte(x, y);
    Split(y, y / 16, 16, y % 16, 2, 4);
    Assoc(BitsOf(x, 6), BitsOf(y / 16, 2), BitsOf(y % 16, 4));
  }

  lemma TailTwo(x: nat, y: nat, z: nat)
    requires x < 64 && y < 64 && z < 64
    ensures BitsOf(x, 6) + BitsOf(y, 6) + BitsOf(z, 6) == BitsOf(D0(x, y), 8) + BitsOf(D1(y, z), 8) + BitsOf(z % 4, 2)
  {
    hide BitsOf, Pow2, D0, D1;
    Powers();
    TailOne(x, y);
    SecondByte(y, z);
    Split(z, z / 4, 4, z % 4, 4, 2);
    Middle(BitsOf(D0(x, y), 8), BitsOf(y % 16, 4), BitsOf(z / 4, 4), BitsOf(z % 4, 2));
  }

  lemma Middle(a: seq<nat>, b: seq<nat>, c: seq<nat>, d: seq<nat>)
    ensures (a + b) + (c + d) == a + (b + c) + d
  {
  }

  lemma FourBack(x: nat, y: nat, z: nat, w: nat)
    requires x < 64 && y < 64 && z < 64 && w < 64
    ensures BitsOf(x, 6) + BitsOf(y, 6) + BitsOf(z, 6) + BitsOf(w, 6)
         == BitsOf(D0(x, y), 8) + BitsOf(D1(y, z), 8) + BitsOf(D2(z, w), 8)
  {
    Back(x, y, z, w);
    hide BitsOf, D0, D1, D2, S0, S1, S2, S3;
    Group(D0(x, y), D1(y, z), D2(z, w));
  }

  lemma NextSextet(vs: seq<nat>, s: nat)
    requires s < |vs|
    ensures Stream(vs[..s + 1], 6) == Stream(vs[..s], 6) + BitsOf(vs[s], 6)
  {
    assert vs[..s + 1][..s] == vs[..s];
  }

  /** Four more sextets, three more bytes. */
  lemma Ungroup(bs: seq<byte>, vs: seq<nat>, s: nat)
    requires Sextets(vs) && s + 4 <= |vs| && Stream(bs, 8) == Stream(vs[..s], 6)
    ensures Stream(bs + [D0(vs[s], vs[s + 1]), D1(vs[s + 1], vs[s + 2]), D2(vs[s + 2], vs[s + 3])], 8) ==
      Stream(vs[..s + 4], 6)
  {
    hide Stream, BitsOf, D0, D1, D2;
    var x, y, z, w := vs[s], vs[s + 1], vs[s + 2], vs[s + 3];
    FourBack(x, y, z, w);
    NextSextet(vs, s);
    NextSextet(vs, s + 1);
    NextSextet(vs, s + 2);
    NextSextet(vs, s + 3);
    Assoc3(Stream(vs[..s], 6), BitsOf(x, 6), BitsOf(y, 6), BitsOf(z, 6));
    Assoc(Stream(vs[..s], 6), BitsOf(x, 6) + BitsOf(y, 6) + BitsOf(z, 6), BitsOf(w, 6));
    ThreeBytes(bs, D0(x, y), D1(y, z), D2(z, w));
  }

  lemma ThreeBytes(bs: seq<byte>, a: byte, b: byte, c: byte)
    ensures Stream(bs + [a, b, c], 8) == Stream(bs, 8) + (BitsOf(a, 8) + BitsOf(b, 8) + BitsOf(c, 8))
  {
    hide Stream, BitsOf;
    assert bs + [a] + [b] + [c] == bs + [a, b, c];
    StreamSnoc(bs, a, 8);
    StreamSnoc(bs + [a], b, 8);
    StreamSnoc(bs + [a] + [b], c, 8);
    Assoc3(Stream(bs, 8), BitsOf(a, 8), BitsOf(b, 8), BitsOf(c, 8));
  }

  lemma TwoBytes(bs: seq<byte>, a: byte, b: byte)
    ensures Stream(bs + [a, b], 8) == Stream(bs, 8) + (BitsOf(a, 8) + BitsOf(b, 8))
  {
    hide Stream, BitsOf;
    assert bs + [a] + [b] == bs + [a, b];
    StreamSnoc(bs, a, 8);
    StreamSnoc(bs + [a], b, 8);
    Assoc(Stream(bs, 8), BitsOf(a, 8), BitsOf(b, 8));
  }

  /** The bytes hold the first bits of the sextets, and fewer than eight are left over. */
  ghost predicate Holds(bs: seq<byte>, vs: seq<nat>) {
    |bs| == |vs| * 6 / 8 && |Stream(bs, 8)| <= |Stream(vs, 6)| && Stream(bs, 8) == Stream(vs, 6)[..|Stream(bs, 8)|]
  }

  lemma HoldsAll(bs: seq<byte>, vs: seq<nat>)
    requires |bs| * 4 == |vs| * 3 && Stream(bs, 8) == Stream(vs[..|vs|], 6)
    ensures Holds(bs, vs)
  {
    hide Stream;
    assert vs[..|vs|] == vs;
  }

  lemma HoldsOne(bs: seq<byte>, vs: seq<nat>, s: nat)
    requires Sextets(vs) && |vs| == s + 2 && |bs| * 4 == s * 3 && Stream(bs, 8) == Stream(vs[..s], 6)
    ensures Holds(bs + [D0(vs[s], vs[s + 1])], vs)
  {
    hide Stream, BitsOf, D0;
    TailOne(vs[s], vs[s + 1]);
    NextSextet(vs, s);
    NextSextet(vs, s + 1);
    assert vs[..s + 2] == vs;
    StreamSnoc(bs, D0(vs[s], vs[s + 1]), 8);
    Assoc(Stream(bs, 8), BitsOf(vs[s], 6), BitsOf(vs[s + 1], 6));
    Assoc(Stream(bs, 8), BitsOf(D0(vs[s], vs[s + 1]), 8), BitsOf(vs[s + 1] % 16, 4));
  }

  lemma HoldsTwo(bs: seq<byte>, vs: seq<nat>, s: nat)
    requires Sextets(vs) && |vs| == s + 3 && |bs| * 4 == s * 3 && Stream(bs, 8) == Stream(vs[..s], 6)
    ensures Holds(bs + [D0(vs[s], vs[s + 1]), D1(vs[s + 1], vs[s + 2])], vs)
  {
    hide Stream, BitsOf, D0, D1;
    var x, y, z := vs[s], vs[s + 1], vs[s + 2];
    TailTwo(x, y, z);
    NextSextet(vs, s);
    NextSextet(vs, s + 1);
    NextSextet(vs, s + 2);
    assert vs[..s + 3] == vs;
    TwoBytes(bs, D0(x, y), D1(y, z));
    Assoc3(Stream(bs, 8), BitsOf(x, 6), BitsOf(y, 6), BitsOf(z, 6));
    Assoc(Stream(bs, 8), BitsOf(D0(x, y), 8) + BitsOf(D1(y, z), 8), BitsOf(z % 4, 2));
  }

  /** What holds the first bits is the decoding. */
  lemma Decoded(url: bool, cs: seq<byte>, bs: seq<byte>)
    requires Decodable(url, cs) && Holds(bs, Values(url, cs[..Body(cs)]))
    ensures IsDecoding(url, cs, bs)
  {
    hide Stream, BitsOf, Values;
    Length(bs);
  }

  /** The first loop: the length of the text before '=', unless a foreign character comes first. */
  method Scan(src: seq<byte>, url: bool) returns (ok: bool, len: nat)
    ensures ok ==> len == Body(src) && forall i :: 0 <= i < len ==> Value(url, src[i]) != FOREIGN
    ensures !ok ==> exists i :: 0 <= i < Body(src) && Value(url, src[i]) == FOREIGN
  {
    len := 0;
    while len < |src|
      invariant len <= |src| && forall i :: 0 <= i < len ==> src[i] != PAD && Value(url, src[i]) != FOREIGN
    {
      if src[len] == PAD {
        break;
      }
      if Value(url, src[len]) == FOREIGN {
        BodyAfter(src, len);
        return false, len;
      }
      len := len + 1;
    }
    BodyOf(src, len);
    ok := true;
  }

  lemma {:induction false} BodyAfter(cs: seq<byte>, i: nat)
    requires i < |cs| && forall j :: 0 <= j <= i ==> cs[j] != PAD
    ensures i < Body(cs)
    decreases |cs|
  {
    if i > 0 { BodyAfter(cs[1..], i - 1); }
  }

  /** The loop over groups of four characters. */
  method DecodeGroups(src: seq<byte>, size: nat, dst: array<byte>, url: bool, ghost vs: seq<nat>)
    returns (s: nat, d: nat)
    requires size <= |src| && dst.Length >= size / 4 * 3
    requires (forall i :: 0 <= i < size ==> Value(url, src[i]) != FOREIGN) && vs == Values(url, src[..size])
    modifies dst
    ensures s <= size < s + 4 && s % 4 == 0 && d * 4 == s * 3
    ensures d <= dst.Length && Stream(dst[..d], 8) == Stream(vs[..s], 6)
    ensures forall j :: d <= j < dst.Length ==> dst[j] == old(dst[j])
  {
    hide Stream, BitsOf, Letter, Value, D0, D1, D2;
    s, d := 0, 0;
    assert vs[..0] == [] && dst[..0] == [];
    Nothing(url, []);
    while size - s > 3
      invariant s <= size && s % 4 == 0 && d * 4 == s * 3
      invariant d <= dst.Length && Stream(dst[..d], 8) == Stream(vs[..s], 6)
      invariant forall j :: d <= j < dst.Length ==> dst[j] == old(dst[j])
    {
      ghost var before := dst[..d];
      Ungroup(before, vs, s);
      dst[d] := D0(Value(url, src[s]), Value(url, src[s + 1]));
      dst[d + 1] := D1(Value(url, src[s + 1]), Value(url, src[s + 2]));
      dst[d + 2] := D2(Value(url, src[s + 2]), Value(url, src[s + 3]));
      assert dst[..d + 3] == before + [dst[d], dst[d + 1], dst[d + 2]];
      d := d + 3;
      s := s + 4;
    }
  }

  /** The two or three characters that are left. */
  method DecodeRest(src: seq<byte>, size: nat, dst: array<byte>, url: bool, s: nat, d: nat, ghost vs: seq<nat>)
    returns (n: nat)
    requires size <= |src| && s <= size < s + 4 && size - s != 1 && d * 4 == s * 3
    requires d + (if size - s == 0 then 0 else size - s - 1) <= dst.Length
    requires (forall i :: 0 <= i < size ==> Value(url, src[i]) != FOREIGN) && vs == Values(url, src[..size])
    requires Stream(dst[..d], 8) == Stream(vs[..s], 6)
    modifies dst
    ensures d <= n <= dst.Length && Holds(dst[..n], vs)
    ensures forall j :: n <= j < dst.Length ==> dst[j] == old(dst[j])
  {
    hide Stream, BitsOf, Letter, Value, D0, D1, D2, Holds;
    ghost var before := dst[..d];
    var len := size - s;
    if len == 0 {
      HoldsAll(before, vs);
    } else if len == 2 {
      HoldsOne(before, vs, s);
    } else {
      HoldsTwo(before, vs, s);
    }
    n := d;
    if len > 1 {
      dst[n] := D0(Value(url, src[s]), Value(url, src[s + 1]));
      n := n + 1;
      assert dst[..n] == before + [dst[d]];
    }
    if len > 2 {
      dst[n] := D1(Value(url, src[s + 1]), Value(url, src[s + 2]));
      n := n + 1;
      assert dst[..n] == before + [dst[d], dst[d + 1]];
    }
  }

  /** ngx_decode_base64_internal; n is dst->len. */
  method Decode(src: seq<byte>, dst: array<byte>, url: bool) returns (ok: bool, n: nat)
    requires dst.Length >= (|src| + 3) / 4 * 3
    modifies dst
    ensures ok <==> Decodable(url, src)
    ensures ok ==> n <= dst.Length && IsDecoding(url, src, dst[..n])
    ensures forall j :: (if ok then n else 0) <= j < dst.Length ==> dst[j] == old(dst[j])
  {
    hide Stream, Letter, Value, Body, Holds, IsDecoding;
    var len;
    ok, len := Scan(src, url);
    if !ok {
      return false, 0;
    }
    if len % 4 == 1 {
      return false, 0;
    }
    ghost var vs := Values(url, src[..len]);
    var s, d := DecodeGroups(src, len, dst, url, vs);
    n := DecodeRest(src, len, dst, url, s, d, vs);
    Decoded(url, src, dst[..n]);
  }

  /** Encoding and then decoding, in either alphabet and with or without padding, returns the input. */
  method ThereAndBack(src: seq<byte>, url: bool, padding: bool) returns (ok: bool, r: seq<byte>)
    ensures ok && r == src
  {
    hide IsEncoding, IsDecoding, Decodable;
    Room(|src|);
    var text := new byte[(|src| + 2) / 3 * 4](_ => 0);
    var n := Encode(src, text, url, padding);
    var data := new byte[(n + 3) / 4 * 3](_ => 0);
    var cs, m := text[..n], 0;
    assert |cs| == n;
    ok, m := Decode(cs, data, url);
    RoundTrip(url, padding, src, cs, src);
    if ok {
      r := data[..m];
      RoundTrip(url, padding, src, cs, r);
    } else {
      r := [];
    }
  }
}
