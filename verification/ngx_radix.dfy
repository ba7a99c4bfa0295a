/**
The radix tree of struct_data/ngx_radix_tree over 32-bit keys: longest-prefix match, deletion that prunes, and nodes
that are recycled through a free list. A prefix is a sequence of bits, the top bit of the key first.
*/
module RadixTrees {
  import opened Octets
  import opened Grants

  const NO_VALUE := 0xFFFF_FFFF_FFFF_FFFF
  const TOP := 0x8000_0000

  /** FAULT stands for a run that follows a null pointer. */
  datatype Status = OK | BUSY | ERROR | FAULT

  // ---------- bits

  /** x & bit, for a bit that is a power of two or, past the end of the key, 0. */
  predicate HasBit(x: nat, bit: nat) {
    bit != 0 && x / bit % 2 == 1
  }

  /** The value of bit after i shifts of the top bit to the right. */
  function BitAt(i: nat): (b: nat)
    ensures b == 0 <==> i > 31
  {
    if i > 31 then 0 else Pow2(31 - i)
  }

  lemma Shift(i: nat)
    ensures BitAt(i) / 2 == BitAt(i + 1) && BitAt(0) == TOP
  {
    if i < 31 { assert Pow2(31 - i) == 2 * Pow2(30 - i); }
    assert Pow2(8) == 0x100;
    assert Pow2(16) == 0x1_0000;
    assert Pow2(24) == 0x100_0000;
  }

  /** mask is m ones followed by zeros. */
  ghost predicate IsMask(mask: nat, m: nat) {
    m <= 32 && mask == Pow2(32) - Pow2(32 - m)
  }

  /** How many ones a mask begins with: the program looks at no more of it. */
  ghost function Width(mask: nat): (m: nat)
    ensures m <= 32
  {
    WidthFrom(mask, 0)
  }

  lemma WidthBit(mask: nat, i: nat)
    requires i <= Width(mask)
    ensures HasBit(mask, BitAt(i)) <==> i < Width(mask)
  {
  }

  ghost function WidthFrom(mask: nat, j: nat): (m: nat)
    requires j <= 32
    ensures j <= m <= 32 && (forall i :: j <= i < m ==> HasBit(mask, BitAt(i))) && !HasBit(mask, BitAt(m))
    decreases 32 - j
  {
    if j < 32 && HasBit(mask, BitAt(j)) then WidthFrom(mask, j + 1) else j
  }

  /** A mask of m ones is m wide. */
  lemma MaskWidth(mask: nat, m: nat)
    requires IsMask(mask, m)
    ensures Width(mask) == m
  {
    var w := Width(mask);
    MaskBit(mask, m, m);
    MaskBit(mask, m, w);
    WidthBit(mask, w);
    if m < w { WidthBit(mask, m); }
  }

  lemma Even(a: nat)
    requires a > 0
    ensures Pow2(a) % 2 == 0
  {
  }

  /** The bits of a mask. */
  lemma MaskBit(mask: nat, m: nat, i: nat)
    requires IsMask(mask, m) && i <= 32
    ensures HasBit(mask, BitAt(i)) <==> i < m
  {
    if i < 32 {
      hide Pow2, HasBit;
      if i < m { MaskOne(mask, m, i); } else { MaskZero(mask, m, i); }
    }
  }

  lemma MaskOne(mask: nat, m: nat, i: nat)
    requires IsMask(mask, m) && i < m
    ensures HasBit(mask, Pow2(31 - i))
  {
    Even(i + 1);
    hide Pow2, HasBit;
    Pow2Adds(i + 1, 31 - i);
    Pow2Grows(32 - m, 31 - i);
    LessOne(mask, Pow2(i + 1), Pow2(31 - i), Pow2(32 - m));
  }

  lemma MaskZero(mask: nat, m: nat, i: nat)
    requires IsMask(mask, m) && m <= i < 32
    ensures !HasBit(mask, Pow2(31 - i))
  {
    Even(i + 1);
    Even(i + 1 - m);
    hide Pow2, HasBit;
    Pow2Adds(i + 1, 31 - i);
    Pow2Adds(i + 1 - m, 31 - i);
    Less(mask, Pow2(i + 1), Pow2(i + 1 - m), Pow2(31 - i));
  }

  lemma LessOne(x: nat, p: nat, d: nat, z: nat)
    requires x == p * d - z && 0 < z <= d && p % 2 == 0
    ensures HasBit(x, d)
  {
    assert (p - 1) * d == p * d - d;
    Quotient(x, d, p - 1);
  }

  lemma Less(x: nat, p: nat, q: nat, d: nat)
    requires x == p * d - q * d && d > 0 && p % 2 == 0 && q % 2 == 0
    ensures !HasBit(x, d)
  {
    assert (p - q) * d == p * d - q * d;
    Quotient(x, d, p - q);
  }

  // ---------- prefixes

  /** A string of bits, given by all but its last bit and that one. */
  datatype Prefix = Empty | Sub(up: Prefix, bit: bool)

  function Length(p: Prefix): nat {
    if p.Empty? then 0 else Length(p.up) + 1
  }

  /** The first n bits of a key. */
  function First(key: nat, n: nat): (p: Prefix)
    ensures Length(p) == n
  {
    if n == 0 then Empty else Sub(First(key, n - 1), HasBit(key, BitAt(n - 1)))
  }

  /** The number a prefix spells. */
  function Number(p: Prefix): nat {
    if p.Empty? then 0 else 2 * Number(p.up) + if p.bit then 1 else 0
  }

  lemma HalfOf(x: nat, p: nat)
    requires p > 0
    ensures x / p == 2 * (x / (2 * p)) + if HasBit(x, p) then 1 else 0
  {
    var q, r := x / p / 2, x / p % 2;
    assert x / p == 2 * q + r && x == (x / p) * p + x % p;
    assert (2 * q + r) * p == q * (2 * p) + r * p;
    assert r * p + x % p < 2 * p;
    Quotient(x, 2 * p, q);
  }

  /** The first n bits of a key are its top n bits. */
  lemma {:induction false} FirstNumber(key: nat, n: nat)
    requires key < Pow2(32) && n <= 32
    ensures Number(First(key, n)) == key / Pow2(32 - n)
  {
    if n > 0 {
      var p := Pow2(32 - n);
      assert Pow2(33 - n) == 2 * p && BitAt(n - 1) == p;
      hide Pow2, HasBit, BitAt;
      FirstNumber(key, n - 1);
      HalfOf(key, p);
    } else {
      hide Pow2;
      Quotient(key, Pow2(32), 0);
    }
  }

  lemma {:induction false} PrefixKnown(p: Prefix, q: Prefix)
    requires Length(p) == Length(q) && Number(p) == Number(q)
    ensures p == q
  {
    if p.Sub? { PrefixKnown(p.up, q.up); }
  }

  /** Keys have the same first bits exactly when they are the same number without the others. */
  lemma SameFirst(a: nat, b: nat, n: nat)
    requires a < Pow2(32) && b < Pow2(32) && n <= 32
    ensures First(a, n) == First(b, n) <==> a / Pow2(32 - n) == b / Pow2(32 - n)
  {
    hide Pow2;
    FirstNumber(a, n);
    FirstNumber(b, n);
    if a / Pow2(32 - n) == b / Pow2(32 - n) { PrefixKnown(First(a, n), First(b, n)); }
  }

  /** p is what is left of the key without its last bits. */
  predicate Matches(p: Prefix, key: nat) {
    Length(p) <= 32 && Number(p) == key / Pow2(32 - Length(p))
  }

  lemma MatchesFirst(p: Prefix, key: nat)
    requires key < Pow2(32) && Length(p) <= 32
    ensures Matches(p, key) <==> p == First(key, Length(p))
  {
    hide Pow2;
    FirstNumber(key, Length(p));
    if Matches(p, key) { PrefixKnown(p, First(key, Length(p))); }
  }

  // ---------- what a tree stores; vals gives the value in the node of each prefix that has one

  /** The prefixes inserted, with their values. */
  ghost function Stored(vals: map<Prefix, nat>): map<Prefix, nat> {
    map p | p in vals && vals[p] != NO_VALUE :: vals[p]
  }

  ghost predicate Childless(vals: map<Prefix, nat>, p: Prefix) {
    Sub(p, true) !in vals && Sub(p, false) !in vals
  }

  ghost predicate Closed(vals: map<Prefix, nat>) {
    forall q, b {:trigger Sub(q, b) in vals} :: Sub(q, b) in vals ==> q in vals
  }

  /** Every node but the root and, perhaps, the one for p carries a value or has a child. */
  ghost predicate CleanBut(vals: map<Prefix, nat>, p: Prefix) {
    forall q {:trigger Childless(vals, q)} ::
      q in vals && q != Empty && q != p && Childless(vals, q) ==> vals[q] != NO_VALUE
  }

  ghost predicate Clean(vals: map<Prefix, nat>) {
    CleanBut(vals, Empty)
  }

  /** The value of the longest stored prefix of the key among those of fewer than n bits, or NO_VALUE. */
  ghost function Match(stored: map<Prefix, nat>, key: nat, n: nat): nat {
    if n == 0 then NO_VALUE
    else if First(key, n - 1) in stored then stored[First(key, n - 1)]
    else Match(stored, key, n - 1)
  }

  /** j is the number of bits of the longest stored prefix of the key among those of fewer than n bits. */
  ghost predicate Longest(stored: map<Prefix, nat>, key: nat, n: nat, j: nat) {
    j < n && First(key, j) in stored && forall l :: j < l < n ==> First(key, l) !in stored
  }

  /** What Match means: the value of the longest stored prefix, and NO_VALUE when there is none. */
  lemma {:induction false} MatchIsLongest(stored: map<Prefix, nat>, key: nat, n: nat)
    ensures if exists j :: 0 <= j < n && First(key, j) in stored
            then exists j :: Longest(stored, key, n, j) && Match(stored, key, n) == stored[First(key, j)]
            else Match(stored, key, n) == NO_VALUE
  {
    if n > 0 {
      if First(key, n - 1) in stored {
        assert Longest(stored, key, n, n - 1);
      } else {
        MatchIsLongest(stored, key, n - 1);
        if exists j :: 0 <= j < n && First(key, j) in stored {
          var i :| 0 <= i < n && First(key, i) in stored;
          assert i < n - 1;
          var j :| Longest(stored, key, n - 1, j) && Match(stored, key, n - 1) == stored[First(key, j)];
          assert Longest(stored, key, n, j);
        }
      }
    }
  }

  /** Of the prefixes stored p matches the key, and none that is longer does. */
  ghost predicate Best(stored: map<Prefix, nat>, key: nat, p: Prefix) {
    p in stored && Matches(p, key) && forall q :: q in stored && Matches(q, key) ==> Length(q) <= Length(p)
  }

  /** The same in numbers: a lookup gives the value of the longest stored prefix that matches the key. */
  lemma MatchInNumbers(stored: map<Prefix, nat>, key: nat)
    requires key < Pow2(32)
    ensures if exists p :: p in stored && Matches(p, key)
            then exists p :: Best(stored, key, p) && Match(stored, key, 33) == stored[p]
            else Match(stored, key, 33) == NO_VALUE
  {
    hide Pow2, Matches, First;
    MatchIsLongest(stored, key, 33);
    forall q | q in stored && Matches(q, key)
      ensures Length(q) <= 32 && q == First(key, Length(q))
    {
      MatchLength(q, key);
      MatchesFirst(q, key);
    }
    if exists j :: 0 <= j < 33 && First(key, j) in stored {
      var j :| Longest(stored, key, 33, j) && Match(stored, key, 33) == stored[First(key, j)];
      MatchesFirst(First(key, j), key);
      assert Best(stored, key, First(key, j));
    }
  }

  lemma MatchLength(p: Prefix, key: nat)
    requires Matches(p, key)
    ensures Length(p) <= 32
  {
  }

  /** The nodes for the next bits of a key, up to n of them, without values. */
  ghost function Bare(vals: map<Prefix, nat>, key: nat, m: nat, n: nat): map<Prefix, nat> {
    if n <= m then vals else Bare(vals, key, m, n - 1)[First(key, n) := NO_VALUE]
  }

  lemma LaidNone(vals: map<Prefix, nat>, key: nat, m: nat)
    ensures Bare(vals, key, m, m) == vals
  {
  }

  lemma LaidMore(vals: map<Prefix, nat>, key: nat, m: nat, n: nat)
    requires m <= n
    ensures Bare(vals, key, m, n + 1) == Bare(vals, key, m, n)[First(key, n + 1) := NO_VALUE]
  {
  }

  lemma BareEnd(vals: map<Prefix, nat>, key: nat, m: nat, n: nat)
    requires m < n
    ensures First(key, n) in Bare(vals, key, m, n) && Bare(vals, key, m, n)[First(key, n)] == NO_VALUE
  {
  }

  /** The prefix i bits shorter. */
  ghost function Up(p: Prefix, i: nat): (q: Prefix)
    requires i <= Length(p)
    ensures Length(q) == Length(p) - i
  {
    if i == 0 then p else Up(p, i - 1).up
  }

  /** p and the prefixes above it, k in all. */
  ghost function Line(p: Prefix, k: nat): set<Prefix>
    requires k <= Length(p)
  {
    if k == 0 then {} else Line(p, k - 1) + {Up(p, k - 1)}
  }

  lemma {:induction false} InLine(p: Prefix, k: nat, q: Prefix)
    requires k <= Length(p) && q in Line(p, k)
    ensures Length(q) > Length(p) - k && (Length(q) == Length(p) - k + 1 ==> q == Up(p, k - 1))
  {
    if q != Up(p, k - 1) { InLine(p, k - 1, q); }
  }

  /** The node i above p has no value, and no child but the one towards p. */
  ghost predicate Forlorn(vals: map<Prefix, nat>, p: Prefix, i: nat)
    requires 1 <= i <= Length(p)
  {
    var q := Up(p, i);
    q in vals && vals[q] == NO_VALUE && Sub(q, !Up(p, i - 1).bit) !in vals
  }

  lemma LineStarts(vals: map<Prefix, nat>, p: Prefix)
    ensures Up(p, 0) == p && vals - Line(p, 0) == vals
  {
  }

  lemma LineMore(vals: map<Prefix, nat>, p: Prefix, k: nat)
    requires k < Length(p)
    ensures vals - Line(p, k) - {Up(p, k)} == vals - Line(p, k + 1) && Up(p, k).up == Up(p, k + 1)
  {
  }

  /** Once the line below it is gone, a node is forlorn exactly when nothing is left of it. */
  lemma LeftAlone(vals: map<Prefix, nat>, p: Prefix, i: nat)
    requires 1 <= i <= Length(p) && Up(p, i) in vals
    ensures var v, q := vals - Line(p, i), Up(p, i);
      q in v && v[q] == vals[q] && (Childless(v, q) && v[q] == NO_VALUE <==> Forlorn(vals, p, i))
  {
    var q, c := Up(p, i), Up(p, i - 1);
    assert c == Sub(q, c.bit);
    assert c in Line(p, i);
    if q in Line(p, i) { InLine(p, i, q); }
    if Sub(q, !c.bit) in Line(p, i) { InLine(p, i, Sub(q, !c.bit)); }
  }

  /** What is stored, and the tidiness of the leaves, after a line of nodes is gone. */
  lemma Pruned(vals: map<Prefix, nat>, p: Prefix, k: nat)
    requires 1 <= k <= Length(p) && p in vals && Up(p, k) in vals
    requires forall i :: 1 <= i < k ==> Forlorn(vals, p, i)
    requires k == Length(p) || !Forlorn(vals, p, k)
    ensures p !in vals - Line(p, k) && Stored(vals - Line(p, k)) == Stored(vals) - {p}
    ensures Clean(vals) ==> Clean(vals - Line(p, k))
  {
    hide Forlorn;
    var v := vals - Line(p, k);
    LineValues(vals, p, k);
    if Clean(vals) {
      forall q | q in v && q != Empty && Childless(v, q)
        ensures v[q] != NO_VALUE
      {
        if !Childless(vals, q) {
          var b := Sub(q, true) in vals;
          LineUp(p, k, Sub(q, b));
          LeftAlone(vals, p, k);
        }
      }
    }
  }

  lemma {:induction false} LineValues(vals: map<Prefix, nat>, p: Prefix, k: nat)
    requires 1 <= k <= Length(p) && forall i :: 1 <= i < k ==> Forlorn(vals, p, i)
    ensures p in Line(p, k) && forall q :: q in Line(p, k) && q != p ==> q in vals && vals[q] == NO_VALUE
    decreases k
  {
    if k > 1 {
      assert Forlorn(vals, p, k - 1);
      LineValues(vals, p, k - 1);
    } else {
      assert Line(p, 1) == {p};
    }
  }

  /** What is above a node of the line is a node of the line too, or the one the line ends below. */
  lemma {:induction false} LineUp(p: Prefix, k: nat, c: Prefix)
    requires k <= Length(p) && c in Line(p, k)
    ensures c != Empty && (c.up == Up(p, k) || c.up in Line(p, k))
    decreases k
  {
    if c != Up(p, k - 1) { LineUp(p, k - 1, c); }
  }

  /** Nothing is found below a prefix without a node. */
  lemma {:induction false} MatchEnds(vals: map<Prefix, nat>, key: nat, i: nat, n: nat)
    requires Closed(vals) && First(key, i) !in vals && i <= n
    ensures Match(Stored(vals), key, n) == Match(Stored(vals), key, i)
    ensures First(key, n) !in vals
    decreases n
  {
    if i < n { MatchEnds(vals, key, i, n - 1); }
  }

  /** A node without a value, put below p. */
  lemma Grown(vals: map<Prefix, nat>, p: Prefix, b: bool)
    requires Closed(vals) && p in vals && Sub(p, b) !in vals
    ensures var v := vals[Sub(p, b) := NO_VALUE];
      && Closed(v) && Stored(v) == Stored(vals) && Childless(v, Sub(p, b))
      && (CleanBut(vals, p) ==> CleanBut(v, Sub(p, b)))
  {
    var q, v := Sub(p, b), vals[Sub(p, b) := NO_VALUE];
    assert Sub(q, true) !in vals && Sub(q, false) !in vals;
    if CleanBut(vals, p) {
      forall r | r in v && r != Empty && r != q && Childless(v, r)
        ensures v[r] != NO_VALUE
      {
        assert r != p;
        assert Childless(vals, r);
      }
    }
  }

  // ---------- nodes

  class Node {
    var right: Node?
    var left: Node?
    var parent: Node?
    var value: nat
  }

  /** The fields of a node as a value. */
  datatype Cell = Cell(right: Node?, left: Node?, parent: Node?, value: nat)

  ghost function Get(at: map<Prefix, Node>, p: Prefix): Node? {
    if p in at then at[p] else null
  }

  /** The node for prefix p points to the nodes for p extended by one bit, and back. */
  ghost function CellOf(at: map<Prefix, Node>, vals: map<Prefix, nat>, p: Prefix): Cell
    requires p in vals
  {
    Cell(Get(at, Sub(p, true)), Get(at, Sub(p, false)), if p.Empty? then null else Get(at, p.up), vals[p])
  }

  /**
   at gives the live node of each prefix and live the prefix of each live node; fl lists the free nodes; mem holds
   the fields of every node ever handed out.
   */
  datatype State = State(at: map<Prefix, Node>, live: map<Node, Prefix>, vals: map<Prefix, nat>, fl: seq<Node>,
                         mem: map<Node, Cell>)

  /** Live nodes and prefixes correspond. */
  ghost predicate Matched(at: map<Prefix, Node>, live: map<Node, Prefix>) {
    && (forall p {:trigger at[p]} :: p in at ==> at[p] in live && live[at[p]] == p && Length(p) <= 32)
    && (forall n {:trigger live[n]} :: n in live ==> live[n] in at && at[live[n]] == n)
  }

  ghost predicate Named(s: State) {
    Empty in s.at && s.at.Keys == s.vals.Keys && Closed(s.vals) && Matched(s.at, s.live)
  }

  /** The live nodes form the tree. */
  ghost predicate Linked(s: State) {
    forall p {:trigger s.at[p]} :: p in s.at ==>
      p in s.vals && s.at[p] in s.mem && s.mem[s.at[p]] == CellOf(s.at, s.vals, p)
  }

  /** The free nodes are chained by their right pointers, and none is live. */
  ghost predicate Chained(s: State) {
    && (forall i {:trigger s.fl[i]} :: 0 <= i < |s.fl| ==> s.fl[i] !in s.live && s.fl[i] in s.mem)
    && (forall i, j :: 0 <= i < j < |s.fl| ==> s.fl[i] != s.fl[j])
    && (forall i {:trigger s.mem[s.fl[i]]} :: 0 <= i < |s.fl| && s.fl[i] in s.mem ==>
          s.mem[s.fl[i]].right == if i + 1 < |s.fl| then s.fl[i + 1] else null)
  }

  ghost predicate Apart(s: State) {
    Named(s) && Linked(s) && Chained(s)
  }

  /** Live and free nodes together are all there are, but for x. */
  ghost predicate AllBut(s: State, x: Node?) {
    forall n :: n in s.mem && n != x ==> n in s.fl || n in s.live
  }

  // ---------- pages

  /** What c pages of k nodes hold. */
  ghost function Stock(c: nat, k: nat): nat {
    if c == 0 then 0 else Stock(c - 1, k) + k
  }

  /** How many pages of k nodes n nodes take. */
  ghost function Pages(n: int, k: nat): nat
    decreases n
  {
    if n <= 0 || k == 0 then 0 else 1 + Pages(n - k, k)
  }

  /** Out of so many spare nodes and c pages so many have been taken; a page is asked for only when there is no
      other. */
  ghost predicate Supplied(before: nat, c: nat, taken: int, spares: nat, k: nat) {
    spares + taken == before + Stock(c, k) && (c > 0 ==> spares < k)
  }

  lemma SupplyStarts(before: nat, k: nat)
    ensures Supplied(before, 0, 0, before, k)
  {
  }

  lemma SupplyMore(before: nat, c: nat, taken: nat, spares: nat, k: nat)
    requires k > 0 && Supplied(before, c, taken, spares, k)
    ensures spares == 0 ==> Supplied(before, c + 1, taken + 1, k - 1, k)
    ensures spares > 0 ==> Supplied(before, c, taken + 1, spares - 1, k)
  {
  }

  lemma {:induction false} PagesPast(c: nat, k: nat, n: int)
    requires k > 0 && Stock(c, k) < n
    ensures Pages(n, k) > c
    decreases c
  {
    if c > 0 { PagesPast(c - 1, k, n - k); }
  }

  lemma {:induction false} PagesAre(c: nat, k: nat, n: int)
    requires k > 0 && n <= Stock(c, k) && (c > 0 ==> Stock(c - 1, k) < n)
    ensures Pages(n, k) == c
    decreases c
  {
    if c > 0 { PagesAre(c - 1, k, n - k); }
  }

  /** No node is left, and more are wanted. */
  lemma SupplyEnds(before: nat, c: nat, taken: nat, spares: nat, k: nat, n: nat)
    requires k > 0 && Supplied(before, c, taken, spares, k) && spares == 0 && taken < n
    ensures taken == before + Stock(c, k) && Pages(n - before, k) > c
  {
    PagesPast(c, k, n - before);
  }

  lemma NoPages(n: int, k: nat)
    requires k > 0 && n <= 0
    ensures Pages(n, k) == 0
  {
  }

  lemma SupplyPages(before: nat, c: nat, taken: nat, spares: nat, k: nat)
    requires k > 0 && Supplied(before, c, taken, spares, k)
    ensures Pages(taken - before, k) == c
  {
    PagesAre(c, k, taken - before);
  }

  // ---------- what the steps do

  ghost function Taken(s: State): State
    requires s.fl != []
  {
    s.(fl := s.fl[1..])
  }

  lemma TakenOk(s: State)
    requires Apart(s) && AllBut(s, null) && s.fl != []
    ensures Apart(Taken(s)) && AllBut(Taken(s), s.fl[0])
    ensures s.fl[0] in s.mem && s.fl[0] !in s.fl[1..] && s.fl[0] !in s.live
    ensures s.mem[s.fl[0]].right == if |s.fl| > 1 then s.fl[1] else null
  {
    hide Named, Linked;
    var t := Taken(s);
    Later(s);
    forall n | n in s.mem && n != s.fl[0] && n !in s.live
      ensures n in t.fl
    {
      var i :| 0 <= i < |s.fl| && s.fl[i] == n;
      assert t.fl[i - 1] == n;
    }
    assert Named(t) && Linked(t) by { SameTree(s, t); }
  }

  lemma Later(s: State)
    requires Chained(s) && s.fl != []
    ensures Chained(Taken(s)) && s.fl[0] !in s.fl[1..]
  {
    var fl := s.fl[1..];
    forall i | 0 <= i < |fl|
      ensures fl[i] in s.mem && s.mem[fl[i]].right == if i + 1 < |fl| then fl[i + 1] else null
    {
      assert fl[i] == s.fl[i + 1];
      assert s.mem[s.fl[i + 1]].right == if i + 2 < |s.fl| then s.fl[i + 2] else null;
    }
  }

  lemma SameTree(s: State, t: State)
    requires Named(s) && Linked(s) && t.at == s.at && t.live == s.live && t.vals == s.vals && t.mem == s.mem
    ensures Named(t) && Linked(t)
  {
  }

  /** The next node, hung in below p. */
  ghost function Hung(s: State, p: Prefix, b: bool, next: Node): State
    requires p in s.at && s.at[p] in s.mem
  {
    var q, node := Sub(p, b), s.at[p];
    var mem := s.mem[next := Cell(null, null, node, NO_VALUE)];
    var c := if b then mem[node].(right := next) else mem[node].(left := next);
    State(s.at[q := next], s.live[next := q], s.vals[q := NO_VALUE], s.fl, mem[node := c])
  }

  lemma HungOk(s: State, p: Prefix, b: bool, next: Node)
    requires Apart(s) && AllBut(s, next) && p in s.at && Sub(p, b) !in s.at && Length(p) < 32
    requires next !in s.live && next !in s.fl
    ensures Apart(Hung(s, p, b, next)) && AllBut(Hung(s, p, b, next), null)
  {
    HungLinked(s, p, b, next);
    HungNamed(s, p, b, next);
    HungChained(s, p, b, next);
  }

  lemma HungNamed(s: State, p: Prefix, b: bool, next: Node)
    requires Named(s) && p in s.at && s.at[p] in s.mem && Sub(p, b) !in s.at && next !in s.live && Length(p) < 32
    ensures Named(Hung(s, p, b, next))
  {
    hide Closed, Stored, CleanBut, Childless, Matched;
    Grown(s.vals, p, b);
    var q := Sub(p, b);
    Corresponds(s.at, s.live, q, next);
    assert s.at[q := next].Keys == s.at.Keys + {q} && s.vals[q := NO_VALUE].Keys == s.vals.Keys + {q};
  }

  lemma Corresponds(at: map<Prefix, Node>, live: map<Node, Prefix>, q: Prefix, next: Node)
    requires Matched(at, live) && q !in at && next !in live && Length(q) <= 32
    ensures Matched(at[q := next], live[next := q])
  {
    var at', live' := at[q := next], live[next := q];
    forall p | p in at'
      ensures at'[p] in live' && live'[at'[p]] == p && Length(p) <= 32
    {
      if p != q { assert at[p] in live; }
    }
    forall n | n in live'
      ensures live'[n] in at' && at'[live'[n]] == n
    {
      if n != next { assert live[n] in at; }
    }
  }

  lemma HungChained(s: State, p: Prefix, b: bool, next: Node)
    requires Named(s) && Linked(s) && Chained(s) && AllBut(s, next) && p in s.at && next !in s.live && next !in s.fl
    ensures Chained(Hung(s, p, b, next)) && AllBut(Hung(s, p, b, next), null)
  {
    assert s.at[p] in s.live;
    hide Named, Linked;
  }

  lemma HungLinked(s: State, p: Prefix, b: bool, next: Node)
    requires Named(s) && Linked(s) && p in s.at && Sub(p, b) !in s.at && next !in s.live
    ensures Linked(Hung(s, p, b, next))
  {
    var t := Hung(s, p, b, next);
    forall q | q in t.at
      ensures q in t.vals && t.at[q] in t.mem && t.mem[t.at[q]] == CellOf(t.at, t.vals, q)
    {
      if q == Sub(p, b) {
        assert forall c :: Sub(q, c) !in s.vals;
      } else {
        assert q != Empty ==> Sub(q.up, q.bit) in s.vals;
      }
    }
  }

  /** The node of p, which has no children, is cut off and becomes the first free one. */
  ghost function Cut(s: State, p: Prefix): State
    requires p in s.at && s.at[p] in s.mem && p != Empty && p.up in s.at && s.at[p.up] in s.mem
  {
    var node, up := s.at[p], s.at[p.up];
    var mem := s.mem[up := if p.bit then s.mem[up].(right := null) else s.mem[up].(left := null)];
    State(s.at - {p}, s.live - {node}, s.vals - {p}, [node] + s.fl,
          mem[node := mem[node].(right := if s.fl == [] then null else s.fl[0])])
  }

  lemma CutOk(s: State, p: Prefix)
    requires Apart(s) && AllBut(s, null) && p in s.at && p != Empty && Childless(s.vals, p)
    ensures p.up in s.at && s.at[p] in s.mem && s.at[p.up] in s.mem
    ensures Apart(Cut(s, p)) && AllBut(Cut(s, p), null)
  {
    assert Sub(p.up, p.bit) in s.vals;
    CutNamed(s, p);
    CutLinked(s, p);
    CutChained(s, p);
  }

  lemma CutNamed(s: State, p: Prefix)
    requires Named(s) && p in s.at && s.at[p] in s.mem && p != Empty && p.up in s.at && s.at[p.up] in s.mem
    requires Childless(s.vals, p)
    ensures Named(Cut(s, p))
  {
    var v := s.vals - {p};
    forall q, b | Sub(q, b) in v
      ensures q in v
    {
      assert Sub(q, b) in s.vals;
    }
    assert (s.at - {p}).Keys == s.at.Keys - {p} && v.Keys == s.vals.Keys - {p};
    hide Closed;
    Parted(s.at, s.live, p);
  }

  lemma Parted(at: map<Prefix, Node>, live: map<Node, Prefix>, p: Prefix)
    requires Matched(at, live) && p in at
    ensures Matched(at - {p}, live - {at[p]})
  {
    var at', live' := at - {p}, live - {at[p]};
    forall q | q in at'
      ensures at'[q] in live' && live'[at'[q]] == q && Length(q) <= 32
    {
      assert at[q] in live && live[at[q]] == q;
    }
    forall n | n in live'
      ensures live'[n] in at' && at'[live'[n]] == n
    {
      assert live[n] in at && at[live[n]] == n;
    }
  }

  lemma CutLinked(s: State, p: Prefix)
    requires Named(s) && Linked(s) && p in s.at && p != Empty && p.up in s.at && s.at[p] in s.mem && s.at[p.up] in s.mem
    requires Childless(s.vals, p)
    ensures Linked(Cut(s, p))
  {
    var t := Cut(s, p);
    forall q | q in t.at
      ensures q in t.vals && t.at[q] in t.mem && t.mem[t.at[q]] == CellOf(t.at, t.vals, q)
    {
      CutCell(s, p, q);
    }
  }

  lemma CutCell(s: State, p: Prefix, q: Prefix)
    requires Named(s) && Linked(s) && p in s.at && p != Empty && p.up in s.at && s.at[p] in s.mem && s.at[p.up] in s.mem
    requires Childless(s.vals, p) && q in Cut(s, p).at
    ensures var t := Cut(s, p); q in t.vals && t.at[q] in t.mem && t.mem[t.at[q]] == CellOf(t.at, t.vals, q)
  {
    hide Named, Closed, Matched, Childless;
    TwoNodes(s, p, q);
    if q == p.up {
      assert p == Sub(q, p.bit);
    } else {
      CutOther(s, p, q);
    }
  }

  lemma TwoNodes(s: State, p: Prefix, q: Prefix)
    requires Named(s) && p in s.at && q in s.at && q != p
    ensures s.at[q] != s.at[p] && (p != Empty && p.up in s.at && q != p.up ==> s.at[q] != s.at[p.up])
  {
    assert s.live[s.at[q]] == q && s.live[s.at[p]] == p;
    if p != Empty && p.up in s.at { assert s.live[s.at[p.up]] == p.up; }
  }

  lemma CutOther(s: State, p: Prefix, q: Prefix)
    requires Named(s) && p in s.at && p != Empty && Childless(s.vals, p) && q in s.at && q != p && q != p.up
    ensures CellOf(s.at - {p}, s.vals - {p}, q) == CellOf(s.at, s.vals, q)
  {
    if q != Empty { assert Sub(q.up, q.bit) in s.vals; }
  }

  lemma CutChained(s: State, p: Prefix)
    requires Named(s) && Linked(s) && Chained(s) && AllBut(s, null)
    requires p in s.at && p != Empty && p.up in s.at && s.at[p] in s.mem && s.at[p.up] in s.mem
    ensures Chained(Cut(s, p)) && AllBut(Cut(s, p), null)
  {
    var node, up := s.at[p], s.at[p.up];
    assert node in s.live && up in s.live && s.live[node] == p && s.live[up] == p.up;
    var t := Cut(s, p);
    assert up !in t.fl by { assert up !in s.fl; }
    assert forall n :: n in s.fl ==> t.mem[n] == s.mem[n];
    hide Named, Linked;
    Front(s, t, node);
    CutAll(s, t, node);
  }

  /** A node in front of the free list. */
  lemma Front(s: State, t: State, node: Node)
    requires Chained(s) && node !in s.fl && node in t.mem && t.live == s.live - {node} && t.fl == [node] + s.fl
    requires forall n :: n in s.fl ==> n in t.mem && n in s.mem && t.mem[n] == s.mem[n]
    requires t.mem[node].right == if s.fl == [] then null else s.fl[0]
    ensures Chained(t)
  {
    forall i | 0 <= i < |t.fl|
      ensures t.fl[i] !in t.live && t.fl[i] in t.mem
      ensures t.mem[t.fl[i]].right == if i + 1 < |t.fl| then t.fl[i + 1] else null
    {
      if i > 0 {
        assert t.fl[i] == s.fl[i - 1] && s.fl[i - 1] in s.fl;
        assert s.mem[s.fl[i - 1]].right == if i < |s.fl| then s.fl[i] else null;
      }
    }
  }

  lemma CutAll(s: State, t: State, node: Node)
    requires AllBut(s, null) && t.live == s.live - {node} && t.fl == [node] + s.fl && t.mem.Keys == s.mem.Keys
    ensures AllBut(t, null)
  {
    forall n | n in t.mem && n !in t.live
      ensures n in t.fl
    {
      if n != node { assert n in s.fl; }
    }
  }

  class Tree {
    var root: Node
    var free: Node?
    var size: nat               // how many nodes the current page still has room for
    const perPage: nat

    const grants: nat -> bool   // whether there is memory for another page, call by call
    var calls: nat

    ghost var s: State

    /** mem says what is in the nodes. */
    ghost predicate Rep()
      reads this, s.mem.Keys
    {
      && perPage > 0 && free == (if s.fl == [] then null else s.fl[0]) && root == Get(s.at, Empty)
      && forall n {:trigger s.mem[n]} :: n in s.mem ==> s.mem[n] == Cell(n.right, n.left, n.parent, n.value)
    }

    /** Live and free nodes are apart, and together they are all there are. */
    ghost predicate Valid()
      reads this, s.mem.Keys
    {
      Rep() && Apart(s) && AllBut(s, null)
    }

    /** ngx_radix_tree_create with nothing preallocated, once there is memory for the first page. */
    constructor (perPage: nat, grants: nat -> bool)
      requires perPage > 0 && grants(0)
      ensures Valid() && Clean(s.vals) && Stored(s.vals) == map[] && s.vals == map[Empty := NO_VALUE]
      ensures fresh(s.mem.Keys)
      ensures this.perPage == perPage && this.grants == grants && calls == 1 && size == perPage - 1 && s.fl == []
    {
      this.perPage, this.grants, calls, size := perPage, grants, 1, perPage - 1;
      var r := new Node;
      root, free := r, null;
      s := State(map[Empty := r], map[r := Empty], map[Empty := NO_VALUE], [],
                 map[r := Cell(null, null, null, NO_VALUE)]);
      new;
      r.right, r.left, r.parent, r.value := null, null, null, NO_VALUE;
      hide Apart, AllBut, Clean, Stored;
      OnlyRoot(r);
    }

    method SetRight(n: Node, v: Node?)
      requires Rep() && n in s.mem
      modifies this`s, n`right
      ensures Rep() && s == old(s).(mem := old(s.mem)[n := old(s.mem)[n].(right := v)])
    {
      n.right := v;
      s := s.(mem := s.mem[n := s.mem[n].(right := v)]);
    }

    method SetLeft(n: Node, v: Node?)
      requires Rep() && n in s.mem
      modifies this`s, n`left
      ensures Rep() && s == old(s).(mem := old(s.mem)[n := old(s.mem)[n].(left := v)])
    {
      n.left := v;
      s := s.(mem := s.mem[n := s.mem[n].(left := v)]);
    }

    method SetValue(n: Node, v: nat)
      requires Rep() && n in s.mem
      modifies this`s, n`value
      ensures Rep() && s == old(s).(mem := old(s.mem)[n := old(s.mem)[n].(value := v)])
    {
      n.value := v;
      s := s.(mem := s.mem[n := s.mem[n].(value := v)]);
    }

    /** How many nodes can be had without asking for another page. */
    ghost function Spares(): nat
      reads this
    {
      |s.fl| + size
    }

    /** ngx_radix_alloc */
    method Alloc() returns (p: Node?)
      requires Valid()
      modifies this`free, this`size, this`calls, this`s
      ensures Rep() && Apart(s) && AllBut(s, p) && calls >= old(calls)
      ensures p != null <==> Granted(grants, old(calls), calls)
      ensures p == null ==> s == old(s)
      ensures p != null ==> p in s.mem && p !in s.fl && p !in s.live && (p in old(s.mem) || fresh(p))
      ensures s.mem.Keys == old(s.mem.Keys) + if p == null then {} else {p}
      ensures s.at == old(s.at) && s.vals == old(s.vals) && s.live == old(s.live)
      ensures calls == old(calls) + if old(Spares()) == 0 then 1 else 0
      ensures p != null ==> Spares() + 1 == if old(Spares()) == 0 then perPage else old(Spares())
      ensures old(s.fl) != [] ==> p == old(s.fl[0]) && s.fl == old(s.fl)[1..]
    {
      hide Apart;
      if free != null {
        p := free;
        TakenOk(s);
        free := free.right;
        s := Taken(s);
        return;
      }
      if size == 0 {
        calls := calls + 1;
        if !grants(calls - 1) {
          return null;
        }
        size := perPage;
      }
      p := new Node;
      size := size - 1;
      MoreOk(s, p, Cell(p.right, p.left, p.parent, p.value));
      s := s.(mem := s.mem[p := Cell(p.right, p.left, p.parent, p.value)]);
    }

    /** The next node of a path that ends at p, if there is memory for it. */
    method Extend(node: Node, b: bool, ghost p: Prefix) returns (next: Node?)
      requires Valid() && p in s.at && s.at[p] == node && Length(p) < 32 && Sub(p, b) !in s.at
      modifies this`free, this`size, this`calls, this`s, s.mem.Keys
      ensures Valid() && calls >= old(calls) && (next != null <==> Granted(grants, old(calls), calls))
      ensures fresh(s.mem.Keys - old(s.mem.Keys)) && old(s.mem.Keys) <= s.mem.Keys
      ensures next == null ==> s == old(s)
      ensures next != null ==> s.at == old(s.at)[Sub(p, b) := next] && s.vals == old(s.vals)[Sub(p, b) := NO_VALUE]
      ensures calls == old(calls) + if old(Spares()) == 0 then 1 else 0
      ensures next != null ==> Spares() + 1 == if old(Spares()) == 0 then perPage else old(Spares())
    {
      hide Rep, Apart, AllBut, Granted;
      InMem(s, p);
      next := Alloc();
      if next == null {
        return;
      }
      Attach(node, next, b, p);
    }

    /** A node that is neither live nor free is filled in and becomes a child of p's node. */
    method Attach(node: Node, next: Node, b: bool, ghost p: Prefix)
      requires Rep() && Apart(s) && AllBut(s, next) && next in s.mem && next !in s.fl && next !in s.live
      requires p in s.at && s.at[p] == node && Length(p) < 32 && Sub(p, b) !in s.at
      modifies this`s, next, node`left, node`right
      ensures Valid() && s.mem.Keys == old(s.mem.Keys) && s.fl == old(s.fl)
      ensures s.at == old(s.at)[Sub(p, b) := next] && s.vals == old(s.vals)[Sub(p, b) := NO_VALUE]
    {
      hide Rep, Apart, AllBut, Hung;
      ghost var t := s;
      InMem(s, p);
      Blank(next, node);
      if b {
        SetRight(node, next);
      } else {
        SetLeft(node, next);
      }
      HungOk(t, p, b, next);
      HungFields(t, p, b, next);
      Recount(Hung(t, p, b, next));
    }

    /** The same nodes, seen another way. */
    ghost method Recount(t: State)
      requires Rep() && t.mem == s.mem && t.fl == s.fl && Get(t.at, Empty) == Get(s.at, Empty)
      modifies this`s
      ensures Rep() && s == t
    {
      s := t;
    }

    /** A node without children or value. */
    method Blank(next: Node, node: Node)
      requires Rep() && next in s.mem
      modifies this`s, next
      ensures Rep() && s == old(s).(mem := old(s.mem)[next := Cell(null, null, node, NO_VALUE)])
    {
      next.right, next.left, next.parent, next.value := null, null, node, NO_VALUE;
      s := s.(mem := s.mem[next := Cell(null, null, node, NO_VALUE)]);
    }

    /** What the fields of a live node say. */
    lemma Look(p: Prefix)
      requires Valid() && p in s.at
      ensures var n := s.at[p];
        && n in s.mem && p in s.vals && Length(p) <= 32 && n.value == s.vals[p] && (n == root <==> p == Empty)
        && n.right == Get(s.at, Sub(p, true)) && n.left == Get(s.at, Sub(p, false))
        && (p == Empty ==> n.parent == null) && (p != Empty ==> p.up in s.at && n.parent == s.at[p.up])
    {
    }

    /** ngx_radix32tree_find */
    method Find(key: nat) returns (value: nat)
      requires Valid()
      ensures value == Match(Stored(s.vals), key, 33)
    {
      hide Apart, AllBut, Rep;
      var bit, node: Node? := TOP, root;
      value := NO_VALUE;
      ghost var i := 0;
      Shift(0);
      Look0();
      while node != null
        invariant 0 <= i <= 33 && bit == BitAt(i) && node == Get(s.at, First(key, i))
        invariant value == Match(Stored(s.vals), key, i)
        decreases 33 - i
      {
        Look(First(key, i));
        if node.value != NO_VALUE {
          value := node.value;
        }
        if HasBit(key, bit) {
          node := node.right;
        } else {
          node := node.left;
        }
        Shift(i);
        bit := bit / 2;
        i := i + 1;
      }
      NoNode(First(key, i));
      MatchEnds(s.vals, key, i, 33);
    }

    lemma SomePerPage()
      requires Valid()
      ensures perPage > 0
    {
    }

    lemma Look0()
      requires Valid()
      ensures Empty in s.at && s.at[Empty] == root && Closed(s.vals) && s.at.Keys == s.vals.Keys
    {
    }

    lemma NoNode(p: Prefix)
      requires Valid() && Get(s.at, p) == null
      ensures p !in s.vals && Closed(s.vals)
    {
    }

    /** The first loop of an insertion: down to the node of the prefix, or to where the path to it ends. */
    method Descend(key: nat, mask: nat, ghost m: nat) returns (node: Node, next: Node?, bit: nat, ghost i: nat)
      requires Valid() && m == Width(mask)
      ensures i <= m && bit == BitAt(i) && First(key, i) in s.at && s.at[First(key, i)] == node
      ensures if next == null then i < m && First(key, i + 1) !in s.at else i == m
    {
      hide Apart, AllBut, Rep, First;
      bit, node, next, i := TOP, root, root, 0;
      Shift(0);
      Look0();
      Start(key);
      while HasBit(mask, bit)
        invariant 0 <= i <= m && bit == BitAt(i) && First(key, i) in s.at && s.at[First(key, i)] == node && next == node
        decreases m - i
      {
        WidthBit(mask, i);
        Look(First(key, i));
        Further(key, i);
        if HasBit(key, bit) {
          next := node.right;
        } else {
          next := node.left;
        }
        if next == null {
          break;
        }
        Shift(i);
        bit := bit / 2;
        node := next;
        i := i + 1;
      }
      WidthBit(mask, i);
    }

    /** Gives the node of p a value. */
    method Store(node: Node, value: nat, ghost p: Prefix)
      requires Valid() && p in s.at && s.at[p] == node
      modifies this`s, node`value
      ensures Valid() && s.vals == old(s.vals)[p := value] && s.at == old(s.at) && s.mem.Keys == old(s.mem.Keys)
    {
      hide Rep, Apart, AllBut;
      Look(p);
      ghost var t := s;
      SetValue(node, value);
      ValuedOk(t, p, value);
      Recount(Valued(t, p, value));
    }

    /** The node of p, which has no value, is given one, or none. */
    method GiveValue(node: Node, value: nat, ghost p: Prefix)
      requires Valid() && p in s.at && s.at[p] == node && p in s.vals && s.vals[p] == NO_VALUE
      modifies this`s, node`value
      ensures Valid() && s.vals == old(s.vals)[p := value] && s.at == old(s.at) && s.mem.Keys == old(s.mem.Keys)
      ensures Stored(s.vals) == if value != NO_VALUE then old(Stored(s.vals))[p := value] else old(Stored(s.vals))
      ensures value == NO_VALUE ==> s.vals == old(s.vals)
      ensures value != NO_VALUE && old(CleanBut(s.vals, p)) ==> Clean(s.vals)
    {
      hide Rep, Apart, AllBut, Stored, CleanBut;
      Given(s.vals, p, value);
      Store(node, value, p);
    }

    /** One round of that loop: a node without a value for one more bit of the key. */
    method Deeper(key: nat, node: Node, bit: nat, ghost i: nat) returns (next: Node?)
      requires Valid() && i < 32 && bit == BitAt(i)
      requires First(key, i) in s.at && s.at[First(key, i)] == node && First(key, i + 1) !in s.at
      modifies this`free, this`size, this`calls, this`s, s.mem.Keys
      ensures Valid() && calls >= old(calls) && (next != null <==> Granted(grants, old(calls), calls))
      ensures fresh(s.mem.Keys - old(s.mem.Keys)) && old(s.mem.Keys) <= s.mem.Keys
      ensures next == null ==> s == old(s)
      ensures next != null ==> First(key, i + 1) in s.at && s.at[First(key, i + 1)] == next
      ensures next != null ==> First(key, i + 2) !in s.at
      ensures next != null ==> s.vals == old(s.vals)[First(key, i + 1) := NO_VALUE]
      ensures calls == old(calls) + if old(Spares()) == 0 then 1 else 0
      ensures next != null ==> Spares() + 1 == if old(Spares()) == 0 then perPage else old(Spares())
      ensures Stored(s.vals) == old(Stored(s.vals))
      ensures next != null && old(CleanBut(s.vals, First(key, i))) ==> CleanBut(s.vals, First(key, i + 1))
    {
      hide Apart, AllBut, Rep, First, Granted, Closed, Stored, CleanBut, Match;
      Further(key, i);
      Further(key, i + 1);
      Look0();
      Look(First(key, i));
      NoNode(First(key, i + 1));
      MatchEnds(s.vals, key, i + 1, i + 2);
      Grown(s.vals, First(key, i), HasBit(key, bit));
      assert Length(First(key, i + 2)) != Length(First(key, i + 1)) && First(key, i + 2) !in s.at;
      next := Extend(node, HasBit(key, bit), First(key, i));
    }

    /**
    The second loop of an insertion: the rest of the path is made. Without memory for all of it the nodes made so far
    stay behind, without a value.
    */
    method Lay(key: nat, mask: nat, ghost m: nat, ghost i0: nat, from: Node, bit0: nat)
      returns (node: Node?, ghost i: nat)
      requires Valid() && m == Width(mask) && i0 < m && bit0 == BitAt(i0)
      requires First(key, i0) in s.at && s.at[First(key, i0)] == from && First(key, i0 + 1) !in s.at
      modifies this`free, this`size, this`calls, this`s, s.mem.Keys
      ensures Valid() && calls >= old(calls) && fresh(s.mem.Keys - old(s.mem.Keys)) && old(s.mem.Keys) <= s.mem.Keys
      ensures i0 <= i <= m && (node == null <==> i < m) && (node != null <==> Granted(grants, old(calls), calls))
      ensures s.vals == Bare(old(s.vals), key, i0, i) && Stored(s.vals) == old(Stored(s.vals))
      ensures node == null ==> calls > old(calls) && i - i0 == old(Spares()) + Stock(calls - old(calls) - 1, perPage)
      ensures calls - old(calls) <= Pages(m - i0 - old(Spares()), perPage)
      ensures node != null ==> calls - old(calls) == Pages(m - i0 - old(Spares()), perPage)
      ensures node != null ==> First(key, m) in s.at && s.at[First(key, m)] == node
      ensures node != null && old(Clean(s.vals)) ==> CleanBut(s.vals, First(key, m))
    {
      hide Apart, AllBut, Rep, First, Granted, Closed, Stored, CleanBut, Match, Spares, Supplied,
           Pages, Stock, Bare, Clean, Width, HasBit, BitAt, Get;
      SomePerPage();
      GrantedJoin(grants, calls, calls, calls);
      var bit := bit0;
      node, i := from, i0;
      SupplyStarts(Spares(), perPage);
      LaidNone(s.vals, key, i0);
      StartsClean(s.vals, First(key, i0));
      while HasBit(mask, bit)
        invariant Valid() && i0 <= i <= m && bit == BitAt(i) && First(key, i) in s.at && s.at[First(key, i)] == node
        invariant calls >= old(calls) && Granted(grants, old(calls), calls) && First(key, i + 1) !in s.at
        invariant fresh(s.mem.Keys - old(s.mem.Keys)) && old(s.mem.Keys) <= s.mem.Keys
        invariant s.vals == Bare(old(s.vals), key, i0, i) && Stored(s.vals) == old(Stored(s.vals))
        invariant Supplied(old(Spares()), calls - old(calls), i - i0, Spares(), perPage)
        invariant old(Clean(s.vals)) ==> CleanBut(s.vals, First(key, i))
        decreases m - i
      {
        WidthBit(mask, i);
        ghost var c1 := calls;
        ghost var spares := Spares();
        var next := Deeper(key, node, bit, i);
        GrantedJoin(grants, old(calls), c1, calls);
        if next == null {
          SupplyEnds(old(Spares()), c1 - old(calls), i - i0, spares, perPage, m - i0);
          return null, i;
        }
        LaidMore(old(s.vals), key, i0, i);
        SupplyMore(old(Spares()), c1 - old(calls), i - i0, spares, perPage);
        Shift(i);
        bit := bit / 2;
        node := next;
        i := i + 1;
      }
      WidthBit(mask, i);
      SupplyPages(old(Spares()), calls - old(calls), m - i0, Spares(), perPage);
    }

    /** What an insertion does when the path to the prefix is not all there. */
    method InsertNew(key: nat, mask: nat, value: nat, ghost m: nat, ghost i0: nat, node: Node, bit: nat)
      returns (rc: Status, ghost i: nat)
      requires Valid() && m == Width(mask) && i0 < m && bit == BitAt(i0)
      requires First(key, i0) in s.at && s.at[First(key, i0)] == node && First(key, i0 + 1) !in s.at
      modifies this`free, this`size, this`calls, this`s, s.mem.Keys
      ensures Valid() && calls >= old(calls) && fresh(s.mem.Keys - old(s.mem.Keys)) && old(s.mem.Keys) <= s.mem.Keys
      ensures First(key, m) !in old(s.vals) && (rc == OK || rc == ERROR)
      ensures rc == ERROR <==> !Granted(grants, old(calls), old(calls) + Pages(m - i0 - old(Spares()), perPage))
      ensures calls <= old(calls) + Pages(m - i0 - old(Spares()), perPage)
      ensures rc == OK ==> calls == old(calls) + Pages(m - i0 - old(Spares()), perPage)
      ensures Stored(s.vals) == if rc == OK && value != NO_VALUE then old(Stored(s.vals))[First(key, m) := value]
                                else old(Stored(s.vals))
      ensures rc == OK && value != NO_VALUE && old(Clean(s.vals)) ==> Clean(s.vals)
      ensures rc == OK && value == NO_VALUE ==> s.vals == Bare(old(s.vals), key, i0, m)
      ensures i0 <= i <= m
      ensures rc == ERROR ==> s.vals == Bare(old(s.vals), key, i0, i) && i < m && calls > old(calls)
      ensures rc == ERROR ==> i - i0 == old(Spares()) + Stock(calls - old(calls) - 1, perPage)
    {
      hide Apart, AllBut, Rep, First, Granted, Stored, CleanBut, Closed, Match, Pages, Stock,
           Spares, Width, HasBit, BitAt, Get;
      SomePerPage();
      Look0();
      MatchEnds(s.vals, key, i0 + 1, m);
      var end: Node?;
      end, i := Lay(key, mask, m, i0, node, bit);
      GrantedUpTo(grants, old(calls), calls, old(calls) + Pages(m - i0 - old(Spares()), perPage));
      if end == null {
        return ERROR, i;
      }
      Look(First(key, m));
      BareEnd(old(s.vals), key, i0, m);
      GiveValue(end, value, First(key, m));
      rc := OK;
    }

    /** ngx_radix32tree_insert; the path to the prefix had i0 nodes below the root, and then has i. */
    method Insert(key: nat, mask: nat, value: nat, ghost m: nat) returns (rc: Status, ghost i0: nat, ghost i: nat)
      requires Valid() && m == Width(mask)
      modifies this`free, this`size, this`calls, this`s, s.mem.Keys
      ensures Valid() && calls >= old(calls) && fresh(s.mem.Keys - old(s.mem.Keys)) && old(s.mem.Keys) <= s.mem.Keys
      ensures rc == BUSY <==> First(key, m) in old(Stored(s.vals))
      ensures rc == ERROR <==> !Granted(grants, old(calls), old(calls) + Pages(m - i0 - old(Spares()), perPage))
      ensures calls <= old(calls) + Pages(m - i0 - old(Spares()), perPage)
      ensures rc != ERROR ==> calls == old(calls) + Pages(m - i0 - old(Spares()), perPage)
      ensures rc != FAULT
      ensures Stored(s.vals) == if rc == OK && value != NO_VALUE then old(Stored(s.vals))[First(key, m) := value]
                                else old(Stored(s.vals))
      ensures rc != ERROR && (rc == OK ==> value != NO_VALUE) && old(Clean(s.vals)) ==> Clean(s.vals)
      ensures rc == OK && value == NO_VALUE ==> s.vals == Bare(old(s.vals), key, i0, m)
      ensures i0 <= i <= m && First(key, i0) in old(s.vals) && (i0 < m ==> First(key, i0 + 1) !in old(s.vals))
      ensures rc == ERROR ==> s.vals == Bare(old(s.vals), key, i0, i) && i < m && calls > old(calls)
      ensures rc == ERROR ==> i - i0 == old(Spares()) + Stock(calls - old(calls) - 1, perPage)
    {
      hide Apart, AllBut, Rep, First, Granted, Stored, CleanBut, Closed, Match, Pages, Stock,
           Spares, Width, HasBit, BitAt, Get;
      SomePerPage();
      GrantedJoin(grants, calls, calls, calls);
      var node, next, bit;
      node, next, bit, i0 := Descend(key, mask, m);
      i := i0;
      IsStored(s.vals, First(key, m));
      Look(First(key, i0));
      Look0();
      if next != null {
        NoPages(0 - Spares(), perPage);
        if node.value != NO_VALUE {
          return BUSY, i0, i;
        }
        StartsClean(s.vals, First(key, m));
        GiveValue(node, value, First(key, m));
        return OK, i0, i;
      }
      rc, i := InsertNew(key, mask, value, m, i0, node, bit);
    }

    /** One round of the pruning loop: the node of p, which has no children, joins the free list. */
    method Prune(node: Node, ghost p: Prefix) returns (up: Node)
      requires Valid() && p in s.at && s.at[p] == node && p != Empty && Childless(s.vals, p)
      modifies this`s, this`free, s.mem.Keys
      ensures Valid() && s.mem.Keys == old(s.mem.Keys) && s.vals == old(s.vals) - {p}
      ensures p.up in s.at && s.at[p.up] == up
    {
      hide Apart, AllBut, Rep;
      ghost var t := s;
      Look(p);
      Look(p.up);
      Twins(p);
      CutOk(s, p);
      up := node.parent;
      if up.right == node {
        SetRight(up, null);
      } else {
        SetLeft(up, null);
      }
      Spare();
      SetRight(node, free);
      CutFields(t, p);
      up := node.parent;
      Released(node, Cut(t, p));
    }

    /** Of two children the right one is the one whose prefix ends in 1. */
    lemma Twins(p: Prefix)
      requires Valid() && p in s.at && p != Empty && p.up in s.at
      ensures Get(s.at, Sub(p.up, true)) == s.at[p] <==> p.bit
    {
    }

    lemma Spare()
      requires Rep()
      ensures free == if s.fl == [] then null else s.fl[0]
    {
    }

    /** tree->free = node */
    method Released(node: Node, ghost t: State)
      requires Rep() && t.mem == s.mem && t.fl == [node] + s.fl && Get(t.at, Empty) == Get(s.at, Empty)
      modifies this`s, this`free
      ensures Rep() && s == t
    {
      free := node;
      s := t;
    }

    /** The first loop of a deletion: the node of the prefix, or null. */
    method Seek(key: nat, mask: nat, ghost m: nat) returns (node: Node?)
      requires Valid() && m == Width(mask)
      ensures node == Get(s.at, First(key, m))
    {
      hide Apart, AllBut, Rep, First;
      var bit := TOP;
      node := root;
      ghost var i := 0;
      Shift(0);
      Look0();
      Start(key);
      while node != null && HasBit(mask, bit)
        invariant 0 <= i <= m && bit == BitAt(i) && node == Get(s.at, First(key, i))
        decreases m - i
      {
        WidthBit(mask, i);
        Look(First(key, i));
        Further(key, i);
        if HasBit(key, bit) {
          node := node.right;
        } else {
          node := node.left;
        }
        Shift(i);
        bit := bit / 2;
        i := i + 1;
      }
      WidthBit(mask, i);
      if node == null {
        NoNode(First(key, i));
        MatchEnds(s.vals, key, i, m);
      }
    }

    /** The pruning loop: the node of p goes, and with it every ancestor that is left without a child or a value. */
    method PruneAll(from: Node, ghost p: Prefix) returns (ghost k: nat)
      requires Valid() && p in s.at && s.at[p] == from && p != Empty && Childless(s.vals, p)
      modifies this`s, this`free, s.mem.Keys
      ensures Valid() && s.mem.Keys == old(s.mem.Keys) && p !in s.vals
      ensures 1 <= k <= Length(p) && s.vals == old(s.vals) - Line(p, k)
      ensures forall i :: 1 <= i < k ==> Forlorn(old(s.vals), p, i)
      ensures k == Length(p) || !Forlorn(old(s.vals), p, k)
      ensures Stored(s.vals) == old(Stored(s.vals)) - {p}
      ensures old(Clean(s.vals)) ==> Clean(s.vals)
    {
      hide Apart, AllBut, Rep, Stored, CleanBut, Forlorn, Line, Up;
      LineStarts(s.vals, p);
      var node := from;
      ghost var q := p;
      k := 0;
      Look(p);
      while true
        invariant Valid() && q in s.at && s.at[q] == node && q != Empty && Childless(s.vals, q)
        invariant s.mem.Keys == old(s.mem.Keys) && q in s.vals
        invariant k < Length(p) && q == Up(p, k) && s.vals == old(s.vals) - Line(p, k)
        invariant forall i :: 1 <= i <= k ==> Forlorn(old(s.vals), p, i)
        decreases Length(q)
      {
        Look0();
        node := Prune(node, q);
        LineMore(old(s.vals), p, k);
        q := q.up;
        k := k + 1;
        Look(q);
        Look0();
        LeftAlone(old(s.vals), p, k);
        if node.right != null || node.left != null {
          break;
        }
        if node.value != NO_VALUE {
          break;
        }
        if node.parent == null {
          break;
        }
      }
      Pruned(old(s.vals), p, k);
    }

    /**
    ngx_radix32tree_delete; k nodes go, the prefix's own and those above it that are left without child or value. On a
    tree that is only a root the program follows the root's parent, which is null, when the mask is 0.
    */
    method Delete(key: nat, mask: nat, ghost m: nat) returns (rc: Status, ghost k: nat)
      requires Valid() && m == Width(mask)
      modifies this`s, this`free, s.mem.Keys
      ensures Valid() && s.mem.Keys == old(s.mem.Keys) && rc != BUSY
      ensures rc == FAULT <==> m == 0 && old(Childless(s.vals, Empty))
      ensures rc == FAULT ==> s == old(s)
      ensures rc == OK <==>
        rc != FAULT && var p, v := First(key, m), old(s.vals); p in Stored(v) || (p in v && Childless(v, p))
      ensures rc != FAULT ==> Stored(s.vals) == old(Stored(s.vals)) - {First(key, m)}
      ensures old(Clean(s.vals)) && rc != FAULT ==>
        Clean(s.vals) && (rc == OK <==> First(key, m) in old(Stored(s.vals)))
      ensures rc == ERROR ==> s.vals == old(s.vals)
      ensures rc == OK && !old(Childless(s.vals, First(key, m))) ==> s.vals == old(s.vals)[First(key, m) := NO_VALUE]
      ensures rc == OK && old(Childless(s.vals, First(key, m))) ==>
        && 1 <= k <= m && s.vals == old(s.vals) - Line(First(key, m), k)
        && (forall i :: 1 <= i < k ==> Forlorn(old(s.vals), First(key, m), i))
        && (k == m || !Forlorn(old(s.vals), First(key, m), k))
    {
      hide Apart, AllBut, Rep, First;
      var node := Seek(key, mask, m);
      ghost var p := First(key, m);
      Look0();
      if node == null {
        NoNode(p);
        return ERROR, 0;
      }
      Look(p);
      Look0();
      if node.right != null || node.left != null {
        if node.value != NO_VALUE {
          Emptied(s.vals, p);
          Store(node, NO_VALUE, p);
          return OK, 0;
        }
        return ERROR, 0;
      }
      assert Childless(s.vals, p);
      assert m == 0 ==> p == Empty by { Start(key); }
      if node.parent == null {
        return FAULT, 0;
      }
      k := PruneAll(node, p);
      rc := OK;
    }
  }

  lemma CutFields(s: State, p: Prefix)
    requires p in s.at && s.at[p] in s.mem && p != Empty && p.up in s.at && s.at[p.up] in s.mem
    ensures var t, node, up := Cut(s, p), s.at[p], s.at[p.up];
      && Get(t.at, Empty) == Get(s.at, Empty) && t.fl == [node] + s.fl && t.vals == s.vals - {p} && t.at == s.at - {p}
      && var mem := s.mem[up := if p.bit then s.mem[up].(right := null) else s.mem[up].(left := null)];
         t.mem == mem[node := mem[node].(right := if s.fl == [] then null else s.fl[0])]
  {
  }

  lemma HungFields(s: State, p: Prefix, b: bool, next: Node)
    requires p in s.at && s.at[p] in s.mem
    ensures var t := Hung(s, p, b, next);
      && Get(t.at, Empty) == Get(s.at, Empty) && t.fl == s.fl
      && t.at == s.at[Sub(p, b) := next] && t.vals == s.vals[Sub(p, b) := NO_VALUE]
      && var mem := s.mem[next := Cell(null, null, s.at[p], NO_VALUE)];
         t.mem == mem[s.at[p] := if b then mem[s.at[p]].(right := next) else mem[s.at[p]].(left := next)]
  {
  }

  ghost function Valued(s: State, p: Prefix, value: nat): State
    requires p in s.at && s.at[p] in s.mem
  {
    s.(vals := s.vals[p := value], mem := s.mem[s.at[p] := s.mem[s.at[p]].(value := value)])
  }

  lemma ValuedOk(s: State, p: Prefix, value: nat)
    requires Apart(s) && AllBut(s, null) && p in s.at && s.at[p] in s.mem
    ensures Apart(Valued(s, p, value)) && AllBut(Valued(s, p, value), null)
  {
    assert s.vals[p := value].Keys == s.vals.Keys;
  }

  /** The value of an inner node is given up. */
  lemma Emptied(vals: map<Prefix, nat>, p: Prefix)
    requires p in vals && !Childless(vals, p)
    ensures Stored(vals[p := NO_VALUE]) == Stored(vals) - {p}
    ensures Clean(vals) ==> Clean(vals[p := NO_VALUE])
  {
    if Clean(vals) {
      var v := vals[p := NO_VALUE];
      forall q | q in v && q != Empty && Childless(v, q)
        ensures v[q] != NO_VALUE
      {
        assert Childless(vals, q) <==> Childless(v, q);
      }
    }
  }

  lemma IsStored(vals: map<Prefix, nat>, p: Prefix)
    ensures p in Stored(vals) <==> p in vals && vals[p] != NO_VALUE
  {
  }

  lemma StartsClean(vals: map<Prefix, nat>, p: Prefix)
    ensures Clean(vals) ==> CleanBut(vals, p)
  {
  }

  /** A value for the node of p. */
  lemma Filled(vals: map<Prefix, nat>, p: Prefix, value: nat)
    requires p in vals && value != NO_VALUE
    ensures Stored(vals[p := value]) == Stored(vals)[p := value]
    ensures CleanBut(vals, p) ==> Clean(vals[p := value])
  {
    if CleanBut(vals, p) {
      forall q | q in vals && q != Empty && Childless(vals[p := value], q)
        ensures vals[p := value][q] != NO_VALUE
      {
        assert Childless(vals, q);
      }
    }
  }

  /** A node without a value is given one, or is given none. */
  lemma Given(vals: map<Prefix, nat>, p: Prefix, value: nat)
    requires p in vals && vals[p] == NO_VALUE
    ensures Stored(vals[p := value]) == if value != NO_VALUE then Stored(vals)[p := value] else Stored(vals)
    ensures value == NO_VALUE ==> vals[p := value] == vals
    ensures value != NO_VALUE && CleanBut(vals, p) ==> Clean(vals[p := value])
  {
    if value != NO_VALUE { Filled(vals, p, value); }
  }

  lemma OnlyRoot(r: Node)
    ensures var t := State(map[Empty := r], map[r := Empty], map[Empty := NO_VALUE], [],
                           map[r := Cell(null, null, null, NO_VALUE)]);
      Apart(t) && AllBut(t, null) && Clean(t.vals) && Stored(t.vals) == map[]
  {
  }

  lemma InMem(s: State, p: Prefix)
    requires Apart(s) && p in s.at
    ensures s.at[p] in s.mem && s.at[p] in s.live && p in s.vals && s.mem[s.at[p]] == CellOf(s.at, s.vals, p)
  {
  }

  lemma MoreOk(s: State, x: Node, c: Cell)
    requires Apart(s) && AllBut(s, null) && x !in s.mem
    ensures var t := s.(mem := s.mem[x := c]); Apart(t) && AllBut(t, x)
    ensures x !in s.fl && x !in s.live
  {
  }

  lemma Start(key: nat)
    ensures First(key, 0) == Empty
  {
  }

  lemma Further(key: nat, i: nat)
    ensures First(key, i + 1) == Sub(First(key, i), HasBit(key, BitAt(i)))
  {
  }

  lemma Powers()
    ensures Pow2(24) == 0x100_0000 && Pow2(30) == 0x4000_0000 && Pow2(31) == 0x8000_0000 && Pow2(32) == 0x1_0000_0000
  {
    assert Pow2(8) == 0x100;
    assert Pow2(16) == 0x1_0000;
    assert Pow2(24) == 0x100_0000;
  }

  lemma {:induction false} Listed(p: Prefix, v: nat, key: nat)
    requires key < Pow2(32) && v != NO_VALUE
    ensures Match(map[p := v], key, 33) == if Matches(p, key) then v else NO_VALUE
  {
    hide Matches;
    MatchInNumbers(map[p := v], key);
    if exists q :: q in map[p := v] && Matches(q, key) {
      var q :| Best(map[p := v], key, q);
      assert q == p;
    } else {
      assert p in map[p := v];
    }
  }

  lemma FewPages()
    ensures Stock(0, 2) == 0 && Pages(0, 2) == 0 && Pages(1, 2) == 1
  {
  }

  lemma OnlyFirst(i: nat)
    requires First(0, i) in map[Empty := NO_VALUE]
    ensures i == 0
  {
    assert Length(First(0, i)) == i;
  }

  lemma OneLeft(vals: map<Prefix, nat>)
    ensures vals == Bare(map[Empty := NO_VALUE], 0, 0, 1) ==> First(0, 1) in vals && Childless(vals, First(0, 1))
    ensures vals == Bare(map[Empty := NO_VALUE], 0, 0, 1) ==> Stored(vals) == map[]
  {
    var v := map[Empty := NO_VALUE];
    assert Bare(v, 0, 0, 1) == Bare(v, 0, 0, 0)[First(0, 1) := NO_VALUE] == v[First(0, 1) := NO_VALUE];
    assert Length(First(0, 1)) == 1;
    assert Length(Sub(First(0, 1), true)) == 2 && Length(Sub(First(0, 1), false)) == 2;
  }

  /** The first bit of key 0, left behind when memory ran out, is deleted although nothing is stored. */
  method DeleteUnstored() returns (inserted: Status, deleted: Status, ghost stored: map<Prefix, nat>)
    ensures inserted == ERROR && stored == map[] && deleted == OK
  {
    hide Tree.Valid, First, Stored, Pow2, Clean, Bare, Pages, Stock;
    FewPages();
    Powers();
    var t := new Tree(2, i => i == 0);
    ghost var i0, i;
    MaskWidth(0xC000_0000, 2);
    assert !t.grants(1) && t.Spares() == 1;
    inserted, i0, i := t.Insert(0, 0xC000_0000, 7, 2);
    OnlyFirst(i0);
    OneLeft(t.s.vals);
    stored := Stored(t.s.vals);
    MaskWidth(0x8000_0000, 1);
    ghost var k;
    deleted, k := t.Delete(0, 0x8000_0000, 1);
  }

  /** A lookup of 10.0.0.1 does not find what is stored for 64.0.0.0/8; a lookup of 64.1.2.3 does. */
  method LookUp() returns (missed: nat, found: nat)
    ensures missed == NO_VALUE && found == 7
  {
    hide Tree.Valid, First, Stored, Pow2, Clean, Bare, Matches, Number;
    Powers();
    MaskWidth(0xFF00_0000, 8);
    var t := new Tree(40, i => i == 0);
    ghost var i0, i, rc;
    rc, i0, i := t.Insert(0x4000_0000, 0xFF00_0000, 7, 8);
    missed := t.Find(0x0A00_0001);
    found := t.Find(0x4001_0203);
    Listed(First(0x4000_0000, 8), 7, 0x0A00_0001);
    Listed(First(0x4000_0000, 8), 7, 0x4001_0203);
    SameFirst(0x4000_0000, 0x0A00_0001, 8);
    SameFirst(0x4000_0000, 0x4001_0203, 8);
    MatchesFirst(First(0x4000_0000, 8), 0x0A00_0001);
    MatchesFirst(First(0x4000_0000, 8), 0x4001_0203);
  }
}
