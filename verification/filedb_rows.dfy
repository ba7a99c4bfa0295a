/**
The file B-tree of sdb_test/filedb.c as rows of edges. An edge is a child with the separator to its right; the row of a
level lists the edges its nodes hang on, from left to right, and the bottom row lists the key/value pairs in order.
*/
module FileRows {
  import opened Octets

  /** Where the value of a key is stored, beside the key; End is greater than every key. */
  datatype Sep = Pair(key: int, value: nat) | End

  datatype Edge = Edge(addr: nat, sep: Sep)

  datatype Slot = Slot(key: int, value: nat, child: nat)

  /** A block of the file. What follows the header is slots in a key block and bytes in a value block. */
  datatype Block = Block(self: nat, num: nat, free: nat, use: bool, keys: bool, leaf: bool, last: nat,
                         slots: seq<Slot>, bytes: seq<byte>)

  const ROOT := 4096

  // ---------- edges

  predicate Before(a: Sep, k: int) {
    a.Pair? && a.key < k
  }

  predicate After(a: Sep, k: int) {
    a.End? || k < a.key
  }

  predicate Less(a: Sep, b: Sep) {
    a.Pair? && (b.End? || a.key < b.key)
  }

  ghost predicate Ascending(R: seq<Edge>) {
    forall i, j :: 0 <= i < j < |R| ==> Less(R[i].sep, R[j].sep)
  }

  /** k belongs to the left of the separator of edge c and to the right of the one before. */
  predicate Between(R: seq<Edge>, c: nat, k: int) {
    c < |R| && After(R[c].sep, k) && (c > 0 ==> Before(R[c - 1].sep, k))
  }

  /** The edges that leave a node which hangs on an edge with separator sep. */
  function KidsOf(b: Block, sep: Sep): (ks: seq<Edge>)
    requires b.num < |b.slots|
    ensures |ks| == b.num + 1
  {
    seq(b.num + 1, i requires 0 <= i <= b.num =>
      Edge(b.slots[i].child, if i < b.num then Pair(b.slots[i].key, b.slots[i].value) else sep))
  }

  ghost function KidsAt(file: map<nat, Block>, e: Edge): seq<Edge> {
    if e.addr in file && file[e.addr].num < |file[e.addr].slots| then KidsOf(file[e.addr], e.sep) else []
  }

  ghost function Kids(file: map<nat, Block>, R: seq<Edge>): seq<Edge> {
    if R == [] then [] else KidsAt(file, R[0]) + Kids(file, R[1..])
  }

  lemma {:induction false} KidsConcat(file: map<nat, Block>, R: seq<Edge>, S: seq<Edge>)
    ensures Kids(file, R + S) == Kids(file, R) + Kids(file, S)
  {
    if R == [] {
      assert R + S == S;
    } else {
      assert (R + S)[1..] == R[1..] + S;
      KidsConcat(file, R[1..], S);
    }
  }

  lemma KidsOne(file: map<nat, Block>, e: Edge)
    ensures Kids(file, [e]) == KidsAt(file, e)
  {
    assert [e][1..] == [];
  }

  lemma {:induction false} KidsFrame(f: map<nat, Block>, f': map<nat, Block>, R: seq<Edge>)
    requires forall i :: 0 <= i < |R| ==> KidsAt(f, R[i]) == KidsAt(f', R[i])
    ensures Kids(f, R) == Kids(f', R)
  {
    if R != [] { KidsFrame(f, f', R[1..]); }
  }

  /** Where the edges of the g-th node of a row start in the row below. */
  ghost function Offset(file: map<nat, Block>, R: seq<Edge>, g: nat): nat
    requires g <= |R|
  {
    |Kids(file, R[..g])|
  }

  /** A row cut into what comes before a stretch, the stretch, and what comes after. */
  lemma KidsCut(file: map<nat, Block>, R: seq<Edge>, g: nat, m: nat)
    requires g + m <= |R|
    ensures Kids(file, R) == Kids(file, R[..g]) + Kids(file, R[g..g + m]) + Kids(file, R[g + m..])
  {
    assert R == R[..g] + R[g..g + m] + R[g + m..];
    hide Kids;
    KidsConcat(file, R[..g], R[g..g + m]);
    KidsConcat(file, R[..g] + R[g..g + m], R[g + m..]);
  }

  lemma KidsFocus(file: map<nat, Block>, R: seq<Edge>, g: nat)
    requires g < |R|
    ensures Kids(file, R) == Kids(file, R[..g]) + KidsAt(file, R[g]) + Kids(file, R[g + 1..])
    ensures Offset(file, R, g + 1) == Offset(file, R, g) + |KidsAt(file, R[g])| <= |Kids(file, R)|
  {
    hide Kids, KidsAt;
    var A, B := R[..g], R[g + 1..];
    assert R[..g + 1] == A + [R[g]] && R == R[..g + 1] + B;
    KidsOne(file, R[g]);
    KidsConcat(file, A, [R[g]]);
    KidsConcat(file, R[..g + 1], B);
  }

  /** The i-th edge out of the g-th node of a row. */
  lemma KidAt(file: map<nat, Block>, R: seq<Edge>, g: nat, i: nat)
    requires g < |R| && i < |KidsAt(file, R[g])|
    ensures Offset(file, R, g) + i < |Kids(file, R)|
    ensures Kids(file, R)[Offset(file, R, g) + i] == KidsAt(file, R[g])[i]
  {
    hide KidsAt, Kids;
    KidsFocus(file, R, g);
  }

  /** Every edge of the row below leaves one node of the row. */
  lemma {:induction false} Locate(file: map<nat, Block>, R: seq<Edge>, c: nat) returns (g: nat, i: nat)
    requires c < |Kids(file, R)|
    ensures g < |R| && i < |KidsAt(file, R[g])|
    ensures c == Offset(file, R, g) + i && Kids(file, R)[c] == KidsAt(file, R[g])[i]
  {
    var n := |KidsAt(file, R[0])|;
    if c < n {
      g, i := 0, c;
    } else {
      g, i := Locate(file, R[1..], c - n);
      g := g + 1;
      assert R[..g][1..] == R[1..][..g - 1];
    }
  }

  lemma {:induction false} OffsetGrows(file: map<nat, Block>, R: seq<Edge>, g: nat, h: nat)
    requires g <= h <= |R|
    ensures Offset(file, R, g) <= Offset(file, R, h)
    decreases h - g
  {
    if g < h {
      KidsFocus(file, R, g);
      OffsetGrows(file, R, g + 1, h);
    }
  }

  // ---------- rows of nodes

  /** A node of level l in the block at a. */
  ghost predicate NodeOk(b: Block, M: nat, a: nat, l: nat) {
    && b.self == a && b.use && b.keys && (b.leaf <==> l == 1) && |b.slots| == M + 1 && b.num <= M
    && (l == 1 ==> forall i :: 0 <= i <= M ==> b.slots[i].child == 0)
  }

  ghost predicate NodeAt(file: map<nat, Block>, tag: map<nat, nat>, M: nat, a: nat, l: nat) {
    a in file && a in tag && tag[a] == l && NodeOk(file[a], M, a, l)
  }

  ghost predicate Distinct(R: seq<Edge>) {
    forall i, j :: 0 <= i < j < |R| ==> R[i].addr != R[j].addr
  }

  ghost predicate RowOk(file: map<nat, Block>, tag: map<nat, nat>, M: nat, R: seq<Edge>, l: nat) {
    Distinct(R) && forall i :: 0 <= i < |R| ==> NodeAt(file, tag, M, R[i].addr, l)
  }

  /**
  The blocks and the rows they form. The last row is the edge the root hangs on, row 0 lists the pairs, and each row is
  what leaves the nodes of the row above. tag gives the level of every node.
  */
  datatype Tree = Tree(M: nat, file: map<nat, Block>, tag: map<nat, nat>, rows: seq<seq<Edge>>) {

    ghost predicate Ok(l: nat)
      requires l < |rows|
    {
      RowOk(file, tag, M, rows[l], l)
    }

    ghost predicate Link(l: nat)
      requires l + 1 < |rows|
    {
      rows[l] == Kids(file, rows[l + 1])
    }

    ghost predicate All() {
      && M >= 5 && |rows| >= 2 && rows[|rows| - 1] == [Edge(ROOT, End)]
      && (forall l {:trigger Ok(l)} :: 1 <= l < |rows| ==> Ok(l))
      && (forall l {:trigger Link(l)} :: 0 <= l < |rows| - 1 ==> Link(l))
    }
  }

  lemma OkAt(s: Tree, l: nat)
    requires s.All() && 1 <= l < |s.rows|
    ensures s.Ok(l) && s.Link(l - 1)
  {
  }

  lemma RowAt(s: Tree, l: nat, g: nat)
    requires l < |s.rows| && s.Ok(l) && g < |s.rows[l]|
    ensures NodeAt(s.file, s.tag, s.M, s.rows[l][g].addr, l)
    ensures KidsAt(s.file, s.rows[l][g]) == KidsOf(s.file[s.rows[l][g].addr], s.rows[l][g].sep)
  {
  }

  /** What leaves a node, edge by edge. */
  lemma EdgeOf(s: Tree, l: nat, g: nat, i: nat)
    requires s.All() && 1 <= l < |s.rows| && g < |s.rows[l]|
    requires s.rows[l][g].addr in s.file && i <= s.file[s.rows[l][g].addr].num
    ensures var b, c := s.file[s.rows[l][g].addr], Offset(s.file, s.rows[l], g) + i;
      && c < |s.rows[l - 1]| && i < |b.slots| && s.rows[l - 1][c].addr == b.slots[i].child
      && s.rows[l - 1][c].sep == if i < b.num then Pair(b.slots[i].key, b.slots[i].value) else s.rows[l][g].sep
  {
    hide RowOk, Kids, KidsAt, Offset;
    OkAt(s, l);
    RowAt(s, l, g);
    KidAt(s.file, s.rows[l], g, i);
  }

  // ---------- order

  /** The last edge out of a node carries the node's own separator. */
  lemma LastEdge(s: Tree, l: nat, g: nat)
    requires s.All() && 1 <= l < |s.rows| && g < |s.rows[l]|
    ensures 0 < Offset(s.file, s.rows[l], g + 1) <= |s.rows[l - 1]|
    ensures Offset(s.file, s.rows[l], g) < Offset(s.file, s.rows[l], g + 1)
    ensures s.rows[l - 1][Offset(s.file, s.rows[l], g + 1) - 1].sep == s.rows[l][g].sep
  {
    hide RowOk, Kids, KidsAt, Offset;
    OkAt(s, l);
    RowAt(s, l, g);
    KidsFocus(s.file, s.rows[l], g);
    EdgeOf(s, l, g, s.file[s.rows[l][g].addr].num);
  }

  /** The separators of a row are among those of the row below, in the same order. */
  lemma {:induction false} RowAscends(s: Tree, l: nat)
    requires s.All() && l < |s.rows| && Ascending(s.rows[0])
    ensures Ascending(s.rows[l])
    decreases l
  {
    if l > 0 {
      RowAscends(s, l - 1);
      hide RowOk, Kids, KidsAt, Offset;
      var R := s.rows[l];
      forall i, j | 0 <= i < j < |R|
        ensures Less(R[i].sep, R[j].sep)
      {
        LastEdge(s, l, i);
        LastEdge(s, l, j);
        OffsetGrows(s.file, R, i + 1, j);
      }
    }
  }

  /** Where a search goes on below a node. */
  lemma Descends(s: Tree, l: nat, g: nat, k: int, i: nat)
    requires s.All() && 1 <= l < |s.rows| && Between(s.rows[l], g, k) && s.rows[l][g].addr in s.file
    requires var b := s.file[s.rows[l][g].addr];
      && i <= b.num < |b.slots| && (i > 0 ==> b.slots[i - 1].key < k) && (i < b.num ==> k < b.slots[i].key)
    ensures Between(s.rows[l - 1], Offset(s.file, s.rows[l], g) + i, k)
  {
    hide RowOk, Kids, KidsAt, Offset;
    EdgeOf(s, l, g, i);
    if i > 0 {
      EdgeOf(s, l, g, i - 1);
    } else if g > 0 {
      LastEdge(s, l, g - 1);
    } else {
      StartsAtZero(s.file, s.rows[l]);
    }
  }

  lemma StartsAtZero(file: map<nat, Block>, R: seq<Edge>)
    ensures Offset(file, R, 0) == 0
  {
  }

  /** Every separator is a pair of the bottom row, or the end of it. */
  lemma {:induction false} SepDown(s: Tree, l: nat, i: nat) returns (c: nat)
    requires s.All() && l < |s.rows| && i < |s.rows[l]|
    ensures c < |s.rows[0]| && s.rows[0][c].sep == s.rows[l][i].sep
    decreases l
  {
    if l == 0 {
      c := i;
    } else {
      hide RowOk, Kids, KidsAt, Offset;
      LastEdge(s, l, i);
      c := SepDown(s, l - 1, Offset(s.file, s.rows[l], i + 1) - 1);
    }
  }

  ghost predicate Listed(R: seq<Edge>, k: int) {
    exists i :: 0 <= i < |R| && R[i].sep.Pair? && R[i].sep.key == k
  }

  /** A key that belongs between two neighbours is not listed. */
  lemma NotBetween(R: seq<Edge>, c: nat, k: int)
    requires Ascending(R) && Between(R, c, k)
    ensures !Listed(R, k)
  {
  }

  /** The keys of a node ascend. */
  lemma NodeAscends(s: Tree, l: nat, g: nat)
    requires s.All() && 1 <= l < |s.rows| && g < |s.rows[l]| && Ascending(s.rows[0]) && s.rows[l][g].addr in s.file
    ensures var b := s.file[s.rows[l][g].addr];
      b.num < |b.slots| && forall i, j :: 0 <= i < j < b.num ==> b.slots[i].key < b.slots[j].key
  {
    hide RowOk, Kids, KidsAt, Offset;
    OkAt(s, l);
    RowAt(s, l, g);
    RowAscends(s, l - 1);
    var b := s.file[s.rows[l][g].addr];
    forall i, j | 0 <= i < j < b.num
      ensures b.slots[i].key < b.slots[j].key
    {
      EdgeOf(s, l, g, i);
      EdgeOf(s, l, g, j);
    }
  }
}
