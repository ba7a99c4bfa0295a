/**
The blocks of the file: where they lie, which are free, what the checker of the database counts, and where values are.
*/
module FileDisk {
  import opened Octets
  import opened FileRows

  const BLOCK := 8192   // DB_BLOCK_SIZE
  const HEADER := 32    // sizeof(btree_node)
  const WORD := 8       // sizeof(btree_value)
  const UNIT := 16      // DB_ALIGNMENT

  /** Blocks follow the head of the file, which is as long as the address of the root. */
  predicate IsBlock(a: nat) {
    a >= ROOT && (a - ROOT) % BLOCK == 0
  }

  /** The block an address lies in. */
  function BlockOf(v: nat): (a: nat)
    requires v >= ROOT
    ensures IsBlock(a) && a <= v < a + BLOCK
  {
    ROOT + (v - ROOT) / BLOCK * BLOCK
  }

  lemma BlockOfInside(a: nat, i: nat)
    requires IsBlock(a) && i < BLOCK
    ensures BlockOf(a + i) == a
  {
  }

  // ---------- blocks in use and free blocks

  ghost predicate Laid(file: map<nat, Block>, size: nat, M: nat) {
    && IsBlock(size) && size > ROOT
    && (forall a: nat :: a in file <==> IsBlock(a) && a < size)
    && forall a :: a in file ==> file[a].self == a && |file[a].slots| == M + 1 && |file[a].bytes| == BLOCK
  }

  ghost predicate ChainAt(file: map<nat, Block>, fl: seq<nat>, i: int)
    requires 0 <= i < |fl|
  {
    fl[i] in file && !file[fl[i]].use && file[fl[i]].free == if i + 1 < |fl| then fl[i + 1] else 0
  }

  /** The free list runs through exactly the blocks not in use, each once. */
  ghost predicate FreeList(file: map<nat, Block>, free: nat, fl: seq<nat>) {
    && free == (if fl == [] then 0 else fl[0])
    && (forall i {:trigger ChainAt(file, fl, i)} :: 0 <= i < |fl| ==> ChainAt(file, fl, i))
    && (forall i, j :: 0 <= i < j < |fl| ==> fl[i] != fl[j])
    && forall a :: a in file && !file[a].use ==> a in fl
  }

  /** The key blocks in use are the nodes of the tree, and those of x. */
  ghost predicate Kinds(file: map<nat, Block>, tag: map<nat, nat>, x: set<nat>) {
    && (forall a :: a in file && file[a].use && file[a].keys ==> a in tag || a in x)
    && (forall a :: a in tag || a in x ==> a in file && file[a].use && file[a].keys)
    && forall a :: a in x ==> a !in tag
  }

  lemma Taken(file: map<nat, Block>, free: nat, fl: seq<nat>, n: Block)
    requires FreeList(file, free, fl) && fl != [] && fl[0] in file && n.use
    ensures FreeList(file[fl[0] := n], file[fl[0]].free, fl[1..])
  {
    var f, r := file[fl[0] := n], fl[1..];
    assert ChainAt(file, fl, 0) && (|fl| > 1 ==> ChainAt(file, fl, 1));
    forall i | 0 <= i < |r|
      ensures ChainAt(f, r, i)
    {
      assert ChainAt(file, fl, i + 1) && fl[i + 1] != fl[0];
    }
    forall a | a in f && !f[a].use
      ensures a in r
    {
      var i :| 0 <= i < |fl| && fl[i] == a;
      assert r[i - 1] == a;
    }
  }

  lemma Appended(file: map<nat, Block>, free: nat, fl: seq<nat>, a: nat, n: Block)
    requires FreeList(file, free, fl) && a !in file && n.use
    ensures FreeList(file[a := n], free, fl)
  {
    var f := file[a := n];
    forall i | 0 <= i < |fl|
      ensures ChainAt(f, fl, i)
    {
      assert ChainAt(file, fl, i);
    }
  }

  /** A block in use written again. */
  lemma Rewritten(file: map<nat, Block>, free: nat, fl: seq<nat>, a: nat, n: Block)
    requires FreeList(file, free, fl) && a in file && file[a].use && n.use
    ensures FreeList(file[a := n], free, fl)
  {
    var f := file[a := n];
    forall i | 0 <= i < |fl|
      ensures ChainAt(f, fl, i)
    {
      assert ChainAt(file, fl, i);
    }
  }

  lemma Released(file: map<nat, Block>, free: nat, fl: seq<nat>, a: nat, n: Block)
    requires FreeList(file, free, fl) && a in file && file[a].use && !n.use && n.free == free
    ensures FreeList(file[a := n], a, [a] + fl)
  {
    var f, r := file[a := n], [a] + fl;
    forall i | 0 <= i < |fl|
      ensures fl[i] != a
    {
      assert ChainAt(file, fl, i);
    }
    forall i | 0 <= i < |r|
      ensures ChainAt(f, r, i)
    {
      if i > 0 { assert ChainAt(file, fl, i - 1); }
      if i + 1 < |r| { assert ChainAt(file, fl, i); }
    }
  }

  lemma LaidWrite(file: map<nat, Block>, size: nat, M: nat, a: nat, n: Block)
    requires Laid(file, size, M) && a in file && n.self == a && |n.slots| == M + 1 && |n.bytes| == BLOCK
    ensures Laid(file[a := n], size, M)
  {
  }

  lemma LaidMore(file: map<nat, Block>, size: nat, M: nat, n: Block)
    requires Laid(file, size, M) && n.self == size && |n.slots| == M + 1 && |n.bytes| == BLOCK
    ensures size !in file && Laid(file[size := n], size + BLOCK, M)
  {
    var f := file[size := n];
    forall a: nat | IsBlock(a) && a < size + BLOCK
      ensures a in f
    {
      if a < size { assert a in file; } else { assert (a - size) % BLOCK == 0; }
    }
  }

  // ---------- what db_checker counts

  datatype Tally = Tally(keys: int, refs: int, keyBlocks: int, valueBlocks: int)

  function Plus(a: Tally, b: Tally): Tally {
    Tally(a.keys + b.keys, a.refs + b.refs, a.keyBlocks + b.keyBlocks, a.valueBlocks + b.valueBlocks)
  }

  function Minus(a: Tally, b: Tally): Tally {
    Tally(a.keys - b.keys, a.refs - b.refs, a.keyBlocks - b.keyBlocks, a.valueBlocks - b.valueBlocks)
  }

  const NONE := Tally(0, 0, 0, 0)

  function Weight(b: Block): Tally {
    if !b.use then NONE else if b.keys then Tally(b.num, 0, 1, 0) else Tally(0, b.num, 0, 1)
  }

  function Addr(k: nat): (a: nat)
    ensures IsBlock(a) && Index(a) == k
  {
    ROOT + BLOCK * k
  }

  function Index(a: nat): nat {
    if a < ROOT then 0 else (a - ROOT) / BLOCK
  }

  lemma AddrOf(a: nat)
    requires IsBlock(a)
    ensures Addr(Index(a)) == a
  {
  }

  /** The first k blocks taken together. */
  function Total(file: map<nat, Block>, k: nat): Tally {
    if k == 0 then NONE
    else Plus(Total(file, k - 1), if Addr(k - 1) in file then Weight(file[Addr(k - 1)]) else NONE)
  }

  lemma {:induction false} TotalElse(file: map<nat, Block>, b: nat, n: Block, k: nat)
    requires k <= b
    ensures Total(file[Addr(b) := n], k) == Total(file, k)
  {
    if k > 0 {
      assert Addr(k - 1) != Addr(b);
      TotalElse(file, b, n, k - 1);
    }
  }

  lemma TotalMore(file: map<nat, Block>, a: nat, n: Block)
    requires IsBlock(a)
    ensures Total(file[a := n], Index(a + BLOCK)) == Plus(Total(file, Index(a)), Weight(n))
  {
    AddrOf(a);
    AddrOf(a + BLOCK);
    TotalElse(file, Index(a), n, Index(a));
  }

  /** One block changes the total by as much as it changes itself. */
  lemma {:induction false} TotalWrite(file: map<nat, Block>, b: nat, n: Block, k: nat)
    requires b < k && Addr(b) in file
    ensures Total(file[Addr(b) := n], k) == Plus(Minus(Total(file, k), Weight(file[Addr(b)])), Weight(n))
  {
    hide Weight;
    if b == k - 1 {
      TotalElse(file, b, n, k - 1);
    } else {
      assert Addr(k - 1) != Addr(b);
      TotalWrite(file, b, n, k - 1);
    }
  }

  lemma {:induction false} TotalNat(file: map<nat, Block>, k: nat)
    ensures Total(file, k).valueBlocks >= 0
  {
    if k > 0 { TotalNat(file, k - 1); }
  }

  /** A value block in use is counted. */
  lemma {:induction false} TotalHas(file: map<nat, Block>, b: nat, k: nat)
    requires b < k && Addr(b) in file && file[Addr(b)].use && !file[Addr(b)].keys
    ensures Total(file, k).valueBlocks >= 1
  {
    TotalNat(file, k - 1);
    if b < k - 1 { TotalHas(file, b, k - 1); }
  }

  // ---------- values

  /** What db_align makes of a length. */
  function Aligned(n: nat): (r: nat)
    ensures n <= r < n + 16 && r % 16 == 0
  {
    (n + UNIT - 1) / UNIT * UNIT
  }

  /** A number as k bytes, the low one first. */
  function Bytes(n: nat, k: nat): (bs: seq<byte>)
    ensures |bs| == k
  {
    if k == 0 then [] else [n % 256] + Bytes(n / 256, k - 1)
  }

  function Number(bs: seq<byte>): nat {
    if bs == [] then 0 else bs[0] + 256 * Number(bs[1..])
  }

  lemma {:induction false} NumberOfBytes(n: nat, k: nat)
    requires n < Pow2(8 * k)
    ensures Number(Bytes(n, k)) == n
  {
    if k > 0 {
      Pow2Adds(8, 8 * k - 8);
      assert Pow2(8) == 256;
      NumberOfBytes(n / 256, k - 1);
      assert Bytes(n, k)[1..] == Bytes(n / 256, k - 1);
    } else {
      assert Pow2(0) == 1;
    }
  }

  /** bs written at position i. */
  function Written(d: seq<byte>, i: nat, bs: seq<byte>): (r: seq<byte>)
    requires i + |bs| <= |d|
    ensures |r| == |d|
  {
    d[..i] + bs + d[i + |bs|..]
  }

  lemma WrittenAt(d: seq<byte>, i: nat, bs: seq<byte>)
    requires i + |bs| <= |d|
    ensures Written(d, i, bs)[i..i + |bs|] == bs
  {
  }

  /** What lies before is as it was. */
  lemma WrittenBefore(d: seq<byte>, i: nat, bs: seq<byte>, j: nat, n: nat)
    requires i + |bs| <= |d| && j + n <= i
    ensures Written(d, i, bs)[j..j + n] == d[j..j + n]
  {
  }

  /** The value at address v: its length, and then its bytes. */
  function ValueAt(b: Block, v: nat): (bs: seq<byte>) {
    var i := v - b.self;
    if i < 0 || i + WORD > |b.bytes| then []
    else
      var n := Number(b.bytes[i..i + WORD]);
      if i + WORD + n > |b.bytes| then [] else b.bytes[i + WORD..i + WORD + n]
  }

  /** A value stored in block b at address v, below what the block has given out. */
  ghost predicate ValueIn(b: Block, v: nat) {
    && b.self + HEADER <= v && b.last <= BLOCK == |b.bytes| && v - b.self + WORD <= b.last
    && v - b.self + WORD + Number(b.bytes[v - b.self..v - b.self + WORD]) <= b.last
  }

  /** Every pair of the row has its value in a value block in use. */
  ghost predicate ValuesIn(file: map<nat, Block>, R: seq<Edge>) {
    forall i {:trigger R[i].sep} :: 0 <= i < |R| && R[i].sep.Pair? ==> HasValue(file, R[i].sep.value)
  }

  ghost predicate HasValue(file: map<nat, Block>, v: nat) {
    v >= ROOT && BlockOf(v) in file && var b := file[BlockOf(v)]; b.use && !b.keys && ValueIn(b, v)
  }

  /** How many pairs of the row have their value in block a. */
  ghost function Refs(R: seq<Edge>, a: nat): nat {
    if R == [] then 0
    else Refs(R[1..], a) + if R[0].sep.Pair? && R[0].sep.value >= ROOT && BlockOf(R[0].sep.value) == a then 1 else 0
  }

  lemma {:induction false} RefsConcat(R: seq<Edge>, S: seq<Edge>, a: nat)
    ensures Refs(R + S, a) == Refs(R, a) + Refs(S, a)
  {
    if R == [] {
      assert R + S == S;
    } else {
      assert (R + S)[1..] == R[1..] + S;
      RefsConcat(R[1..], S, a);
    }
  }

  /** Every value block in use counts the pairs whose values it holds, and holds at least one. */
  ghost predicate Counted(file: map<nat, Block>, R: seq<Edge>) {
    forall a :: a in file && file[a].use && !file[a].keys ==>
      file[a].num == Refs(R, a) >= 1 && HEADER <= file[a].last <= BLOCK
  }

  /** Both files have the same value blocks. */
  ghost predicate Kept(f: map<nat, Block>, f': map<nat, Block>) {
    && (forall a :: a in f && f[a].use && !f[a].keys ==> a in f' && f'[a] == f[a])
    && (forall a :: a in f' && f'[a].use && !f'[a].keys ==> a in f && f[a] == f'[a])
  }

  lemma KeptTrans(f: map<nat, Block>, g: map<nat, Block>, h: map<nat, Block>)
    requires Kept(f, g) && Kept(g, h)
    ensures Kept(f, h)
  {
  }

  // ---------- the key blocks of the tree, tag, and those made beside it, x

  lemma KeyWrite(f: map<nat, Block>, tag: map<nat, nat>, x: set<nat>, a: nat, n: Block)
    requires Kinds(f, tag, x) && (a in tag || a in x) && n.use && n.keys
    ensures Kinds(f[a := n], tag, x) && Kept(f, f[a := n])
  {
  }

  lemma KeyEnter(f: map<nat, Block>, tag: map<nat, nat>, x: set<nat>, a: nat, l: nat)
    requires Kinds(f, tag, x) && (a in tag || a in x)
    ensures Kinds(f, tag[a := l], x - {a})
  {
  }

  lemma KeyMake(f: map<nat, Block>, tag: map<nat, nat>, x: set<nat>, a: nat, n: Block)
    requires Kinds(f, tag, x) && (a in f ==> !f[a].use) && n.use && n.keys
    ensures a !in tag && a !in x && Kinds(f[a := n], tag, x + {a}) && Kept(f, f[a := n])
  {
  }

  lemma KeyFree(f: map<nat, Block>, tag: map<nat, nat>, x: set<nat>, a: nat, n: Block)
    requires Kinds(f, tag, x) && a in tag && !n.use
    ensures Kinds(f[a := n], tag - {a}, x) && Kept(f, f[a := n])
  {
  }

  /** Writing a block of values, or freeing one. */
  lemma ValueWrite(f: map<nat, Block>, tag: map<nat, nat>, x: set<nat>, a: nat, n: Block)
    requires Kinds(f, tag, x) && (a in f && f[a].use ==> !f[a].keys) && (n.use ==> !n.keys)
    ensures a !in tag && a !in x && Kinds(f[a := n], tag, x)
  {
  }

  /** Writing a key block over a key block or a free one. */
  lemma KeptWrite(f: map<nat, Block>, a: nat, n: Block)
    requires a in f ==> !f[a].use || f[a].keys
    requires !n.use || n.keys
    ensures Kept(f, f[a := n])
  {
  }

  lemma ValuesKept(f: map<nat, Block>, f': map<nat, Block>, R: seq<Edge>)
    requires Kept(f, f') && ValuesIn(f, R) && Counted(f, R)
    ensures ValuesIn(f', R) && Counted(f', R)
  {
    hide ValueIn, Refs;
  }

  /** The number of nodes in all rows. */
  ghost function Nodes(rows: seq<seq<Edge>>): nat {
    if |rows| <= 1 then 0 else Nodes(rows[..|rows| - 1]) + |rows[|rows| - 1]|
  }

  lemma {:induction false} NodesChange(rows: seq<seq<Edge>>, l: nat, R: seq<Edge>)
    requires l < |rows|
    ensures Nodes(rows[l := R]) == if l == 0 then Nodes(rows) else Nodes(rows) - |rows[l]| + |R|
    decreases |rows|
  {
    var m := |rows| - 1;
    if l < m {
      NodesChange(rows[..m], l, R);
      assert rows[l := R][..m] == rows[..m][l := R];
    } else {
      assert rows[l := R][..m] == rows[..m];
    }
  }

  lemma NodesMore(rows: seq<seq<Edge>>, R: seq<Edge>)
    requires rows != []
    ensures Nodes(rows + [R]) == Nodes(rows) + |R|
  {
    assert (rows + [R])[..|rows|] == rows;
  }

  // ---------- the map the pairs stand for

  ghost function PairsOf(R: seq<Edge>): map<int, nat> {
    if R == [] then map[]
    else if R[0].sep.End? then PairsOf(R[1..])
    else PairsOf(R[1..])[R[0].sep.key := R[0].sep.value]
  }

  lemma {:induction false} PairsHave(R: seq<Edge>, k: int)
    ensures k in PairsOf(R) <==> Listed(R, k)
  {
    if R != [] {
      PairsHave(R[1..], k);
      if Listed(R[1..], k) {
        var i :| 0 <= i < |R| - 1 && R[1..][i].sep.Pair? && R[1..][i].sep.key == k;
        assert R[i + 1].sep.key == k;
      }
      if Listed(R, k) && !(R[0].sep.Pair? && R[0].sep.key == k) {
        var i :| 0 <= i < |R| && R[i].sep.Pair? && R[i].sep.key == k;
        assert R[1..][i - 1].sep.key == k;
      }
    }
  }

  lemma {:induction false} PairsAt(R: seq<Edge>, i: nat)
    requires Ascending(R) && i < |R| && R[i].sep.Pair?
    ensures R[i].sep.key in PairsOf(R) && PairsOf(R)[R[i].sep.key] == R[i].sep.value
  {
    if i > 0 {
      assert Less(R[0].sep, R[i].sep);
      PairsAt(R[1..], i - 1);
    }
  }

  /** One pair more. */
  lemma PairsAdded(R: seq<Edge>, c: nat, k: int, v: nat)
    requires Ascending(R) && Between(R, c, k)
    ensures Ascending(R[..c] + [Edge(0, Pair(k, v))] + R[c..])
    ensures PairsOf(R[..c] + [Edge(0, Pair(k, v))] + R[c..]) == PairsOf(R)[k := v]
  {
    hide PairsOf, Ascending;
    var S := R[..c] + [Edge(0, Pair(k, v))] + R[c..];
    AddedAscends(R, c, k, v);
    assert S[c].sep == Pair(k, v);
    PairsAt(S, c);
    forall x | x in PairsOf(S)
      ensures x in PairsOf(R)[k := v] && PairsOf(S)[x] == PairsOf(R)[k := v][x]
    {
      PairsHave(S, x);
      var i :| 0 <= i < |S| && S[i].sep.Pair? && S[i].sep.key == x;
      if i != c { OtherSame(R, c, k, v, i); }
    }
    forall x | x in PairsOf(R)[k := v]
      ensures x in PairsOf(S)
    {
      if x != k {
        PairsHave(R, x);
        var j :| 0 <= j < |R| && R[j].sep.Pair? && R[j].sep.key == x;
        assert S[if j < c then j else j + 1] == R[j];
        PairsHave(S, x);
      }
    }
  }

  lemma OtherSame(R: seq<Edge>, c: nat, k: int, v: nat, i: nat)
    requires Ascending(R) && Between(R, c, k) && i <= |R| && i != c
    requires (R[..c] + [Edge(0, Pair(k, v))] + R[c..])[i].sep.Pair?
    ensures var S := R[..c] + [Edge(0, Pair(k, v))] + R[c..];
      var x := S[i].sep.key;
      x != k && x in PairsOf(S) && x in PairsOf(R) && PairsOf(S)[x] == PairsOf(R)[x]
  {
    hide PairsOf;
    var S := R[..c] + [Edge(0, Pair(k, v))] + R[c..];
    AddedAscends(R, c, k, v);
    PairsAt(S, i);
    var j := if i < c then i else i - 1;
    assert R[j] == S[i];
    PairsAt(R, j);
    assert S[c].sep == Pair(k, v);
    if S[i].sep.key == k { SameKey(S, i, c); }
  }

  lemma SameKey(R: seq<Edge>, i: nat, j: nat)
    requires Ascending(R) && i < |R| && j < |R| && R[i].sep.Pair? && R[j].sep.Pair? && R[i].sep.key == R[j].sep.key
    ensures i == j
  {
  }

  lemma AddedAscends(R: seq<Edge>, c: nat, k: int, v: nat)
    requires Ascending(R) && Between(R, c, k)
    ensures Ascending(R[..c] + [Edge(0, Pair(k, v))] + R[c..])
  {
    var S := R[..c] + [Edge(0, Pair(k, v))] + R[c..];
    forall i, j | 0 <= i < j < |S|
      ensures Less(S[i].sep, S[j].sep)
    {
      if i == c {
        assert Less(R[c].sep, R[j - 1].sep) || j - 1 == c;
      } else if j == c {
        assert Less(R[i].sep, R[c - 1].sep) || i == c - 1;
      } else {
        assert Less(R[if i < c then i else i - 1].sep, R[if j < c then j else j - 1].sep);
      }
    }
  }

  /** One pair less. */
  lemma PairsDropped(R: seq<Edge>, c: nat)
    requires Ascending(R) && c < |R| && R[c].sep.Pair?
    ensures Ascending(R[..c] + R[c + 1..])
    ensures PairsOf(R[..c] + R[c + 1..]) == PairsOf(R) - {R[c].sep.key}
  {
    hide PairsOf, Ascending;
    var S := R[..c] + R[c + 1..];
    DroppedAscends(R, c);
    forall x | x in PairsOf(S)
      ensures x in PairsOf(R) && x != R[c].sep.key && PairsOf(S)[x] == PairsOf(R)[x]
    {
      PairsHave(S, x);
      var i :| 0 <= i < |S| && S[i].sep.Pair? && S[i].sep.key == x;
      StayedSame(R, c, i);
    }
    forall x | x in PairsOf(R) && x != R[c].sep.key
      ensures x in PairsOf(S)
    {
      PairsHave(R, x);
      var j :| 0 <= j < |R| && R[j].sep.Pair? && R[j].sep.key == x;
      assert S[if j < c then j else j - 1] == R[j];
      PairsHave(S, x);
    }
  }

  lemma StayedSame(R: seq<Edge>, c: nat, i: nat)
    requires Ascending(R) && c < |R| && R[c].sep.Pair?
    requires i < |R| - 1 && (R[..c] + R[c + 1..])[i].sep.Pair?
    ensures var S := R[..c] + R[c + 1..];
      var x := S[i].sep.key;
      x in PairsOf(R) && x != R[c].sep.key && x in PairsOf(S) && PairsOf(S)[x] == PairsOf(R)[x]
  {
    hide PairsOf;
    var S := R[..c] + R[c + 1..];
    DroppedAscends(R, c);
    PairsAt(S, i);
    var j := if i < c then i else i + 1;
    assert R[j] == S[i];
    PairsAt(R, j);
    if S[i].sep.key == R[c].sep.key { SameKey(R, j, c); }
  }

  lemma DroppedAscends(R: seq<Edge>, c: nat)
    requires Ascending(R) && c < |R|
    ensures Ascending(R[..c] + R[c + 1..])
  {
    var S := R[..c] + R[c + 1..];
    forall i, j | 0 <= i < j < |S|
      ensures Less(S[i].sep, S[j].sep)
    {
      assert Less(R[if i < c then i else i + 1].sep, R[if j < c then j else j + 1].sep);
    }
  }
}
