/**
The values of the file database: a value goes behind the last one of the current block, so none ever overlaps another,
and a block goes when the last key with a value in it goes.
*/
module FileValues {
  import opened Octets
  import opened FileRows
  import opened FileBlocks
  import opened FileSteps
  import opened FileEdits
  import opened FileDisk
  import opened FileState

  // ---------- the bytes of a value

  /** The value block n with a value put behind the others. */
  function Holding(n: Block, value: seq<byte>): Block
    requires n.last + WORD + |value| <= |n.bytes|
  {
    n.(bytes := Written(n.bytes, n.last, Bytes(|value|, WORD) + value), last := n.last + Aligned(WORD + |value|),
       num := n.num + 1)
  }

  lemma SmallNumber(n: nat)
    requires n <= BLOCK
    ensures n < Pow2(8 * WORD)
  {
    Pow2Grows(14, 64);
    assert Pow2(8) == 256;
    assert Pow2(14) == 64 * Pow2(8);
  }

  /** The value reads back. */
  lemma HoldsNew(n: Block, value: seq<byte>)
    requires HEADER <= n.last && n.last + Aligned(WORD + |value|) <= BLOCK == |n.bytes|
    ensures var m, v := Holding(n, value), n.self + n.last; ValueIn(m, v) && ValueAt(m, v) == value
  {
    hide Bytes, Number, Pow2;
    SmallNumber(|value|);
    NumberOfBytes(|value|, WORD);
    var bs := Bytes(|value|, WORD) + value;
    WrittenAt(n.bytes, n.last, bs);
    var d := Written(n.bytes, n.last, bs);
    assert d[n.last..n.last + WORD] == bs[..WORD] == Bytes(|value|, WORD);
    assert d[n.last + WORD..n.last + WORD + |value|] == bs[WORD..] == value;
  }

  /** The values already there stay as they are. */
  lemma HoldsOld(n: Block, value: seq<byte>, v: nat)
    requires HEADER <= n.last && n.last + Aligned(WORD + |value|) <= BLOCK == |n.bytes| && ValueIn(n, v)
    ensures ValueIn(Holding(n, value), v) && ValueAt(Holding(n, value), v) == ValueAt(n, v)
  {
    hide Bytes, Number, Pow2, Written;
    var bs, i := Bytes(|value|, WORD) + value, v - n.self;
    WrittenBefore(n.bytes, n.last, bs, i, WORD);
    WrittenBefore(n.bytes, n.last, bs, i + WORD, Number(n.bytes[i..i + WORD]));
  }

  // ---------- the map of the database

  function ValueOf(file: map<nat, Block>, v: nat): seq<byte> {
    if v >= ROOT && BlockOf(v) in file then ValueAt(file[BlockOf(v)], v) else []
  }

  /** What the database holds. */
  ghost function Contents(s: State): map<int, seq<byte>>
    requires |s.rows| > 0
  {
    map k | k in PairsOf(s.rows[0]) :: ValueOf(s.file, PairsOf(s.rows[0])[k])
  }

  /** Every value kept in s reads the same in t. */
  ghost predicate SameValues(s: State, t: State) {
    forall v {:trigger HasValue(s.file, v)} :: HasValue(s.file, v) ==>
        HasValue(t.file, v) && ValueOf(t.file, v) == ValueOf(s.file, v)
  }

  lemma KeptValues(s: State, t: State)
    requires Kept(s.file, t.file)
    ensures SameValues(s, t)
  {
    hide ValueIn, ValueAt;
  }

  lemma SameContents(s: State, t: State)
    requires s.Valued() && SamePairs(s, t)
    ensures Contents(t) == Contents(s)
  {
    KeptValues(s, t);
    hide ValueIn, ValueAt, Kept, HasValue, ValueOf;
    forall k | k in PairsOf(s.rows[0])
      ensures ValueOf(t.file, PairsOf(s.rows[0])[k]) == ValueOf(s.file, PairsOf(s.rows[0])[k])
    {
      PairValue(s, k);
    }
  }

  lemma PairValue(s: State, k: int)
    requires s.Valued() && k in PairsOf(s.rows[0])
    ensures HasValue(s.file, PairsOf(s.rows[0])[k])
  {
    hide HasValue;
    SomePair(s.rows[0], k);
  }

  lemma {:induction false} SomePair(R: seq<Edge>, k: int)
    requires k in PairsOf(R)
    ensures exists i :: 0 <= i < |R| && R[i].sep == Pair(k, PairsOf(R)[k])
  {
    if R[0].sep == Pair(k, PairsOf(R)[k]) {
    } else {
      SomePair(R[1..], k);
      var i :| 0 <= i < |R| - 1 && R[1..][i].sep == Pair(k, PairsOf(R)[k]);
      assert R[i + 1].sep == R[1..][i].sep;
    }
  }

  // ---------- putting a value

  /** Block a counts one pair more than there is. */
  ghost predicate CountsOneMore(file: map<nat, Block>, R: seq<Edge>, a: nat) {
    forall b :: b in file && file[b].use && !file[b].keys ==>
      && file[b].num == Refs(R, b) + (if b == a then 1 else 0) >= 1
      && HEADER <= file[b].last <= BLOCK
  }

  /** n is block a of s with room for the value, or a new block. */
  ghost predicate Roomy(s: State, a: nat, n: Block, value: seq<byte>) {
    && IsBlock(a) && n.self == a && n.use && !n.keys && HEADER <= n.last
    && n.last + Aligned(WORD + |value|) <= BLOCK == |n.bytes|
    && if a in s.file && s.file[a].use then s.file[a] == n else n.num == 0
  }

  /** n is the block of values that is being filled; it was there before, or it is new. */
  ghost predicate Filling(s: State, t: State, n: Block) {
    && IsBlock(n.self) && t.Writable(n) && t.file[n.self] == n && !n.keys && HEADER <= n.last && t.current == n.self
    && t.M == s.M && t.tag == s.tag && t.rows == s.rows && t.keyTotal == s.keyTotal && t.keyUse == s.keyUse
    && t.lost == s.lost && t.file == s.file[n.self := n]
    && if n.self in s.file && s.file[n.self].use then s.file[n.self] == n else n.num == 0
  }

  /** The value has been put in block a, at address v. */
  ghost predicate Puts(s: State, t: State, n: Block, value: seq<byte>, v: nat)
    requires n.last + WORD + |value| <= |n.bytes|
  {
    && t.M == s.M && t.tag == s.tag && t.rows == s.rows && t.keyTotal == s.keyTotal && t.keyUse == s.keyUse
    && t.lost == s.lost && t.file == s.file[n.self := Holding(n, value)] && v == n.self + n.last &&
        t.current == n.self && t.Disk()
  }

  lemma {:induction false} RefsNone(R: seq<Edge>, a: nat)
    requires forall i {:trigger R[i].sep} :: 0 <= i < |R| && R[i].sep.Pair? ==>
      R[i].sep.value >= ROOT && BlockOf(R[i].sep.value) != a
    ensures Refs(R, a) == 0
  {
    if R != [] {
      forall i | 0 <= i < |R| - 1 && R[1..][i].sep.Pair?
        ensures R[1..][i].sep.value >= ROOT && BlockOf(R[1..][i].sep.value) != a
      {
        assert R[1..][i].sep == R[i + 1].sep;
      }
      assert R[0].sep.Pair? ==> BlockOf(R[0].sep.value) != a;
      RefsNone(R[1..], a);
    }
  }

  /** The file has no block to be filled. */
  lemma NoCurrent(s: State)
    requires s.Valid()
    ensures s.(current := 0).Valid() && Contents(s.(current := 0)) == Contents(s)
  {
    hide Kids, NodeOk, Filled, Rooted, Laid, FreeList, Kinds, Total, ValueOf, Tree.All;
    SameTree(s.T(), s.(current := 0).T());
  }

  lemma PutTree(s: State, t: State, n: Block, value: seq<byte>, v: nat)
    requires s.Treed({}) && Roomy(s, n.self, n, value) && Puts(s, t, n, value, v)
    ensures t.Treed({})
  {
    hide Kids, NodeOk, Filled, Rooted, Laid, FreeList, IsBlock, Holding, Aligned, BlockOf;
    HoldingIs(n, value);
    ValueWrite(s.file, s.tag, {} + s.lost, n.self, Holding(n, value));
    SameTree(s.T(), t.T());
    SameFill(s.T(), t.T());
  }

  lemma HoldingIs(n: Block, value: seq<byte>)
    requires n.last + WORD + |value| <= |n.bytes|
    ensures var m := Holding(n, value);
      && m.self == n.self && m.use == n.use && m.keys == n.keys && m.num == n.num + 1 && |m.bytes| == |n.bytes|
      && m.last == n.last + Aligned(WORD + |value|) && m.slots == n.slots
  {
  }

  lemma PutValues(s: State, t: State, n: Block, value: seq<byte>, v: nat)
    requires s.Valued() && Roomy(s, n.self, n, value) && Puts(s, t, n, value, v)
    ensures HasValue(t.file, v) && ValueOf(t.file, v) == value && SameValues(s, t) && v >= ROOT && BlockOf(v) == n.self
  {
    hide Holding, ValueIn, ValueAt, BlockOf, IsBlock;
    HoldingIs(n, value);
    HoldsNew(n, value);
    BlockOfInside(n.self, n.last);
    AtLeastRoot(n.self);
    forall x | HasValue(s.file, x)
      ensures HasValue(t.file, x) && ValueOf(t.file, x) == ValueOf(s.file, x)
    {
      if BlockOf(x) == n.self { HoldsOld(n, value, x); }
    }
  }

  lemma AtLeastRoot(a: nat)
    requires IsBlock(a)
    ensures a >= ROOT
  {
  }

  lemma PutCounts(s: State, t: State, n: Block, value: seq<byte>, v: nat)
    requires s.Valued() && Roomy(s, n.self, n, value) && Puts(s, t, n, value, v)
    ensures CountsOneMore(t.file, t.rows[0], n.self)
  {
    hide Holding, ValueIn, ValueAt, BlockOf, IsBlock, Refs;
    HoldingIs(n, value);
    if !(n.self in s.file && s.file[n.self].use) {
      forall i {:trigger s.rows[0][i].sep} | 0 <= i < |s.rows[0]| && s.rows[0][i].sep.Pair?
        ensures s.rows[0][i].sep.value >= ROOT && BlockOf(s.rows[0][i].sep.value) != n.self
      {
        assert HasValue(s.file, s.rows[0][i].sep.value);
      }
      RefsNone(s.rows[0], n.self);
    }
  }

  lemma CurrentBlock(s: State)
    requires s.Valid() && s.current != 0
    ensures s.current in s.file && IsBlock(s.current)
    ensures var n := s.file[s.current];
      n.self == s.current && n.use && !n.keys && HEADER <= n.last <= BLOCK == |n.bytes| && |n.slots| == s.M + 1
  {
    hide Kids, NodeOk;
    InLaid(s, s.current);
  }

  lemma MadeValue(M: nat, a: nat)
    ensures var n := Made(M, a, false, false);
      n.num == 0 && n.last == HEADER && n.use && !n.keys && |n.bytes| == BLOCK && |n.slots| == M + 1 && n.self == a
  {
  }

  // ---------- a pair in a leaf

  lemma RefsOne(e: Edge, a: nat)
    ensures Refs([e], a) == if e.sep.Pair? && e.sep.value >= ROOT && BlockOf(e.sep.value) == a then 1 else 0
  {
    assert [e][1..] == [];
    assert Refs([], a) == 0;
  }

  /** Replacing a stretch of the pairs changes the count of a block by what the stretches hold. */
  lemma RefsReplaced(R: seq<Edge>, c: nat, m: nat, W: seq<Edge>, a: nat)
    requires c + m <= |R|
    ensures Refs(Replaced(R, c, m, W), a) + Refs(R[c..c + m], a) == Refs(R, a) + Refs(W, a)
  {
    assert R == R[..c] + R[c..c + m] + R[c + m..];
    RefsConcat(R[..c] + R[c..c + m], R[c + m..], a);
    RefsConcat(R[..c], R[c..c + m], a);
    RefsConcat(R[..c] + W, R[c + m..], a);
    RefsConcat(R[..c], W, a);
  }

  /** The pair has been put in leaf g at position i. */
  ghost predicate Adds(s: State, t: State, g: nat, i: nat, node: Block, key: int, v: nat) {
    && s.At(1, g, node) && i <= node.num < s.M && Sized(node, s.M) && Offset(s.file, s.rows[1], g) + i <= |s.rows[0]|
    && t == s.(file := t.file, rows := t.rows, keyTotal := s.keyTotal + 1) && t.Disk()
    && t.T() == LeafTree(s.T(), g, i, 0, [Edge(0, Pair(key, v))], LeafAdd(node, i, key, v))
  }

  lemma AddTree(s: State, t: State, g: nat, i: nat, node: Block, key: int, v: nat)
    requires s.Treed({}) && Adds(s, t, g, i, node, key, v) && node.num < s.M - 1
    requires Between(s.rows[0], Offset(s.file, s.rows[1], g) + i, key)
    ensures t.Treed({}) && Kept(s.file, t.file) && PairsOf(t.rows[0]) == PairsOf(s.rows[0])[key := v]
    ensures t.rows[0] == Replaced(s.rows[0], Offset(s.file, s.rows[1], g) + i, 0, [Edge(0, Pair(key, v))])
  {
    hide Kids, KidsAt, NodeOk, Filled, Laid, FreeList, IsBlock, Offset, LeafAdd, RowOk, Ascending, PairsOf;
    NodeIs(s, {}, 1, g, node);
    LeafFits(s, g, node);
    var c, W, b := Offset(s.file, s.rows[1], g) + i, [Edge(0, Pair(key, v))], LeafAdd(node, i, key, v);
    LeafAdded(node, i, key, v, s.M, s.rows[1][g].sep);
    AddShape(node, i, key, v, s.M);
    ReplacedAdd(KidsOf(node, s.rows[1][g].sep), i, W);
    ReplacedAdd(s.rows[0], c, W);
    LeafOk(s.T(), g, i, 0, W, b);
    LeafFilled(s.T(), g, i, 0, W, b);
    PairsAdded(s.rows[0], c, key, v);
    NodesChange(s.rows, 0, t.rows[0]);
    KeptWrite(s.file, node.self, b);
  }

  lemma ReplacedAdd(K: seq<Edge>, i: nat, W: seq<Edge>)
    requires i <= |K|
    ensures Replaced(K, i, 0, W) == K[..i] + W + K[i..]
  {
  }

  /** What is known of a leaf. */
  lemma LeafFits(s: State, g: nat, node: Block)
    requires s.Treed({}) && s.At(1, g, node)
    ensures NodeOk(node, s.M, s.rows[1][g].addr, 1) && Sized(node, s.M) && Barren(node)
    ensures KidsAt(s.file, s.rows[1][g]) == KidsOf(node, s.rows[1][g].sep)
    ensures |s.rows| > 2 ==> node.num + 1 >= Half(s.M)
  {
    hide Kids, Filled, Laid, FreeList, Offset;
    NodeIs(s, {}, 1, g, node);
    KidsFit(s.file, s.rows[1][g]);
  }

  lemma AddShape(node: Block, i: nat, key: int, v: nat, M: nat)
    requires NodeOk(node, M, node.self, 1) && Barren(node) && i <= node.num < M
    ensures var b := LeafAdd(node, i, key, v);
      NodeOk(b, M, node.self, 1) && b.num == node.num + 1 && b.keys && b.use && b.self == node.self &&
          b.bytes == node.bytes
  {
    LeafAdded(node, i, key, v, M, End);
    hide CopySlots;
  }

  /** All that an insertion ends with. */
  lemma AddDone(s0: State, s: State, t: State, g: nat, i: nat, node: Block, key: int, n: Block, value: seq<byte>,
                v: nat)
    requires s0.Treed({}) && s0.Valued() && Roomy(s0, n.self, n, value) && Puts(s0, s, n, value, v)
    requires Adds(s, t, g, i, node, key, v) && node.num < s.M - 1
    requires Between(s.rows[0], Offset(s.file, s.rows[1], g) + i, key)
    ensures t.Treed({}) && t.Valued() && Contents(t) == Contents(s0)[key := value] && |t.rows[0]| == |s0.rows[0]| + 1
  {
    hide Kids, KidsAt, NodeOk, Filled, Laid, FreeList, IsBlock, Offset, Replaced, Ascending, Holding, ValueIn, ValueAt,
         BlockOf, State.Treed, HasValue, ValueOf, PairsOf, Roomy;
    PutTree(s0, s, n, value, v);
    PutValues(s0, s, n, value, v);
    PutCounts(s0, s, n, value, v);
    AddTree(s, t, g, i, node, key, v);
    KeptValues(s, t);
    AddCounts(s, t, g, i, node, key, v, n.self);
    OnDisk(t, {});
    AddContents(s0, s, t, key, value, v);
    CurrentIs(s0, s, t, n, value, v);
  }

  lemma CurrentIs(s0: State, s: State, t: State, n: Block, value: seq<byte>, v: nat)
    requires Roomy(s0, n.self, n, value) && Puts(s0, s, n, value, v) && Kept(s.file, t.file) && t.current == s.current
    ensures t.current in t.file && t.file[t.current].use && !t.file[t.current].keys
  {
    hide Holding, IsBlock;
    HoldingIs(n, value);
  }

  lemma AddCounts(s: State, t: State, g: nat, i: nat, node: Block, key: int, v: nat, a: nat)
    requires |s.rows| > 1 && g <= |s.rows[1]|
    requires CountsOneMore(s.file, s.rows[0], a) && Kept(s.file, t.file) && v >= ROOT && BlockOf(v) == a
    requires var c := Offset(s.file, s.rows[1], g) + i;
      c <= |s.rows[0]| && |t.rows| > 0 && t.rows[0] == Replaced(s.rows[0], c, 0, [Edge(0, Pair(key, v))])
    ensures Counted(t.file, t.rows[0]) && |t.rows[0]| == |s.rows[0]| + 1
  {
    hide Offset, Refs, BlockOf;
    var c := Offset(s.file, s.rows[1], g) + i;
    forall b | b in t.file && t.file[b].use && !t.file[b].keys
      ensures t.file[b].num == Refs(t.rows[0], b) >= 1 && HEADER <= t.file[b].last <= BLOCK
    {
      RefsReplaced(s.rows[0], c, 0, [Edge(0, Pair(key, v))], b);
      RefsOne(Edge(0, Pair(key, v)), b);
      NoRefs(s.rows[0][c..c + 0], b);
    }
  }

  lemma NoRefs(R: seq<Edge>, a: nat)
    requires |R| == 0
    ensures Refs(R, a) == 0
  {
  }

  lemma AddContents(s0: State, s: State, t: State, key: int, value: seq<byte>, v: nat)
    requires s0.Valued() && |s.rows| > 0 && s.rows == s0.rows && SameValues(s0, s) && SameValues(s, t) && |t.rows| > 0
    requires HasValue(s.file, v) && ValueOf(s.file, v) == value && PairsOf(t.rows[0]) == PairsOf(s.rows[0])[key := v]
    requires Ascending(t.rows[0])
    ensures Contents(t) == Contents(s0)[key := value]
    ensures ValuesIn(t.file, t.rows[0])
  {
    hide HasValue, ValueOf, PairsOf;
    forall k | k in PairsOf(s0.rows[0])
      ensures HasValue(s0.file, PairsOf(s0.rows[0])[k])
    {
      PairValue(s0, k);
    }
    forall k | k in PairsOf(t.rows[0])
      ensures HasValue(t.file, PairsOf(t.rows[0])[k])
    {
    }
    ValuesByKey(t.file, t.rows[0]);
  }

  lemma ValuesByKey(file: map<nat, Block>, R: seq<Edge>)
    requires Ascending(R) && forall k :: k in PairsOf(R) ==> HasValue(file, PairsOf(R)[k])
    ensures ValuesIn(file, R)
  {
    hide HasValue, PairsOf, Ascending;
    forall i {:trigger R[i].sep} | 0 <= i < |R| && R[i].sep.Pair?
      ensures HasValue(file, R[i].sep.value)
    {
      PairsAt(R, i);
    }
  }

  /** The leaf is where it was before the value was stored. */
  lemma PutBeside(s: State, t: State, n: Block, value: seq<byte>, v: nat, g: nat, node: Block)
    requires s.Treed({}) && t.Treed({}) && s.At(1, g, node) && Roomy(s, n.self, n, value) && Puts(s, t, n, value, v)
    ensures t.At(1, g, node) && Offset(t.file, t.rows[1], g) == Offset(s.file, s.rows[1], g) && t.Writable(node)
  {
    hide Kids, KidsAt, Filled, Rooted, Laid, FreeList, IsBlock, Holding, Aligned, NodeOk;
    NodeIs(s, {}, 1, g, node);
    OkAt(s.T(), 1);
    var R := s.rows[1];
    assert node.self != n.self;
    forall j | 0 <= j < g
      ensures KidsAt(s.file, R[..g][j]) == KidsAt(t.file, R[..g][j])
    {
      TagAt(s.T(), 1, j);
      NodeFits(s.T(), 1, j);
      SameBlock(s.file, t.file, R[j]);
    }
    KidsFrame(s.file, t.file, R[..g]);
  }

  lemma AddIs(b: Block, i: nat, key: int, v: nat)
    requires i <= b.num < |b.slots| - 1
    ensures LeafAdd(b, i, key, v) ==
      b.(slots := SetKey(CopySlots(b.slots, i + 1, b.slots, i, b.num - i), i, Slot(key, v, 0)), num := b.num + 1)
  {
  }

  lemma AddWritable(node: Block, i: nat, key: int, v: nat, M: nat)
    requires NodeOk(node, M, node.self, 1) && Barren(node) && i <= node.num < M
    ensures var b := LeafAdd(node, i, key, v); b.self == node.self && b.use && b.keys && b.num == node.num + 1
    ensures |LeafAdd(node, i, key, v).slots| == M + 1 && LeafAdd(node, i, key, v).bytes == node.bytes
  {
    AddShape(node, i, key, v, M);
  }

  lemma AddFits(s: State, g: nat, i: nat, node: Block)
    requires s.Treed({}) && s.At(1, g, node) && i <= node.num
    ensures |s.rows| >= 2 && Offset(s.file, s.rows[1], g) + i <= |s.rows[0]|
  {
    hide Kids, KidsAt, Filled, Laid, FreeList, Offset, NodeOk;
    LeafFits(s, g, node);
    OkAt(s.T(), 1);
    KidsFocus(s.file, s.rows[1], g);
  }

  lemma AddedIs(s: State, t: State, g: nat, i: nat, node: Block, key: int, v: nat)
    requires s.At(1, g, node) && i <= node.num < s.M && Sized(node, s.M) && t.Disk()
    requires Offset(s.file, s.rows[1], g) + i <= |s.rows[0]|
    requires var b := LeafAdd(node, i, key, v);
      t == s.(file := s.file[node.self := b], keyTotal := s.keyTotal + 1,
              rows := LeafTree(s.T(), g, i, 0, [Edge(0, Pair(key, v))], b).rows)
    ensures Adds(s, t, g, i, node, key, v)
  {
    hide Laid, FreeList, Offset, LeafAdd;
  }

  lemma OneKeyMore(b: Block, b': Block, sum: Tally)
    requires b.use && b.keys && b'.use && b'.keys && b'.num == b.num + 1
    ensures Plus(Minus(sum, Weight(b)), Weight(b')) == sum.(keys := sum.keys + 1)
  {
  }

  lemma ContentsKeys(s: State)
    requires |s.rows| > 0
    ensures forall k :: k in Contents(s) <==> Listed(s.rows[0], k)
  {
    forall k
      ensures k in Contents(s) <==> Listed(s.rows[0], k)
    {
      PairsHave(s.rows[0], k);
    }
  }
}
