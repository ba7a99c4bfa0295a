/**
The state of the file database between two operations, and what the steps of an operation do to it, as values.
*/
module FileState {
  import opened FileRows
  import opened FileBlocks
  import opened FileSteps
  import opened FileMoves
  import opened FileEdits
  import opened FileDisk

  /** A block as node_create leaves it. */
  function Made(M: nat, a: nat, leaf: bool, keys: bool): Block {
    Block(a, 0, 0, true, keys, leaf, HEADER, seq(M + 1, i => Slot(0, 0, 0)), seq(BLOCK, i => 0))
  }

  /** The head of the file, its blocks, and the rows of the tree. */
  datatype State = State(M: nat, file: map<nat, Block>, size: nat, free: nat, current: nat, keyTotal: nat, keyUse: nat,
                         valueUse: nat, tag: map<nat, nat>, rows: seq<seq<Edge>>, fl: seq<nat>, lost: set<nat>) {

    ghost function T(): Tree {
      Tree(M, file, tag, rows)
    }

    /** What db_checker adds up. */
    ghost function Sum(): Tally {
      Total(file, Index(size))
    }

    ghost predicate Disk() {
      M >= 5 && Laid(file, size, M) && FreeList(file, free, fl)
    }

    /** The rows are a tree, its nodes full enough and its pairs in order; x are key blocks made but not yet in it. */
    ghost predicate Treed(x: set<nat>) {
      && Disk() && Kinds(file, tag, x + lost) && x !! lost && T().All() && Filled(T()) && Rooted(T()) &&
          Ascending(rows[0])
      && keyUse == Nodes(rows) + |x| + |lost|
    }

    /** Every pair has its value, and every value block counts its pairs. */
    ghost predicate Valued() {
      && |rows| > 0 && ValuesIn(file, rows[0]) && Counted(file, rows[0])
      && (current == 0 || (current in file && file[current].use && !file[current].keys))
    }

    /** The totals db_checker compares, when the key blocks hold d keys more than they should. */
    ghost predicate Balanced(d: int) {
      |rows| > 0 && keyTotal + 1 == |rows[0]| && Sum() == Tally(keyTotal + d, keyTotal, keyUse, valueUse)
    }

    ghost predicate Valid() {
      Treed({}) && Valued() && Balanced(0)
    }

    /** node is what the block of node g of level l holds. */
    ghost predicate At(l: nat, g: nat, node: Block) {
      && 1 <= l < |rows| && g < |rows[l]| && rows[l][g].addr == node.self
      && node.self in file && file[node.self] == node
    }

    predicate Writable(n: Block) {
      n.self in file && file[n.self].use && n.use && |n.slots| == M + 1 && |n.bytes| == BLOCK
    }
  }

  /** A step inside the tree leaves the pairs, their values and the counts alone. */
  ghost predicate SamePairs(s: State, t: State) {
    && |s.rows| > 0 && |t.rows| > 0 && t.rows[0] == s.rows[0] && Kept(s.file, t.file)
    && t.keyTotal == s.keyTotal && t.current == s.current && t.M == s.M && t.valueUse == s.valueUse
  }

  lemma SumSame(s: State, t: State)
    requires t.file == s.file && t.size == s.size
    ensures t.Sum() == s.Sum()
  {
  }

  lemma CountsOnly(s: State, t: State)
    requires t == s.(keyUse := t.keyUse, valueUse := t.valueUse, current := t.current)
    ensures t.Disk() == s.Disk() && t.Sum() == s.Sum()
  {
  }

  lemma SamePairsRefl(s: State)
    requires |s.rows| > 0
    ensures SamePairs(s, s)
  {
  }

  lemma SamePairsTrans(s: State, t: State, u: State)
    requires SamePairs(s, t) && SamePairs(t, u)
    ensures SamePairs(s, u)
  {
  }

  lemma StillValued(s: State, t: State)
    requires s.Valued() && SamePairs(s, t)
    ensures t.Valued()
  {
    ValuesKept(s.file, t.file, s.rows[0]);
  }

  // ---------- reading

  lemma InLaid(s: State, a: nat)
    requires s.Disk() && a in s.file
    ensures IsBlock(a) && s.file[a].self == a && |s.file[a].slots| == s.M + 1 && |s.file[a].bytes| == BLOCK
  {
  }

  lemma RootAt(s: State, x: set<nat>, k: int)
    requires s.Treed(x)
    ensures ROOT in s.file && s.At(|s.rows| - 1, 0, s.file[ROOT]) && s.rows[|s.rows| - 1][0].sep == End
    ensures Between(s.rows[|s.rows| - 1], 0, k)
  {
    hide Kids, NodeOk;
    var top := |s.rows| - 1;
    OkAt(s.T(), top);
    assert NodeAt(s.file, s.tag, s.M, s.rows[top][0].addr, top);
    InLaid(s, ROOT);
  }

  /** A node of the tree, as every operation reads it. */
  lemma NodeIs(s: State, x: set<nat>, l: nat, g: nat, node: Block)
    requires s.Treed(x) && s.At(l, g, node)
    ensures NodeOk(node, s.M, node.self, l) && s.Writable(node) && node.self in s.tag && s.tag[node.self] == l
    ensures node.num <= s.M && node.keys && (node.leaf <==> l == 1)
    ensures forall i, j :: 0 <= i < j < node.num ==> node.slots[i].key < node.slots[j].key
    ensures l < |s.rows| - 1 ==> node.num + 1 >= Half(s.M) && node.self != ROOT
    ensures l == |s.rows| - 1 ==> node.self == ROOT && (l > 1 ==> node.num >= 1)
  {
    hide Kids, NodeOk, Laid;
    OkAt(s.T(), l);
    TagAt(s.T(), l, g);
    RowAt(s.T(), l, g);
    NodeAscends(s.T(), l, g);
    InLaid(s, node.self);
    NodeFacts(node, s.M, node.self, l);
    if l < |s.rows| - 1 {
      assert FilledRow(s.T(), l);
      OkAt(s.T(), |s.rows| - 1);
      TagAt(s.T(), |s.rows| - 1, 0);
    }
  }

  lemma NodeFacts(b: Block, M: nat, a: nat, l: nat)
    requires NodeOk(b, M, a, l)
    ensures Sized(b, M) && b.use && b.keys && (b.leaf <==> l == 1)
  {
  }

  /** A child of a node. */
  lemma ChildIs(s: State, x: set<nat>, l: nat, g: nat, node: Block, i: nat)
    requires s.Treed(x) && s.At(l + 1, g, node) && l >= 1 && i <= node.num
    ensures i < |node.slots| && Spot(s.T(), l, g, i)
    ensures var a, c := node.slots[i].child, Place(s.T(), l, g, i);
      && a in s.file && s.At(l, c, s.file[a])
      && s.rows[l][c].sep == if i < node.num then PairOf(node.slots[i]) else s.rows[l + 1][g].sep
  {
    hide Kids, NodeOk, Offset, Filled, Laid, FreeList;
    OkAt(s.T(), l + 1);
    RowAt(s.T(), l + 1, g);
    NodeFits(s.T(), l + 1, g);
    AtSpot(s.T(), l, g, i);
    InLaid(s, node.slots[i].child);
  }

  /** Where a search goes on. */
  lemma Deeper(s: State, x: set<nat>, l: nat, g: nat, node: Block, k: int, i: nat)
    requires s.Treed(x) && s.At(l + 1, g, node) && l >= 1 && i <= node.num && Between(s.rows[l + 1], g, k)
    requires (i > 0 ==> i <= |node.slots| && node.slots[i - 1].key < k)
    requires (i < node.num ==> i < |node.slots| && k < node.slots[i].key)
    ensures Between(s.rows[l], Place(s.T(), l, g, i), k)
  {
    hide Kids, NodeOk, Offset, Filled, Laid, FreeList;
    NodeIs(s, x, l + 1, g, node);
    Descends(s.T(), l + 1, g, k, i);
  }

  /** A key of any node is one of the pairs. */
  lemma KeyListed(s: State, x: set<nat>, l: nat, g: nat, node: Block, i: nat)
    requires s.Treed(x) && s.At(l, g, node) && i < node.num
    ensures i < |node.slots| && exists c :: 0 <= c < |s.rows[0]| && s.rows[0][c].sep == PairOf(node.slots[i])
    ensures Listed(s.rows[0], node.slots[i].key)
  {
    hide Kids, NodeOk, Offset, Filled, Laid, FreeList;
    NodeIs(s, x, l, g, node);
    EdgeOf(s.T(), l, g, i);
    var c := SepDown(s.T(), l - 1, Offset(s.file, s.rows[l], g) + i);
  }

  /** A key that is not in the leaf the search ends in is not one of the pairs. */
  lemma KeyMissing(s: State, x: set<nat>, g: nat, node: Block, k: int, i: nat)
    requires s.Treed(x) && s.At(1, g, node) && i <= node.num && Between(s.rows[1], g, k)
    requires (i > 0 ==> i <= |node.slots| && node.slots[i - 1].key < k)
    requires (i < node.num ==> i < |node.slots| && k < node.slots[i].key)
    ensures !Listed(s.rows[0], k) && Between(s.rows[0], Offset(s.file, s.rows[1], g) + i, k)
  {
    hide Kids, NodeOk, Offset, Filled, Laid, FreeList;
    NodeIs(s, x, 1, g, node);
    Descends(s.T(), 1, g, k, i);
    NotBetween(s.rows[0], Offset(s.file, s.rows[1], g) + i, k);
  }

  lemma AtTagged(s: State, l: nat, g: nat, node: Block)
    requires s.Treed({}) && s.At(l, g, node)
    ensures node.self in s.tag && node.use && node.keys
  {
    hide Kids, Laid, FreeList, Filled, Kinds, Offset;
    OkAt(s.T(), l);
    assert NodeAt(s.file, s.tag, s.M, s.rows[l][g].addr, l);
  }

  lemma NotLost(s: State, a: nat)
    requires s.Treed({}) && a in s.tag
    ensures a !in s.lost && s.lost - {a} == s.lost
  {
    hide Kids, NodeOk, Filled, Laid, FreeList;
    assert a in s.lost ==> a in {} + s.lost;
  }

  // ---------- making a block

  /** node_create for a key block. */
  ghost predicate Created(s: State, t: State, y: Block, leaf: bool) {
    && t == s.(file := s.file[y.self := y], size := t.size, free := t.free, fl := t.fl, keyUse := s.keyUse + 1)
    && t.Disk() && y == Made(s.M, y.self, leaf, true) && (y.self in s.file ==> !s.file[y.self].use)
    && t.Sum() == Plus(s.Sum(), Weight(y))
  }

  lemma CreatedOk(s: State, x: set<nat>, t: State, y: Block, leaf: bool)
    requires s.Treed(x) && Created(s, t, y, leaf)
    ensures y.self !in x && t.Treed(x + {y.self}) && SamePairs(s, t) && y.self !in s.tag
  {
    hide Laid, FreeList, Filled, Rooted, Total, Kids, NodeOk, Ascending, IsBlock, Made, Kinds, Kept;
    MadeIs(s.M, y.self, leaf);
    KeyMake(s.file, s.tag, x + s.lost, y.self, y);
    assert x + s.lost + {y.self} == x + {y.self} + s.lost;
    SameTree(s.T(), t.T());
    SameFill(s.T(), t.T());
    assert |x + {y.self}| == |x| + 1;
  }

  /** The new block counts no key, so the totals stay what they should be. */
  lemma CreatedBalanced(s: State, t: State, y: Block, leaf: bool)
    requires s.Balanced(0) && Created(s, t, y, leaf)
    ensures t.Balanced(0)
  {
    hide Laid, FreeList, Total, Made;
    MadeIs(s.M, y.self, leaf);
  }

  lemma CreatedBeside(s: State, x: set<nat>, t: State, y: Block, leaf: bool, l: nat, g: nat, node: Block)
    requires s.Treed(x) && Created(s, t, y, leaf) && s.At(l, g, node)
    ensures t.At(l, g, node) && node.self != y.self
  {
    hide Laid, FreeList, Filled, Rooted, Total, Kids, NodeOk, Ascending, IsBlock, Made;
    NodeIs(s, x, l, g, node);
  }

  lemma SameFill(s: Tree, t: Tree)
    requires s.All() && Filled(s) && Rooted(s) && t.M == s.M && t.tag == s.tag && t.rows == s.rows
    requires forall a :: a in s.tag && a in s.file ==> a in t.file && t.file[a] == s.file[a]
    ensures Filled(t) && Rooted(t)
  {
    hide Kids, NodeOk;
    forall q | 1 <= q < |t.rows| - 1
      ensures FilledRow(t, q)
    {
      assert FilledRow(s, q);
      OkAt(s, q);
      forall i | 0 <= i < |t.rows[q]|
        ensures t.rows[q][i].addr in t.file && t.file[t.rows[q][i].addr].num + 1 >= Half(t.M)
      {
        TagAt(s, q, i);
      }
    }
    OkAt(s, |s.rows| - 1);
    TagAt(s, |s.rows| - 1, 0);
  }

  lemma OnDisk(s: State, x: set<nat>)
    requires s.Treed(x)
    ensures s.Disk() && |s.rows| >= 2 && Ascending(s.rows[0])
  {
  }

  // ---------- splitting

  /** What is known of a full child before its upper half has a block. */
  lemma BeforeSplit(s: State, l: nat, g: nat, i: nat, node0: Block, x0: Block)
    requires s.Treed({}) && s.At(l + 1, g, node0) && l >= 1 && i <= node0.num && i < |node0.slots|
    requires node0.slots[i].child in s.file && s.file[node0.slots[i].child] == x0
    ensures x0.self == node0.slots[i].child && Sized(node0, s.M) && Sized(x0, s.M) && node0.keys && x0.keys
    ensures s.Writable(node0) && s.Writable(x0) && x0.self != node0.self && Place(s.T(), l, g, i) < |s.rows[l]|
    ensures s.At(l, Place(s.T(), l, g, i), x0)
  {
    hide Kids, Offset, Filled, Laid, FreeList, NodeOk;
    InLaid(s, node0.slots[i].child);
    ChildIs(s, {}, l, g, node0, i);
    AtSpot(s.T(), l, g, i);
    NodeIs(s, {}, l + 1, g, node0);
    NodeIs(s, {}, l, Place(s.T(), l, g, i), x0);
  }

  /** The new block is ready to take its half. */
  lemma ReadyToSplit(s: State, t: State, l: nat, g: nat, i: nat, node0: Block, x0: Block, y0: Block)
    requires s.Treed({}) && s.At(l + 1, g, node0) && l >= 1 && i <= node0.num < s.M && i < |node0.slots|
    requires node0.slots[i].child in s.file && s.file[node0.slots[i].child] == x0 && s.M - 1 <= x0.num
    requires Created(s, t, y0, x0.leaf)
    ensures t.Treed({y0.self}) && SamePairs(s, t) && Full(t, l, g, i, node0, x0, y0)
    ensures CanSplit(t.T(), l, g, i, y0, Half(s.M))
    ensures t.Writable(node0) && t.Writable(x0) && t.Writable(y0)
    ensures node0.self != x0.self && node0.self != y0.self && x0.self != y0.self
    ensures Place(t.T(), l, g, i) == Place(s.T(), l, g, i)
  {
    hide Kids, Offset, Filled, Laid, FreeList, NodeOk, State.Treed;
    BeforeSplit(s, l, g, i, node0, x0);
    CreatedOk(s, {}, t, y0, x0.leaf);
    CreatedBeside(s, {}, t, y0, x0.leaf, l + 1, g, node0);
    CreatedBeside(s, {}, t, y0, x0.leaf, l, Place(s.T(), l, g, i), x0);
    assert {} + {y0.self} == {y0.self};
    MadeIs(s.M, y0.self, x0.leaf);
    FullSplits(t, l, g, i, node0, x0, y0);
    StaysPut(s, t, l, g, y0);
  }

  lemma MadeIs(M: nat, a: nat, leaf: bool)
    ensures var y := Made(M, a, leaf, true);
      Sized(y, M) && Barren(y) && y.num == 0 && y.use && y.keys && y.leaf == leaf && |y.bytes| == BLOCK && y.self == a
  {
  }

  /** A new block moves nothing in the rows. */
  lemma StaysPut(s: State, t: State, l: nat, g: nat, y0: Block)
    requires s.Treed({}) && l + 1 < |s.rows| && g <= |s.rows[l + 1]| && t.rows == s.rows
    requires t.file == s.file[y0.self := y0] && (y0.self in s.file ==> !s.file[y0.self].use)
    ensures Offset(t.file, t.rows[l + 1], g) == Offset(s.file, s.rows[l + 1], g)
  {
    hide Kids, Filled, Laid, FreeList;
    OkAt(s.T(), l + 1);
    var R := s.rows[l + 1];
    forall j | 0 <= j < g
      ensures KidsAt(s.file, R[..g][j]) == KidsAt(t.file, R[..g][j])
    {
      RowAt(s.T(), l + 1, j);
    }
    KidsFrame(s.file, t.file, R[..g]);
  }

  /** x0 is the full child i of node0, and y0 a new block for its upper half. */
  ghost predicate Full(s: State, l: nat, g: nat, i: nat, node0: Block, x0: Block, y0: Block) {
    && s.At(l + 1, g, node0) && l >= 1 && i <= node0.num < s.M && Sized(node0, s.M) && node0.slots[i].child == x0.self
    && x0.self in s.file && s.file[x0.self] == x0 && Sized(x0, s.M) && s.M - 1 <= x0.num
    && y0.self in s.file && s.file[y0.self] == y0 && Sized(y0, s.M) && Barren(y0) && y0.num == 0
    && y0.use && y0.keys && y0.leaf == x0.leaf
  }

  lemma FullSplits(s: State, l: nat, g: nat, i: nat, node0: Block, x0: Block, y0: Block)
    requires s.Treed({y0.self}) && Full(s, l, g, i, node0, x0, y0)
    ensures CanSplit(s.T(), l, g, i, y0, Half(s.M)) && s.At(l, Place(s.T(), l, g, i), x0)
    ensures x0.self != node0.self && x0.self != y0.self && y0.self != node0.self && node0.keys && x0.keys
  {
    hide Kids, Offset, Filled, Laid, FreeList;
    ChildIs(s, {y0.self}, l, g, node0, i);
    AtSpot(s.T(), l, g, i);
    NodeIs(s, {y0.self}, l + 1, g, node0);
    NodeIs(s, {y0.self}, l, Place(s.T(), l, g, i), x0);
  }

  /** The three blocks of a split have been written. */
  ghost predicate Splits(s: State, t: State, l: nat, g: nat, i: nat, node0: Block, x0: Block, y0: Block)
    requires Full(s, l, g, i, node0, x0, y0) && CanSplit(s.T(), l, g, i, y0, Half(s.M))
  {
    && t.Disk() && t.T() == SplitTree(s.T(), l, g, i, y0, Half(s.M))
    && t == s.(file := t.file, tag := t.tag, rows := t.rows)
  }

  lemma SplitDone(s: State, t: State, l: nat, g: nat, i: nat, node0: Block, x0: Block, y0: Block)
    requires s.Treed({y0.self}) && Full(s, l, g, i, node0, x0, y0) && CanSplit(s.T(), l, g, i, y0, Half(s.M))
    requires Splits(s, t, l, g, i, node0, x0, y0)
    ensures t.Treed({}) && SamePairs(s, t)
    ensures |t.rows| == |s.rows| && t.rows[l + 1] == s.rows[l + 1]
    ensures Place(t.T(), l, g, i) == Place(s.T(), l, g, i)
  {
    hide Kids, KidsAt, NodeOk, Offset, Filled, Laid, FreeList, Total, SplitUp, SplitOff, RowOk, ValuesIn, Ascending,
         FilledRow, Kinds, Kept;
    assert {} + s.lost == s.lost;
    FullSplits(s, l, g, i, node0, x0, y0);
    NodeIs(s, {y0.self}, l + 1, g, node0);
    NodeIs(s, {y0.self}, l, Place(s.T(), l, g, i), x0);
    SplitOk(s.T(), l, g, i, y0, Half(s.M));
    SplitFilled(s.T(), l, g, i, y0, Half(s.M));
    SplitShapes(s.T(), l, node0, i, x0, y0, Half(s.M));
    NodesChange(s.rows, l, t.rows[l]);
    NodeFacts(SplitUp(node0, i, x0, y0, Half(s.M)), s.M, node0.self, l + 1);
    NodeFacts(SplitOff(x0, y0, Half(s.M)), s.M, y0.self, l);
    SplitKinds(s, l, g, i, node0, x0, y0);
  }

  lemma SplitKinds(s: State, l: nat, g: nat, i: nat, node0: Block, x0: Block, y0: Block)
    requires s.Treed({y0.self}) && Full(s, l, g, i, node0, x0, y0) && CanSplit(s.T(), l, g, i, y0, Half(s.M))
    ensures var t := SplitTree(s.T(), l, g, i, y0, Half(s.M)); Kinds(t.file, t.tag, s.lost) && Kept(s.file, t.file)
  {
    hide Kids, KidsAt, Offset, Filled, Laid, FreeList, CopySlots, RowOk, Ascending, Barren, Kinds, Kept, Place;
    FullSplits(s, l, g, i, node0, x0, y0);
    NodeIs(s, {y0.self}, l + 1, g, node0);
    NodeIs(s, {y0.self}, l, Place(s.T(), l, g, i), x0);
    ThreeKinds(s.file, s.tag, {y0.self} + s.lost, node0.self, SplitUp(node0, i, x0, y0, Half(s.M)), x0.self,
               x0.(num := Half(s.M)), y0.self, SplitOff(x0, y0, Half(s.M)), l);
    assert {y0.self} + s.lost - {y0.self} == s.lost;
  }

  /** Three key blocks written, the last of which enters the tree. */
  lemma ThreeKinds(f: map<nat, Block>, tag: map<nat, nat>, x: set<nat>, a: nat, p: Block, b: nat, q: Block, c: nat,
                   r: Block, l: nat)
    requires Kinds(f, tag, x) && p.use && p.keys && q.use && q.keys && r.use && r.keys
    requires (a in tag || a in x) && (b in tag || b in x) && (c in tag || c in x)
    ensures Kinds(f[a := p][b := q][c := r], tag[c := l], x - {c}) && Kept(f, f[a := p][b := q][c := r])
  {
    hide Kinds, Kept;
    KeyWrite(f, tag, x, a, p);
    KeyWrite(f[a := p], tag, x, b, q);
    KeyWrite(f[a := p][b := q], tag, x, c, r);
    KeyEnter(f[a := p][b := q][c := r], tag, x, c, l);
    KeptTrans(f, f[a := p], f[a := p][b := q]);
    KeptTrans(f, f[a := p][b := q], f[a := p][b := q][c := r]);
  }

  /** No key is lost or gained, and one block more is in use. */
  lemma SplitWeighs(s: State, l: nat, g: nat, i: nat, node0: Block, x0: Block, y0: Block, sum: Tally)
    requires s.Treed({y0.self}) && Full(s, l, g, i, node0, x0, y0)
    ensures Plus(Minus(sum, Plus(Weight(node0), Plus(Weight(x0), Weight(y0)))),
                 Plus(Weight(SplitUp(node0, i, x0, y0, Half(s.M))),
                      Plus(Weight(x0.(num := Half(s.M))), Weight(SplitOff(x0, y0, Half(s.M)))))) == sum
  {
    hide Kids, KidsAt, Offset, Filled, Laid, FreeList, CopySlots, RowOk, Ascending, Barren, Total;
    FullSplits(s, l, g, i, node0, x0, y0);
    NodeIs(s, {y0.self}, l + 1, g, node0);
    NodeIs(s, {y0.self}, l, Place(s.T(), l, g, i), x0);
  }

  /** Where the search goes on after a split. */
  lemma SplitRoutes(s: State, t: State, l: nat, g: nat, i: nat, node0: Block, x0: Block, y0: Block, k: int)
    requires s.Treed({y0.self}) && Full(s, l, g, i, node0, x0, y0) && CanSplit(s.T(), l, g, i, y0, Half(s.M))
    requires Splits(s, t, l, g, i, node0, x0, y0) && Between(s.rows[l], Place(s.T(), l, g, i), k)
    ensures var c, n := Place(s.T(), l, g, i), Half(s.M);
      && t.At(l + 1, g, SplitUp(node0, i, x0, y0, n)) && t.At(l, c, x0.(num := n)) &&
          t.At(l, c + 1, SplitOff(x0, y0, n))
      && SplitUp(node0, i, x0, y0, n).slots[i].key == x0.slots[n].key &&
          SplitUp(node0, i, x0, y0, n).num == node0.num + 1
      && (k < x0.slots[n].key ==> Between(t.rows[l], c, k))
      && (x0.slots[n].key < k ==> Between(t.rows[l], c + 1, k))
  {
    hide Kids, KidsAt, NodeOk, Offset, Filled, Laid, FreeList, RowOk, ValuesIn, Ascending, CopySlots;
    FullSplits(s, l, g, i, node0, x0, y0);
    var c, n := Place(s.T(), l, g, i), Half(s.M);
    var W := [Edge(x0.self, PairOf(x0.slots[n])), Edge(y0.self, s.rows[l][c].sep)];
    assert t.rows[l] == Replaced(s.rows[l], c, 1, W);
    Around(s.rows[l], c, W);
  }

  /** The tree after a split, block by block. */
  lemma SplitTreeIs(s: State, l: nat, g: nat, i: nat, node0: Block, x0: Block, y0: Block)
    requires Full(s, l, g, i, node0, x0, y0) && CanSplit(s.T(), l, g, i, y0, Half(s.M))
    ensures var t, n := SplitTree(s.T(), l, g, i, y0, Half(s.M)), Half(s.M);
      && t.M == s.M && |t.rows| == |s.rows|
      && t.file ==
          s.file[node0.self := SplitUp(node0, i, x0, y0, n)][x0.self := x0.(num := n)][y0.self := SplitOff(x0, y0, n)]
    ensures i < |SplitUp(node0, i, x0, y0, Half(s.M)).slots| && SplitUp(node0, i, x0, y0, Half(s.M)).self == node0.self
    ensures SplitOff(x0, y0, Half(s.M)).self == y0.self
  {
  }

  lemma SplitSizes(s: State, l: nat, g: nat, i: nat, node0: Block, x0: Block, y0: Block)
    requires Full(s, l, g, i, node0, x0, y0) && s.M >= 5
    ensures Half(s.M) < s.M - 1 && SplitOff(x0, y0, Half(s.M)).num < s.M - 1
    ensures i < |SplitUp(node0, i, x0, y0, Half(s.M)).slots| && i < SplitUp(node0, i, x0, y0, Half(s.M)).num
  {
  }

  lemma Around(R: seq<Edge>, c: nat, W: seq<Edge>)
    requires c < |R| && |W| == 2
    ensures var S := Replaced(R, c, 1, W);
      |S| == |R| + 1 && S[c] == W[0] && S[c + 1] == W[1] && (c > 0 ==> S[c - 1] == R[c - 1])
  {
  }

  // ---------- a new level

  /** x holds what the full root held, the root r is emptied to hang x on, and y0 is a new block for x's upper half. */
  ghost predicate Lifts(s: State, x: Block, r: Block, y0: Block) {
    && s.Treed({x.self, y0.self}) && x.self != y0.self && ROOT in s.file && |s.file[ROOT].slots| > 0
    && var root := s.file[ROOT];
       && s.M - 1 <= root.num && x.num == root.num && x.slots == root.slots && x.leaf == root.leaf && x.use && x.keys
       && r == root.(num := 0, leaf := false, slots := SetChild(root.slots, 0, x.self))
       && Sized(y0, s.M) && Barren(y0) && y0.num == 0 && y0.use && y0.keys && y0.leaf == root.leaf
  }

  /** The tree with the root's content moved down. */
  ghost function LiftedOf(s: State, x: Block, r: Block): Tree
    requires |s.rows| >= 2
  {
    LiftTree(s.T(), x, r)
  }

  ghost predicate CanLift(s: State, x: Block, r: Block, y0: Block) {
    s.M >= 5 && |s.rows| >= 2 && CanSplit(LiftedOf(s, x, r), |s.rows| - 1, 0, 0, y0, Half(s.M))
  }

  /** The tree with the root's content moved down and split. */
  ghost function Lifted(s: State, x: Block, r: Block, y0: Block): Tree
    requires CanLift(s, x, r, y0)
  {
    SplitTree(LiftedOf(s, x, r), |s.rows| - 1, 0, 0, y0, Half(s.M))
  }

  lemma LiftIs(s: State, x: Block, r: Block, y0: Block)
    requires Lifts(s, x, r, y0)
    ensures |s.rows| >= 2 && LiftedOf(s, x, r).All() && Filled(LiftedOf(s, x, r))
    ensures CanLift(s, x, r, y0)
    ensures ROOT != x.self && ROOT != y0.self && s.file[ROOT].use && s.file[ROOT].keys && r.self == ROOT
    ensures NodeOk(r, s.M, ROOT, |s.rows|) && NodeOk(x, s.M, x.self, |s.rows| - 1)
  {
    hide Kids, KidsAt, Offset, Laid, FreeList, RowOk, Ascending;
    var xs := {x.self, y0.self};
    var root, top := s.file[ROOT], |s.rows| - 1;
    RootAt(s, xs, 0);
    NodeIs(s, xs, top, 0, root);
    LiftOk(s.T(), x, r);
    var t := LiftedOf(s, x, r);
    LiftFilled(s.T(), x, r);
    LiftSpot(s, x, r);
  }

  lemma LiftFilled(s: Tree, x: Block, r: Block)
    requires s.All() && Filled(s) && LiftTree(s, x, r).All() && x.self !in s.tag && x.num + 1 >= Half(s.M)
    requires ROOT in s.tag && s.tag[ROOT] == |s.rows| - 1
    ensures Filled(LiftTree(s, x, r))
  {
    hide Kids, NodeOk;
    var t := LiftTree(s, x, r);
    forall q | 1 <= q < |t.rows| - 1
      ensures FilledRow(t, q)
    {
      if q < |s.rows| - 1 {
        assert FilledRow(s, q);
        OkAt(s, q);
        forall i | 0 <= i < |s.rows[q]|
          ensures s.rows[q][i].addr != ROOT && s.rows[q][i].addr != x.self
        {
          TagAt(s, q, i);
        }
      }
    }
  }

  lemma LiftSpot(s: State, x: Block, r: Block)
    requires |s.rows| >= 2 && LiftedOf(s, x, r).All() && x.self != ROOT
    requires r.num == 0 && Sized(r, s.M) && r.slots[0].child == x.self
    ensures Spot(LiftedOf(s, x, r), |s.rows| - 1, 0, 0) && ParentOf(LiftedOf(s, x, r), |s.rows| - 1, 0) == r
    ensures Place(LiftedOf(s, x, r), |s.rows| - 1, 0, 0) == 0
  {
    StartsAtZero(LiftedOf(s, x, r).file, LiftedOf(s, x, r).rows[|s.rows|]);
  }

  lemma LiftDone(s: State, t: State, x: Block, r: Block, y0: Block)
    requires Lifts(s, x, r, y0) && CanLift(s, x, r, y0)
    requires t.Disk() && t.T() == Lifted(s, x, r, y0)
    requires t == s.(file := t.file, tag := t.tag, rows := t.rows)
    ensures t.Treed({}) && SamePairs(s, t) && |t.rows| == |s.rows| + 1
    ensures var p, n := SplitUp(r, 0, x, y0, Half(s.M)), Half(s.M);
      t.At(|s.rows|, 0, p) && p.num == 1 && p.self == ROOT
  {
    hide Kids, KidsAt, NodeOk, Offset, Filled, Laid, FreeList, Total, RowOk, ValuesIn, Ascending, FilledRow, CopySlots,
         LiftTree, Kinds, Kept;
    assert {} + s.lost == s.lost;
    LiftIs(s, x, r, y0);
    var u, top, n := LiftedOf(s, x, r), |s.rows| - 1, Half(s.M);
    NodeFacts(r, s.M, ROOT, |s.rows|);
    NodeFacts(x, s.M, x.self, top);
    LiftSpot(s, x, r);
    LiftFile(s, x, r);
    SplitOk(u, top, 0, 0, y0, n);
    SplitFilled(u, top, 0, 0, y0, n);
    SplitShapes(u, top, r, 0, x, y0, n);
    LiftNodes(s, t, x, r, y0);
    LiftKept(s, x, r, y0);
  }

  lemma LiftFile(s: State, x: Block, r: Block)
    requires |s.rows| >= 2 && x.self != ROOT
    ensures var u, top := LiftedOf(s, x, r), |s.rows| - 1;
      && u.M == s.M && u.file == s.file[ROOT := r][x.self := x] && u.file[x.self] == x && u.file[ROOT] == r
      && |u.rows| == top + 2 && u.rows[top + 1] == [Edge(ROOT, End)] && u.rows[top] == [Edge(x.self, End)]
      && (0 < top ==> u.rows[0] == s.rows[0])
  {
  }

  /** The blocks after the split of a lifted root. */
  lemma LiftSplitFile(s: State, x: Block, r: Block, y0: Block)
    requires CanLift(s, x, r, y0) && x.self != ROOT
    requires Sized(r, s.M) && r.slots[0].child == x.self && r.num == 0
    ensures var t, n := Lifted(s, x, r, y0), Half(s.M);
      && t.M == s.M
      && t.file == s.file[ROOT := SplitUp(r, 0, x, y0, n)][x.self := x.(num := n)][y0.self := SplitOff(x, y0, n)]
  {
    hide SplitUp, SplitOff, Replaced, LiftTree, Offset;
    LiftFile(s, x, r);
  }

  lemma LiftNodes(s: State, t: State, x: Block, r: Block, y0: Block)
    requires CanLift(s, x, r, y0)
    requires s.rows[|s.rows| - 1] == [Edge(ROOT, End)] && Place(LiftedOf(s, x, r), |s.rows| - 1, 0, 0) == 0
    requires t.rows == Lifted(s, x, r, y0).rows
    ensures Nodes(t.rows) == Nodes(s.rows) + 2 && |t.rows| == |s.rows| + 1
  {
    hide Kids, Offset, NodeOk, RowOk, SplitUp, SplitOff, Barren, Nodes;
    var u, top := LiftedOf(s, x, r), |s.rows| - 1;
    NodesChange(s.rows, top, [Edge(x.self, End)]);
    NodesMore(s.rows[top := [Edge(x.self, End)]], [Edge(ROOT, End)]);
    NodesChange(u.rows, top, t.rows[top]);
  }

  lemma LiftTags(s: State, x: Block, r: Block, y0: Block)
    requires CanLift(s, x, r, y0)
    ensures var top := |s.rows| - 1;
      Lifted(s, x, r, y0).tag == s.tag[x.self := top][ROOT := top + 1][y0.self := top]
  {
    hide SplitUp, SplitOff, Replaced, Offset;
  }

  lemma RootTagged(s: State, x: set<nat>)
    requires s.Treed(x)
    ensures ROOT in s.tag && ROOT !in s.lost
  {
    hide Kids, NodeOk, Filled;
    var top := |s.rows| - 1;
    OkAt(s.T(), top);
    assert NodeAt(s.file, s.tag, s.M, s.rows[top][0].addr, top);
    assert ROOT in s.lost ==> ROOT in x + s.lost;
  }

  lemma WithoutThree(a: nat, b: nat, c: nat, lost: set<nat>)
    requires a !in lost && b !in lost && c !in lost
    ensures {a, b} + lost - {a} - {c} - {b} == lost
  {
  }

  lemma LiftKept(s: State, x: Block, r: Block, y0: Block)
    requires Lifts(s, x, r, y0) && CanLift(s, x, r, y0)
    ensures var t := Lifted(s, x, r, y0);
      Kept(s.file, t.file) && Kinds(t.file, t.tag, s.lost)
  {
    hide Kids, KidsAt, Offset, Filled, Laid, FreeList, Total, RowOk, ValuesIn, Ascending, CopySlots, Barren,
         IsBlock, Replaced, Kinds, Kept, CanSplit, SplitTree, LiftTree;
    LiftIs(s, x, r, y0);
    var top, n := |s.rows| - 1, Half(s.M);
    LiftSplitFile(s, x, r, y0);
    LiftTags(s, x, r, y0);
    SplitNums(r, x, y0, s.M);
    var xs := {x.self, y0.self} + s.lost;
    RootTagged(s, {x.self, y0.self});
    KeyEnter(s.file, s.tag, xs, x.self, top);
    KeyEnter(s.file, s.tag[x.self := top], xs - {x.self}, ROOT, top + 1);
    ThreeKinds(s.file, s.tag[x.self := top][ROOT := top + 1], xs - {x.self} - {ROOT}, ROOT, SplitUp(r, 0, x, y0, n),
               x.self, x.(num := n), y0.self, SplitOff(x, y0, n), top);
    assert x.self in {x.self, y0.self} && y0.self in {x.self, y0.self};
    WithoutThree(x.self, y0.self, ROOT, s.lost);
  }

  /** The first of the two blocks for a full root was made, the second was not: the first is lost. */
  lemma LostOne(s0: State, s1: State, s: State, x0: Block)
    requires s0.Treed({}) && s0.Balanced(0) && ROOT in s0.file && Created(s0, s1, x0, s0.file[ROOT].leaf)
    requires s == s1.(lost := s1.lost + {x0.self})
    ensures s.Treed({}) && s.Balanced(0) && SamePairs(s0, s) && x0.self !in s0.lost && |s.lost| == |s0.lost| + 1
  {
    hide Kids, NodeOk, Offset, Filled, Rooted, Laid, FreeList, Made, IsBlock, Kept, Kinds, Total;
    CreatedOk(s0, {}, s1, x0, s0.file[ROOT].leaf);
    MadeIs(s0.M, x0.self, s0.file[ROOT].leaf);
    assert {} + {x0.self} + s1.lost == {} + s.lost;
  }

  /** The two new blocks of a full root are ready. */
  lemma ReadyToLift(s0: State, s1: State, s: State, x0: Block, y0: Block)
    requires s0.Treed({}) && ROOT in s0.file
    requires Created(s0, s1, x0, s0.file[ROOT].leaf) && Created(s1, s, y0, s0.file[ROOT].leaf)
    ensures s.Treed({x0.self, y0.self}) && SamePairs(s0, s) && s.rows == s0.rows && |s.rows| >= 2
    ensures s.file[ROOT] == s0.file[ROOT] && s.file[x0.self] == x0 && s.file[y0.self] == y0
    ensures s.Writable(s.file[ROOT]) && s.Writable(x0) && s.Writable(y0)
    ensures ROOT != x0.self && ROOT != y0.self && x0.self != y0.self
  {
    hide Kids, NodeOk, Offset, Filled, Laid, FreeList, State.Treed, State.Sum, Made, IsBlock, Kept;
    var leaf, top := s0.file[ROOT].leaf, |s0.rows| - 1;
    OnDisk(s0, {});
    RootAt(s0, {}, 0);
    NodeIs(s0, {}, top, 0, s0.file[ROOT]);
    CreatedOk(s0, {}, s1, x0, leaf);
    CreatedBeside(s0, {}, s1, x0, leaf, top, 0, s0.file[ROOT]);
    assert {} + {x0.self} == {x0.self};
    CreatedOk(s1, {x0.self}, s, y0, leaf);
    CreatedBeside(s1, {x0.self}, s, y0, leaf, top, 0, s0.file[ROOT]);
    assert {x0.self} + {y0.self} == {x0.self, y0.self};
    SamePairsTrans(s0, s1, s);
    MadeIs(s.M, x0.self, leaf);
    MadeIs(s.M, y0.self, leaf);
  }

  lemma LiftReady(s: State, x0: Block, y0: Block, x: Block, r: Block)
    requires s.Treed({x0.self, y0.self}) && ROOT in s.file && s.M - 1 <= s.file[ROOT].num && x0.self != y0.self
    requires var root := s.file[ROOT];
      && x0 == Made(s.M, x0.self, root.leaf, true) && y0 == Made(s.M, y0.self, root.leaf, true) && |root.slots| > 0
      && x == x0.(num := root.num, slots := root.slots, bytes := root.bytes)
      && r == root.(num := 0, leaf := false, slots := SetChild(root.slots, 0, x0.self))
    ensures Lifts(s, x, r, y0) && CanLift(s, x, r, y0)
    ensures Sized(r, s.M) && Sized(x, s.M) && Sized(y0, s.M) && r.self == ROOT && s.file[ROOT].use && s.file[ROOT].keys
    ensures r.use && r.keys && r.num == 0 && x.use && x.keys && y0.use && y0.keys && y0.num == 0 && Half(s.M) < x.num
    ensures r.bytes == s.file[ROOT].bytes && x.bytes == s.file[ROOT].bytes && |y0.bytes| == BLOCK
    ensures x0.use && x0.keys && x0.num == 0
  {
    hide Kids, NodeOk, Offset, Filled, Laid, FreeList, State.Treed, Made, IsBlock;
    MadeIs(s.M, x0.self, s.file[ROOT].leaf);
    MadeIs(s.M, y0.self, s.file[ROOT].leaf);
    LiftIs(s, x, r, y0);
    NodeFacts(r, s.M, ROOT, |s.rows|);
    NodeFacts(x, s.M, x.self, |s.rows| - 1);
  }

  /** Three key blocks in use in place of three others, with the same number of keys in all. */
  lemma SameWeight(a: Block, b: Block, c: Block, a': Block, b': Block, c': Block, sum: Tally)
    requires a.use && a.keys && b.use && b.keys && c.use && c.keys
    requires a'.use && a'.keys && b'.use && b'.keys && c'.use && c'.keys
    requires a.num + b.num + c.num == a'.num + b'.num + c'.num
    ensures Plus(Minus(sum, Plus(Weight(a), Plus(Weight(b), Weight(c)))),
                 Plus(Weight(a'), Plus(Weight(b'), Weight(c')))) == sum
  {
  }

  lemma SplitNums(p: Block, x: Block, y: Block, M: nat)
    requires M >= 5 && Sized(p, M) && Sized(x, M) && Sized(y, M) && p.num < M && M - 1 <= x.num
    ensures var n := Half(M);
      && SplitUp(p, 0, x, y, n).num == p.num + 1 && SplitOff(x, y, n).num == x.num - n - 1
      && SplitUp(p, 0, x, y, n).use == p.use && SplitUp(p, 0, x, y, n).keys == p.keys
      && SplitOff(x, y, n).use == y.use && SplitOff(x, y, n).keys == y.keys && SplitUp(p, 0, x, y, n).self == p.self
      && SplitOff(x, y, n).self == y.self
  {
    hide CopySlots;
  }
}
