/**
The steps of a deletion in the file database on its way down: a child that could lose no key is given one by a
neighbour or merged with it, and a root left without keys is replaced by its only child.
*/
module FileShrink {
  import opened FileRows
  import opened FileBlocks
  import opened FileSteps
  import opened FileMoves
  import opened FileEdits
  import opened FileDisk
  import opened FileState

  /** A key of a node is less than the separator to its right and greater than the one to its left. */
  lemma KeyInside(s: State, x: set<nat>, l: nat, g: nat, node: Block, j: nat)
    requires s.Treed(x) && s.At(l, g, node) && j < node.num
    ensures j < |node.slots| && Less(PairOf(node.slots[j]), s.rows[l][g].sep)
    ensures g > 0 ==> Less(s.rows[l][g - 1].sep, PairOf(node.slots[j]))
  {
    hide Kids, KidsAt, NodeOk, Offset, Filled, Laid, FreeList;
    NodeIs(s, x, l, g, node);
    RowAscends(s.T(), l - 1);
    EdgeOf(s.T(), l, g, j);
    LastEdge(s.T(), l, g);
    EdgeOf(s.T(), l, g, node.num);
    if g > 0 { LastEdge(s.T(), l, g - 1); }
    OffsetSum(s.T(), l, g, node);
  }

  lemma OffsetSum(s: Tree, l: nat, g: nat, node: Block)
    requires s.All() && 1 <= l < |s.rows| && g < |s.rows[l]|
    requires s.rows[l][g].addr in s.file && s.file[s.rows[l][g].addr] == node
    ensures Offset(s.file, s.rows[l], g + 1) == Offset(s.file, s.rows[l], g) + node.num + 1
  {
    hide Kids, KidsAt, NodeOk, Offset;
    OkAt(s, l);
    RowAt(s, l, g);
    KidsFocus(s.file, s.rows[l], g);
  }

  // ---------- two neighbouring children

  /** x and y are the children i and i + 1 of node. */
  ghost predicate Pairing(s: State, l: nat, g: nat, i: nat, node: Block, x: Block, y: Block) {
    && s.At(l + 1, g, node) && l >= 1 && i < node.num && Sized(node, s.M)
    && node.slots[i].child == x.self && node.slots[i + 1].child == y.self
    && x.self in s.file && s.file[x.self] == x && y.self in s.file && s.file[y.self] == y
  }

  lemma PairingIs(s: State, l: nat, g: nat, i: nat, node: Block, x: Block, y: Block)
    requires s.Treed({}) && Pairing(s, l, g, i, node, x, y)
    ensures var c := Place(s.T(), l, g, i);
      && Spot(s.T(), l, g, i) && Spot(s.T(), l, g, i + 1) && Place(s.T(), l, g, i + 1) == c + 1
      && s.At(l, c, x) && s.At(l, c + 1, y) && s.rows[l][c].sep == PairOf(node.slots[i])
    ensures NodeOk(node, s.M, node.self, l + 1) && NodeOk(x, s.M, x.self, l) && NodeOk(y, s.M, y.self, l)
    ensures s.Writable(node) && s.Writable(x) && s.Writable(y) && node.keys && x.keys && y.keys
    ensures node.self != x.self && node.self != y.self && x.self != y.self && Sized(x, s.M) && Sized(y, s.M)
    ensures node.self in s.tag && x.self in s.tag && y.self in s.tag
    ensures s.tag[node.self] == l + 1 && s.tag[x.self] == l && s.tag[y.self] == l
  {
    hide Kids, KidsAt, NodeOk, Offset, Filled, Laid, FreeList;
    ChildIs(s, {}, l, g, node, i);
    ChildIs(s, {}, l, g, node, i + 1);
    NodeIs(s, {}, l + 1, g, node);
    NodeIs(s, {}, l, Place(s.T(), l, g, i), x);
    NodeIs(s, {}, l, Place(s.T(), l, g, i + 1), y);
    FileMoves.Apart(s.T(), l, g, i);
    NodeFacts(x, s.M, x.self, l);
    NodeFacts(y, s.M, y.self, l);
  }

  /** What a move on the children of a node leaves alone above it. */
  ghost predicate Above(s: State, t: State, l: nat) {
    && |t.rows| == |s.rows| && (forall q :: l < q < |s.rows| ==> t.rows[q] == s.rows[q])
    && forall a :: a in s.tag && a in s.file && s.tag[a] > l + 1 ==> a in t.file && t.file[a] == s.file[a]
  }

  lemma StillAt(s: State, t: State, l: nat, q: nat, h: nat, b: Block)
    requires s.Treed({}) && Above(s, t, l) && q > l + 1 && s.At(q, h, b)
    ensures t.At(q, h, b)
  {
    hide Kids, NodeOk, Filled, Laid, FreeList;
    NodeIs(s, {}, q, h, b);
  }

  // ---------- a key moves

  /** x' and y' have been written in place of x and y, with from's pair between them in the node. */
  ghost predicate Shares(s: State, t: State, l: nat, g: nat, i: nat, x': Block, y': Block, from: Slot)
    requires CanShare(s.T(), l, g, i, x', y', from)
  {
    t.Disk() && t.T() == ShareTree(s.T(), l, g, i, x', y', from) &&
        t == s.(file := t.file, tag := t.tag, rows := t.rows)
  }

  lemma ShareDone(s: State, t: State, l: nat, g: nat, i: nat, node: Block, x: Block, y: Block, x': Block, y': Block,
                  from: Slot)
    requires s.Treed({}) && Pairing(s, l, g, i, node, x, y) && CanShare(s.T(), l, g, i, x', y', from)
    requires Shares(s, t, l, g, i, x', y', from) && x'.num + 1 >= Half(s.M) && y'.num + 1 >= Half(s.M)
    ensures t.Treed({}) && SamePairs(s, t)
  {
    hide Kids, KidsAt, NodeOk, Offset, Filled, Laid, FreeList, RowOk, ValuesIn, Ascending, FilledRow, SetKey, Kinds,
         Kept, Rooted;
    PairingIs(s, l, g, i, node, x, y);
    ShareOk(s.T(), l, g, i, x', y', from);
    ShareFilled(s.T(), l, g, i, x', y', from);
    NodeFacts(x', s.M, x.self, l);
    NodeFacts(y', s.M, y.self, l);
    SharedSelf(x', y', s.M, x.self, y.self, l);
    var c := Place(s.T(), l, g, i);
    ShareRow(s.rows[l], c, [Edge(x.self, PairOf(from)), Edge(y.self, s.rows[l][c + 1].sep)]);
    NodesChange(s.rows, l, t.rows[l]);
    PairingTagged(s, l, g, i, node, x, y);
    SlotReplaced(node, i, from);
    ThreeKinds(s.file, s.tag, s.lost, node.self, ReKey(node, i, from), x.self, x', y.self, y', s.tag[y.self]);
    NotLost(s, y.self);
    assert {} + s.lost == s.lost && s.tag[y.self := s.tag[y.self]] == s.tag;
  }

  lemma SlotReplaced(b: Block, i: nat, from: Slot)
    requires i < |b.slots|
    ensures ReKey(b, i, from).use == b.use && ReKey(b, i, from).keys == b.keys
  {
  }

  /** Where the blocks are after a key has moved. */
  lemma SharePlaces(s: State, t: State, l: nat, g: nat, i: nat, node: Block, x: Block, y: Block, x': Block, y': Block,
                    from: Slot)
    requires s.Treed({}) && Pairing(s, l, g, i, node, x, y) && CanShare(s.T(), l, g, i, x', y', from)
    requires Shares(s, t, l, g, i, x', y', from)
    ensures Above(s, t, l)
    ensures var c := Place(s.T(), l, g, i);
      && t.At(l, c, x') && t.At(l, c + 1, y') && t.At(l + 1, g, ReKey(node, i, from))
      && t.rows[l][c].sep == PairOf(from) && t.rows[l][c + 1].sep == s.rows[l][c + 1].sep
      && (c > 0 ==> t.rows[l][c - 1] == s.rows[l][c - 1])
  {
    hide Kids, KidsAt, NodeOk, Offset, Filled, Laid, FreeList, RowOk, ValuesIn, Ascending, FilledRow, SetKey, Rooted,
         Kinds;
    PairingIs(s, l, g, i, node, x, y);
    SharedSelf(x', y', s.M, x.self, y.self, l);
    var c := Place(s.T(), l, g, i);
    ShareRow(s.rows[l], c, [Edge(x.self, PairOf(from)), Edge(y.self, s.rows[l][c + 1].sep)]);
  }

  lemma SharedSelf(x: Block, y: Block, M: nat, xa: nat, ya: nat, l: nat)
    requires NodeOk(x, M, xa, l) && NodeOk(y, M, ya, l)
    ensures x.self == xa && y.self == ya
  {
  }

  lemma ShareRow(R: seq<Edge>, c: nat, W: seq<Edge>)
    requires c + 2 <= |R| && |W| == 2
    ensures var S := Replaced(R, c, 2, W);
      |S| == |R| && S[c] == W[0] && S[c + 1] == W[1] && (c > 0 ==> S[c - 1] == R[c - 1])
  {
  }

  /** The tree after a key has moved, block by block. */
  lemma ShareTreeIs(s: State, l: nat, g: nat, i: nat, node: Block, x: Block, y: Block, x': Block, y': Block, from: Slot)
    requires s.Treed({}) && Pairing(s, l, g, i, node, x, y) && CanShare(s.T(), l, g, i, x', y', from)
    ensures var t := ShareTree(s.T(), l, g, i, x', y', from);
      && t.M == s.M && t.tag == s.tag
      && t.file == s.file[node.self := ReKey(node, i, from)][x.self := x'][y.self := y']
      && t.file == s.file[node.self := ReKey(node, i, from)][y.self := y'][x.self := x']
  {
    hide Kids, KidsAt, NodeOk, Offset, Filled, Laid, FreeList, ReKey;
    PairingIs(s, l, g, i, node, x, y);
  }

  /** Two neighbours are full enough, and the node between has room for neither more nor fewer keys. */
  lemma NeighbourSizes(s: State, l: nat, g: nat, i: nat, node: Block, x: Block, y: Block)
    requires s.Treed({}) && Pairing(s, l, g, i, node, x, y)
    ensures Half(s.M) >= 2 && x.num + 1 >= Half(s.M) && y.num + 1 >= Half(s.M) && Half(s.M) * 2 + 1 <= s.M
    ensures |x.slots| == s.M + 1 && |y.slots| == s.M + 1 && |node.slots| == s.M + 1
    ensures node.use && x.use && y.use && node.num <= s.M && x.num <= s.M && y.num <= s.M
    ensures l + 1 < |s.rows| - 1 ==> node.self != ROOT
  {
    hide Kids, KidsAt, NodeOk, Offset, Laid, FreeList;
    PairingIs(s, l, g, i, node, x, y);
    NodeIs(s, {}, l + 1, g, node);
    NodeIs(s, {}, l, Place(s.T(), l, g, i), x);
    NodeIs(s, {}, l, Place(s.T(), l, g, i + 1), y);
  }

  /** The three blocks are nodes of the tree. */
  lemma PairingTagged(s: State, l: nat, g: nat, i: nat, node: Block, x: Block, y: Block)
    requires s.Treed({}) && Pairing(s, l, g, i, node, x, y)
    ensures node.self in s.tag && x.self in s.tag && y.self in s.tag
    ensures node.use && node.keys && x.use && x.keys && y.use && y.keys
  {
    hide Kids, KidsAt, Offset, Laid, FreeList;
    PairingIs(s, l, g, i, node, x, y);
    AtTagged(s, l + 1, g, node);
    AtTagged(s, l, Place(s.T(), l, g, i), x);
    AtTagged(s, l, Place(s.T(), l, g, i + 1), y);
  }

  // ---------- two children become one

  /** The node and x' have been written, and y's block is free. */
  ghost predicate Merges(s: State, t: State, l: nat, g: nat, i: nat, y: Block)
    requires CanMerge(s.T(), l, g, i)
  {
    && t.Disk() && s.keyUse > 0 && t.tag == MergeTree(s.T(), l, g, i).tag && t.rows == MergeTree(s.T(), l, g, i).rows
    && t == s.(file := t.file, tag := t.tag, rows := t.rows, free := t.free, fl := t.fl, keyUse := s.keyUse - 1)
    && y.self in t.file && !t.file[y.self].use
    && t.file == MergeTree(s.T(), l, g, i).file[y.self := t.file[y.self]]
  }

  lemma CanMergeNow(s: State, l: nat, g: nat, i: nat, node: Block, x: Block, y: Block)
    requires s.Treed({}) && Pairing(s, l, g, i, node, x, y) && x.num + 1 + y.num <= s.M
    ensures CanMerge(s.T(), l, g, i) && s.keyUse >= 2
  {
    hide Kids, KidsAt, NodeOk, Offset, Filled, Laid, FreeList, RowOk, Ascending;
    PairingIs(s, l, g, i, node, x, y);
    NodesTwo(s.rows, l, s.rows[l]);
  }

  lemma {:induction false} NodesTwo(rows: seq<seq<Edge>>, l: nat, R: seq<Edge>)
    requires 1 <= l < |rows| && R == rows[l]
    ensures Nodes(rows) >= |R|
    decreases |rows|
  {
    if l < |rows| - 1 { NodesTwo(rows[..|rows| - 1], l, R); }
  }

  lemma MergeDone(s: State, t: State, l: nat, g: nat, i: nat, node: Block, x: Block, y: Block)
    requires s.Treed({}) && Pairing(s, l, g, i, node, x, y) && CanMerge(s.T(), l, g, i) && Merges(s, t, l, g, i, y)
    requires node.num >= 2 && (l + 1 < |s.rows| - 1 ==> node.num >= Half(s.M))
    ensures t.Treed({}) && SamePairs(s, t)
  {
    hide Kids, KidsAt, NodeOk, Offset, Filled, Laid, FreeList, RowOk, ValuesIn, Ascending, FilledRow, MergeInto,
         MergeOut, Kinds, Kept;
    assert {} + s.lost == s.lost;
    PairingIs(s, l, g, i, node, x, y);
    MergeOk(s.T(), l, g, i);
    MergeFilled(s.T(), l, g, i);
    MergedRow(s.rows[l], Place(s.T(), l, g, i), [Edge(x.self, s.rows[l][Place(s.T(), l, g, i) + 1].sep)]);
    NodesChange(s.rows, l, t.rows[l]);
    SameTree(MergeTree(s.T(), l, g, i), t.T());
    SameFill(MergeTree(s.T(), l, g, i), t.T());
    hide MergeTree, CanMerge;
    MergeKept(s, t, l, g, i, node, x, y);
  }

  /** The tree after a merging, block by block. */
  lemma MergeTreeIs(s: State, l: nat, g: nat, i: nat, node: Block, x: Block, y: Block, freed: Block)
    requires s.Treed({}) && Pairing(s, l, g, i, node, x, y) && CanMerge(s.T(), l, g, i)
    ensures Sized(x, s.M) && Sized(y, s.M) && x.num + 1 + y.num <= s.M
    ensures var t, p, m := MergeTree(s.T(), l, g, i), MergeOut(node, i, x), MergeInto(node, i, x, y);
      && t.M == s.M && p.self == node.self && m.self == x.self
      && s.file[y.self := freed][x.self := m][node.self := p] == t.file[y.self := freed]
  {
    hide Kids, KidsAt, NodeOk, Offset, Filled, Laid, FreeList, CopySlots;
    PairingIs(s, l, g, i, node, x, y);
  }

  /** Two key blocks in place of three, with the same number of keys in all. */
  lemma OneBlockLess(a: Block, b: Block, c: Block, a': Block, b': Block, sum: Tally)
    requires a.use && a.keys && b.use && b.keys && c.use && c.keys && a'.use && a'.keys && b'.use && b'.keys
    requires a.num + b.num + c.num == a'.num + b'.num
    ensures Plus(Minus(sum, Plus(Weight(a), Plus(Weight(b), Weight(c)))), Plus(Weight(a'), Weight(b')))
         == sum.(keyBlocks := sum.keyBlocks - 1)
  {
  }

  lemma TwoBlocksLess(a: Block, b: Block, c: Block, a': Block, sum: Tally)
    requires a.use && a.keys && b.use && b.keys && c.use && c.keys && a'.use && a'.keys
    requires a.num + b.num + c.num == a'.num
    ensures Plus(Minus(sum, Plus(Weight(a), Plus(Weight(b), Weight(c)))), Plus(Weight(a'), NONE))
         == sum.(keyBlocks := sum.keyBlocks - 2)
  {
  }

  /** Where the blocks of a merging are afterwards. */
  lemma MergePlaces(s: State, t: State, l: nat, g: nat, i: nat, node: Block, x: Block, y: Block)
    requires s.Treed({}) && Pairing(s, l, g, i, node, x, y) && CanMerge(s.T(), l, g, i) && Merges(s, t, l, g, i, y)
    ensures Above(s, t, l)
    ensures var c := Place(s.T(), l, g, i);
      && t.At(l, c, MergeInto(node, i, x, y)) && t.At(l + 1, g, MergeOut(node, i, x))
      && t.rows[l][c].sep == s.rows[l][c + 1].sep && (c > 0 ==> t.rows[l][c - 1] == s.rows[l][c - 1])
  {
    hide Kids, KidsAt, NodeOk, Offset, Filled, Laid, FreeList, RowOk, ValuesIn, Ascending, FilledRow, MergeInto,
         MergeOut, Rooted, Kinds;
    PairingIs(s, l, g, i, node, x, y);
    MergeFacts(s, l, node, i, x, y);
    var c := Place(s.T(), l, g, i);
    MergedRow(s.rows[l], c, [Edge(x.self, s.rows[l][c + 1].sep)]);
  }

  lemma MergeKept(s: State, t: State, l: nat, g: nat, i: nat, node: Block, x: Block, y: Block)
    requires s.Treed({}) && Pairing(s, l, g, i, node, x, y) && CanMerge(s.T(), l, g, i) && Merges(s, t, l, g, i, y)
    ensures Kept(s.file, t.file) && Kinds(t.file, t.tag, s.lost)
  {
    hide Kids, KidsAt, NodeOk, Offset, Filled, Laid, FreeList, RowOk, ValuesIn, Ascending, MergeInto, MergeOut, Kinds,
         Kept;
    PairingIs(s, l, g, i, node, x, y);
    MergeFacts(s, l, node, i, x, y);
    PairingTagged(s, l, g, i, node, x, y);
    var f1 := s.file[node.self := MergeOut(node, i, x)];
    var f2 := f1[x.self := MergeInto(node, i, x, y)];
    assert {} + s.lost == s.lost;
    KeyWrite(s.file, s.tag, s.lost, node.self, MergeOut(node, i, x));
    KeyWrite(f1, s.tag, s.lost, x.self, MergeInto(node, i, x, y));
    KeyFree(f2, s.tag, s.lost, y.self, t.file[y.self]);
    KeptTrans(s.file, f1, f2);
    KeptTrans(s.file, f2, t.file);
  }

  lemma MergeFacts(s: State, l: nat, node: Block, i: nat, x: Block, y: Block)
    requires Sized(node, s.M) && i < node.num && Sized(x, s.M) && Sized(y, s.M) && x.num + 1 + y.num <= s.M
    ensures var p, m := MergeOut(node, i, x), MergeInto(node, i, x, y);
      && p.self == node.self && p.use == node.use && p.keys == node.keys && p.num == node.num - 1
      && m.self == x.self && m.use == x.use && m.keys == x.keys && m.num == x.num + 1 + y.num
  {
    hide CopySlots;
  }

  lemma MergedRow(R: seq<Edge>, c: nat, W: seq<Edge>)
    requires c + 2 <= |R| && |W| == 1
    ensures var S := Replaced(R, c, 2, W); |S| == |R| - 1 && S[c] == W[0] && (c > 0 ==> S[c - 1] == R[c - 1])
  {
  }

  // ---------- a level less

  /** The root after it has taken over what the merged child holds. */
  function Taking(node: Block, x: Block, y: Block): Block
    requires 0 < node.num < |node.slots| && x.num + 1 + y.num < |x.slots| && y.num < |y.slots|
  {
    var m := MergeInto(node, 0, x, y);
    MergeOut(node, 0, x).(num := m.num, leaf := m.leaf, slots := m.slots, bytes := m.bytes)
  }

  /** The root has been written, and the blocks of both its children are free. */
  ghost predicate Collapses(s: State, t: State, l: nat, node: Block, x: Block, y: Block)
    requires 0 < node.num < |node.slots| && x.num + 1 + y.num < |x.slots| && y.num < |y.slots|
  {
    && t.Disk() && l + 2 == |s.rows| && s.keyUse >= 2
    && t.tag == (s.tag - {y.self} - {x.self})[ROOT := l] && t.rows == s.rows[..l] + [[Edge(ROOT, End)]]
    && t == s.(file := t.file, tag := t.tag, rows := t.rows, free := t.free, fl := t.fl, keyUse := s.keyUse - 2)
    && x.self in t.file && y.self in t.file && !t.file[x.self].use && !t.file[y.self].use
    && t.file == s.file[y.self := t.file[y.self]][x.self := t.file[x.self]][ROOT := Taking(node, x, y)]
  }

  /** The root has two children, x and y, and one key between them. */
  ghost predicate Last(s: State, l: nat, node: Block, x: Block, y: Block) {
    && s.Treed({}) && Pairing(s, l, 0, 0, node, x, y) && node.num == 1 && l + 2 == |s.rows|
    && Sized(x, s.M) && Sized(y, s.M) && x.num + 1 + y.num <= s.M
  }

  lemma CollapseNow(s: State, l: nat, node: Block, x: Block, y: Block)
    requires Last(s, l, node, x, y)
    ensures CanMerge(s.T(), l, 0, 0)
    ensures var u := MergeTree(s.T(), l, 0, 0); var r := Taking(node, x, y);
      && u.All() && u.M == s.M && |u.rows| == |s.rows| && u.tag == s.tag - {y.self} && u.rows[..l] == s.rows[..l]
      && |u.rows[l]| == 1 && u.rows[l][0] == Edge(x.self, End) && CollapseTree(u, r).All()
    ensures node.self == ROOT && NodeOk(Taking(node, x, y), s.M, ROOT, l) && |s.rows[l]| == 2 && |s.rows[l + 1]| == 1
  {
    hide Kids, KidsAt, NodeOk, Offset, Filled, Laid, FreeList, RowOk, ValuesIn, Ascending, FilledRow, MergeInto,
         MergeOut;
    CanMergeNow(s, l, 0, 0, node, x, y);
    PairingIs(s, l, 0, 0, node, x, y);
    NodeIs(s, {}, l + 1, 0, node);
    MergeOk(s.T(), l, 0, 0);
    MergeShapes(s.T(), l, node, 0, x, y);
    MergeFacts(s, l, node, 0, x, y);
    TakingOk(node, x, y, s.M, l);
    RootLeft(s, l, node, x, y);
    var u, r := MergeTree(s.T(), l, 0, 0), Taking(node, x, y);
    NodeFacts(MergeInto(node, 0, x, y), s.M, x.self, l);
    hide Taking, MergeTree;
    CollapseOk(u, r);
  }

  /** The root is left with the merged child and nothing else. */
  lemma RootLeft(s: State, l: nat, node: Block, x: Block, y: Block)
    requires Last(s, l, node, x, y) && CanMerge(s.T(), l, 0, 0) && node.self == ROOT
    requires x.self != ROOT && y.self != ROOT && x.self != y.self
    ensures var u := MergeTree(s.T(), l, 0, 0);
      && ROOT in u.file && u.file[ROOT] == MergeOut(node, 0, x) && x.self in u.file
      && u.file[x.self] == MergeInto(node, 0, x, y)
      && MergeOut(node, 0, x).num == 0 && |MergeOut(node, 0, x).slots| > 0
      && MergeOut(node, 0, x).slots[0].child == x.self
      && u.M == s.M && |u.rows| == |s.rows| && u.rows[..l] == s.rows[..l] && u.tag == s.tag - {y.self}
      && |u.rows[l]| == |s.rows[l]| - 1
  {
    hide CopySlots, Kids, Filled, Laid, FreeList;
  }

  lemma TakingOk(node: Block, x: Block, y: Block, M: nat, l: nat)
    requires node.self == ROOT && 0 < node.num < |node.slots|
    requires x.num + 1 + y.num < |x.slots| && y.num < |y.slots| && l >= 1
    requires NodeOk(MergeInto(node, 0, x, y), M, x.self, l) && NodeOk(MergeOut(node, 0, x), M, ROOT, l + 1)
    ensures var r, m := Taking(node, x, y), MergeInto(node, 0, x, y);
      NodeOk(r, M, ROOT, l) && r.num == m.num && KidsOf(r, End) == KidsOf(m, End)
  {
    hide CopySlots;
  }

  lemma CollapseDone(s: State, t: State, l: nat, node: Block, x: Block, y: Block)
    requires Last(s, l, node, x, y) && Collapses(s, t, l, node, x, y)
    ensures t.Treed({}) && SamePairs(s, t) && |t.rows| == |s.rows| - 1
    ensures t.At(l, 0, Taking(node, x, y)) && Taking(node, x, y).num == x.num + 1 + y.num && t.rows[l][0].sep == End
  {
    hide Kids, KidsAt, NodeOk, Offset, Filled, Laid, FreeList, RowOk, ValuesIn, Ascending, FilledRow, MergeInto,
         MergeOut, Taking, MergeTree, Kinds, Kept;
    CollapseNow(s, l, node, x, y);
    PairingIs(s, l, 0, 0, node, x, y);
    var u, r := MergeTree(s.T(), l, 0, 0), Taking(node, x, y);
    TakingIs(s, node, x, y);
    MergeFilled(s.T(), l, 0, 0);
    CollapseFilled(u, r);
    var v := CollapseTree(u, r);
    assert t.rows == v.rows && t.tag == v.tag;
    CollapsedFile(s, t, l, node, x, y);
    SameTree(v, t.T());
    SameFill(v, t.T());
    CollapseNodes(s, l);
    CollapseKept(s, t, l, node, x, y);
  }

  lemma TakingIs(s: State, node: Block, x: Block, y: Block)
    requires Sized(node, s.M) && 0 < node.num && Sized(x, s.M) && Sized(y, s.M) && x.num + 1 + y.num <= s.M
    ensures var r := Taking(node, x, y);
      r.self == node.self && r.use == node.use && r.keys == node.keys && r.num == x.num + 1 + y.num
  {
    hide CopySlots;
  }

  /** Beside the blocks freed, the file is that of the collapsed tree. */
  lemma CollapsedFile(s: State, t: State, l: nat, node: Block, x: Block, y: Block)
    requires Last(s, l, node, x, y) && Collapses(s, t, l, node, x, y) && CanMerge(s.T(), l, 0, 0) && node.self == ROOT
    requires x.self != ROOT && y.self != ROOT && x.self != y.self
    requires var u := MergeTree(s.T(), l, 0, 0);
      |u.rows| > 2 && |u.rows[|u.rows| - 2]| == 1 && u.rows[|u.rows| - 2][0].addr == x.self
    ensures var v := CollapseTree(MergeTree(s.T(), l, 0, 0), Taking(node, x, y));
      forall a :: a in v.tag && a in v.file ==> a in t.file && t.file[a] == v.file[a]
  {
    hide Taking, MergeInto, MergeOut, Kids, Filled, Laid, FreeList, Offset, Replaced;
  }

  lemma CollapseNodes(s: State, l: nat)
    requires 1 <= l && l + 2 == |s.rows| && |s.rows[l]| == 2 && |s.rows[l + 1]| == 1
    ensures Nodes(s.rows[..l] + [[Edge(ROOT, End)]]) + 2 == Nodes(s.rows)
  {
    NodesMore(s.rows[..l], [Edge(ROOT, End)]);
    NodesMore(s.rows[..l], s.rows[l]);
    NodesMore(s.rows[..l + 1], s.rows[l + 1]);
    assert s.rows[..l] + [s.rows[l]] == s.rows[..l + 1] && s.rows[..l + 1] + [s.rows[l + 1]] == s.rows;
  }

  lemma CollapseKept(s: State, t: State, l: nat, node: Block, x: Block, y: Block)
    requires Last(s, l, node, x, y) && Collapses(s, t, l, node, x, y) && node.self == ROOT
    ensures Kept(s.file, t.file) && Kinds(t.file, t.tag, s.lost)
  {
    hide Kids, KidsAt, NodeOk, Offset, Filled, Laid, FreeList, RowOk, ValuesIn, Ascending, Taking, Kinds, Kept;
    PairingIs(s, l, 0, 0, node, x, y);
    TakingIs(s, node, x, y);
    PairingTagged(s, l, 0, 0, node, x, y);
    var f1 := s.file[y.self := t.file[y.self]];
    var f2 := f1[x.self := t.file[x.self]];
    var tag := s.tag - {y.self} - {x.self};
    assert {} + s.lost == s.lost;
    KeyFree(s.file, s.tag, s.lost, y.self, t.file[y.self]);
    KeyFree(f1, s.tag - {y.self}, s.lost, x.self, t.file[x.self]);
    KeyWrite(f2, tag, s.lost, ROOT, Taking(node, x, y));
    KeyEnter(t.file, tag, s.lost, ROOT, l);
    NotLost(s, ROOT);
    KeptTrans(s.file, f1, f2);
    KeptTrans(s.file, f2, t.file);
  }

  // ---------- where the search goes on

  predicate LessEq(a: Sep, b: Sep) {
    a == b || Less(a, b)
  }

  /** The block b at place c of row l answers for every key that child i of node0 answered for. */
  ghost predicate Entered(s: State, t: State, l: nat, g: nat, i: nat, node0: Block, c: nat, b: Block)
    requires s.At(l + 1, g, node0) && l >= 1 && Place(s.T(), l, g, i) < |s.rows[l]| && i <= node0.num <= |node0.slots|
    requires i < |node0.slots|
  {
    && t.At(l, c, b)
    && (i == 0 ==> if Place(s.T(), l, g, i) == 0 then c == 0
                   else c > 0 && t.rows[l][c - 1].sep == s.rows[l][Place(s.T(), l, g, i) - 1].sep)
    && (i > 0 && c > 0 ==> LessEq(t.rows[l][c - 1].sep, PairOf(node0.slots[i - 1])))
    && (i == node0.num ==> t.rows[l][c].sep == s.rows[l][Place(s.T(), l, g, i)].sep)
    && (i < node0.num ==> LessEq(PairOf(node0.slots[i]), t.rows[l][c].sep))
  }

  lemma EnteredBetween(s: State, t: State, l: nat, g: nat, i: nat, node0: Block, c: nat, b: Block, k: int)
    requires s.At(l + 1, g, node0) && l >= 1 && i <= node0.num < |node0.slots| && Place(s.T(), l, g, i) < |s.rows[l]|
    requires Entered(s, t, l, g, i, node0, c, b) && Between(s.rows[l], Place(s.T(), l, g, i), k)
    requires (i > 0 ==> node0.slots[i - 1].key < k) && (i < node0.num ==> k < node0.slots[i].key)
    ensures Between(t.rows[l], c, k)
  {
    hide Offset;
  }

  lemma PlaceIn(s: State, l: nat, g: nat, i: nat, node0: Block)
    requires s.Treed({}) && s.At(l + 1, g, node0) && l >= 1 && i <= node0.num
    ensures i < |node0.slots| && node0.num < |node0.slots| && Place(s.T(), l, g, i) < |s.rows[l]|
    ensures i > 0 ==> Place(s.T(), l, g, i - 1) + 1 == Place(s.T(), l, g, i)
  {
    hide Kids, KidsAt, NodeOk, Offset, Filled, Laid, FreeList;
    ChildIs(s, {}, l, g, node0, i);
    NodeIs(s, {}, l + 1, g, node0);
  }

  /** A child with keys enough is entered as it is. */
  lemma EnteredAsIs(s: State, l: nat, g: nat, i: nat, node0: Block, b: Block)
    requires s.Treed({}) && s.At(l + 1, g, node0) && l >= 1 && i <= node0.num < |node0.slots|
    requires node0.slots[i].child in s.file && s.file[node0.slots[i].child] == b && Place(s.T(), l, g, i) < |s.rows[l]|
    ensures Entered(s, s, l, g, i, node0, Place(s.T(), l, g, i), b)
  {
    hide Kids, KidsAt, NodeOk, Offset, Filled, Laid, FreeList;
    ChildIs(s, {}, l, g, node0, i);
    if i > 0 {
      ChildIs(s, {}, l, g, node0, i - 1);
      PlaceIn(s, l, g, i, node0);
    }
  }

  /** After a key has come from the right neighbour. */
  lemma EnteredRight(s: State, t: State, l: nat, g: nat, i: nat, node0: Block, x: Block, y: Block)
    requires s.Treed({}) && t.Treed({}) && Pairing(s, l, g, i, node0, x, y) && Place(s.T(), l, g, i) < |s.rows[l]|
    requires Sized(x, s.M) && Sized(y, s.M) && x.num < s.M && y.num > 0
    requires var x', c := TakeRight(node0, i, x, y), Place(s.T(), l, g, i);
      t.At(l, c, x') && (c > 0 ==> t.rows[l][c - 1] == s.rows[l][c - 1])
    ensures Entered(s, t, l, g, i, node0, Place(s.T(), l, g, i), TakeRight(node0, i, x, y))
  {
    hide Kids, KidsAt, NodeOk, Offset, Filled, Laid, FreeList;
    var x', c := TakeRight(node0, i, x, y), Place(s.T(), l, g, i);
    KeyInside(t, {}, l, c, x', x.num);
    assert PairOf(x'.slots[x.num]) == PairOf(node0.slots[i]);
    if i > 0 {
      ChildIs(s, {}, l, g, node0, i - 1);
      PlaceIn(s, l, g, i, node0);
    }
  }

  /** After a key has come from the left neighbour w; x is child i + 1. */
  lemma EnteredLeft(s: State, t: State, l: nat, g: nat, i: nat, node0: Block, w: Block, x: Block)
    requires s.Treed({}) && t.Treed({}) && Pairing(s, l, g, i, node0, w, x) && Place(s.T(), l, g, i + 1) < |s.rows[l]|
    requires Sized(x, s.M) && Sized(w, s.M) && x.num < s.M && w.num > 0
    requires var x', c := TakeLeft(node0, i, w, x), Place(s.T(), l, g, i + 1);
      t.At(l, c, x') && t.rows[l][c].sep == s.rows[l][c].sep
    ensures Entered(s, t, l, g, i + 1, node0, Place(s.T(), l, g, i + 1), TakeLeft(node0, i, w, x))
  {
    hide Kids, KidsAt, NodeOk, Offset, Filled, Laid, FreeList, CopySlots;
    var x', c := TakeLeft(node0, i, w, x), Place(s.T(), l, g, i + 1);
    KeyInside(t, {}, l, c, x', 0);
    assert PairOf(x'.slots[0]) == PairOf(node0.slots[i]);
    ChildIs(s, {}, l, g, node0, i + 1);
  }

  lemma MergedKey(s: State, node: Block, i: nat, x: Block, y: Block)
    requires Sized(node, s.M) && i < node.num && Sized(x, s.M) && Sized(y, s.M) && x.num + 1 + y.num <= s.M
    ensures PairOf(MergeInto(node, i, x, y).slots[x.num]) == PairOf(node.slots[i])
    ensures x.num < MergeInto(node, i, x, y).num < |MergeInto(node, i, x, y).slots|
  {
    hide CopySlots;
  }

  /** After a merging the block answers for what both children answered for, and for the key between them. */
  lemma EnteredMerged(s: State, t: State, l: nat, g: nat, i: nat, node0: Block, x: Block, y: Block)
    requires s.Treed({}) && t.Treed({}) && Pairing(s, l, g, i, node0, x, y) && Sized(x, s.M) && Sized(y, s.M)
    requires x.num + 1 + y.num <= s.M && Place(s.T(), l, g, i) + 1 < |s.rows[l]|
    requires var m, c := MergeInto(node0, i, x, y), Place(s.T(), l, g, i);
      t.At(l, c, m) && t.rows[l][c].sep == s.rows[l][c + 1].sep && (c > 0 ==> t.rows[l][c - 1] == s.rows[l][c - 1])
    ensures Entered(s, t, l, g, i, node0, Place(s.T(), l, g, i), MergeInto(node0, i, x, y))
    ensures Entered(s, t, l, g, i + 1, node0, Place(s.T(), l, g, i), MergeInto(node0, i, x, y))
    ensures Between(t.rows[l], Place(s.T(), l, g, i), node0.slots[i].key)
  {
    hide Kids, KidsAt, NodeOk, Offset, Filled, Laid, FreeList, MergeInto;
    var m, c := MergeInto(node0, i, x, y), Place(s.T(), l, g, i);
    MergedKey(s, node0, i, x, y);
    KeyInside(t, {}, l, c, m, x.num);
    ChildIs(s, {}, l, g, node0, i + 1);
    PlaceIn(s, l, g, i + 1, node0);
    if i > 0 {
      ChildIs(s, {}, l, g, node0, i - 1);
      PlaceIn(s, l, g, i, node0);
    }
  }

  /** After the root has taken over the merged child. */
  lemma EnteredRoot(s: State, t: State, l: nat, node0: Block, x: Block, y: Block, i: nat, b: Block)
    requires s.Treed({}) && Pairing(s, l, 0, 0, node0, x, y) && node0.num == 1 && l + 2 == |s.rows| && i <= 1
    requires t.At(l, 0, b) && t.rows[l][0].sep == End && Place(s.T(), l, 0, i) < |s.rows[l]|
    ensures Entered(s, t, l, 0, i, node0, 0, b)
    ensures Between(t.rows[l], 0, node0.slots[0].key)
  {
    hide Kids, KidsAt, NodeOk, Offset, Filled, Laid, FreeList;
    RootAt(s, {}, 0);
    StartsAtZero(s.file, s.rows[l + 1]);
    ChildIs(s, {}, l, 0, node0, i);
  }

  /** A node with one key is the root, and its two children are the first of their row. */
  lemma LastTwo(s: State, l: nat, g: nat, i: nat, node: Block, x: Block, y: Block)
    requires s.Treed({}) && Pairing(s, l, g, i, node, x, y) && node.num == 1 && Sized(x, s.M) && Sized(y, s.M)
    requires x.num + 1 + y.num <= s.M && (l + 1 < |s.rows| - 1 ==> node.num >= Half(s.M))
    ensures i == 0 && g == 0 && node.self == ROOT && Last(s, l, node, x, y)
  {
    hide Kids, KidsAt, NodeOk, Offset, Filled, FreeList, Laid;
    OnDisk(s, {});
    NodeIs(s, {}, l + 1, g, node);
    RootAt(s, {}, 0);
    OnlyRoot(s);
  }

  lemma OnlyRoot(s: State)
    requires s.Treed({})
    ensures |s.rows| >= 2 && s.rows[|s.rows| - 1] == [Edge(ROOT, End)] && s.M >= 5
  {
  }

  /** Child i and the next one. */
  lemma NextChild(s: State, l: nat, g: nat, i: nat, node0: Block)
    requires s.Treed({}) && s.At(l + 1, g, node0) && l >= 1 && i < node0.num
    ensures i + 1 < |node0.slots| && node0.slots[i].child in s.file && node0.slots[i + 1].child in s.file
    ensures Pairing(s, l, g, i, node0, s.file[node0.slots[i].child], s.file[node0.slots[i + 1].child])
  {
    hide Kids, KidsAt, NodeOk, Offset, Filled, FreeList;
    ChildIs(s, {}, l, g, node0, i);
    ChildIs(s, {}, l, g, node0, i + 1);
    NodeIs(s, {}, l + 1, g, node0);
    OnDisk(s, {});
    InLaid(s, node0.slots[i].child);
    InLaid(s, node0.slots[i + 1].child);
  }

  /** An inner node has a key. */
  lemma OneKeyAtLeast(s: State, l: nat, g: nat, node0: Block)
    requires s.Treed({}) && s.At(l + 1, g, node0) && l >= 1 && (l + 1 < |s.rows| - 1 ==> node0.num >= Half(s.M))
    ensures node0.num >= 1
  {
    hide Kids, KidsAt, NodeOk, Filled, FreeList, Laid;
    NodeIs(s, {}, l + 1, g, node0);
    OnlyRoot(s);
  }
}
