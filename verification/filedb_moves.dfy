/**
The moves of the file B-tree on a node and its children: splitting a child, merging two, and moving a key from one to
its neighbour. Each keeps the tree and every pair in it.
*/
module FileMoves {
  import opened FileRows
  import opened FileBlocks
  import opened FileSteps

  /** Node g of level l + 1, and its child at pos. */
  ghost predicate Spot(s: Tree, l: nat, g: nat, pos: nat) {
    && s.All() && 1 <= l && l + 1 < |s.rows| && g < |s.rows[l + 1]|
    && s.rows[l + 1][g].addr in s.file
    && pos <= s.file[s.rows[l + 1][g].addr].num < |s.file[s.rows[l + 1][g].addr].slots|
  }

  ghost function ParentOf(s: Tree, l: nat, g: nat): Block
    requires l + 1 < |s.rows| && g < |s.rows[l + 1]| && s.rows[l + 1][g].addr in s.file
  {
    s.file[s.rows[l + 1][g].addr]
  }

  /** The index of that child in its row. */
  ghost function Place(s: Tree, l: nat, g: nat, pos: nat): nat
    requires l + 1 < |s.rows| && g < |s.rows[l + 1]|
  {
    Offset(s.file, s.rows[l + 1], g) + pos
  }

  /** What is known of a node and a child. */
  lemma AtSpot(s: Tree, l: nat, g: nat, pos: nat)
    requires Spot(s, l, g, pos)
    ensures var b, c := ParentOf(s, l, g), Place(s, l, g, pos);
      && c < |s.rows[l]| && s.rows[l][c].addr == b.slots[pos].child
      && s.rows[l][c].sep == (if pos < b.num then PairOf(b.slots[pos]) else s.rows[l + 1][g].sep)
      && NodeAt(s.file, s.tag, s.M, b.slots[pos].child, l)
      && KidsAt(s.file, s.rows[l][c]) == KidsOf(s.file[b.slots[pos].child], s.rows[l][c].sep)
    ensures NodeAt(s.file, s.tag, s.M, s.rows[l + 1][g].addr, l + 1)
    ensures KidsAt(s.file, s.rows[l + 1][g]) == KidsOf(ParentOf(s, l, g), s.rows[l + 1][g].sep)
    ensures ParentOf(s, l, g).slots[pos].child != s.rows[l + 1][g].addr
  {
    hide NodeOk, Kids, KidsAt, RowOk, Offset;
    OkAt(s, l);
    OkAt(s, l + 1);
    RowAt(s, l + 1, g);
    EdgeOf(s, l + 1, g, pos);
    RowAt(s, l, Place(s, l, g, pos));
  }

  lemma Apart(s: Tree, l: nat, g: nat, pos: nat)
    requires Spot(s, l, g, pos) && Spot(s, l, g, pos + 1)
    ensures ParentOf(s, l, g).slots[pos].child != ParentOf(s, l, g).slots[pos + 1].child
  {
    hide NodeOk, Kids, KidsAt, Offset;
    AtSpot(s, l, g, pos);
    AtSpot(s, l, g, pos + 1);
    OkAt(s, l);
  }

  lemma KidsTwo(file: map<nat, Block>, a: Edge, b: Edge)
    ensures Kids(file, [a, b]) == KidsAt(file, a) + KidsAt(file, b)
  {
    assert [a, b] == [a] + [b];
    KidsConcat(file, [a], [b]);
    KidsOne(file, a);
    KidsOne(file, b);
  }

  lemma KidsIs(file: map<nat, Block>, e: Edge, M: nat)
    requires e.addr in file && Sized(file[e.addr], M)
    ensures KidsAt(file, e) == KidsOf(file[e.addr], e.sep)
  {
  }

  lemma One(R: seq<Edge>, c: nat)
    requires c < |R|
    ensures R[c..c + 1] == [R[c]]
  {
  }

  lemma Two(R: seq<Edge>, c: nat)
    requires c + 1 < |R|
    ensures R[c..c + 2] == [R[c], R[c + 1]]
  {
  }

  // ---------- splitting a child

  /** btree_split_child on the tree: y becomes the right neighbour of child x, with what lies behind its n-th key. */
  ghost function SplitTree(s: Tree, l: nat, g: nat, pos: nat, y: Block, n: nat): Tree
    requires CanSplit(s, l, g, pos, y, n)
  {
    var p, b, c := s.rows[l + 1][g].addr, ParentOf(s, l, g), Place(s, l, g, pos);
    var xa := b.slots[pos].child;
    var x := s.file[xa];
    var W := [Edge(xa, PairOf(x.slots[n])), Edge(y.self, s.rows[l][c].sep)];
    Tree(s.M, s.file[p := SplitUp(b, pos, x, y, n)][xa := x.(num := n)][y.self := SplitOff(x, y, n)],
         s.tag[y.self := l], s.rows[l := Replaced(s.rows[l], c, 1, W)])
  }

  /** A block just made for level l, not yet in the tree. */
  ghost predicate Blank(s: Tree, y: Block, l: nat) {
    Sized(y, s.M) && y.use && y.keys && (y.leaf <==> l == 1) && Barren(y) && y.self !in s.tag
  }

  ghost predicate CanSplit(s: Tree, l: nat, g: nat, pos: nat, y: Block, n: nat) {
    && Spot(s, l, g, pos) && ParentOf(s, l, g).num < s.M && Blank(s, y, l)
    && Sized(ParentOf(s, l, g), s.M) && Place(s, l, g, pos) < |s.rows[l]|
    && ParentOf(s, l, g).slots[pos].child in s.file && Sized(s.file[ParentOf(s, l, g).slots[pos].child], s.M)
    && n < s.file[ParentOf(s, l, g).slots[pos].child].num
  }

  lemma SplitOk(s: Tree, l: nat, g: nat, pos: nat, y: Block, n: nat)
    requires CanSplit(s, l, g, pos, y, n)
    ensures SplitTree(s, l, g, pos, y, n).All()
    ensures Offset(SplitTree(s, l, g, pos, y, n).file, s.rows[l + 1], g) == Offset(s.file, s.rows[l + 1], g)
  {
    hide Kids, KidsAt, Offset, RowOk, SplitUp, SplitOff;
    AtSpot(s, l, g, pos);
    var t := SplitTree(s, l, g, pos, y, n);
    var e, b, c := s.rows[l + 1][g], ParentOf(s, l, g), Place(s, l, g, pos);
    var xa := b.slots[pos].child;
    var x := s.file[xa];
    var m, r := PairOf(x.slots[n]), s.rows[l][c].sep;
    var W := [Edge(xa, m), Edge(y.self, r)];
    One(s.rows[l], c);
    SplitParent(b, pos, x, y, n, s.M, e.sep);
    SplitHalves(x, y, n, s.M, r);
    SplitShapes(s, l, b, pos, x, y, n);
    KidsIs(t.file, e, s.M);
    KidsIs(t.file, W[0], s.M);
    KidsIs(t.file, W[1], s.M);
    KidsTwo(t.file, W[0], W[1]);
    KidsOne(s.file, s.rows[l][c]);
    assert Fresh(s, t, W, s.rows[l][c..c + 1], l) by {
      assert s.rows[l][c..c + 1][0].addr == xa;
    }
    Restructure(s, t, l, g, pos, 1, W);
  }

  /** What the blocks of a split are besides their slots. */
  lemma SplitShapes(s: Tree, l: nat, b: Block, pos: nat, x: Block, y: Block, n: nat)
    requires Sized(b, s.M) && pos <= b.num < s.M && NodeOk(b, s.M, b.self, l + 1) && NodeOk(x, s.M, x.self, l)
    requires n < x.num && Blank(s, y, l) && 1 <= l
    ensures NodeOk(SplitUp(b, pos, x, y, n), s.M, b.self, l + 1)
    ensures NodeOk(x.(num := n), s.M, x.self, l)
    ensures NodeOk(SplitOff(x, y, n), s.M, y.self, l)
    ensures SplitUp(b, pos, x, y, n).num == b.num + 1 && SplitOff(x, y, n).num == x.num - n - 1
  {
    hide CopySlots;
  }

  /** How full the nodes are after a move on children of node g of level l + 1. */
  lemma MoveFilled(s: Tree, t: Tree, l: nat, g: nat, pos: nat, m: nat, W: seq<Edge>)
    requires Spot(s, l, g, pos) && t.All() && Filled(s) && (l + 1 < |s.rows| - 1 ==> Rooted(s)) && s.M == t.M
    requires var c, p := Place(s, l, g, pos), s.rows[l + 1][g].addr;
      && c + m <= |s.rows[l]| && t.rows == s.rows[l := Replaced(s.rows[l], c, m, W)]
      && SameBut(s, t, p, s.rows[l][c..c + m]) && p in t.file
      && (l + 1 < |s.rows| - 1 ==> t.file[p].num + 1 >= Half(s.M))
    requires forall i :: 0 <= i < |W| ==> W[i].addr in t.file && t.file[W[i].addr].num + 1 >= Half(s.M)
    ensures Filled(t)
    ensures l + 1 < |s.rows| - 1 || t.file[s.rows[l + 1][g].addr].num >= 1 ==> Rooted(t)
  {
    hide Kids, KidsAt, Offset, RowOk, NodeOk, SameBut, Replaced, FilledRow;
    AtSpot(s, l, g, pos);
    FilledStep(s, t, l, s.rows[l + 1][g].addr, Place(s, l, g, pos), m, W);
  }

  lemma SplitFilled(s: Tree, l: nat, g: nat, pos: nat, y: Block, n: nat)
    requires CanSplit(s, l, g, pos, y, n) && Filled(s) && (l + 1 < |s.rows| - 1 ==> Rooted(s))
    requires var x := s.file[ParentOf(s, l, g).slots[pos].child]; n + 1 >= Half(s.M) && x.num - n >= Half(s.M)
    ensures Filled(SplitTree(s, l, g, pos, y, n)) && Rooted(SplitTree(s, l, g, pos, y, n))
  {
    hide Kids, KidsAt, Offset, RowOk, SplitUp, SplitOff, FilledRow;
    SplitOk(s, l, g, pos, y, n);
    AtSpot(s, l, g, pos);
    var t := SplitTree(s, l, g, pos, y, n);
    var b, c := ParentOf(s, l, g), Place(s, l, g, pos);
    var x := s.file[b.slots[pos].child];
    SplitShapes(s, l, b, pos, x, y, n);
    One(s.rows[l], c);
    FullParent(s, l, g);
    assert s.rows[l][c..c + 1][0].addr == b.slots[pos].child;
    MoveFilled(s, t, l, g, pos, 1, [Edge(b.slots[pos].child, PairOf(x.slots[n])), Edge(y.self, s.rows[l][c].sep)]);
  }

  lemma FullParent(s: Tree, l: nat, g: nat)
    requires s.All() && Filled(s) && l + 1 < |s.rows| && g < |s.rows[l + 1]| && s.rows[l + 1][g].addr in s.file
    ensures l + 1 < |s.rows| - 1 ==> ParentOf(s, l, g).num + 1 >= Half(s.M)
  {
    hide Kids, RowOk;
    if l + 1 < |s.rows| - 1 { assert FilledRow(s, l + 1); }
  }

  // ---------- merging two children

  ghost predicate CanMerge(s: Tree, l: nat, g: nat, pos: nat) {
    && Spot(s, l, g, pos) && Spot(s, l, g, pos + 1) && Sized(ParentOf(s, l, g), s.M)
    && Place(s, l, g, pos) + 2 <= |s.rows[l]|
    && var xa, ya := ParentOf(s, l, g).slots[pos].child, ParentOf(s, l, g).slots[pos + 1].child;
       && xa in s.file && ya in s.file && Sized(s.file[xa], s.M) && Sized(s.file[ya], s.M)
       && s.file[xa].num + 1 + s.file[ya].num <= s.M
  }

  /** btree_merge on the tree: child x takes in the key between it and its right neighbour y, and y's keys. */
  ghost function MergeTree(s: Tree, l: nat, g: nat, pos: nat): Tree
    requires CanMerge(s, l, g, pos)
  {
    var p, b, c := s.rows[l + 1][g].addr, ParentOf(s, l, g), Place(s, l, g, pos);
    var xa, ya := b.slots[pos].child, b.slots[pos + 1].child;
    Tree(s.M, s.file[p := MergeOut(b, pos, s.file[xa])][xa := MergeInto(b, pos, s.file[xa], s.file[ya])], s.tag - {ya},
         s.rows[l := Replaced(s.rows[l], c, 2, [Edge(xa, s.rows[l][c + 1].sep)])])
  }

  lemma MergeOk(s: Tree, l: nat, g: nat, pos: nat)
    requires CanMerge(s, l, g, pos)
    ensures MergeTree(s, l, g, pos).All()
    ensures Offset(MergeTree(s, l, g, pos).file, s.rows[l + 1], g) == Offset(s.file, s.rows[l + 1], g)
  {
    hide Kids, KidsAt, Offset, RowOk, MergeInto, MergeOut;
    AtSpot(s, l, g, pos);
    AtSpot(s, l, g, pos + 1);
    Apart(s, l, g, pos);
    var t := MergeTree(s, l, g, pos);
    var e, b, c := s.rows[l + 1][g], ParentOf(s, l, g), Place(s, l, g, pos);
    var xa, ya := b.slots[pos].child, b.slots[pos + 1].child;
    var r := s.rows[l][c + 1].sep;
    var W := [Edge(xa, r)];
    Two(s.rows[l], c);
    MergeParent(b, pos, s.file[xa], s.M, e.sep);
    MergeHalves(b, pos, s.file[xa], s.file[ya], s.M, r);
    MergeShapes(s, l, b, pos, s.file[xa], s.file[ya]);
    KidsIs(t.file, e, s.M);
    KidsIs(t.file, W[0], s.M);
    KidsOne(t.file, W[0]);
    KidsTwo(s.file, s.rows[l][c], s.rows[l][c + 1]);
    assert Fresh(s, t, W, s.rows[l][c..c + 2], l) by {
      assert s.rows[l][c..c + 2][0].addr == xa;
    }
    assert s.rows[l][c..c + 2][1].addr == ya;
    Restructure(s, t, l, g, pos, 2, W);
  }

  lemma MergeShapes(s: Tree, l: nat, b: Block, pos: nat, x: Block, y: Block)
    requires Sized(b, s.M) && pos < b.num && NodeOk(b, s.M, b.self, l + 1)
    requires NodeOk(x, s.M, x.self, l) && NodeOk(y, s.M, y.self, l) && x.num + 1 + y.num <= s.M && 1 <= l
    ensures NodeOk(MergeOut(b, pos, x), s.M, b.self, l + 1)
    ensures NodeOk(MergeInto(b, pos, x, y), s.M, x.self, l)
    ensures MergeOut(b, pos, x).num == b.num - 1 && MergeInto(b, pos, x, y).num == x.num + 1 + y.num
  {
    hide CopySlots;
  }

  lemma MergeFilled(s: Tree, l: nat, g: nat, pos: nat)
    requires CanMerge(s, l, g, pos) && Filled(s) && (l + 1 < |s.rows| - 1 ==> Rooted(s))
    requires l + 1 < |s.rows| - 1 ==> ParentOf(s, l, g).num >= Half(s.M)
    ensures var t := MergeTree(s, l, g, pos); Filled(t) && (ParentOf(s, l, g).num >= 2 ==> Rooted(t))
  {
    hide Kids, KidsAt, Offset, RowOk, MergeInto, MergeOut;
    MergeOk(s, l, g, pos);
    AtSpot(s, l, g, pos);
    AtSpot(s, l, g, pos + 1);
    Apart(s, l, g, pos);
    var t := MergeTree(s, l, g, pos);
    var b, c := ParentOf(s, l, g), Place(s, l, g, pos);
    var xa, ya := b.slots[pos].child, b.slots[pos + 1].child;
    MergeShapes(s, l, b, pos, s.file[xa], s.file[ya]);
    Two(s.rows[l], c);
    assert s.rows[l][c..c + 2][0].addr == xa && s.rows[l][c..c + 2][1].addr == ya;
    OkAt(s, l);
    assert FilledRow(s, l);
    hide FilledRow;
    MoveFilled(s, t, l, g, pos, 2, [Edge(xa, s.rows[l][c + 1].sep)]);
  }

  // ---------- moving a key between two children

  /** Blocks x' and y' in place of children pos and pos + 1, with from's pair between them. */
  ghost function ShareTree(s: Tree, l: nat, g: nat, pos: nat, x': Block, y': Block, from: Slot): Tree
    requires CanShare(s, l, g, pos, x', y', from)
  {
    var p, b, c := s.rows[l + 1][g].addr, ParentOf(s, l, g), Place(s, l, g, pos);
    var xa, ya := b.slots[pos].child, b.slots[pos + 1].child;
    Tree(s.M, s.file[p := ReKey(b, pos, from)][xa := x'][ya := y'], s.tag,
         s.rows[l := Replaced(s.rows[l], c, 2, [Edge(xa, PairOf(from)), Edge(ya, s.rows[l][c + 1].sep)])])
  }

  ghost predicate CanShare(s: Tree, l: nat, g: nat, pos: nat, x': Block, y': Block, from: Slot) {
    && Spot(s, l, g, pos) && Spot(s, l, g, pos + 1) && Sized(ParentOf(s, l, g), s.M)
    && Place(s, l, g, pos) + 2 <= |s.rows[l]|
    && var b, r := ParentOf(s, l, g), s.rows[l][Place(s, l, g, pos) + 1].sep;
       var xa, ya := b.slots[pos].child, b.slots[pos + 1].child;
       && xa in s.file && ya in s.file && Sized(s.file[xa], s.M) && Sized(s.file[ya], s.M)
       && NodeOk(x', s.M, xa, l) && NodeOk(y', s.M, ya, l)
       && KidsOf(x', PairOf(from)) + KidsOf(y', r) == KidsOf(s.file[xa], PairOf(b.slots[pos])) + KidsOf(s.file[ya], r)
  }

  lemma ShareOk(s: Tree, l: nat, g: nat, pos: nat, x': Block, y': Block, from: Slot)
    requires CanShare(s, l, g, pos, x', y', from)
    ensures ShareTree(s, l, g, pos, x', y', from).All()
    ensures Offset(ShareTree(s, l, g, pos, x', y', from).file, s.rows[l + 1], g) == Offset(s.file, s.rows[l + 1], g)
  {
    hide Kids, KidsAt, Offset, RowOk, ReKey;
    AtSpot(s, l, g, pos);
    AtSpot(s, l, g, pos + 1);
    Apart(s, l, g, pos);
    var t := ShareTree(s, l, g, pos, x', y', from);
    var e, b, c := s.rows[l + 1][g], ParentOf(s, l, g), Place(s, l, g, pos);
    var xa, ya := b.slots[pos].child, b.slots[pos + 1].child;
    var r := s.rows[l][c + 1].sep;
    var W := [Edge(xa, PairOf(from)), Edge(ya, r)];
    Two(s.rows[l], c);
    ReKeyed(b, pos, from, s.M, e.sep);
    SharedKids(KidsOf(b, e.sep), pos, W);
    ReKeyShape(s, l, b, pos, from);
    KidsIs(t.file, e, s.M);
    KidsIs(t.file, W[0], s.M);
    KidsIs(t.file, W[1], s.M);
    KidsTwo(t.file, W[0], W[1]);
    KidsTwo(s.file, s.rows[l][c], s.rows[l][c + 1]);
    assert s.rows[l][c..c + 2][0].addr == xa && s.rows[l][c..c + 2][1].addr == ya;
    Restructure(s, t, l, g, pos, 2, W);
  }

  lemma SharedKids(K: seq<Edge>, pos: nat, W: seq<Edge>)
    requires pos + 1 < |K| && |W| == 2 && W[1] == K[pos + 1] && W[0].addr == K[pos].addr
    ensures K[pos := W[0]] == Replaced(K, pos, 2, W)
  {
  }

  lemma ReKeyShape(s: Tree, l: nat, b: Block, pos: nat, from: Slot)
    requires Sized(b, s.M) && pos < b.num && NodeOk(b, s.M, b.self, l + 1) && 1 <= l
    ensures NodeOk(ReKey(b, pos, from), s.M, b.self, l + 1) && ReKey(b, pos, from).num == b.num
  {
  }

  lemma ShareFilled(s: Tree, l: nat, g: nat, pos: nat, x': Block, y': Block, from: Slot)
    requires CanShare(s, l, g, pos, x', y', from) && Filled(s) && Rooted(s)
    requires x'.num + 1 >= Half(s.M) && y'.num + 1 >= Half(s.M)
    ensures Filled(ShareTree(s, l, g, pos, x', y', from)) && Rooted(ShareTree(s, l, g, pos, x', y', from))
  {
    hide Kids, KidsAt, Offset, RowOk, FilledRow;
    ShareOk(s, l, g, pos, x', y', from);
    AtSpot(s, l, g, pos);
    AtSpot(s, l, g, pos + 1);
    Apart(s, l, g, pos);
    var t := ShareTree(s, l, g, pos, x', y', from);
    var b, c := ParentOf(s, l, g), Place(s, l, g, pos);
    var xa, ya := b.slots[pos].child, b.slots[pos + 1].child;
    Two(s.rows[l], c);
    assert s.rows[l][c..c + 2][0].addr == xa && s.rows[l][c..c + 2][1].addr == ya;
    FullParent(s, l, g);
    MoveFilled(s, t, l, g, pos, 2, [Edge(xa, PairOf(from)), Edge(ya, s.rows[l][c + 1].sep)]);
  }

  /** The blocks a borrowing leaves behind. */
  lemma BorrowRightCan(s: Tree, l: nat, g: nat, pos: nat)
    requires Spot(s, l, g, pos) && Spot(s, l, g, pos + 1)
    requires var b := ParentOf(s, l, g); var xa, ya := b.slots[pos].child, b.slots[pos + 1].child;
      xa in s.file && ya in s.file && s.file[xa].num < s.M && s.file[ya].num > 0
    ensures var b := ParentOf(s, l, g); var x, y := s.file[b.slots[pos].child], s.file[b.slots[pos + 1].child];
      && Sized(x, s.M) && Sized(y, s.M) && Sized(b, s.M)
      && CanShare(s, l, g, pos, TakeRight(b, pos, x, y), GiveRight(y), y.slots[0])
  {
    hide Kids, KidsAt, Offset, RowOk, CopySlots;
    AtSpot(s, l, g, pos);
    AtSpot(s, l, g, pos + 1);
    var b := ParentOf(s, l, g);
    BorrowRightHalves(b, pos, s.file[b.slots[pos].child], s.file[b.slots[pos + 1].child], s.M,
                      s.rows[l][Place(s, l, g, pos) + 1].sep);
  }

  lemma BorrowLeftCan(s: Tree, l: nat, g: nat, pos: nat)
    requires Spot(s, l, g, pos) && Spot(s, l, g, pos + 1)
    requires var b := ParentOf(s, l, g); var wa, xa := b.slots[pos].child, b.slots[pos + 1].child;
      wa in s.file && xa in s.file && s.file[xa].num < s.M && s.file[wa].num > 0
    ensures var b := ParentOf(s, l, g); var w, x := s.file[b.slots[pos].child], s.file[b.slots[pos + 1].child];
      && Sized(x, s.M) && Sized(w, s.M) && Sized(b, s.M)
      && CanShare(s, l, g, pos, w.(num := w.num - 1), TakeLeft(b, pos, w, x), w.slots[w.num - 1])
  {
    hide Kids, KidsAt, Offset, RowOk, CopySlots;
    AtSpot(s, l, g, pos);
    AtSpot(s, l, g, pos + 1);
    var b := ParentOf(s, l, g);
    BorrowLeftHalves(b, pos, s.file[b.slots[pos].child], s.file[b.slots[pos + 1].child], s.M,
                     s.rows[l][Place(s, l, g, pos) + 1].sep);
  }
}
