/**
The end of a deletion in the file database: a pair leaves a leaf, in place of it or in place of a pair further up whose
neighbour it is, and its value is released.
*/
module FileDrop {
  import opened FileRows
  import opened FileBlocks
  import opened FileSteps
  import opened FileMoves
  import opened FileEdits
  import opened FileDisk
  import opened FileState
  import opened FileValues
  import opened FileShrink

  const LESS := 1
  const MORE := 2

  /** The key has been found in slot i of nm, at a level above; node is on the way to the neighbour that replaces it. */
  ghost predicate Matched(s: State, l: nat, g: nat, flag: int, h: nat, q: nat, nm: Block, i: nat, key: int) {
    && l < h && s.At(h, q, nm) && i < nm.num && i < |nm.slots| && nm.slots[i].key == key
    && l < |s.rows| && g < |s.rows[l]|
    && (flag == MORE ==> s.rows[l][g].sep == PairOf(nm.slots[i]))
    && (flag == LESS ==> g > 0 && s.rows[l][g - 1].sep == PairOf(nm.slots[i]))
  }

  lemma MatchedBelow(s: State, l: nat, g: nat, flag: int, h: nat, q: nat, nm: Block, i: nat, key: int)
    requires s.Treed({}) && Matched(s, l, g, flag, h, q, nm, i, key) && l >= 1
    ensures l < |s.rows| - 1
  {
  }

  /** One level down towards the neighbour. */
  lemma MatchedDown(s: State, t: State, l: nat, g: nat, flag: int, node0: Block, c: nat, b: Block, h: nat, q: nat,
                    nm: Block, i: nat, key: int)
    requires s.Treed({}) && t.Treed({}) && l >= 1
    requires s.At(l + 1, g, node0) && Matched(s, l + 1, g, flag, h, q, nm, i, key)
    requires (flag == MORE || flag == LESS) && Above(s, t, l)
    requires var j := if flag == MORE then node0.num else 0;
      && j < |node0.slots| && node0.num < |node0.slots| && Place(s.T(), l, g, j) < |s.rows[l]|
      && Entered(s, t, l, g, j, node0, c, b)
    ensures Matched(t, l, c, flag, h, q, nm, i, key)
  {
    hide Kids, KidsAt, NodeOk, Offset, Filled, Laid, FreeList, Kinds, Rooted;
    StillAt(s, t, l, h, q, nm);
    if flag == MORE {
      ChildIs(s, {}, l, g, node0, node0.num);
    } else {
      LastEdge(s.T(), l + 1, g - 1);
    }
  }

  // ---------- a pair leaves a leaf

  lemma ReplacedDrop(K: seq<Edge>, i: nat)
    requires i < |K|
    ensures Replaced(K, i, 1, []) == K[..i] + K[i + 1..]
  {
  }

  /** The leaf without its pair i has been written. */
  ghost predicate Drops(s: State, t: State, g: nat, i: nat, node: Block, b: Block) {
    && s.At(1, g, node) && i < node.num && Sized(node, s.M) && Offset(s.file, s.rows[1], g) + i < |s.rows[0]|
    && NodeOk(b, s.M, node.self, 1) && Sized(b, s.M) && b.num == node.num - 1
    && KidsOf(b, s.rows[1][g].sep) == Replaced(KidsOf(node, s.rows[1][g].sep), i, 1, [])
    && t.T() == LeafTree(s.T(), g, i, 1, [], b) && t == s.(file := t.file, rows := t.rows) && t.Disk()
  }

  lemma DropTree(s: State, t: State, g: nat, i: nat, node: Block, b: Block)
    requires s.Treed({}) && Drops(s, t, g, i, node, b) && (|s.rows| > 2 ==> node.num >= Half(s.M))
    ensures t.Treed({}) && Kept(s.file, t.file)
    ensures t.rows[0] == Replaced(s.rows[0], Offset(s.file, s.rows[1], g) + i, 1, [])
    ensures s.rows[0][Offset(s.file, s.rows[1], g) + i].sep == PairOf(node.slots[i])
  {
    hide Kids, KidsAt, NodeOk, Filled, Laid, FreeList, IsBlock, Offset, RowOk, Ascending, PairsOf;
    NodeIs(s, {}, 1, g, node);
    LeafFits(s, g, node);
    var c := Offset(s.file, s.rows[1], g) + i;
    ReplacedDrop(s.rows[0], c);
    LeafOk(s.T(), g, i, 1, [], b);
    LeafFilled(s.T(), g, i, 1, [], b);
    EdgeOf(s.T(), 1, g, i);
    PairsDropped(s.rows[0], c);
    NodesChange(s.rows, 0, t.rows[0]);
    NodeFacts(b, s.M, node.self, 1);
    KeptWrite(s.file, node.self, b);
    DropSelf(s, t, g, node, b);
  }

  lemma DropSelf(s: State, t: State, g: nat, node: Block, b: Block)
    requires s.Treed({}) && s.At(1, g, node) && NodeOk(b, s.M, node.self, 1)
    requires t.file == s.file[node.self := b] && t.tag == s.tag
    ensures Kinds(t.file, t.tag, s.lost) && b.self == node.self
  {
    hide Kids, Filled, Laid, FreeList;
    NodeIs(s, {}, 1, g, node);
  }

  // ---------- a pair further up is replaced by its neighbour

  lemma SwapOffset(s: Tree, l: nat, g: nat, i: nat, from: Slot, q: nat, h: nat)
    requires s.All() && Ascending(s.rows[0]) && 1 <= q <= l < |s.rows| && g < |s.rows[l]| && h <= |s.rows[q]|
    requires s.rows[l][g].addr in s.file && i < s.file[s.rows[l][g].addr].num < |s.file[s.rows[l][g].addr].slots|
    ensures var t := SwapTree(s, l, g, i, from);
      h <= |t.rows[q]| && Offset(t.file, t.rows[q], h) == Offset(s.file, s.rows[q], h)
  {
    hide NodeOk, Kids, KidsAt, RowOk;
    var t, m := SwapTree(s, l, g, i, from), PairOf(s.file[s.rows[l][g].addr].slots[i]);
    var R, S := s.rows[q][..h], t.rows[q][..h];
    forall j | 0 <= j < |R|
      ensures KidsAt(t.file, S[j]) == SwapSep(KidsAt(s.file, R[j]), m, PairOf(from))
    {
      SwapAt(s, l, g, i, from, q, j);
    }
    SwapKids(s.file, t.file, R, S, m, PairOf(from));
  }

  /** At the bottom the pair m and its neighbour e lie side by side: replacing m by e and dropping e drops m. */
  lemma SideBySide(R: seq<Edge>, d: nat, c: nat, m: Sep, e: Sep)
    requires Ascending(R) && d < |R| && c < |R| && R[d].sep == m && R[c].sep == e && R[d].addr == R[c].addr
    requires d == c + 1 || c == d + 1
    ensures Replaced(SwapSep(R, m, e), c, 1, []) == Replaced(R, d, 1, [])
  {
    var S := SwapSep(R, m, e);
    forall k | 0 <= k < |R|
      ensures S[k] == if k == d then R[c] else R[k]
    {
      if R[k].sep == m { SepOnce(R, k, d); }
    }
    ReplacedDrop(S, c);
    ReplacedDrop(R, d);
  }

  /** Edges at the bottom lead nowhere. */
  lemma BottomAddr(s: State, c: nat)
    requires s.Treed({}) && c < |s.rows[0]|
    ensures s.rows[0][c].addr == 0
  {
    hide Kids, KidsAt, NodeOk, Filled, Laid, FreeList, Offset;
    OkAt(s.T(), 1);
    var g, i := Locate(s.file, s.rows[1], c);
    RowAt(s.T(), 1, g);
    EdgeOf(s.T(), 1, g, i);
    BarrenAt(s.T(), g);
  }

  lemma BarrenAt(s: Tree, g: nat)
    requires |s.rows| > 1 && s.Ok(1) && g < |s.rows[1]|
    ensures s.rows[1][g].addr in s.file && Barren(s.file[s.rows[1][g].addr])
  {
    assert NodeAt(s.file, s.tag, s.M, s.rows[1][g].addr, 1);
  }

  /** The tree after the replacement, before the leaf changes. */
  ghost function Swapped(s: State, h: nat, q: nat, i: nat, from: Slot): Tree
    requires h < |s.rows| && q < |s.rows[h]| && s.rows[h][q].addr in s.file && i < |s.file[s.rows[h][q].addr].slots|
  {
    SwapTree(s.T(), h, q, i, from)
  }

  lemma SwapThenDrop(s: State, h: nat, q: nat, nm: Block, i: nat, g: nat, j: nat, node: Block, b: Block, flag: int,
                     key: int)
    requires s.Treed({}) && Matched(s, 1, g, flag, h, q, nm, i, key)
    requires s.At(1, g, node) && j < node.num && Sized(node, s.M)
    requires (flag == MORE && j == node.num - 1) || (flag == LESS && j == 0)
    requires NodeOk(b, s.M, node.self, 1) && Sized(b, s.M) && b.num == node.num - 1 && node.num >= Half(s.M)
    requires forall sep :: KidsOf(b, sep) == Replaced(KidsOf(node, sep), j, 1, [])
    ensures var u := Swapped(s, h, q, i, node.slots[j]);
      && |u.rows| == |s.rows| && g < |u.rows[1]| && Offset(u.file, u.rows[1], g) + j + 1 <= |u.rows[0]|
      && var v := LeafTree(u, g, j, 1, [], b);
         && v.All() && Filled(v) && Rooted(v) && v.M == s.M && v.tag == s.tag
         && v.file == s.file[nm.self := ReKey(nm, i, node.slots[j])][node.self := b]
         && |v.rows| == |s.rows| && forall k :: 1 <= k < |s.rows| ==> |v.rows[k]| == |s.rows[k]|
  {
    hide Kids, KidsAt, NodeOk, Filled, Laid, FreeList, IsBlock, Offset, RowOk, Kinds, Rooted;
    NodeIs(s, {}, 1, g, node);
    NodeIs(s, {}, h, q, nm);
    LeafFits(s, g, node);
    var from := node.slots[j];
    var u := Swapped(s, h, q, i, from);
    SwapOk(s.T(), h, q, i, from);
    SwapFilled(s.T(), h, q, i, from);
    SwapOffset(s.T(), h, q, i, from, 1, g);
    SwapLeaf(s, h, q, nm, i, g, node, from);
    LeafOk(u, g, j, 1, [], b);
    LeafFilled(u, g, j, 1, [], b);
  }

  /** At the bottom the pair that was replaced is the one that is gone. */
  lemma SwapDropRow(s: State, h: nat, q: nat, nm: Block, i: nat, g: nat, j: nat, node: Block, flag: int, key: int)
    returns (d: nat)
    requires s.Treed({}) && Matched(s, 1, g, flag, h, q, nm, i, key)
    requires s.At(1, g, node) && j < node.num && Sized(node, s.M)
    requires (flag == MORE && j == node.num - 1) || (flag == LESS && j == 0)
    ensures var u := Swapped(s, h, q, i, node.slots[j]);
      && g < |u.rows[1]| && Offset(u.file, u.rows[1], g) + j + 1 <= |u.rows[0]|
      && d < |s.rows[0]| && s.rows[0][d].sep == PairOf(nm.slots[i])
      && Replaced(u.rows[0], Offset(u.file, u.rows[1], g) + j, 1, []) == Replaced(s.rows[0], d, 1, [])
  {
    hide Kids, KidsAt, NodeOk, Filled, Laid, FreeList, IsBlock, Offset, RowOk, Kinds, Rooted, SwapTree, Replaced,
         SwapSep, ReKey, Ascending;
    OnDisk(s, {});
    NodeIs(s, {}, h, q, nm);
    NodeIs(s, {}, 1, g, node);
    LeafFits(s, g, node);
    var from := node.slots[j];
    SwapOffset(s.T(), h, q, i, from, 1, g);
    SwapLeaf(s, h, q, nm, i, g, node, from);
    var c := Offset(s.file, s.rows[1], g) + j;
    EdgeOf(s.T(), 1, g, j);
    d := Beside(s, g, node, flag, PairOf(nm.slots[i]));
    BottomAddr(s, c);
    BottomAddr(s, d);
    SideBySide(s.rows[0], d, c, PairOf(nm.slots[i]), PairOf(from));
  }

  /** The leaf in the tree after the replacement. */
  lemma SwapLeaf(s: State, h: nat, q: nat, nm: Block, i: nat, g: nat, node: Block, from: Slot)
    requires s.Treed({}) && h > 1 && s.At(h, q, nm) && i < nm.num && i < |nm.slots| && s.At(1, g, node)
    requires Sized(node, s.M)
    ensures var u := Swapped(s, h, q, i, from);
      && u.M == s.M && u.tag == s.tag && |u.rows| == |s.rows| && g < |u.rows[1]| && u.rows[1][g].addr == node.self
      && node.self in u.file && u.file[node.self] == node && u.file == s.file[nm.self := ReKey(nm, i, from)]
      && KidsAt(u.file, u.rows[1][g]) == KidsOf(node, u.rows[1][g].sep)
      && u.rows[0] == SwapSep(s.rows[0], PairOf(nm.slots[i]), PairOf(from))
      && forall k :: 0 <= k < |s.rows| ==> |u.rows[k]| == |s.rows[k]|
  {
    hide Kids, Filled, Laid, FreeList, IsBlock, Offset, RowOk, NodeOk, ReKey;
    NodeIs(s, {}, 1, g, node);
    NodeIs(s, {}, h, q, nm);
  }

  /** Where the pair to be removed lies at the bottom, next to the leaf's last or first pair. */
  lemma Beside(s: State, g: nat, node: Block, flag: int, m: Sep) returns (d: nat)
    requires s.Treed({}) && s.At(1, g, node) && node.num > 0
    requires (flag == MORE && s.rows[1][g].sep == m) || (flag == LESS && g > 0 && s.rows[1][g - 1].sep == m)
    ensures d < |s.rows[0]| && s.rows[0][d].sep == m
    ensures flag == MORE ==> d == Offset(s.file, s.rows[1], g) + node.num
    ensures flag == LESS ==> d + 1 == Offset(s.file, s.rows[1], g)
  {
    hide Kids, KidsAt, NodeOk, Filled, Laid, FreeList, IsBlock, Offset, RowOk;
    if flag == MORE {
      EdgeOf(s.T(), 1, g, node.num);
      d := Offset(s.file, s.rows[1], g) + node.num;
    } else {
      LastEdge(s.T(), 1, g - 1);
      d := Offset(s.file, s.rows[1], g) - 1;
    }
  }

  /** Pair d is gone from the pairs, and nothing else has changed but the tree above them. */
  ghost predicate Gone(s: State, t: State, d: nat) {
    && t.Treed({}) && |s.rows| > 0 && |t.rows| > 0 && d < |s.rows[0]|
    && t.rows[0] == Replaced(s.rows[0], d, 1, []) && Kept(s.file, t.file)
    && t == s.(file := t.file, rows := t.rows)
  }

  lemma DropGone(s: State, t: State, g: nat, i: nat, node: Block, b: Block)
    requires s.Treed({}) && Drops(s, t, g, i, node, b) && (|s.rows| > 2 ==> node.num >= Half(s.M))
    ensures var d := Offset(s.file, s.rows[1], g) + i;
      Gone(s, t, d) && i < |node.slots| && s.rows[0][d].sep == PairOf(node.slots[i])
  {
    hide State.Treed, Kept, Replaced, Offset, Kids, NodeOk;
    DropTree(s, t, g, i, node, b);
  }

  /** t is the tree after the replacement and the drop. */
  lemma SwapGone(s: State, t: State, h: nat, q: nat, nm: Block, i: nat, g: nat, j: nat, node: Block, b: Block,
                 flag: int, key: int)
    returns (d: nat)
    requires s.Treed({}) && Matched(s, 1, g, flag, h, q, nm, i, key)
    requires s.At(1, g, node) && j < node.num && Sized(node, s.M)
    requires (flag == MORE && j == node.num - 1) || (flag == LESS && j == 0)
    requires NodeOk(b, s.M, node.self, 1) && Sized(b, s.M) && b.num == node.num - 1 && node.num >= Half(s.M)
    requires forall sep :: KidsOf(b, sep) == Replaced(KidsOf(node, sep), j, 1, [])
    requires var u := Swapped(s, h, q, i, node.slots[j]);
      && |u.rows| == |s.rows| && g < |u.rows[1]| && Offset(u.file, u.rows[1], g) + j + 1 <= |u.rows[0]|
      && t == s.(file := LeafTree(u, g, j, 1, [], b).file, rows := LeafTree(u, g, j, 1, [], b).rows)
    requires t.Disk()
    ensures Gone(s, t, d) && s.rows[0][d].sep == PairOf(nm.slots[i])
  {
    hide Kids, KidsAt, NodeOk, Filled, Laid, FreeList, IsBlock, Offset, RowOk, Kinds, Rooted, Ascending, Kept, SwapTree,
         KidsOf, ReKey;
    SwapThenDrop(s, h, q, nm, i, g, j, node, b, flag, key);
    d := SwapDropRow(s, h, q, nm, i, g, j, node, flag, key);
    ReplacedDrop(s.rows[0], d);
    OnDisk(s, {});
    PairsDropped(s.rows[0], d);
    SameNodes(s.rows, t.rows);
    SwapKinds(s, t, h, q, nm, i, g, node, node.slots[j], b);
  }

  lemma {:induction false} SameNodes(R: seq<seq<Edge>>, S: seq<seq<Edge>>)
    requires |R| == |S| && forall k :: 1 <= k < |R| ==> |R[k]| == |S[k]|
    ensures Nodes(R) == Nodes(S)
    decreases |R|
  {
    if |R| > 1 { SameNodes(R[..|R| - 1], S[..|S| - 1]); }
  }

  lemma SwapKinds(s: State, t: State, h: nat, q: nat, nm: Block, i: nat, g: nat, node: Block, from: Slot, b: Block)
    requires s.Treed({}) && s.At(h, q, nm) && s.At(1, g, node) && i < nm.num && i < |nm.slots|
    requires NodeOk(b, s.M, node.self, 1) && t.tag == s.tag
    requires t.file == s.file[nm.self := ReKey(nm, i, from)][node.self := b]
    ensures Kinds(t.file, t.tag, s.lost) && Kept(s.file, t.file)
  {
    hide Kids, Filled, Laid, FreeList, Kinds, Kept, ReKey;
    AtTagged(s, 1, g, node);
    AtTagged(s, h, q, nm);
    SlotReplaced(nm, i, from);
    NodeFacts(b, s.M, node.self, 1);
    assert {} + s.lost == s.lost;
    var f := s.file[nm.self := ReKey(nm, i, from)];
    KeyWrite(s.file, s.tag, s.lost, nm.self, ReKey(nm, i, from));
    KeyWrite(f, s.tag, s.lost, node.self, b);
    KeptTrans(s.file, f, t.file);
  }

  // ---------- the value goes

  /** Block a counts one pair that is no longer there. */
  ghost predicate CountsOneLess(file: map<nat, Block>, R: seq<Edge>, a: nat) {
    forall b :: b in file && file[b].use && !file[b].keys ==>
      && file[b].num == Refs(R, b) + (if b == a then 1 else 0) >= 1
      && HEADER <= file[b].last <= BLOCK
  }

  lemma GoneCounts(s: State, t: State, d: nat, k: int, v: nat)
    requires s.Valued() && Gone(s, t, d) && s.rows[0][d].sep == Pair(k, v)
    ensures v >= ROOT && HasValue(t.file, v) && CountsOneLess(t.file, t.rows[0], BlockOf(v))
    ensures ValuesIn(t.file, t.rows[0]) && |t.rows[0]| == |s.rows[0]| - 1
    ensures t.current == 0 || (t.current in t.file && t.file[t.current].use && !t.file[t.current].keys)
  {
    hide Refs, BlockOf, ValueIn, State.Treed;
    var R := s.rows[0];
    assert HasValue(s.file, R[d].sep.value);
    forall b | b in t.file && t.file[b].use && !t.file[b].keys
      ensures t.file[b].num == Refs(t.rows[0], b) + (if b == BlockOf(v) then 1 else 0) >= 1
      ensures HEADER <= t.file[b].last <= BLOCK
    {
      RefsReplaced(R, d, 1, [], b);
      assert R[d..d + 1] == [R[d]];
      RefsOne(R[d], b);
      NoRefs([], b);
    }
    ReplacedDrop(R, d);
    forall i {:trigger t.rows[0][i].sep} | 0 <= i < |t.rows[0]| && t.rows[0][i].sep.Pair?
      ensures HasValue(t.file, t.rows[0][i].sep.value)
    {
      assert t.rows[0][i] == R[if i < d then i else i + 1];
      assert HasValue(s.file, R[if i < d then i else i + 1].sep.value);
    }
  }

  /** The block of the value has been written with one key less, or freed. */
  ghost predicate Releases(s: State, t: State, a: nat) {
    && a in s.file && s.file[a].num >= 1 && t.M == s.M && t.tag == s.tag && t.rows == s.rows
    && t.keyUse == s.keyUse && t.lost == s.lost && t.Disk()
    && (if s.file[a].num == 1
        then a in t.file && !t.file[a].use && t.file == s.file[a := t.file[a]] &&
            t.current == (if s.current == a then 0 else s.current)
        else t.file == s.file[a := s.file[a].(num := s.file[a].num - 1)] && t.current == s.current)
  }

  lemma ReleaseKinds(s: State, t: State, a: nat)
    requires s.Treed({}) && Releases(s, t, a) && s.file[a].use && !s.file[a].keys
    ensures a !in s.tag && Kinds(t.file, t.tag, {} + s.lost)
  {
    hide Kids, NodeOk, Filled, Rooted, Laid, FreeList, Kinds;
    ValueWrite(s.file, s.tag, {} + s.lost, a, t.file[a]);
  }

  lemma ReleaseDone(s: State, t: State, v: nat)
    requires s.Treed({}) && |s.rows| > 0 && v >= ROOT
    requires HasValue(s.file, v) && CountsOneLess(s.file, s.rows[0], BlockOf(v))
    requires ValuesIn(s.file, s.rows[0]) && s.file[BlockOf(v)].num >= 1 && Releases(s, t, BlockOf(v))
    requires s.current == 0 || (s.current in s.file && s.file[s.current].use && !s.file[s.current].keys)
    ensures t.Treed({}) && t.Valued()
    ensures forall i {:trigger s.rows[0][i].sep} :: 0 <= i < |s.rows[0]| && s.rows[0][i].sep.Pair? ==>
      ValueOf(t.file, s.rows[0][i].sep.value) == ValueOf(s.file, s.rows[0][i].sep.value)
  {
    hide Kids, NodeOk, Filled, Rooted, Laid, FreeList, IsBlock, BlockOf, ValueIn, ValueAt, Refs, Ascending;
    var a := BlockOf(v);
    ReleaseKinds(s, t, a);
    SameTree(s.T(), t.T());
    SameFill(s.T(), t.T());
    forall i {:trigger s.rows[0][i].sep} | 0 <= i < |s.rows[0]| && s.rows[0][i].sep.Pair?
      ensures HasValue(t.file, s.rows[0][i].sep.value)
      ensures ValueOf(t.file, s.rows[0][i].sep.value) == ValueOf(s.file, s.rows[0][i].sep.value)
    {
      var x := s.rows[0][i].sep.value;
      assert HasValue(s.file, x);
      if BlockOf(x) == a {
        RefsSome(s.rows[0], i, a);
        SameBytes(s.file[a], t.file[a], x);
      }
    }
  }

  lemma SameBytes(b: Block, b': Block, v: nat)
    requires b'.self == b.self && b'.bytes == b.bytes && b'.last == b.last
    ensures ValueIn(b', v) <==> ValueIn(b, v)
    ensures ValueAt(b', v) == ValueAt(b, v)
  {
  }

  /** A pair with its value in a block counts. */
  lemma {:induction false} RefsSome(R: seq<Edge>, i: nat, a: nat)
    requires i < |R| && R[i].sep.Pair? && R[i].sep.value >= ROOT && BlockOf(R[i].sep.value) == a
    ensures Refs(R, a) >= 1
  {
    if i > 0 { RefsSome(R[1..], i - 1, a); }
  }

  /** What the map loses. */
  lemma GoneContents(s: State, t: State, u: State, d: nat, k: int, v: nat)
    requires s.Valued() && Gone(s, t, d) && s.rows[0][d].sep == Pair(k, v) && Ascending(s.rows[0]) && u.rows == t.rows
    requires forall i {:trigger t.rows[0][i].sep} :: 0 <= i < |t.rows[0]| && t.rows[0][i].sep.Pair? ==>
      ValueOf(u.file, t.rows[0][i].sep.value) == ValueOf(t.file, t.rows[0][i].sep.value)
    ensures k in Contents(s) && Contents(u) == Contents(s) - {k}
  {
    hide ValueOf, HasValue, PairsOf, State.Treed, Ascending, Kept;
    var R := s.rows[0];
    ReplacedDrop(R, d);
    PairsDropped(R, d);
    PairsAt(R, d);
    KeptValues(s, t);
    forall x | x in PairsOf(t.rows[0])
      ensures ValueOf(u.file, PairsOf(t.rows[0])[x]) == ValueOf(s.file, PairsOf(R)[x])
    {
      SomePair(t.rows[0], x);
      var i :| 0 <= i < |t.rows[0]| && t.rows[0][i].sep == Pair(x, PairsOf(t.rows[0])[x]);
      var j := if i < d then i else i + 1;
      assert t.rows[0][i] == R[j];
      PairsAt(R, j);
      assert HasValue(s.file, R[j].sep.value);
    }
  }

  lemma ValueBlock(s: State, v: nat)
    requires s.Disk() && v >= ROOT && HasValue(s.file, v)
    ensures BlockOf(v) in s.file && s.file[BlockOf(v)].self == BlockOf(v) && s.Writable(s.file[BlockOf(v)])
    ensures !s.file[BlockOf(v)].keys && s.Sum().valueBlocks >= 1
  {
    var a := BlockOf(v);
    InLaid(s, a);
    AddrOf(a);
    AddrOf(s.size);
    NextIndex(a, s.size);
    TotalHas(s.file, Index(a), Index(s.size));
  }

  lemma NextIndex(a: nat, b: nat)
    requires IsBlock(a) && IsBlock(b) && a < b
    ensures Index(a) < Index(b)
  {
  }

  /** One key less in a value block, or the block itself. */
  lemma OneRefLess(b: Block, sum: Tally)
    requires b.use && !b.keys && b.num >= 1
    ensures Plus(Minus(sum, Weight(b)), Weight(b.(num := b.num - 1))) == sum.(refs := sum.refs - 1)
    ensures b.num == 1 ==> Minus(sum, Weight(b)) == sum.(refs := sum.refs - 1, valueBlocks := sum.valueBlocks - 1)
  {
  }

  lemma SameBlockWeight(b: Block, b': Block)
    requires b'.use == b.use && b'.keys == b.keys && b'.num == b.num
    ensures Weight(b') == Weight(b) && forall sum :: Plus(Minus(sum, Weight(b)), Weight(b')) == sum
  {
  }

  lemma OneKeyLess(b: Block, b': Block, sum: Tally)
    requires b.use && b.keys && b'.use && b'.keys && b'.num + 1 == b.num
    ensures Plus(Minus(sum, Weight(b)), Weight(b')) == sum.(keys := sum.keys - 1)
  {
  }

  /** The way down begins below a key found in an inner node. */
  lemma MatchedAt(s: State, l: nat, g: nat, node: Block, i: nat, key: int, flag: int)
    requires s.Treed({}) && s.At(l + 1, g, node) && l >= 1
    requires i < node.num && i < |node.slots| && node.slots[i].key == key
    requires flag == MORE || flag == LESS
    ensures var j := if flag == MORE then i else i + 1;
      Place(s.T(), l, g, j) < |s.rows[l]| && Matched(s, l, Place(s.T(), l, g, j), flag, l + 1, g, node, i, key)
  {
    hide Kids, KidsAt, NodeOk, Filled, FreeList, Laid, Offset;
    ChildIs(s, {}, l, g, node, i);
    ChildIs(s, {}, l, g, node, i + 1);
    PlaceIn(s, l, g, i + 1, node);
  }

  lemma LeafShapes(node: Block, j: nat, M: nat)
    requires Sized(node, M) && Barren(node) && NodeOk(node, M, node.self, 1) && j < node.num
    ensures var b := LeafDrop(node, j);
      && Sized(b, M) && NodeOk(b, M, node.self, 1) && b.num == node.num - 1 && b.bytes == node.bytes
      && forall sep :: KidsOf(b, sep) == Replaced(KidsOf(node, sep), j, 1, [])
  {
    hide CopySlots;
    LeafDropped(node, j, M, End);
    forall sep
      ensures KidsOf(LeafDrop(node, j), sep) == Replaced(KidsOf(node, sep), j, 1, [])
    {
      LeafDropped(node, j, M, sep);
      ReplacedDrop(KidsOf(node, sep), j);
    }
  }

  lemma ShortShapes(node: Block, M: nat)
    requires Sized(node, M) && Barren(node) && NodeOk(node, M, node.self, 1) && 0 < node.num
    ensures var b := node.(num := node.num - 1);
      && Sized(b, M) && NodeOk(b, M, node.self, 1)
      && forall sep :: KidsOf(b, sep) == Replaced(KidsOf(node, sep), node.num - 1, 1, [])
  {
    forall sep
      ensures KidsOf(node.(num := node.num - 1), sep) == Replaced(KidsOf(node, sep), node.num - 1, 1, [])
    {
      LeafShortened(node, M, sep);
      ReplacedDrop(KidsOf(node, sep), node.num - 1);
    }
  }

  lemma DropIs(b: Block, i: nat)
    requires i < b.num < |b.slots|
    ensures LeafDrop(b, i) == b.(slots := CopySlots(b.slots, i, b.slots, i + 1, b.num - i - 1), num := b.num - 1)
    ensures LeafDrop(b, i).self == b.self && LeafDrop(b, i).use == b.use && LeafDrop(b, i).keys == b.keys
  {
  }

  lemma MatchedSlot(s: State, l: nat, g: nat, flag: int, h: nat, q: nat, nm: Block, i: nat, key: int)
    requires Matched(s, l, g, flag, h, q, nm, i, key)
    ensures i < nm.num && i < |nm.slots| && nm.slots[i].key == key
  {
  }

  /** The bottom row ends with the edge behind the last pair. */
  lemma BottomEnds(s: State)
    requires s.Treed({})
    ensures |s.rows| >= 2 && |s.rows[0]| >= 1
  {
    hide Kids, NodeOk, Filled, FreeList, Laid;
    RootAt(s, {}, 0);
    var c := SepDown(s.T(), |s.rows| - 1, 0);
  }

  lemma ContentsSame(s: State, t: State)
    requires |s.rows| > 0 && t.rows == s.rows && t.file == s.file
    ensures Contents(t) == Contents(s)
  {
  }

  lemma FewerKeys(s: State, t: State)
    requires s.Treed({}) && s.Valued() && s.keyTotal >= 1 && t == s.(keyTotal := s.keyTotal - 1)
    ensures t.Treed({}) && t.Valued()
  {
  }

  /** The value of a key found in a node. */
  lemma KeyValue(s: State, l: nat, g: nat, node: Block, i: nat)
    requires s.Valid() && s.At(l, g, node) && i < node.num
    ensures i < |node.slots| && node.slots[i].key in PairsOf(s.rows[0])
    ensures var v := node.slots[i].value;
      && PairsOf(s.rows[0])[node.slots[i].key] == v && v >= ROOT && BlockOf(v) in s.file
      && var b := s.file[BlockOf(v)];
         && 0 <= v - b.self && v - b.self + WORD <= |b.bytes|
         && ValueOf(s.file, v) == ValueAt(b, v) && |ValueAt(b, v)| == Number(b.bytes[v - b.self..v - b.self + WORD])
  {
    hide Kids, NodeOk, Filled, Rooted, Laid, FreeList, PairsOf, BlockOf, Number;
    KeyListed(s, {}, l, g, node, i);
    var c :| 0 <= c < |s.rows[0]| && s.rows[0][c].sep == PairOf(node.slots[i]);
    PairsAt(s.rows[0], c);
    assert HasValue(s.file, s.rows[0][c].sep.value);
  }

  // ---------- the empty database, and the checker

  const SLOT := 16   // sizeof(btree_key)

  /** How many slots a block has for keys of a size; one more than a node may have children. */
  function Capacity(keySize: nat): nat {
    (BLOCK - HEADER) / Aligned(SLOT + keySize)
  }

  lemma CapacityIs(keySize: nat)
    requires 4 <= keySize <= 128
    ensures Capacity(keySize) >= 6 && HEADER + Capacity(keySize) * Aligned(SLOT + keySize) <= BLOCK
    ensures HEADER + (Capacity(keySize) + 1) * Aligned(SLOT + keySize) > BLOCK
  {
    var a := Aligned(SLOT + keySize);
    assert 16 <= a <= 160;
    AtLeastSix(a);
  }

  lemma AtLeastSix(a: nat)
    requires 16 <= a <= 160
    ensures (BLOCK - HEADER) / a >= 6 && (BLOCK - HEADER) / a * a <= BLOCK - HEADER
    ensures ((BLOCK - HEADER) / a + 1) * a > BLOCK - HEADER
  {
    var n := (BLOCK - HEADER) / a;
    assert n * a + (BLOCK - HEADER) % a == BLOCK - HEADER;
    if n < 6 { Small(n, a); }
  }

  lemma Small(n: nat, a: nat)
    requires n < 6 && a <= 160
    ensures n * a <= 800
  {
    assert n * a <= n * 160;
  }

  lemma EmptyValid(s: State, root: Block)
    requires s.M >= 5 && root == Made(s.M, ROOT, true, true).(last := 0)
    requires s == State(s.M, map[ROOT := root], ROOT + BLOCK, 0, 0, 0, 1, 0, map[ROOT := 1],
                        [[Edge(0, End)], [Edge(ROOT, End)]], [], {})
    ensures s.Valid() && Contents(s) == map[]
  {
    MadeIs(s.M, ROOT, true);
    hide Made;
    hide Laid, FreeList, Total, IsBlock, Tree.All, Filled, Rooted, Index, State.Disk;
    EmptyTree(s.T(), root);
    EmptyDisk(s, root);
    EmptyRow(s.rows[0]);
    assert Nodes(s.rows[..1]) == 0;
  }

  lemma EmptyRow(R: seq<Edge>)
    requires R == [Edge(0, End)]
    ensures PairsOf(R) == map[] && Ascending(R)
  {
    assert R[1..] == [];
  }

  lemma EmptyDisk(s: State, root: Block)
    requires s.M >= 5 && Sized(root, s.M) && root.num == 0
    requires root.use && root.keys && root.self == ROOT && |root.bytes| == BLOCK
    requires s.file == map[ROOT := root] && s.size == ROOT + BLOCK && s.free == 0 && s.fl == []
    ensures s.Disk() && s.Sum() == Tally(0, 0, 1, 0)
  {
    Firsts();
    assert Total(s.file, 0) == NONE;
    hide IsBlock, Index;
    forall a: nat | IsBlock(a) && a < s.size
      ensures a == ROOT
    {
      FirstOnly(a);
    }
    assert Total(s.file, 1) == Weight(root);
  }

  lemma Firsts()
    ensures Addr(0) == ROOT && IsBlock(ROOT) && IsBlock(ROOT + BLOCK) && Index(ROOT + BLOCK) == 1
  {
    assert Addr(1) == ROOT + BLOCK;
  }

  lemma FirstOnly(a: nat)
    requires IsBlock(a) && a < ROOT + BLOCK
    ensures a == ROOT
  {
    AddrOf(a);
  }

  lemma EmptyTree(t: Tree, root: Block)
    requires t.M >= 5 && Sized(root, t.M) && Barren(root)
    requires root.num == 0 && root.use && root.keys && root.leaf && root.self == ROOT
    requires t == Tree(t.M, map[ROOT := root], map[ROOT := 1], [[Edge(0, End)], [Edge(ROOT, End)]])
    ensures t.All() && Filled(t) && Rooted(t)
  {
    KidsOne(t.file, Edge(ROOT, End));
    assert t.Ok(1);
    assert t.Link(0);
  }

  /** What db_checker asks of the blocks. */
  ghost predicate CheckedOk(s: State) {
    && s.size >= ROOT + BLOCK && IsBlock(s.size)
    && (forall a: nat :: IsBlock(a) && a < s.size ==> a in s.file && s.file[a].self == a)
    && s.Sum() == Tally(s.keyTotal, s.keyTotal, s.keyUse, s.valueUse)
  }

  /** The checker accepts the database after every operation. */
  lemma ValidIsChecked(s: State)
    requires s.Valid()
    ensures CheckedOk(s)
  {
    hide Kids, NodeOk, Filled, Rooted, FreeList, Total;
    AddrOf(s.size);
    RootFirst(s.size);
  }

  /** The next block of the file. */
  lemma StepOn(k: nat, n: nat)
    requires k < n
    ensures IsBlock(Addr(k)) && Addr(k) < Addr(n)
    ensures Addr(k) + BLOCK == Addr(k + 1) && (Addr(k + 1) < Addr(n) <==> k + 1 < n)
  {
  }

  lemma NoBlocks(file: map<nat, Block>)
    ensures Total(file, 0) == NONE && InOrder(file, 0)
  {
  }

  /** The first k blocks say of themselves where they are. */
  ghost predicate InOrder(file: map<nat, Block>, k: nat) {
    forall j :: 0 <= j < k ==> Addr(j) in file && file[Addr(j)].self == Addr(j)
  }

  lemma InOrderNext(file: map<nat, Block>, k: nat)
    requires InOrder(file, k) && Addr(k) in file && file[Addr(k)].self == Addr(k)
    ensures InOrder(file, k + 1)
  {
  }

  lemma NextTotal(file: map<nat, Block>, k: nat, b: Block)
    requires Addr(k) in file && file[Addr(k)] == b
    ensures Total(file, k + 1) == Plus(Total(file, k), Weight(b))
  {
  }

  /** The file has a block wherever one fits. */
  ghost predicate AllThere(file: map<nat, Block>, size: nat) {
    IsBlock(size) && size > ROOT && forall a: nat :: IsBlock(a) && a < size ==> a in file
  }

  /** The loop over the blocks is at the k-th one. */
  lemma Present(file: map<nat, Block>, size: nat, k: nat)
    requires AllThere(file, size) && k < Index(size)
    ensures Addr(k) in file && IsBlock(Addr(k)) && Addr(k) < size
    ensures Addr(k) + BLOCK == Addr(k + 1) && (Addr(k + 1) < size <==> k + 1 < Index(size))
  {
    AddrOf(size);
    StepOn(k, Index(size));
  }

  lemma LastAddr(file: map<nat, Block>, size: nat)
    requires AllThere(file, size)
    ensures Index(size) > 0 && size > ROOT
  {
    AddrOf(size);
  }

  lemma SumIs(s: State)
    ensures s.Sum() == Total(s.file, Index(s.size))
  {
  }

  lemma RootFirst(a: nat)
    requires IsBlock(a) && a > ROOT
    ensures a >= ROOT + BLOCK
  {
  }

  lemma NotInPlace(s: State, i: nat)
    requires IsBlock(i) && i < s.size && (i !in s.file || s.file[i].self != i)
    ensures !CheckedOk(s)
  {
  }

  /** The totals decide once every block is in its place. */
  lemma InPlace(s: State, sum: Tally)
    requires IsBlock(s.size) && s.size >= ROOT + BLOCK && s.Sum() == sum
    requires InOrder(s.file, Index(s.size))
    ensures CheckedOk(s) <==> sum == Tally(s.keyTotal, s.keyTotal, s.keyUse, s.valueUse)
  {
    hide IsBlock, Index, Addr, Total;
    forall a: nat | IsBlock(a) && a < s.size
      ensures a in s.file && s.file[a].self == a
    {
      AddrOf(a);
      NextIndex(a, s.size);
    }
  }
}
