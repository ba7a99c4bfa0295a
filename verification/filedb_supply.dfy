/**
How many blocks an insertion into the file database takes, read off the state it finds: the full nodes on the way of the
key, and a block for the value when the current one has no room. What the free list lacks the file must grow by.
*/
module FileSupply {
  import opened FileRows
  import opened FileBlocks
  import opened FileSteps
  import opened FileMoves
  import opened FileEdits
  import opened FileDisk
  import opened FileState
  import opened FileValues

  // ---------- blocks taken

  /** How many of n blocks are still missing when so many are spare. */
  ghost function Short(n: nat, spare: nat): nat {
    if n > spare then n - spare else 0
  }

  /** From s to t, and from request a to request b, n blocks have been taken: first the free ones, then new ones. */
  ghost predicate Took(s: State, t: State, a: nat, b: nat, n: nat) {
    && b == a + Short(n, |s.fl|) && |t.fl| == Short(|s.fl|, n)
    && t.size == s.size + BLOCK * Short(n, |s.fl|)
  }

  lemma TookNone(s: State, t: State, a: nat)
    requires t.fl == s.fl && t.size == s.size
    ensures Took(s, t, a, a, 0)
  {
  }

  lemma TookKept(s: State, t: State, u: State, a: nat, b: nat, n: nat)
    requires Took(s, t, a, b, n) && u.fl == t.fl && u.size == t.size
    ensures Took(s, u, a, b, n)
  {
  }

  lemma TookFrom(s: State, t: State, u: State, a: nat, b: nat, n: nat)
    requires Took(t, u, a, b, n) && s.fl == t.fl && s.size == t.size
    ensures Took(s, u, a, b, n)
  {
  }

  lemma TookOn(s: State, t: State, u: State, a: nat, b: nat, c: nat, n: nat, m: nat)
    requires Took(s, t, a, b, n) && Took(t, u, b, c, m)
    ensures Took(s, u, a, c, n + m)
  {
  }

  lemma ShortOn(s: State, t: State, a: nat, b: nat, c: nat, n: nat, m: nat)
    requires Took(s, t, a, b, n) && c <= b + Short(m, |t.fl|)
    ensures c <= a + Short(n + m, |s.fl|)
  {
  }

  lemma ShortMore(n: nat, m: nat, spare: nat)
    requires n <= m
    ensures Short(n, spare) <= Short(m, spare)
  {
  }

  lemma FreeMeans(s: State)
    requires s.Disk()
    ensures s.free == 0 <==> s.fl == []
  {
    if s.fl != [] { assert ChainAt(s.file, s.fl, 0); }
  }

  // ---------- full nodes on the way of a key

  /** The node of level l in which the key belongs is full; there is none if the key is met above. */
  ghost predicate FullOn(s: State, l: nat, key: int)
    requires l < |s.rows|
  {
    exists g: nat :: FullAt(s, l, key, g)
  }

  ghost predicate FullAt(s: State, l: nat, key: int, g: nat)
    requires l < |s.rows|
  {
    Between(s.rows[l], g, key) && s.rows[l][g].addr in s.file && s.file[s.rows[l][g].addr].num + 1 >= s.M
  }

  /** How many full nodes there are on the way of the key on the levels up to l. */
  ghost function SplitsTo(s: State, l: nat, key: int): nat
    requires l < |s.rows|
  {
    if l == 0 then 0 else SplitsTo(s, l - 1, key) + if FullOn(s, l, key) then 1 else 0
  }

  /** The current block of values has room. */
  ghost predicate HasRoom(s: State, need: nat) {
    s.current != 0 && s.current in s.file && s.file[s.current].last + need <= BLOCK
  }

  /** The blocks an insertion takes: two for a full root, one for each full node below it, and one for the value. */
  ghost function Blocks(s: State, key: int, need: nat): nat
    requires |s.rows| >= 2
  {
    (if ROOT in s.file && s.file[ROOT].num + 1 >= s.M then 2 else 0) + BlocksBelow(s, |s.rows| - 2, key, need)
  }

  ghost function BlocksBelow(s: State, l: nat, key: int, need: nat): nat
    requires l < |s.rows|
  {
    SplitsTo(s, l, key) + if Listed(s.rows[0], key) || HasRoom(s, need) then 0 else 1
  }

  lemma SplitsStep(s: State, l: nat, key: int)
    requires 1 <= l < |s.rows|
    ensures SplitsTo(s, l, key) == SplitsTo(s, l - 1, key) + if FullOn(s, l, key) then 1 else 0
  {
  }

  lemma NoSplits(s: State, key: int)
    requires |s.rows| > 0
    ensures SplitsTo(s, 0, key) == 0
  {
  }

  lemma BelowIs(s: State, l: nat, key: int, need: nat)
    requires l < |s.rows|
    ensures BlocksBelow(s, l, key, need) ==
      SplitsTo(s, l, key) + if Listed(s.rows[0], key) || HasRoom(s, need) then 0 else 1
  {
  }

  lemma BlocksAre(s: State, key: int, need: nat)
    requires |s.rows| >= 2
    ensures Blocks(s, key, need) ==
      (if ROOT in s.file && s.file[ROOT].num + 1 >= s.M then 2 else 0) + BlocksBelow(s, |s.rows| - 2, key, need)
  {
  }

  lemma TookAsks(s: State, t: State, a: nat, b: nat, n: nat)
    requires Took(s, t, a, b, n)
    ensures b == a + Short(n, |s.fl|)
  {
  }

  // ---------- what the steps leave alone

  /** The levels below l are the same in both. */
  ghost predicate Deep(s: State, t: State, l: nat) {
    && l <= |s.rows| && l <= |t.rows| && t.M == s.M && (forall q :: 0 <= q < l ==> t.rows[q] == s.rows[q])
    && forall a :: a in s.tag && s.tag[a] < l ==>
         a in t.tag && t.tag[a] == s.tag[a] && (a in s.file ==> a in t.file && t.file[a] == s.file[a])
  }

  lemma DeepTrans(s: State, t: State, u: State, l: nat)
    requires Deep(s, t, l) && Deep(t, u, l)
    ensures Deep(s, u, l)
  {
  }

  lemma DeepFull(s: State, x: set<nat>, t: State, l: nat, q: nat, key: int)
    requires s.Treed(x) && Deep(s, t, l) && 1 <= q < l
    ensures FullOn(t, q, key) <==> FullOn(s, q, key)
  {
    hide Kids, NodeOk, Filled, Rooted, Laid, FreeList, Kinds, Ascending;
    OkAt(s.T(), q);
    forall g: nat
      ensures FullAt(s, q, key, g) <==> FullAt(t, q, key, g)
    {
      if g < |s.rows[q]| { TagAt(s.T(), q, g); AddrIn(s.T(), q, g); }
    }
  }

  lemma AddrIn(s: Tree, l: nat, g: nat)
    requires 1 <= l < |s.rows| && s.Ok(l) && g < |s.rows[l]|
    ensures s.rows[l][g].addr in s.file
  {
    assert NodeAt(s.file, s.tag, s.M, s.rows[l][g].addr, l);
  }

  lemma {:induction false} DeepSplits(s: State, x: set<nat>, t: State, l: nat, q: nat, key: int)
    requires s.Treed(x) && Deep(s, t, l) && q < l
    ensures SplitsTo(t, q, key) == SplitsTo(s, q, key)
    decreases q
  {
    hide State.Treed, FullOn, Deep;
    if q > 0 {
      DeepFull(s, x, t, l, q, key);
      DeepRows(s, t, l);
      DeepSplits(s, x, t, l, q - 1, key);
    }
  }

  lemma DeepRows(s: State, t: State, l: nat)
    requires Deep(s, t, l)
    ensures l <= |s.rows| && l <= |t.rows|
  {
  }

  lemma CreatedDeep(s: State, x: set<nat>, t: State, y: Block, leaf: bool, l: nat)
    requires s.Treed(x) && Created(s, t, y, leaf) && l <= |s.rows|
    ensures Deep(s, t, l)
  {
    hide Kids, NodeOk, Filled, Rooted, Laid, FreeList, Ascending, Made, State.Sum;
    CreatedOk(s, x, t, y, leaf);
  }

  lemma BothDeep(s: State, t: State, u: State, x: Block, y: Block, leaf: bool)
    requires s.Treed({}) && Created(s, t, x, leaf) && Created(t, u, y, leaf)
    ensures |u.rows| == |s.rows| && |s.rows| > 0 && Deep(s, u, |s.rows| - 1)
  {
    hide State.Treed, Deep, Made;
    OnDisk(s, {});
    CreatedOk(s, {}, t, x, leaf);
    CreatedDeep(s, {}, t, x, leaf, |s.rows| - 1);
    CreatedDeep(t, {} + {x.self}, u, y, leaf, |s.rows| - 1);
    DeepTrans(s, t, u, |s.rows| - 1);
  }

  /** A split of a node of level l does not touch the levels below. */
  lemma SplitDeep(s: State, t: State, l: nat, g: nat, i: nat, node0: Block, x0: Block, y0: Block)
    requires s.Treed({y0.self}) && Full(s, l, g, i, node0, x0, y0) && CanSplit(s.T(), l, g, i, y0, Half(s.M))
    requires Splits(s, t, l, g, i, node0, x0, y0)
    ensures Deep(s, t, l)
  {
    hide Kids, KidsAt, Offset, Filled, Rooted, Laid, FreeList, SplitUp, SplitOff, RowOk, Ascending, FilledRow,
         CopySlots;
    FullSplits(s, l, g, i, node0, x0, y0);
    SplitTreeIs(s, l, g, i, node0, x0, y0);
    TaggedAt(s, {y0.self}, l + 1, g, node0);
    TaggedAt(s, {y0.self}, l, Place(s.T(), l, g, i), x0);
  }

  lemma TaggedAt(s: State, x: set<nat>, l: nat, g: nat, node: Block)
    requires s.Treed(x) && s.At(l, g, node)
    ensures node.self in s.tag && s.tag[node.self] == l
  {
    hide Kids, Laid, FreeList, Filled, Kinds, Offset, NodeOk;
    OkAt(s.T(), l);
    TagAt(s.T(), l, g);
  }

  /** Nor does a split of the root touch what is below it. */
  lemma LiftDeep(s: State, t: State, x: Block, r: Block, y0: Block)
    requires Lifts(s, x, r, y0) && CanLift(s, x, r, y0)
    requires t.T() == Lifted(s, x, r, y0)
    ensures Deep(s, t, |s.rows| - 1)
  {
    hide Kids, KidsAt, NodeOk, Offset, Filled, Rooted, Laid, FreeList, Total, RowOk, Ascending, FilledRow, CopySlots,
         Barren;
    LiftIs(s, x, r, y0);
    LiftSplitFile(s, x, r, y0);
    LiftTags(s, x, r, y0);
    RootAt(s, {x.self, y0.self}, 0);
    TaggedAt(s, {x.self, y0.self}, |s.rows| - 1, 0, s.file[ROOT]);
    LiftRows(s, x, r, y0);
  }

  lemma LiftRows(s: State, x: Block, r: Block, y0: Block)
    requires CanLift(s, x, r, y0)
    ensures |Lifted(s, x, r, y0).rows| == |s.rows| + 1
    ensures forall q :: 0 <= q < |s.rows| - 1 ==> Lifted(s, x, r, y0).rows[q] == s.rows[q]
  {
    hide CanSplit, SplitUp, SplitOff, Offset;
  }

  /** No node of level l is full. */
  ghost predicate NoneFull(s: State, l: nat)
    requires l < |s.rows|
  {
    forall g :: 0 <= g < |s.rows[l]| && s.rows[l][g].addr in s.file ==> s.file[s.rows[l][g].addr].num + 1 < s.M
  }

  lemma NoneFullOn(s: State, l: nat, key: int)
    requires l < |s.rows| && NoneFull(s, l)
    ensures !FullOn(s, l, key)
  {
  }

  /** The halves of the root are not full. */
  lemma LiftHalves(s: State, t: State, x: Block, r: Block, y0: Block)
    requires Lifts(s, x, r, y0) && CanLift(s, x, r, y0) && t.T() == Lifted(s, x, r, y0) && x.num <= s.M
    ensures |t.rows| == |s.rows| + 1 && NoneFull(t, |s.rows| - 1)
  {
    hide Kids, KidsAt, NodeOk, Filled, Rooted, Laid, FreeList, Total, RowOk, Ascending, FilledRow, CopySlots, Barren,
         Kinds, LiftTree, SplitUp, SplitOff, Place, Offset;
    LiftIs(s, x, r, y0);
    NodeFacts(r, s.M, ROOT, |s.rows|);
    NodeFacts(x, s.M, x.self, |s.rows| - 1);
    LiftSpot(s, x, r);
    LiftFile(s, x, r);
    LiftSplitFile(s, x, r, y0);
    SplitNums(r, x, y0, s.M);
    var top := |s.rows| - 1;
    var u, t' := LiftedOf(s, x, r), Lifted(s, x, r, y0);
    assert t'.rows[top] == Replaced(u.rows[top], 0, 1, t'.rows[top]);
    forall g | 0 <= g < |t.rows[top]|
      ensures t.rows[top][g].addr == x.self || t.rows[top][g].addr == y0.self
    {
    }
  }

  /** A root that has been split adds no full node. */
  lemma GrownSplits(s: State, t: State, key: int)
    requires s.Treed({}) && |s.rows| >= 2 && |t.rows| == |s.rows| + 1
    requires Deep(s, t, |s.rows| - 1) && NoneFull(t, |t.rows| - 2)
    ensures SplitsTo(t, |t.rows| - 2, key) == SplitsTo(s, |s.rows| - 2, key)
  {
    hide State.Treed, FullOn, Deep, NoneFull;
    NoneFullOn(t, |t.rows| - 2, key);
    DeepSplits(s, {}, t, |s.rows| - 1, |s.rows| - 2, key);
  }

  /** No full node up to level l, so none on any level below. */
  lemma SplitsUp(s: State, l: nat, key: int)
    requires 1 <= l < |s.rows| && SplitsTo(s, l, key) == 0
    ensures !FullOn(s, l, key) && SplitsTo(s, l - 1, key) == 0
  {
    hide FullOn;
  }

  // ---------- where the key goes

  lemma BetweenOnce(R: seq<Edge>, c: nat, d: nat, k: int)
    requires Ascending(R) && Between(R, c, k) && Between(R, d, k)
    ensures c == d
  {
    if c < d { NotLater(R, c, d, k); }
    if d < c { NotLater(R, d, c, k); }
  }

  lemma NotLater(R: seq<Edge>, c: nat, d: nat, k: int)
    requires Ascending(R) && c < d && Between(R, c, k)
    ensures !Between(R, d, k)
  {
    assert d < |R| && c < d - 1 ==> Less(R[c].sep, R[d - 1].sep);
  }

  /** Where the key belongs decides whether there is a full node on its way. */
  lemma FullHere(s: State, x: set<nat>, l: nat, c: nat, node: Block, key: int)
    requires s.Treed(x) && s.At(l, c, node) && Between(s.rows[l], c, key)
    ensures FullOn(s, l, key) <==> node.num + 1 >= s.M
  {
    hide Kids, NodeOk, Filled, Rooted, Laid, FreeList, Kinds, Offset, Between;
    RowAscends(s.T(), l);
    if node.num + 1 >= s.M { assert FullAt(s, l, key, c); }
    if FullOn(s, l, key) {
      var g: nat :| FullAt(s, l, key, g);
      BetweenOnce(s.rows[l], c, g, key);
    }
  }

  /** Below a level that separates by the key itself there is nothing on its way. */
  lemma {:induction false} NoneBelow(s: State, x: set<nat>, l: nat, key: int)
    requires s.Treed(x) && l < |s.rows| && Listed(s.rows[l], key)
    ensures SplitsTo(s, l, key) == 0 && Listed(s.rows[0], key)
    decreases l
  {
    hide Kids, KidsAt, NodeOk, Filled, Rooted, Laid, FreeList, Kinds, Offset, Ascending, RowOk;
    if l > 0 {
      OnDisk(s, x);
      RowAscends(s.T(), l);
      if FullOn(s, l, key) {
        var g: nat :| FullAt(s, l, key, g);
        NotBetween(s.rows[l], g, key);
      }
      ListedDown(s, x, l, key);
      NoneBelow(s, x, l - 1, key);
    }
  }

  lemma ListedDown(s: State, x: set<nat>, l: nat, key: int)
    requires s.Treed(x) && 1 <= l < |s.rows| && Listed(s.rows[l], key)
    ensures Listed(s.rows[l - 1], key)
  {
    hide Kids, KidsAt, NodeOk, Filled, Rooted, Laid, FreeList, Kinds, Offset, Ascending, RowOk;
    var i: nat :| i < |s.rows[l]| && s.rows[l][i].sep.Pair? && s.rows[l][i].sep.key == key;
    LastEdge(s.T(), l, i);
  }

  /** A key in a node of level l + 1 separates level l. */
  lemma MetAbove(s: State, x: set<nat>, l: nat, g: nat, node: Block, i: nat)
    requires s.Treed(x) && l >= 1 && s.At(l + 1, g, node) && i < node.num
    ensures i < |node.slots| && Listed(s.rows[l], node.slots[i].key)
  {
    hide Kids, NodeOk, Offset, Filled, Laid, FreeList;
    NodeIs(s, x, l + 1, g, node);
    EdgeOf(s.T(), l + 1, g, i);
  }

  /** Blocks of values are the same after a step inside the tree, and so is the room in the current one. */
  lemma RoomStays(s: State, t: State, need: nat)
    requires s.Valued() && SamePairs(s, t)
    ensures HasRoom(t, need) <==> HasRoom(s, need)
  {
  }

  /** Splitting the root leaves what is wanted below it. */
  lemma BlocksStay(s: State, t: State, key: int, need: nat)
    requires |s.rows| >= 2 && |t.rows| >= 2 && s.Valued() && SamePairs(s, t)
    requires SplitsTo(t, |t.rows| - 2, key) == SplitsTo(s, |s.rows| - 2, key)
    ensures BlocksBelow(t, |t.rows| - 2, key, need) == BlocksBelow(s, |s.rows| - 2, key, need)
  {
    RoomStays(s, t, need);
  }

  /** A value of the given length has gone behind those of the current block, or to the start of another one. */
  ghost predicate Ends(s: State, t: State, need: nat) {
    && t.current != 0 && t.current in t.file
    && if s.current != 0 && s.current in s.file && s.file[s.current].last + need <= BLOCK
       then t.current == s.current && t.file[t.current].last == s.file[s.current].last + need
       else t.file[t.current].last == HEADER + need
  }

  lemma EndsFrom(s: State, t: State, u: State, need: nat)
    requires s.Valued() && SamePairs(s, t) && Ends(t, u, need)
    ensures Ends(s, u, need)
  {
  }

  lemma EndsKept(s: State, t: State, u: State, need: nat, a: nat)
    requires Ends(s, t, need) && u.current == t.current && a != t.current && a in u.file
    requires u.file == t.file[a := u.file[a]]
    ensures Ends(s, u, need)
  {
  }

  // ---------- what the numbers say

  /** The nodes counted, one for each level below the root on which the key's node is full. */
  lemma {:induction false} SplitsAreLevels(s: State, l: nat, key: int)
    requires l < |s.rows|
    ensures SplitsTo(s, l, key) == |set q: nat | 1 <= q <= l && q < |s.rows| && FullOn(s, q, key)|
  {
    hide FullOn;
    var A := set q: nat | 1 <= q <= l && q < |s.rows| && FullOn(s, q, key);
    if l > 0 {
      SplitsAreLevels(s, l - 1, key);
      var B := set q: nat | 1 <= q <= l - 1 && q < |s.rows| && FullOn(s, q, key);
      assert A == if FullOn(s, l, key) then B + {l} else B;
    } else {
      assert A == {};
    }
  }

  /** With no full node on its way, and room in the current block, a pair takes no block at all. */
  lemma NothingWanted(s: State, key: int, need: nat)
    requires |s.rows| >= 2 && ROOT in s.file && s.file[ROOT].num < s.M - 1
    requires forall l: nat, g: nat {:trigger s.rows[l], Between(s.rows[l], g, key)} ::
      1 <= l < |s.rows| - 1 && Between(s.rows[l], g, key) && s.rows[l][g].addr in s.file ==>
      s.file[s.rows[l][g].addr].num < s.M - 1
    requires s.current != 0 && s.current in s.file && s.file[s.current].last + need <= BLOCK
    ensures Blocks(s, key, need) == 0
  {
    NoneOnWay(s, |s.rows| - 2, key);
  }

  lemma {:induction false} NoneOnWay(s: State, l: nat, key: int)
    requires l < |s.rows|
    requires forall q: nat, g: nat {:trigger s.rows[q], Between(s.rows[q], g, key)} ::
      1 <= q <= l && Between(s.rows[q], g, key) && s.rows[q][g].addr in s.file ==>
      s.file[s.rows[q][g].addr].num < s.M - 1
    ensures SplitsTo(s, l, key) == 0
  {
    if l > 0 {
      assert !FullOn(s, l, key);
      NoneOnWay(s, l - 1, key);
    }
  }

  /** A tree of one node holds its pairs in it. */
  lemma SoleRoot(s: State)
    requires s.Valid() && |s.rows| == 2
    ensures ROOT in s.file && s.file[ROOT].num == s.keyTotal
  {
    hide Filled, Laid, FreeList, NodeOk, Kids, State.Sum, State.Valued;
    RootAt(s, {}, 0);
    NodeIs(s, {}, 1, 0, s.file[ROOT]);
    KidsOne(s.file, s.rows[1][0]);
    assert s.rows[1] == [s.rows[1][0]];
    assert s.T().Link(0);
    LeafFits(s, 0, s.file[ROOT]);
  }

  /** A tree of one node that has room takes a block only for a value that the current one has no room for. */
  lemma SoleWants(s: State, key: int, need: nat)
    requires s.Valid() && |s.rows| == 2 && s.keyTotal + 1 < s.M
    ensures Blocks(s, key, need) == if Listed(s.rows[0], key) || HasRoom(s, need) then 0 else 1
    ensures s.file[ROOT].num + 1 < s.M
  {
    SoleRoot(s);
  }
}
