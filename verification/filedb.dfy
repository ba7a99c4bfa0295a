/**
The file database of sdb_test/filedb.c: a B-tree of key blocks, walked once from the root down by every operation, and
blocks of values that count their keys. The file is a map from addresses to blocks.
*/
module FileDb {
  import opened Octets
  import opened Grants
  import opened FileRows
  import opened FileBlocks
  import opened FileSteps
  import opened FileMoves
  import opened FileEdits
  import opened FileDisk
  import opened FileState
  import opened FileValues
  import opened FileShrink
  import opened FileDrop
  import opened FileSupply
  import opened FileKeys

  datatype Option<T> = None | Some(value: T)

  class Db {
    const keyType: int
    const keySize: nat
    const keyAlign: nat
    const M: nat
    const base: int            // where the numbers that stand for integer keys start; the program has no such field
    const grows: nat -> bool   // whether the file can be made longer, request by request
    var asks: nat              // how often it has been asked for
    var file: map<nat, Block>
    var size: nat        // where the file ends
    var free: nat        // the head of the free list, 0 for none
    var current: nat     // the value block that is being filled, 0 for none
    var keyTotal: nat
    var keyUse: nat      // key_use_block
    var valueUse: nat    // value_use_block

    ghost var tag: map<nat, nat>
    ghost var rows: seq<seq<Edge>>
    ghost var fl: seq<nat>
    ghost var lost: set<nat>   // key blocks in use that no node of the tree leads to

    /** A file with an empty root, for keys of a type and size the program accepts. */
    constructor (keyType: int, keySize: nat, grows: nat -> bool, base: int)
      requires KeyOk(keyType, keySize)
      ensures S().Valid() && Map() == map[] && HeadOk()
      ensures this.keyType == keyType && this.keySize == keySize && this.base == base
      ensures this.grows == grows && asks == 0 && lost == {}
      ensures keyAlign % 16 == 0 && 16 + keySize <= keyAlign < 32 + keySize
      ensures 32 + (M + 1) * keyAlign <= 8192 < 32 + (M + 2) * keyAlign
      ensures |rows| == 2 && keyTotal == 0 && current == 0 && fl == []
    {
      CapacityIs(keySize);
      this.keyType, this.keySize, this.base, keyAlign := keyType, keySize, base, Aligned(SLOT + keySize);
      M := Capacity(keySize) - 1;
      var root := Made(Capacity(keySize) - 1, ROOT, true, true).(last := 0);
      file, size, free, current := map[ROOT := root], ROOT + BLOCK, 0, 0;
      keyTotal, keyUse, valueUse := 0, 1, 0;
      tag, fl, lost := map[ROOT := 1], [], {};
      this.grows, asks := grows, 0;
      rows := [[Edge(0, End)], [Edge(ROOT, End)]];
      new;
      EmptyValid(S(), root);
    }

    /** db_create: other key types and sizes are refused. */
    static method Create(keyType: int, keySize: nat, grows: nat -> bool, base: int) returns (rc: int, db: Db?)
      ensures rc == 0 || rc == -1
      ensures rc == 0 <==>
        if keyType == 0 || keyType == 1 then 4 <= keySize <= 128
        else (keyType == 2 && keySize == 4) || (keyType == 3 && keySize == 8)
      ensures rc == 0 ==> db != null && fresh(db) && db.S().Valid() && db.Map() == map[] && db.HeadOk()
      ensures rc == 0 ==> db.keyType == keyType && db.keySize == keySize && db.grows == grows && db.base == base
    {
      if !KeyOk(keyType, keySize) {
        return -1, null;
      }
      rc := 0;
      db := new Db(keyType, keySize, grows, base);
    }

    /** The head of the file describes keys the program accepts, and how many of them a block holds. */
    predicate HeadOk() {
      && KeyOk(keyType, keySize) && keyAlign == Aligned(SLOT + keySize)
      && M == (BLOCK - HEADER) / keyAlign - 1
    }

    /** The database as a value. */
    ghost function S(): State
      reads this
    {
      State(M, file, size, free, current, keyTotal, keyUse, valueUse, tag, rows, fl, lost)
    }

    method NodeFlush(n: Block)
      requires S().Disk() && S().Writable(n)
      modifies `file
      ensures S().Disk() && file == old(file)[n.self := n]
      ensures S().Sum() == Plus(Minus(old(S().Sum()), Weight(old(file)[n.self])), Weight(n))
    {
      hide FreeList, Total;
      AddrOf(n.self);
      TotalWrite(file, Index(n.self), n, Index(size));
      Rewritten(file, free, fl, n.self, n);
      LaidWrite(file, size, M, n.self, n);
      file := file[n.self := n];
    }

    /** node_create: the head of the free list, or a new block at the end of a file that can grow. */
    method NodeCreate(leaf: bool, keys: bool) returns (ok: bool, node: Block)
      requires S().Disk()
      modifies `asks, `file, `size, `free, `current, `keyUse, `valueUse, `fl
      ensures asks == old(asks) + (if old(free) == 0 then 1 else 0) && (ok <==> Granted(grows, old(asks), asks))
      ensures S().Disk() && (!ok ==> S() == old(S()))
      ensures ok ==> node == Made(M, node.self, leaf, keys) && file == old(file)[node.self := node]
      ensures ok ==> node.self in old(file) ==> !old(file)[node.self].use
      ensures ok ==> IsBlock(node.self) && S().Sum() == Plus(old(S().Sum()), Weight(node))
      ensures ok ==> keyUse == old(keyUse) + if keys then 1 else 0
      ensures ok ==> valueUse == old(valueUse) + if keys then 0 else 1
      ensures ok ==> current == if keys then old(current) else node.self
      ensures ok && keys ==> Created(old(S()), S(), node, leaf)
      ensures asks == old(asks) + Short(1, |old(fl)|) && (ok ==> Took(old(S()), S(), old(asks), asks, 1))
      ensures old(free) != 0 ==> old(free) in old(file)
      ensures ok ==> free == if old(free) == 0 then 0 else old(file)[old(free)].free
    {
      hide FreeList, Total, Made, IsBlock, Index, State.Disk, State.Sum;
      FreeMeans(S());
      ok := true;
      if free != 0 {
        NextFree();
        node := TakeFree(leaf, keys);
      } else {
        asks := asks + 1;
        if !grows(asks - 1) {
          return false, Made(M, 0, leaf, keys);
        }
        node := Append(leaf, keys);
      }
      ghost var made := S();
      if keys {
        keyUse := keyUse + 1;
      } else {
        valueUse := valueUse + 1;
        current := node.self;
      }
      CountsOnly(made, S());
    }

    method TakeFree(leaf: bool, keys: bool) returns (node: Block)
      requires S().Disk() && free in file && fl != [] && free == fl[0] && !file[free].use && file[free].self == free
      modifies `file, `free, `fl
      ensures S().Disk() && node == Made(M, old(free), leaf, keys)
      ensures node.self == old(free) && file == old(file)[node.self := node]
      ensures IsBlock(node.self) && S().Sum() == Plus(old(S().Sum()), Weight(node)) && free == old(file[free].free)
      ensures fl == old(fl)[1..]
    {
      hide FreeList, Total;
      var head := file[free];
      node := Made(M, head.self, leaf, keys);
      AddrOf(node.self);
      TotalWrite(file, Index(node.self), node, Index(size));
      Taken(file, free, fl, node);
      LaidWrite(file, size, M, node.self, node);
      free := head.free;
      fl := fl[1..];
      file := file[node.self := node];
    }

    method Append(leaf: bool, keys: bool) returns (node: Block)
      requires S().Disk() && free == 0
      modifies `file, `size
      ensures S().Disk() && node == Made(M, old(size), leaf, keys)
      ensures node.self == old(size) && file == old(file)[node.self := node]
      ensures size == old(size) + BLOCK
      ensures node.self !in old(file) && IsBlock(node.self) && S().Sum() == Plus(old(S().Sum()), Weight(node))
    {
      hide FreeList, Total;
      node := Made(M, size, leaf, keys);
      LaidMore(file, size, M, node);
      TotalMore(file, size, node);
      Appended(file, free, fl, size, node);
      size := size + BLOCK;
      file := file[node.self := node];
    }

    lemma NextFree()
      requires S().Disk() && free != 0
      ensures fl != [] && free == fl[0] && free in file && !file[free].use && file[free].self == free
    {
      assert ChainAt(file, fl, 0);
    }

    method NodeDestroy(n: Block)
      requires S().Disk() && S().Writable(n) && (if n.keys then keyUse > 0 else valueUse > 0)
      modifies `file, `free, `keyUse, `valueUse, `fl
      ensures S().Disk() && file == old(file)[n.self := n.(free := old(free), num := 0, use := false)] && free == n.self
      ensures S().Sum() == Minus(old(S().Sum()), Weight(old(file)[n.self]))
      ensures keyUse == old(keyUse) - (if n.keys then 1 else 0) && valueUse == old(valueUse) - if n.keys then 0 else 1
    {
      hide FreeList, Total;
      var gone := n.(free := free, num := 0, use := false);
      AddrOf(n.self);
      TotalWrite(file, Index(n.self), gone, Index(size));
      Released(file, free, fl, n.self, gone);
      LaidWrite(file, size, M, n.self, gone);
      free := n.self;
      fl := [n.self] + fl;
      if n.keys {
        keyUse := keyUse - 1;
      } else {
        valueUse := valueUse - 1;
      }
      file := file[n.self := gone];
    }

    /** key_binary_search: the position of the key, or the position it belongs at, negated. */
    method KeyBinarySearch(node: Block, target: int) returns (r: int)
      requires node.num <= |node.slots|
      requires forall i, j :: 0 <= i < j < node.num ==> node.slots[i].key < node.slots[j].key
      ensures r >= 0 ==> r < node.num && node.slots[r].key == target
      ensures r < 0 ==> -(r + 1) <= node.num
      ensures r < 0 ==> forall i :: 0 <= i < -(r + 1) ==> node.slots[i].key < target
      ensures r < 0 ==> forall i :: -(r + 1) <= i < node.num ==> target < node.slots[i].key
    {
      var low, high := 0, node.num - 1;
      while low <= high
        invariant 0 <= low <= high + 1 <= node.num
        invariant forall i :: 0 <= i < low ==> node.slots[i].key < target
        invariant forall i :: high < i < node.num ==> target < node.slots[i].key
      {
        var mid := low + (high - low) / 2;
        if node.slots[mid].key == target {
          return mid;
        } else if target > node.slots[mid].key {
          low := mid + 1;
        } else {
          high := mid - 1;
        }
      }
      return -low - 1;
    }

    /** btree_split_child */
    method SplitChild(node0: Block, position: nat, x0: Block, y0: Block) returns (node: Block, x: Block, y: Block)
      requires S().Disk() && S().Writable(node0) && S().Writable(x0) && S().Writable(y0)
      requires node0.self != x0.self && node0.self != y0.self && x0.self != y0.self
      requires node0.keys && x0.keys && y0.keys
      requires position <= node0.num < M && Half(M) < x0.num <= M && y0.num == 0
      modifies `file
      ensures S().Disk() && node == SplitUp(node0, position, x0, y0, Half(M))
      ensures x == x0.(num := Half(M)) && y == SplitOff(x0, y0, Half(M))
      ensures file == old(file)[node.self := node][x.self := x][y.self := y]
      ensures S().Sum() == Plus(Minus(old(S().Sum()), Plus(Weight(old(file)[node.self]),
                                                   Plus(Weight(old(file)[x.self]), Weight(old(file)[y.self])))),
                            Plus(Weight(node), Plus(Weight(x), Weight(y))))
    {
      hide Total, Laid, FreeList;
      var n := Half(M);
      y := y0.(slots := CopySlots(y0.slots, 0, x0.slots, n + 1, x0.num - n - 1));
      y := y.(num := x0.num - n - 1);
      x := x0.(num := n);
      node := node0.(slots := CopySlots(node0.slots, position + 1, node0.slots, position, node0.num - position));
      node := node.(slots := node.slots[position := x.slots[n]]);
      node := node.(slots := SetChild(node.slots, position, x.self));
      node := node.(slots := SetChild(node.slots, position + 1, y.self));
      node := node.(num := node.num + 1);
      NodeFlush(node);
      NodeFlush(x);
      NodeFlush(y);
    }

    /** btree_merge; gone says that the root was left without a key and has taken over what x holds. */
    method Merge(node0: Block, position: nat, x0: Block, y0: Block) returns (node: Block, x: Block, gone: bool)
      requires S().Disk() && S().Writable(node0) && S().Writable(x0) && S().Writable(y0)
      requires node0.self != x0.self && node0.self != y0.self && x0.self != y0.self
      requires node0.keys && x0.keys && y0.keys && keyUse >= 2
      requires position < node0.num <= M && x0.num + 1 + y0.num <= M
      modifies `file, `free, `keyUse, `valueUse, `fl
      ensures valueUse == old(valueUse)
      ensures S().Disk() && x == MergeInto(node0, position, x0, y0) && gone == (node0.num == 1)
      ensures var p, freed := MergeOut(node0, position, x0), y0.(free := old(free), num := 0, use := false);
        && (!gone ==> node == p && keyUse == old(keyUse) - 1
                      && file == old(file)[y0.self := freed][x.self := x][node.self := node])
        && (gone ==>
            node == p.(num := x.num, leaf := x.leaf, slots := x.slots, bytes := x.bytes) && keyUse == old(keyUse) - 2
                     && file == old(file)[y0.self := freed][x.self := x.(free := y0.self, num := 0, use := false)]
                                [node.self := node])
      ensures S().Sum() == Plus(Minus(old(S().Sum()), Plus(Weight(old(file)[node.self]),
                                                   Plus(Weight(old(file)[x.self]), Weight(old(file)[y0.self])))),
                            Plus(Weight(node), if gone then NONE else Weight(x)))
    {
      hide Total, Laid, FreeList, Weight, CopySlots, State.Sum, State.Disk, IsBlock, Index;
      x := x0.(slots := SetKey(x0.slots, x0.num, node0.slots[position]));
      x := x.(slots := CopySlots(x.slots, x.num + 1, y0.slots, 0, y0.num));
      x := x.(num := x.num + 1 + y0.num);
      node := node0.(slots := CopySlots(node0.slots, position, node0.slots, position + 1, node0.num - position - 1));
      node := node.(slots := SetChild(node.slots, position, x.self));
      node := node.(num := node.num - 1);
      NodeDestroy(y0);
      if node.num != 0 {
        NodeFlush(x);
        NodeFlush(node);
        gone := false;
      } else {
        node := TakeOver(node, x);
        gone := true;
      }
    }

    /** The end of btree_merge on a root without keys. */
    method TakeOver(node0: Block, x: Block) returns (node: Block)
      requires S().Disk() && S().Writable(node0) && S().Writable(x)
      requires node0.self != x.self && node0.keys && x.keys && keyUse >= 1
      modifies `file, `free, `keyUse, `valueUse, `fl
      ensures valueUse == old(valueUse) && keyUse == old(keyUse) - 1
      ensures S().Disk() && node == node0.(num := x.num, leaf := x.leaf, slots := x.slots, bytes := x.bytes)
      ensures file == old(file)[x.self := x.(free := old(free), num := 0, use := false)][node.self := node]
      ensures S().Sum() ==
        Plus(Minus(old(S().Sum()), Plus(Weight(old(file)[node.self]), Weight(old(file)[x.self]))), Weight(node))
    {
      hide Total, Laid, FreeList;
      node := node0.(num := x.num, leaf := x.leaf);
      node := node.(slots := x.slots, bytes := x.bytes);
      NodeDestroy(x);
      NodeFlush(node);
    }

    // ---------- insertion

    /** The full child, its parent and the new block are written. */
    method WriteSplit(node0: Block, i: nat, x0: Block, y0: Block, ghost l: nat, ghost g: nat)
      returns (node: Block, x: Block, y: Block)
      requires S().Treed({y0.self}) && S().Balanced(0) && S().Disk() && Full(S(), l, g, i, node0, x0, y0)
      requires CanSplit(S().T(), l, g, i, y0, Half(M)) && S().Writable(node0) && S().Writable(x0) && S().Writable(y0)
      requires node0.self != x0.self && node0.self != y0.self && x0.self != y0.self && M >= 5 && x0.num <= M
      modifies `file, `tag, `rows
      ensures S().Treed({}) && S().Balanced(0) && SamePairs(old(S()), S()) && |rows| == |old(rows)|
      ensures Splits(old(S()), S(), l, g, i, node0, x0, y0)
      ensures node == SplitUp(node0, i, x0, y0, Half(M)) && x == x0.(num := Half(M)) && y == SplitOff(x0, y0, Half(M))
    {
      hide Kids, NodeOk, Offset, Laid, FreeList, SplitUp, SplitOff, Total, State.Treed, Kept, CanSplit, Place,
           SplitTree, Created, Made, Index, IsBlock;
      ghost var s := S();
      FullSplits(s, l, g, i, node0, x0, y0);
      SplitWeighs(s, l, g, i, node0, x0, y0, s.Sum());
      node, x, y := SplitChild(node0, i, x0, y0);
      SplitTreeIs(s, l, g, i, node0, x0, y0);
      ghost var t := SplitTree(s.T(), l, g, i, y0, Half(M));
      tag, rows := t.tag, t.rows;
      assert S().T() == t;
      SplitDone(s, S(), l, g, i, node0, x0, y0);
    }

    /** A full child is split and its middle key goes up into the node. */
    method SplitFull(node0: Block, i: nat, x0: Block, ghost l: nat, ghost g: nat)
      returns (ok: bool, node: Block, x: Block, y: Block, ghost y0: Block, ghost s: State)
      requires S().Treed({}) && S().Balanced(0) && l >= 1
      requires S().At(l + 1, g, node0) && i <= node0.num < M && i < |node0.slots|
      requires node0.slots[i].child in file && x0 == file[node0.slots[i].child] && M - 1 <= x0.num <= M
      modifies `asks, `file, `size, `free, `current, `keyUse, `valueUse, `fl, `tag, `rows
      ensures asks >= old(asks) && (ok <==> Granted(grows, old(asks), asks)) && (!ok ==> S() == old(S()))
      ensures asks == old(asks) + Short(1, |old(fl)|) && (ok ==> Took(old(S()), S(), old(asks), asks, 1))
      ensures ok ==> Deep(old(S()), S(), l)
      ensures S().Treed({}) && S().Balanced(0) && SamePairs(old(S()), S()) && |rows| == |old(rows)|
      ensures ok ==> s.Treed({y0.self}) && Full(s, l, g, i, node0, x0, y0) && s.M == M
      ensures ok ==> CanSplit(s.T(), l, g, i, y0, Half(M))
      ensures ok ==> Splits(s, S(), l, g, i, node0, x0, y0) && Place(s.T(), l, g, i) == old(Place(S().T(), l, g, i))
      ensures ok ==> s.rows == old(rows)
      ensures ok ==>
        node == SplitUp(node0, i, x0, y0, Half(M)) && x == x0.(num := Half(M)) && y == SplitOff(x0, y0, Half(M))
    {
      hide Kids, NodeOk, Offset, Laid, FreeList, SplitUp, SplitOff, Total, State.Treed, Kept, CanSplit, Place,
           SplitTree, Full, Created, Made, Index, IsBlock, Deep,
           Took, Short, Splits;
      ghost var s0 := S();
      OnDisk(s0, {});
      BeforeSplit(s0, l, g, i, node0, x0);
      var new_;
      ok, new_ := NodeCreate(x0.leaf, true);
      y0, s := new_, S();
      if !ok {
        SamePairsRefl(s0);
        return false, node0, x0, new_, y0, s;
      }
      ReadyToSplit(s0, s, l, g, i, node0, x0, y0);
      CreatedBalanced(s0, s, y0, x0.leaf);
      CreatedDeep(s0, {}, s, y0, x0.leaf, l);
      node, x, y := WriteSplit(node0, i, x0, new_, l, g);
      TookKept(s0, s, S(), old(asks), asks, 1);
      SplitDeep(s, S(), l, g, i, node0, x0, y0);
      DeepTrans(s0, s, S(), l);
      SamePairsTrans(s0, s, S());
    }

    /** The other of two blocks; without it the first, which has been made, is lost. */
    method SecondBlock(leaf: bool, x0: Block, ghost s0: State) returns (ok: bool, y0: Block)
      requires S().Disk() && s0.Treed({}) && s0.Balanced(0) && ROOT in s0.file && s0.file[ROOT].leaf == leaf
      requires Created(s0, S(), x0, leaf) && S().lost == s0.lost
      modifies `asks, `file, `size, `free, `current, `keyUse, `valueUse, `fl, `lost
      ensures asks == old(asks) + (if old(free) == 0 then 1 else 0) && (ok <==> Granted(grows, old(asks), asks))
      ensures asks == old(asks) + Short(1, |old(fl)|) && (ok ==> Took(old(S()), S(), old(asks), asks, 1))
      ensures ok ==> lost == old(lost) && Created(old(S()), S(), y0, leaf)
      ensures !ok ==> old(lost) <= lost && |lost| == |old(lost)| + 1
      ensures !ok ==> S().Treed({}) && S().Balanced(0) && SamePairs(s0, S())
    {
      hide Kids, NodeOk, Laid, FreeList, Total, State.Treed, Kept, Made, State.Sum, State.Disk, IsBlock, SamePairs,
           Created, Index, Took, Short;
      ghost var s1 := S();
      ok, y0 := NodeCreate(leaf, true);
      if !ok {
        lost := lost + {x0.self};
        LostOne(s0, s1, S(), x0);
      }
    }

    /** The blocks for a root that is to be split; one that was made is lost when the other cannot be. */
    method TwoBlocks(root: Block) returns (ok: bool, x0: Block, y0: Block, ghost s1: State)
      requires S().Treed({}) && S().Balanced(0) && ROOT in file && root == file[ROOT] && M - 1 <= root.num
      modifies `asks, `file, `size, `free, `current, `keyUse, `valueUse, `fl, `lost
      ensures asks >= old(asks) && (ok <==> Granted(grows, old(asks), asks))
      ensures old(lost) <= lost && |lost| == |old(lost)| + if old(Leaks()) then 1 else 0
      ensures old(Leaks()) ==> !ok
      ensures asks <= old(asks) + Short(2, |old(fl)|) && (ok ==> Took(old(S()), S(), old(asks), asks, 2))
      ensures ok ==> Created(old(S()), s1, x0, root.leaf) && Created(s1, S(), y0, root.leaf)
      ensures !ok ==> S().Treed({}) && S().Balanced(0) && SamePairs(old(S()), S())
    {
      hide Kids, NodeOk, Laid, FreeList, Total, State.Treed, Kept, Made, State.Sum, State.Disk, IsBlock, SamePairs,
           Created, Index, Took, Short;
      ghost var s0 := S();
      OnDisk(s0, {});
      ok, x0 := NodeCreate(root.leaf, true);
      y0, s1 := x0, S();
      ShortMore(1, 2, |s0.fl|);
      if !ok {
        SamePairsRefl(s0);
        return;
      }
      ghost var a1 := asks;
      CreatedOk(s0, {}, s1, x0, root.leaf);
      InLaid(s0, ROOT);
      ok, y0 := SecondBlock(root.leaf, x0, s0);
      GrantedJoin(grows, old(asks), a1, asks);
      ShortOn(s0, s1, old(asks), a1, asks, 1, 1);
      if ok { TookOn(s0, s1, S(), old(asks), a1, asks, 1, 1); }
    }

    /** A full root is split, which makes the tree one level higher. */
    method GrowRoot() returns (ok: bool, node: Block)
      requires S().Treed({}) && S().Balanced(0) && ROOT in file && M - 1 <= file[ROOT].num <= M
      modifies `asks, `file, `size, `free, `current, `keyUse, `valueUse, `fl, `tag, `rows, `lost
      ensures asks >= old(asks) && (ok <==> Granted(grows, old(asks), asks))
      ensures S().Treed({}) && S().Balanced(0) && SamePairs(old(S()), S())
      ensures old(lost) <= lost && |lost| == |old(lost)| + if old(Leaks()) then 1 else 0
      ensures ok ==> |rows| == |old(rows)| + 1 && S().At(|rows| - 1, 0, node) && node.num == 1 && node.self == ROOT
      ensures old(Leaks()) ==> !ok
      ensures asks <= old(asks) + Short(2, |old(fl)|) && (ok ==> Took(old(S()), S(), old(asks), asks, 2))
      ensures ok ==> Deep(old(S()), S(), |old(rows)| - 1) && NoneFull(S(), |rows| - 2)
    {
      hide Kids, NodeOk, Laid, FreeList, Total, State.Treed, Kept, CanSplit, Lifts, Made, State.Sum, IsBlock,
           Deep, NoneFull, Took, Short;
      ghost var s0 := S();
      OnDisk(s0, {});
      var root := file[ROOT];
      InLaid(s0, ROOT);
      var x0, y0; ghost var s1;
      ok, x0, y0, s1 := TwoBlocks(root);
      if !ok {
        return false, root;
      }
      ghost var s := S();
      var x := x0.(num := root.num, slots := root.slots, bytes := root.bytes);
      var r := root.(num := 0, leaf := false, slots := SetChild(root.slots, 0, x0.self));
      ReadyToLift(s0, s1, s, x0, y0);
      LiftReady(s, x0, y0, x, r);
      BothDeep(s0, s1, s, x0, y0, root.leaf);
      node := SplitRoot(x0, x, r, y0);
      SamePairsTrans(s0, s, S());
      DeepTrans(s0, s, S(), |s0.rows| - 1);
      TookKept(s0, s, S(), old(asks), asks, 2);
    }

    /** Of the two blocks a full root needs, the file has one and cannot grow for the other. */
    ghost predicate Leaks()
      reads this
    {
      && ROOT in file && M - 1 <= file[ROOT].num
      && if free == 0 then grows(asks) && !grows(asks + 1)
         else free in file && file[free].free == 0 && !grows(asks)
    }

    method SplitRoot(ghost x0: Block, x: Block, r: Block, y0: Block) returns (node: Block)
      requires S().Balanced(0) && Lifts(S(), x, r, y0) && |rows| >= 2 && S().Disk() && r.self == ROOT
      requires CanLift(S(), x, r, y0)
      requires S().Writable(r) && S().Writable(x) && S().Writable(y0)
      requires ROOT != x.self && ROOT != y0.self && x.self != y0.self
      requires r.keys && x.keys && y0.keys && r.num == 0 && y0.num == 0 && Half(M) < x.num <= M && M - 1 <= x.num
      requires r.slots[0].child == x.self && file[ROOT].keys && file[ROOT].num == x.num && file[y0.self] == y0
      requires x0.use && x0.keys && x0.num == 0 && file[x.self] == x0
      modifies `file, `tag, `rows
      ensures S().Treed({}) && S().Balanced(0) && SamePairs(old(S()), S()) && |rows| == |old(rows)| + 1
      ensures S().At(|rows| - 1, 0, node) && node.num == 1 && node.self == ROOT
      ensures Deep(old(S()), S(), |old(rows)| - 1) && NoneFull(S(), |rows| - 2)
    {
      hide Kids, NodeOk, Offset, Laid, FreeList, SplitUp, SplitOff, Total, State.Treed, Kept, CanSplit, Place,
           SplitTree, LiftTree, LiftedOf, Lifts, State.Sum, IsBlock, Half, Weight, Deep,
           NoneFull;
      ghost var s, top := S(), |rows| - 1;
      SplitNums(r, x, y0, M);
      LiftSplitFile(s, x, r, y0);
      ghost var t := Lifted(s, x, r, y0);
      var x', y';
      node, x', y' := SplitChild(r, 0, x, y0);
      SameWeight(s.file[ROOT], x0, y0, node, x', y', s.Sum());
      ghost var written := S();
      tag, rows := t.tag, t.rows;
      SumSame(written, S());
      assert S().T() == t;
      LiftDone(s, S(), x, r, y0);
      LiftDeep(s, S(), x, r, y0);
      LiftHalves(s, S(), x, r, y0);
    }

    /** One level of the way down to a leaf: a full child is split before it is entered. */
    method StepDown(key: int, node0: Block, ghost l: nat, ghost g: nat)
      returns (ok: bool, found: bool, node: Block, ghost c: nat)
      requires S().Treed({}) && S().Balanced(0) && l >= 1 && S().At(l + 1, g, node0) && node0.num < M - 1
      requires Between(rows[l + 1], g, key)
      modifies `asks, `file, `size, `free, `current, `keyUse, `valueUse, `fl, `tag, `rows
      ensures asks <= old(asks) + Short(if old(FullOn(S(), l, key)) then 1 else 0, |old(fl)|)
      ensures ok ==> Took(old(S()), S(), old(asks), asks, if old(FullOn(S(), l, key)) then 1 else 0)
      ensures S().Treed({}) && S().Balanced(0) && SamePairs(old(S()), S()) && |rows| == |old(rows)|
      ensures asks >= old(asks) && (ok <==> Granted(grows, old(asks), asks)) && (!ok ==> S() == old(S()))
      ensures ok ==>
        if found then Listed(rows[0], key) else S().At(l, c, node) && Between(rows[l], c, key) && node.num < M - 1
      ensures ok ==>
        SplitsTo(S(), l - 1, key) == old(SplitsTo(S(), l - 1, key)) && (found ==> SplitsTo(S(), l, key) == 0)
    {
      hide Kids, NodeOk, Offset, Laid, FreeList, SplitUp, SplitOff, Total, State.Treed, Kept, CanSplit, Place,
           SplitTree, Full, Splits, Took, Short, FullOn, SplitsTo, Deep;
      ghost var s0 := S();
      GrantedJoin(grows, asks, asks, asks);
      ok, node, c := true, node0, 0;
      NodeIs(s0, {}, l + 1, g, node0);
      var r := KeyBinarySearch(node0, key);
      if r >= 0 {
        KeyListed(s0, {}, l + 1, g, node0, r);
        MetAbove(s0, {}, l, g, node0, r);
        NoneBelow(s0, {}, l, key);
        SplitsUp(s0, l, key);
        TookNone(s0, S(), asks);
        found := true;
        SamePairsRefl(s0);
        return;
      }
      var i: nat := -(r + 1);
      ChildIs(s0, {}, l, g, node0, i);
      Deeper(s0, {}, l, g, node0, key, i);
      c := Place(s0.T(), l, g, i);
      var x0 := file[node0.slots[i].child];
      NodeIs(s0, {}, l, c, x0);
      FullHere(s0, {}, l, c, x0, key);
      if x0.num < M - 1 {
        SamePairsRefl(s0);
        TookNone(s0, S(), asks);
        found, node := false, x0;
        return;
      }
      var x, y; ghost var y0, s;
      ok, node, x, y, y0, s := SplitFull(node0, i, x0, l, g);
      if !ok {
        return false, false, node0, c;
      }
      SplitRoutes(s, S(), l, g, i, node0, x0, y0, key);
      SplitSizes(s, l, g, i, node0, x0, y0);
      DeepSplits(s0, {}, S(), l, l - 1, key);
      if key == node.slots[i].key {
        KeyListed(S(), {}, l + 1, g, node, i);
        MetAbove(S(), {}, l, g, node, i);
        NoneBelow(S(), {}, l, key);
        found := true;
      } else if key > node.slots[i].key {
        found, node, c := false, y, c + 1;
      } else {
        found, node := false, x;
      }
    }

    /** The current block, or a new one if there is none or it has no room. */
    method BlockToFill(need: nat) returns (ok: bool, node: Block)
      requires S().Valid() && HEADER + need <= BLOCK
      modifies `asks, `file, `size, `free, `current, `keyUse, `valueUse, `fl
      ensures asks >= old(asks) && (ok <==> Granted(grows, old(asks), asks))
      ensures asks <= old(asks) + Short(if old(HasRoom(S(), need)) then 0 else 1, |old(fl)|)
      ensures ok ==> Took(old(S()), S(), old(asks), asks, if old(HasRoom(S(), need)) then 0 else 1)
      ensures old(current) != 0 && old(current) in old(file) && old(file)[old(current)].last + need <= BLOCK ==>
        ok && S() == old(S()) && node.self == old(current) && asks == old(asks)
      ensures !old(HasRoom(S(), need)) && ok ==> node.last == HEADER && node.num == 0
      ensures !old(HasRoom(S(), need)) && ok && node.self in old(file) ==> !old(file)[node.self].use
      ensures !ok ==> S() == old(S()).(current := 0)
      ensures ok ==> S().Disk() && Filling(old(S()), S(), node) && node.last + need <= BLOCK
      ensures ok ==> S().Sum() == Tally(keyTotal, keyTotal, keyUse, valueUse)
    {
      hide Laid, FreeList, Total, Kids, NodeOk, IsBlock, Made, Filled, Rooted, ValuesIn, Counted, Index, State.Treed,
           State.Valued, Took, Short;
      ghost var s0 := S();
      OnDisk(s0, {});
      node := Block(0, 0, 0, false, false, false, 0, [], []);
      if current != 0 {
        CurrentBlock(s0);
        node := file[current];
        if node.last + need > BLOCK {
          current := 0;
        }
      }
      GrantedJoin(grows, asks, asks, asks);
      TookNone(s0, S(), asks);
      ghost var s := S();
      ok := true;
      if current == 0 {
        ok, node := NodeCreate(false, false);
        MadeValue(M, node.self);
        if ok { TookFrom(s0, s, S(), old(asks), asks, 1); }
      }
    }

    /** The value goes behind the last one of the block. */
    method StoreValue(value: seq<byte>) returns (ok: bool, v: nat, ghost n: Block)
      requires S().Valid() && HEADER + Aligned(WORD + |value|) <= BLOCK
      modifies `asks, `file, `size, `free, `current, `keyUse, `valueUse, `fl
      ensures asks >= old(asks) && (ok <==> Granted(grows, old(asks), asks))
      ensures asks <= old(asks) + Short(if old(HasRoom(S(), Aligned(WORD + |value|))) then 0 else 1, |old(fl)|)
      ensures ok ==> Took(old(S()), S(), old(asks), asks, if old(HasRoom(S(), Aligned(WORD + |value|))) then 0 else 1)
      ensures old(current) != 0 && old(current) in old(file)
              && old(file)[old(current)].last + Aligned(WORD + |value|) <= BLOCK ==>
        ok && asks == old(asks) && n.self == old(current) && file.Keys == old(file.Keys)
      ensures !old(HasRoom(S(), Aligned(WORD + |value|))) && ok && n.self in old(file) ==> !old(file)[n.self].use
      ensures ok ==> Ends(old(S()), S(), Aligned(WORD + |value|)) && !file[current].keys
      ensures rows == old(rows) && keyTotal == old(keyTotal)
      ensures !ok ==> S() == old(S()).(current := 0)
      ensures ok ==> Roomy(old(S()), n.self, n, value) && Puts(old(S()), S(), n, value, v)
      ensures ok ==> S().Sum() == Tally(keyTotal, keyTotal + 1, keyUse, valueUse) && S().Disk()
    {
      hide Laid, FreeList, Total, Kids, NodeOk, IsBlock, Made, Aligned, Filled, Rooted, ValuesIn, Counted, Index,
           Written, Bytes, State.Treed, State.Valued, State.Sum, State.Disk, Took, Short;
      ghost var s0 := S();
      var need := Aligned(WORD + |value|);
      var node;
      ok, node := BlockToFill(need);
      n := node;
      if !ok {
        return false, 0, n;
      }
      HoldingIs(node, value);
      ghost var s := S();
      v := node.self + node.last;
      node := node.(bytes := Written(node.bytes, node.last, Bytes(|value|, WORD) + value));
      node := node.(last := node.last + need);
      node := node.(num := node.num + 1);
      NodeFlush(node);
      AtLeastRoot(n.self);
      TookKept(s0, s, S(), old(asks), asks, if HasRoom(s0, need) then 0 else 1);
    }

    /** The map the database stands for. */
    ghost function Map(): map<int, seq<byte>>
      reads this
      requires |rows| > 0
    {
      Contents(S())
    }

    /** The value is stored, and its key goes into the leaf the search has ended in. */
    method AddPair(key: int, value: seq<byte>, node0: Block, i: nat, ghost g: nat) returns (ok: bool)
      requires S().Valid() && S().At(1, g, node0) && i <= node0.num < M - 1 && HEADER + Aligned(WORD + |value|) <= BLOCK
      requires Between(rows[0], Offset(file, rows[1], g) + i, key)
      modifies `asks, `file, `size, `free, `current, `keyUse, `valueUse, `fl, `rows, `keyTotal
      ensures asks >= old(asks) && (ok <==> Granted(grows, old(asks), asks)) && lost == old(lost)
      ensures asks <= old(asks) + Short(if old(HasRoom(S(), Aligned(WORD + |value|))) then 0 else 1, |old(fl)|)
      ensures ok ==> Took(old(S()), S(), old(asks), asks, if old(HasRoom(S(), Aligned(WORD + |value|))) then 0 else 1)
      ensures ok ==> Ends(old(S()), S(), Aligned(WORD + |value|))
      ensures |rows| == |old(rows)| && keyTotal == old(keyTotal) + if ok then 1 else 0
      ensures S().Valid() && Map() == if ok then old(Map())[key := value] else old(Map())
    {
      hide Laid, FreeList, Total, Kids, NodeOk, IsBlock, Made, Aligned, Filled, Rooted, ValuesIn, Counted, Offset,
           State.Treed, State.Valued, Contents, Roomy, Holding, State.Sum, LeafAdd,
           Took, Short, HasRoom, Ends;
      ghost var s0 := S();
      NodeIs(s0, {}, 1, g, node0);
      var v; ghost var n;
      ok, v, n := StoreValue(value);
      if !ok {
        NoCurrent(s0);
        return false;
      }
      ghost var s := S();
      PutTree(s0, s, n, value, v);
      PutBeside(s0, s, n, value, v, g, node0);
      LeafFits(s, g, node0);
      AddWritable(node0, i, key, v, M);
      var node := node0.(slots := CopySlots(node0.slots, i + 1, node0.slots, i, node0.num - i));
      node := node.(slots := SetKey(node.slots, i, Slot(key, v, 0)));
      node := node.(num := node.num + 1);
      assert node == LeafAdd(node0, i, key, v) by { AddIs(node0, i, key, v); }
      NodeFlush(node);
      ghost var written := S();
      keyTotal := keyTotal + 1;
      AddFits(s, g, i, node0);
      rows := LeafTree(s.T(), g, i, 0, [Edge(0, Pair(key, v))], node).rows;
      AddedIs(s, S(), g, i, node0, key, v);
      AddDone(s0, s, S(), g, i, node0, key, n, value, v);
      SumSame(written, S());
      OneKeyMore(node0, node, s.Sum());
      EndsKept(s0, s, S(), Aligned(WORD + |value|), node0.self);
      TookKept(s0, s, S(), old(asks), asks, if HasRoom(s0, Aligned(WORD + |value|)) then 0 else 1);
    }

    /** The blocks an insertion takes, as the state before it tells. */
    ghost function Wants(key: int, n: nat): nat
      requires |rows| >= 2
      reads this
    {
      Blocks(S(), key, Aligned(WORD + n))
    }

    /** What a small database takes for a new key. */
    lemma SmallWants(key: int, n: nat)
      requires S().Valid() && |rows| == 2 && keyTotal + 1 < M && key !in Map()
      ensures Wants(key, n) == if HasRoom(S(), Aligned(WORD + n)) then 0 else 1
      ensures ForRoot() == 0
    {
      hide State.Valid, HasRoom, Aligned, Listed, PairsOf;
      SoleWants(S(), key, Aligned(WORD + n));
      ContentsKeys(S());
    }

    lemma TwoRows()
      requires S().Valid()
      ensures |rows| >= 2
    {
      OnDisk(S(), {});
    }

    /**
    db_insert: 1 for a new key, 0 for one that is there, -1 if the value fits no block or the file cannot grow by the
    blocks that the free list lacks.
    */
    method Insert(key: int, value: seq<byte>) returns (rc: int)
      requires S().Valid()
      modifies `asks, `file, `size, `free, `current, `keyUse, `valueUse, `fl, `tag, `rows, `keyTotal, `lost
      ensures S().Valid() && asks >= old(asks) && |old(rows)| >= 2
      ensures if HEADER + Aligned(WORD + |value|) > BLOCK
                 || !Granted(grows, old(asks), old(asks) + Short(old(Wants(key, |value|)), |old(fl)|)) then rc == -1
              else rc == if key in old(Map()) then 0 else 1
      ensures asks <= old(asks) + Short(old(Wants(key, |value|)), |old(fl)|)
      ensures rc != -1 ==> Took(old(S()), S(), old(asks), asks, old(Wants(key, |value|)))
      ensures rc == 1 ==> Ends(old(S()), S(), Aligned(WORD + |value|))
      ensures keyTotal == old(keyTotal) + if rc == 1 then 1 else 0
      ensures rc != -1 ==> |rows| == |old(rows)| + if old(ForRoot()) > 0 then 1 else 0
      ensures Map() == if rc == 1 then old(Map())[key := value] else old(Map())
      ensures HEADER + Aligned(WORD + |value|) > BLOCK ==> S() == old(S()) && asks == old(asks)
      ensures HEADER + Aligned(WORD + |value|) <= BLOCK && old(Leaks()) ==> rc == -1
      ensures old(lost) <= lost
      ensures |lost| == |old(lost)| + if HEADER + Aligned(WORD + |value|) <= BLOCK && old(Leaks()) then 1 else 0
    {
      hide Laid, FreeList, Total, Kids, NodeOk, IsBlock, Aligned, Filled, Rooted, ValuesIn, Counted, Offset,
           State.Treed, State.Valued, State.Sum, Kept, PairsOf, Leaks, Took, Short, Blocks, BlocksBelow, Listed, Ends;
      TwoRows();
      if HEADER + Aligned(WORD + |value|) > BLOCK {
        return -1;
      }
      ghost var s0, need := S(), Aligned(WORD + |value|);
      OnDisk(s0, {});
      RootAt(s0, {}, key);
      var ok, node := RootWithRoom(key);
      ghost var total, first := Blocks(s0, key, need), old(ForRoot());
      BlocksAre(s0, key, need);
      if !ok {
        ShortMore(first, total, |s0.fl|);
        StillValued(s0, S());
        SameContents(s0, S());
        GrantedUpTo(grows, old(asks), asks, old(asks) + Short(total, |s0.fl|));
        return -1;
      }
      ghost var a1, s1 := asks, S();
      BlocksStay(s0, s1, key, need);
      ghost var below := BlocksBelow(s1, |s1.rows| - 2, key, need);
      rc := InsertBelow(key, value, node, s0);
      GrantedJoin(grows, old(asks), a1, asks);
      ShortOn(s0, s1, old(asks), a1, asks, first, below);
      if rc != -1 { TookOn(s0, s1, S(), old(asks), a1, asks, first, below); }
      if rc == 1 { EndsFrom(s0, s1, S(), need); }
      if rc != -1 { TookAsks(s0, S(), old(asks), asks, total); }
      GrantedUpTo(grows, old(asks), asks, old(asks) + Short(total, |s0.fl|));
    }

    /** What a full root takes. */
    ghost function ForRoot(): nat
      reads this
    {
      if ROOT in file && file[ROOT].num + 1 >= M then 2 else 0
    }

    /** The root, split if it was full. */
    method RootWithRoom(ghost key: int) returns (ok: bool, node: Block)
      requires S().Treed({}) && S().Balanced(0)
      modifies `asks, `file, `size, `free, `current, `keyUse, `valueUse, `fl, `tag, `rows, `lost
      ensures asks >= old(asks) && (ok <==> Granted(grows, old(asks), asks))
      ensures S().Treed({}) && S().Balanced(0) && SamePairs(old(S()), S())
      ensures old(lost) <= lost && |lost| == |old(lost)| + if old(Leaks()) then 1 else 0
      ensures ok ==> S().At(|rows| - 1, 0, node) && node.num < M - 1
      ensures old(Leaks()) ==> !ok
      ensures asks <= old(asks) + Short(old(ForRoot()), |old(fl)|)
      ensures ok ==> Took(old(S()), S(), old(asks), asks, old(ForRoot())) && |rows| >= 2 && |old(rows)| >= 2
                     && |rows| == |old(rows)| + (if old(ForRoot()) > 0 then 1 else 0)
                     && SplitsTo(S(), |rows| - 2, key) == old(SplitsTo(S(), |rows| - 2, key))
    {
      hide Laid, FreeList, Total, Kids, NodeOk, IsBlock, Filled, Rooted, State.Treed, State.Sum, Kept, Took, Short,
           Deep, NoneFull, FullOn, SplitsTo;
      GrantedJoin(grows, asks, asks, asks);
      ghost var s0 := S();
      OnDisk(s0, {});
      RootAt(s0, {}, 0);
      node := file[ROOT];
      NodeIs(s0, {}, |rows| - 1, 0, node);
      SamePairsRefl(s0);
      TookNone(s0, S(), asks);
      ok := true;
      if node.num >= M - 1 {
        ok, node := GrowRoot();
        if ok { GrownSplits(s0, S(), key); }
      }
    }

    /** From a root with room down to the leaf of the key, unless the key is met or the file cannot grow. */
    method FindLeaf(key: int, root: Block) returns (ok: bool, found: bool, node: Block, ghost g: nat)
      requires |rows| >= 2 && S().Treed({}) && S().Balanced(0)
      requires S().At(|rows| - 1, 0, root) && root.num < M - 1
      modifies `asks, `file, `size, `free, `current, `keyUse, `valueUse, `fl, `tag, `rows
      ensures asks >= old(asks) && (ok <==> Granted(grows, old(asks), asks)) && |old(rows)| >= 2
      ensures var n := SplitsTo(old(S()), |old(rows)| - 2, key);
        asks <= old(asks) + Short(n, |old(fl)|) && (ok ==> Took(old(S()), S(), old(asks), asks, n))
      ensures |rows| == |old(rows)|
      ensures S().Treed({}) && S().Balanced(0) && SamePairs(old(S()), S())
      ensures ok ==> if found then Listed(rows[0], key) else S().At(1, g, node) && Between(rows[1], g, key)
      ensures ok && !found ==> node.num < M - 1
    {
      hide Laid, FreeList, Total, Kids, NodeOk, IsBlock, Filled, Rooted, Offset, State.Treed, State.Sum, Kept, Took,
           Short, FullOn, SplitsTo, Listed;
      ghost var s0, made := S(), 0;
      ghost var top := |s0.rows| - 2;
      TookNone(s0, s0, asks);
      SamePairsRefl(s0);
      GrantedJoin(grows, asks, asks, asks);
      RootAt(S(), {}, key);
      ok, found, node := true, false, root;
      ghost var l: nat := |rows| - 1;
      g := 0;
      NodeIs(S(), {}, l, g, node);
      while !node.leaf
        invariant ok && asks >= old(asks) && Granted(grows, old(asks), asks)
        invariant S().Treed({}) && S().Balanced(0) && SamePairs(s0, S()) && S().At(l, g, node)
        invariant |rows| == |old(rows)|
        invariant Took(s0, S(), old(asks), asks, made) && made + SplitsTo(S(), l - 1, key) == SplitsTo(s0, top, key)
        invariant Between(rows[l], g, key) && node.num < M - 1 && (node.leaf <==> l == 1)
        decreases l
      {
        ghost var s, a1 := S(), asks;
        ok, found, node, g := StepDown(key, node, l - 1, g);
        GrantedJoin(grows, old(asks), a1, asks);
        SamePairsTrans(s0, s, S());
        ghost var n := if FullOn(s, l - 1, key) then 1 else 0;
        SplitsStep(s, l - 1, key);
        ShortOn(s0, s, old(asks), a1, asks, made, n);
        if !ok || found {
          ShortMore(made + n, SplitsTo(s0, top, key), |s0.fl|);
          if ok {
            SplitsUp(S(), l - 1, key);
            TookOn(s0, s, S(), old(asks), a1, asks, made, n);
          }
          return;
        }
        TookOn(s0, s, S(), old(asks), a1, asks, made, n);
        made := made + n;
        l := l - 1;
        NodeIs(S(), {}, l, g, node);
      }
      found := false;
      NoSplits(S(), key);
      TookAsks(s0, S(), old(asks), asks, made);
    }

    /** What db_insert does from a root with room on; was is the state it has found. */
    method InsertBelow(key: int, value: seq<byte>, root: Block, ghost was: State) returns (rc: int)
      requires |rows| >= 2 && S().Treed({}) && S().Balanced(0) && was.Valid() && SamePairs(was, S())
      requires S().At(|rows| - 1, 0, root) && root.num < M - 1 && HEADER + Aligned(WORD + |value|) <= BLOCK
      modifies `asks, `file, `size, `free, `current, `keyUse, `valueUse, `fl, `tag, `rows, `keyTotal
      ensures S().Valid() && asks >= old(asks)
      ensures var n := BlocksBelow(old(S()), |old(rows)| - 2, key, Aligned(WORD + |value|));
        asks <= old(asks) + Short(n, |old(fl)|) && (rc != -1 ==> Took(old(S()), S(), old(asks), asks, n))
      ensures rc == 1 ==> Ends(old(S()), S(), Aligned(WORD + |value|))
      ensures |rows| == |old(rows)| && keyTotal == old(keyTotal) + if rc == 1 then 1 else 0
      ensures rc == if !Granted(grows, old(asks), asks) then -1 else if key in Contents(was) then 0 else 1
      ensures Map() == if rc == 1 then Contents(was)[key := value] else Contents(was)
    {
      hide Laid, FreeList, Total, Kids, NodeOk, IsBlock, Aligned, Filled, Rooted, ValuesIn, Counted, Offset,
           State.Treed, State.Valued, State.Sum, Kept, PairsOf, Took, Short, FullOn, SplitsTo, HasRoom, BlocksBelow,
           Listed, Ends;
      ghost var s0, need := S(), Aligned(WORD + |value|);
      ghost var top := |s0.rows| - 2;
      ghost var splits := SplitsTo(s0, top, key);
      StillValued(was, s0);
      ContentsKeys(was);
      var ok, found, node; ghost var g;
      ok, found, node, g := FindLeaf(key, root);
      BelowIs(s0, top, key, need);
      ShortMore(splits, BlocksBelow(s0, top, key, need), |s0.fl|);
      SamePairsTrans(was, s0, S());
      StillValued(was, S());
      SameContents(was, S());
      PairsHave(rows[0], key);
      if !ok || found {
        return if ok then 0 else -1;
      }
      NodeIs(S(), {}, 1, g, node);
      var r := KeyBinarySearch(node, key);
      if r >= 0 {
        KeyListed(S(), {}, 1, g, node, r);
        return 0;
      }
      var i: nat := -(r + 1);
      KeyMissing(S(), {}, g, node, key, i);
      ghost var s, a1 := S(), asks;
      RoomStays(s0, s, need);
      ok := AddPair(key, value, node, i, g);
      GrantedJoin(grows, old(asks), a1, asks);
      ghost var n := if HasRoom(s, need) then 0 else 1;
      ShortOn(s0, s, old(asks), a1, asks, splits, n);
      if ok {
        TookOn(s0, s, S(), old(asks), a1, asks, splits, n);
        EndsFrom(s0, s, S(), need);
      }
      rc := if ok then 1 else -1;
    }

    // ---------- deletion

    /** A key goes from the right neighbour y to the node and the node's key i to child x. */
    method BorrowRight(node0: Block, i: nat, x0: Block, y0: Block, ghost l: nat, ghost g: nat) returns (x: Block)
      requires S().Treed({}) && S().Balanced(0) && Pairing(S(), l, g, i, node0, x0, y0)
      requires x0.num <= Half(M) < y0.num
      modifies `file, `rows
      ensures S().Treed({}) && S().Balanced(0) && SamePairs(old(S()), S()) && Above(old(S()), S(), l)
      ensures x.num == x0.num + 1 && old(Place(S().T(), l, g, i) < |rows[l]|)
      ensures Entered(old(S()), S(), l, g, i, node0, old(Place(S().T(), l, g, i)), x)
      ensures y0.self in file && file[y0.self].num == y0.num - 1
    {
      hide Kids, NodeOk, Offset, Laid, FreeList, Total, State.Treed, State.Sum, IsBlock, Filled, Rooted, CopySlots,
           CanShare, ShareTree, Place, Weight, Entered, Above, SamePairs;
      ghost var s := S();
      OnDisk(s, {});
      PlaceIn(s, l, g, i, node0);
      PairingIs(s, l, g, i, node0, x0, y0);
      NeighbourSizes(s, l, g, i, node0, x0, y0);
      BorrowRightCan(s.T(), l, g, i);
      x := x0.(slots := SetKey(x0.slots, x0.num, node0.slots[i]));
      x := x.(slots := SetChild(x.slots, x.num + 1, y0.slots[0].child));
      x := x.(num := x.num + 1);
      var node := node0.(slots := SetKey(node0.slots, i, y0.slots[0]));
      var y := y0.(slots := CopySlots(y0.slots, 0, y0.slots, 1, y0.num - 1));
      y := y.(num := y.num - 1);
      NodeFlush(node);
      NodeFlush(x);
      NodeFlush(y);
      ShareTreeIs(s, l, g, i, node0, x0, y0, x, y, y0.slots[0]);
      SameWeight(node0, x0, y0, node, x, y, s.Sum());
      FinishShare(s, l, g, i, node0, x0, y0, x, y, y0.slots[0]);
      EnteredRight(s, S(), l, g, i, node0, x0, y0);
    }

    /** The rows after a key has moved between two children. */
    ghost method FinishShare(s: State, l: nat, g: nat, i: nat, node0: Block, x0: Block, y0: Block, x: Block, y: Block,
                             from: Slot)
      requires s.Treed({}) && s.Balanced(0)
      requires Pairing(s, l, g, i, node0, x0, y0) && CanShare(s.T(), l, g, i, x, y, from)
      requires s.M == M >= 5 && x.num + 1 >= Half(M) && y.num + 1 >= Half(M)
      requires S() == s.(file := file) && S().Disk() && S().Sum() == s.Sum()
      requires file == ShareTree(s.T(), l, g, i, x, y, from).file
      modifies `rows
      ensures S().Treed({}) && S().Balanced(0) && SamePairs(s, S()) && Above(s, S(), l)
      ensures var c := Place(s.T(), l, g, i);
        && S().At(l, c, x) && S().At(l, c + 1, y) && rows[l][c + 1].sep == s.rows[l][c + 1].sep
        && (c > 0 ==> rows[l][c - 1] == s.rows[l][c - 1])
    {
      hide Kids, NodeOk, Offset, Laid, FreeList, Total, State.Treed, State.Sum, IsBlock, Filled, Rooted, CanShare,
           ShareTree, Place;
      ghost var written, t := S(), ShareTree(s.T(), l, g, i, x, y, from);
      ShareTreeIs(s, l, g, i, node0, x0, y0, x, y, from);
      rows := t.rows;
      assert S().T() == t;
      SumSame(written, S());
      ShareDone(s, S(), l, g, i, node0, x0, y0, x, y, from);
      SharePlaces(s, S(), l, g, i, node0, x0, y0, x, y, from);
    }

    /** A key goes from the left neighbour w to the node and the node's key i to child x, the one after it. */
    method BorrowLeft(node0: Block, i: nat, w0: Block, x0: Block, ghost l: nat, ghost g: nat) returns (x: Block)
      requires S().Treed({}) && S().Balanced(0) && Pairing(S(), l, g, i, node0, w0, x0)
      requires x0.num <= Half(M) < w0.num
      modifies `file, `rows
      ensures S().Treed({}) && S().Balanced(0) && SamePairs(old(S()), S()) && Above(old(S()), S(), l)
      ensures x.num == x0.num + 1 && old(Place(S().T(), l, g, i + 1) < |rows[l]|)
      ensures Entered(old(S()), S(), l, g, i + 1, node0, old(Place(S().T(), l, g, i + 1)), x)
      ensures w0.self in file && file[w0.self].num == w0.num - 1
    {
      hide Kids, NodeOk, Offset, Laid, FreeList, Total, State.Treed, State.Sum, IsBlock, Filled, Rooted, CopySlots,
           CanShare, ShareTree, Place, Weight, Entered, Above, SamePairs;
      ghost var s := S();
      OnDisk(s, {});
      PlaceIn(s, l, g, i + 1, node0);
      PairingIs(s, l, g, i, node0, w0, x0);
      NeighbourSizes(s, l, g, i, node0, w0, x0);
      BorrowLeftCan(s.T(), l, g, i);
      x := x0.(slots := CopySlots(x0.slots, 1, x0.slots, 0, x0.num));
      x := x.(slots := SetKey(x.slots, 0, node0.slots[i]));
      x := x.(slots := SetChild(x.slots, 0, w0.slots[w0.num].child));
      x := x.(num := x.num + 1);
      var node := node0.(slots := SetKey(node0.slots, i, w0.slots[w0.num - 1]));
      var w := w0.(num := w0.num - 1);
      NodeFlush(node);
      NodeFlush(x);
      NodeFlush(w);
      ShareTreeIs(s, l, g, i, node0, w0, x0, w, x, w0.slots[w0.num - 1]);
      SameWeight(node0, x0, w0, node, x, w, s.Sum());
      PlaceIn(s, l, g, i + 1, node0);
      FinishShare(s, l, g, i, node0, w0, x0, w, x, w0.slots[w0.num - 1]);
      EnteredLeft(s, S(), l, g, i, node0, w0, x0);
    }

    /** Children i and i + 1 and the key between them become one block, the node to go on with. */
    method Join(node0: Block, i: nat, x0: Block, y0: Block, ghost l: nat, ghost g: nat)
      returns (node: Block, ghost c: nat)
      requires S().Treed({}) && S().Balanced(0) && Pairing(S(), l, g, i, node0, x0, y0)
      requires x0.num <= Half(M) && y0.num <= Half(M) && (l + 1 < |rows| - 1 ==> node0.num >= Half(M))
      modifies `file, `free, `keyUse, `valueUse, `fl, `tag, `rows
      ensures S().Treed({}) && S().Balanced(0) && SamePairs(old(S()), S())
      ensures old(Place(S().T(), l, g, i) + 1 < |rows[l]|)
      ensures Entered(old(S()), S(), l, g, i, node0, c, node) && Entered(old(S()), S(), l, g, i + 1, node0, c, node)
      ensures Between(rows[l], c, node0.slots[i].key) && (l == |rows| - 1 || node.num >= Half(M))
      ensures node0.num >= 2 ==> Above(old(S()), S(), l)
      ensures node0.num == 1 ==> node0.self == ROOT && node.self == ROOT && |rows| == |old(rows)| - 1
      ensures keyUse == old(keyUse) - (if node0.num == 1 then 2 else 1)
    {
      hide Kids, NodeOk, Offset, Laid, FreeList, Total, State.Treed, State.Sum, IsBlock, Filled, Rooted, CopySlots,
           CanMerge, MergeTree, Place, Weight, MergeInto, MergeOut;
      ghost var s := S();
      OnDisk(s, {});
      PairingIs(s, l, g, i, node0, x0, y0);
      PlaceIn(s, l, g, i + 1, node0);
      NeighbourSizes(s, l, g, i, node0, x0, y0);
      CanMergeNow(s, l, g, i, node0, x0, y0);
      MergeFacts(s, l, node0, i, x0, y0);
      var x, gone;
      node, x, gone := Merge(node0, i, x0, y0);
      if !gone {
        c := Place(s.T(), l, g, i);
        OneBlockLess(node0, x0, y0, node, x, s.Sum());
        FinishMerge(s, l, g, i, node0, x0, y0, node, x);
        node := x;
      } else {
        c := 0;
        LastTwo(s, l, g, i, node0, x0, y0);
        TakingIs(s, node0, x0, y0);
        TwoBlocksLess(node0, x0, y0, node, s.Sum());
        FinishCollapse(s, l, g, i, node0, x0, y0, node, x);
      }
    }

    ghost method FinishMerge(s: State, l: nat, g: nat, i: nat, node0: Block, x0: Block, y0: Block, node: Block,
                             x: Block)
      requires s.Treed({}) && s.Balanced(0)
      requires Pairing(s, l, g, i, node0, x0, y0) && CanMerge(s.T(), l, g, i) && s.M == M
      requires node0.num >= 2 && (l + 1 < |s.rows| - 1 ==> node0.num >= Half(M)) && s.keyUse > 0 && M >= 5
      requires Sized(x0, M) && Sized(y0, M) && x0.num + 1 + y0.num <= M && Place(s.T(), l, g, i) + 1 < |s.rows[l]|
      requires node == MergeOut(node0, i, x0) && x == MergeInto(node0, i, x0, y0)
      requires S() == s.(file := file, free := free, fl := fl, keyUse := s.keyUse - 1) && S().Disk()
      requires y0.self in file && !file[y0.self].use
      requires file == s.file[y0.self := file[y0.self]][x.self := x][node.self := node]
      requires S().Sum() == s.Sum().(keyBlocks := s.Sum().keyBlocks - 1)
      modifies `tag, `rows
      ensures S().Treed({}) && S().Balanced(0) && SamePairs(s, S()) && Above(s, S(), l)
      ensures var c := Place(s.T(), l, g, i);
        && Entered(s, S(), l, g, i, node0, c, x) && Entered(s, S(), l, g, i + 1, node0, c, x)
        && Between(rows[l], c, node0.slots[i].key)
    {
      hide Kids, NodeOk, Offset, Laid, FreeList, Total, State.Treed, State.Sum, IsBlock, Filled, Rooted, CopySlots,
           CanMerge, MergeTree, Place, MergeInto, MergeOut, Kinds;
      ghost var written, t := S(), MergeTree(s.T(), l, g, i);
      MergeTreeIs(s, l, g, i, node0, x0, y0, file[y0.self]);
      tag, rows := t.tag, t.rows;
      SumSame(written, S());
      MergeDone(s, S(), l, g, i, node0, x0, y0);
      MergePlaces(s, S(), l, g, i, node0, x0, y0);
      EnteredMerged(s, S(), l, g, i, node0, x0, y0);
    }

    ghost method FinishCollapse(s: State, l: nat, g: nat, i: nat, node0: Block, x0: Block, y0: Block, node: Block,
                                x: Block)
      requires s.Treed({}) && s.Balanced(0)
      requires Pairing(s, l, g, i, node0, x0, y0) && CanMerge(s.T(), l, g, i) && s.M == M
      requires node0.num == 1 && (l + 1 < |s.rows| - 1 ==> node0.num >= Half(M)) && s.keyUse >= 2 && M >= 5
      requires Sized(x0, M) && Sized(y0, M) && x0.num + 1 + y0.num <= M && Place(s.T(), l, g, i) + 1 < |s.rows[l]|
      requires Sized(node0, M) && node == Taking(node0, x0, y0) && x == MergeInto(node0, i, x0, y0)
      requires S() == s.(file := file, free := free, fl := fl, keyUse := s.keyUse - 2) && S().Disk()
      requires y0.self in file && !file[y0.self].use && x0.self in file && !file[x0.self].use
      requires file == s.file[y0.self := file[y0.self]][x0.self := file[x0.self]][node.self := node]
      requires S().Sum() == s.Sum().(keyBlocks := s.Sum().keyBlocks - 2)
      modifies `tag, `rows
      ensures S().Treed({}) && S().Balanced(0) && SamePairs(s, S()) && l == |rows| - 1 == |s.rows| - 2
      ensures Entered(s, S(), l, g, i, node0, 0, node) && Entered(s, S(), l, g, i + 1, node0, 0, node)
      ensures Between(rows[l], 0, node0.slots[i].key)
    {
      hide Kids, NodeOk, Offset, Laid, FreeList, Total, State.Treed, State.Sum, IsBlock, Filled, Rooted, CopySlots,
           CanMerge, MergeTree, Place, MergeInto, MergeOut, Kinds, Taking;
      ghost var written := S();
      LastTwo(s, l, g, i, node0, x0, y0);
      TakingIs(s, node0, x0, y0);
      tag := (s.tag - {y0.self} - {x0.self})[ROOT := l];
      rows := s.rows[..l] + [[Edge(ROOT, End)]];
      SumSame(written, S());
      CollapseDone(s, S(), l, node0, x0, y0);
      PlaceIn(s, l, 0, 1, node0);
      EnteredRoot(s, S(), l, node0, x0, y0, 0, node);
      EnteredRoot(s, S(), l, node0, x0, y0, 1, node);
    }

    /** Child i of a node has a key to spare. */
    predicate Rich(node: Block, i: nat)
      reads this
    {
      i < |node.slots| && node.slots[i].child in file && 2 * file[node.slots[i].child].num >= M
    }

    /** Child i of a node has one key less than before. */
    static predicate Gave(file: map<nat, Block>, file': map<nat, Block>, node: Block, i: nat) {
      && i < |node.slots| && node.slots[i].child in file && node.slots[i].child in file'
      && file'[node.slots[i].child].num + 1 == file[node.slots[i].child].num
    }

    /** The way into child i of a node: it is given a key more than it needs, unless it has one. */
    method Enter(node0: Block, i: nat, ghost l: nat, ghost g: nat) returns (node: Block, ghost c: nat)
      requires S().Treed({}) && S().Balanced(0) && l >= 1 && S().At(l + 1, g, node0) && i <= node0.num
      requires l + 1 < |rows| - 1 ==> node0.num >= Half(M)
      modifies `file, `free, `keyUse, `valueUse, `fl, `tag, `rows
      ensures S().Treed({}) && S().Balanced(0)
      ensures SamePairs(old(S()), S()) && i < |node0.slots| && node0.num < |node0.slots|
      ensures old(Place(S().T(), l, g, i) < |rows[l]|) && Entered(old(S()), S(), l, g, i, node0, c, node)
      ensures l == |rows| - 1 || node.num >= Half(M)
      ensures l + 1 < |old(rows)| - 1 ==> Above(old(S()), S(), l)
      ensures old(Rich(node0, i)) ==> S() == old(S()) && node == file[node0.slots[i].child]
      ensures !old(Rich(node0, i)) && i < node0.num && old(Rich(node0, i + 1)) ==> Gave(old(file), file, node0, i + 1)
      ensures !old(Rich(node0, i)) && !(i < node0.num && old(Rich(node0, i + 1))) && i > 0 && old(Rich(node0, i - 1))
              ==> Gave(old(file), file, node0, i - 1)
      ensures keyUse < old(keyUse) <==>
        !old(Rich(node0, i)) && !(i < node0.num && old(Rich(node0, i + 1))) && !(i > 0 && old(Rich(node0, i - 1)))
    {
      hide Kids, NodeOk, Offset, Laid, FreeList, Total, State.Treed, State.Sum, IsBlock, Filled, Rooted, CopySlots,
           Place, Weight, Kept;
      ghost var s := S();
      OnDisk(s, {});
      PlaceIn(s, l, g, i, node0);
      ChildIs(s, {}, l, g, node0, i);
      NodeIs(s, {}, l + 1, g, node0);
      var x := file[node0.slots[i].child];
      if x.num > Half(M) {
        SamePairsRefl(s);
        EnteredAsIs(s, l, g, i, node0, x);
        return x, Place(s.T(), l, g, i);
      }
      if i + 1 <= node0.num {
        NextChild(s, l, g, i, node0);
        var y := file[node0.slots[i + 1].child];
        if y.num > Half(M) {
          c := Place(s.T(), l, g, i);
          node := BorrowRight(node0, i, x, y, l, g);
          NeighbourSizes(s, l, g, i, node0, x, y);
          return;
        }
        if i >= 1 {
          NextChild(s, l, g, i - 1, node0);
          var w := file[node0.slots[i - 1].child];
          if w.num > Half(M) {
            c := Place(s.T(), l, g, i);
            node := BorrowLeft(node0, i - 1, w, x, l, g);
            NeighbourSizes(s, l, g, i - 1, node0, w, x);
            return;
          }
        }
        node, c := Join(node0, i, x, y, l, g);
        return;
      }
      OneKeyAtLeast(s, l, g, node0);
      NextChild(s, l, g, i - 1, node0);
      var w := file[node0.slots[i - 1].child];
      if w.num > Half(M) {
        c := Place(s.T(), l, g, i);
        node := BorrowLeft(node0, i - 1, w, x, l, g);
        NeighbourSizes(s, l, g, i - 1, node0, w, x);
        return;
      }
      node, c := Join(node0, i - 1, w, x, l, g);
    }

    /** The key has been found in slot i of an inner node: the way goes on to a neighbour that can replace it, or, when
    both children are too poor, into the block they become. */
    method Match(node0: Block, i: nat, key: int, ghost l: nat, ghost g: nat)
      returns (flag: int, node: Block, ghost c: nat)
      requires S().Treed({}) && S().Balanced(0) && l >= 1
      requires S().At(l + 1, g, node0) && i < node0.num && i < |node0.slots|
      requires node0.slots[i].key == key && (l + 1 < |rows| - 1 ==> node0.num >= Half(M))
      modifies `file, `free, `keyUse, `valueUse, `fl, `tag, `rows
      ensures S().Treed({}) && S().Balanced(0) && SamePairs(old(S()), S()) && S().At(l, c, node)
      ensures l == |rows| - 1 || node.num >= Half(M)
      ensures flag == MORE <==> old(Rich(node0, i))
      ensures flag == LESS <==> !old(Rich(node0, i)) && old(Rich(node0, i + 1))
      ensures if flag == 0 then keyUse < old(keyUse) else S() == old(S())
      ensures flag == 0 ==> Between(rows[l], c, key)
      ensures flag != 0 ==> (flag == LESS || flag == MORE) && Matched(S(), l, c, flag, l + 1, g, node0, i, key)
    {
      hide Kids, NodeOk, Offset, Laid, FreeList, Total, State.Treed, State.Sum, IsBlock, Filled, Rooted, CopySlots,
           Place, Weight, Kept, Matched;
      ghost var s := S();
      OnDisk(s, {});
      ChildIs(s, {}, l, g, node0, i);
      ChildIs(s, {}, l, g, node0, i + 1);
      NextChild(s, l, g, i, node0);
      SamePairsRefl(s);
      var x := file[node0.slots[i].child];
      if x.num > Half(M) {
        MatchedAt(s, l, g, node0, i, key, MORE);
        return MORE, x, Place(s.T(), l, g, i);
      }
      var y := file[node0.slots[i + 1].child];
      if y.num > Half(M) {
        MatchedAt(s, l, g, node0, i, key, LESS);
        return LESS, y, Place(s.T(), l, g, i + 1);
      }
      node, c := Join(node0, i, x, y, l, g);
      flag := 0;
    }

    /** The pair in slot i of a leaf goes. */
    method DropPair(node0: Block, i: nat, ghost g: nat) returns (ghost d: nat)
      requires S().Treed({}) && S().Balanced(0) && S().At(1, g, node0) && i < node0.num
      requires |rows| > 2 ==> node0.num >= Half(M)
      modifies `file, `rows
      ensures Gone(old(S()), S(), d) && i < |node0.slots| && old(rows[0][d]).sep == PairOf(node0.slots[i])
      ensures S().Sum() == old(S().Sum()).(keys := old(S().Sum()).keys - 1)
    {
      hide Kids, NodeOk, Offset, Laid, FreeList, Total, State.Treed, State.Sum, IsBlock, Filled, Rooted, CopySlots,
           Weight, Kept, LeafDrop, Ascending, Index;
      ghost var s := S();
      OnDisk(s, {});
      NodeIs(s, {}, 1, g, node0);
      LeafFits(s, g, node0);
      AddFits(s, g, i, node0);
      AddFits(s, g, i + 1, node0);
      LeafShapes(node0, i, M);
      DropIs(node0, i);
      var node := node0.(slots := CopySlots(node0.slots, i, node0.slots, i + 1, node0.num - i - 1));
      node := node.(num := node.num - 1);
      NodeFacts(node, M, node0.self, 1);
      NodeFlush(node);
      ghost var written := S();
      rows := LeafTree(s.T(), g, i, 1, [], node).rows;
      d := Offset(s.file, s.rows[1], g) + i;
      SumSame(written, S());
      OneKeyLess(node0, node, s.Sum());
      assert S().T() == LeafTree(s.T(), g, i, 1, [], node);
      DropGone(s, S(), g, i, node0, node);
    }

    /** The pair in slot i of nm gives way to its neighbour, the last or the first pair of a leaf. */
    method ReplacePair(nm0: Block, i: nat, node0: Block, flag: int, key: int, ghost h: nat, ghost q: nat, ghost g: nat)
      returns (ghost d: nat)
      requires S().Treed({}) && S().Balanced(0) && S().At(1, g, node0) && node0.num >= Half(M)
      requires (flag == LESS || flag == MORE) && Matched(S(), 1, g, flag, h, q, nm0, i, key)
      modifies `file, `rows
      ensures Gone(old(S()), S(), d) && old(rows[0][d]).sep == PairOf(nm0.slots[i])
      ensures S().Sum() == old(S().Sum()).(keys := old(S().Sum()).keys - 1)
    {
      hide Kids, NodeOk, Offset, Laid, FreeList, Total, State.Treed, State.Sum, IsBlock, Filled, Rooted, CopySlots,
           Weight, Kept, LeafDrop, SwapTree, LeafTree, Ascending, PairOf;
      ghost var s := S();
      OnDisk(s, {});
      NodeIs(s, {}, 1, g, node0);
      NodeIs(s, {}, h, q, nm0);
      LeafFits(s, g, node0);
      ghost var j := if flag == LESS then 0 else node0.num - 1;
      var nm, node;
      if flag == LESS {
        LeafShapes(node0, 0, M);
        DropIs(node0, 0);
        nm := nm0.(slots := SetKey(nm0.slots, i, node0.slots[0]));
        node := node0.(slots := CopySlots(node0.slots, 0, node0.slots, 1, node0.num - 1));
        node := node.(num := node.num - 1);
      } else {
        ShortShapes(node0, M);
        nm := nm0.(slots := SetKey(nm0.slots, i, node0.slots[node0.num - 1]));
        node := node0.(num := node0.num - 1);
      }
      NodeFacts(node, M, node0.self, 1);
      SameBlockWeight(nm0, nm);
      NodeFlush(nm);
      NodeFlush(node);
      ghost var written := S();
      SwapThenDrop(s, h, q, nm0, i, g, j, node0, node, flag, key);
      ghost var u := Swapped(s, h, q, i, node0.slots[j]);
      rows := LeafTree(u, g, j, 1, [], node).rows;
      SumSame(written, S());
      OneKeyLess(node0, node, s.Sum());
      assert S() == s.(file := LeafTree(u, g, j, 1, [], node).file, rows := LeafTree(u, g, j, 1, [], node).rows);
      d := SwapGone(s, S(), h, q, nm0, i, g, j, node0, node, flag, key);
    }

    /** The value's block counts one key less, and goes with its last key. */
    method ReleaseValue(v: nat)
      requires S().Treed({}) && v >= ROOT && HasValue(file, v) && CountsOneLess(file, rows[0], BlockOf(v))
      requires ValuesIn(file, rows[0]) && S().Sum().valueBlocks == valueUse
      requires current == 0 || (current in file && file[current].use && !file[current].keys)
      modifies `file, `free, `current, `keyUse, `valueUse, `fl
      ensures S().Treed({}) && S().Valued() && rows == old(rows) && keyUse == old(keyUse)
      ensures S().Sum() == old(S().Sum()).(refs := old(S().Sum()).refs - 1, valueBlocks := valueUse)
      ensures forall i {:trigger rows[0][i].sep} :: 0 <= i < |rows[0]| && rows[0][i].sep.Pair? ==>
        ValueOf(file, rows[0][i].sep.value) == ValueOf(old(file), rows[0][i].sep.value)
    {
      hide Kids, NodeOk, Laid, FreeList, Total, State.Treed, State.Sum, IsBlock, Filled, Rooted, Weight, BlockOf, Refs,
           ValueIn, ValueAt, ValuesIn;
      ghost var s := S();
      OnDisk(s, {});
      ValueBlock(s, v);
      var node := file[BlockOf(v)];
      OneRefLess(node, s.Sum());
      if node.num == 1 {
        if node.self == current {
          current := 0;
        }
        SumSame(s, S());
        NodeDestroy(node);
      } else {
        NodeFlush(node.(num := node.num - 1));
      }
      ReleaseDone(s, S(), v);
    }

    /** What is left once the pair is gone from the tree: its value, and the count of keys. */
    method Forget(v: nat, key: int, ghost s: State, ghost d: nat)
      requires s.Treed({}) && s.Valued() && s.Balanced(0) && Gone(s, S(), d) && s.rows[0][d].sep == Pair(key, v)
      requires S().Sum() == s.Sum().(keys := s.Sum().keys - 1)
      modifies `file, `free, `current, `keyUse, `valueUse, `fl, `keyTotal
      ensures S().Valid() && key in Contents(s) && Map() == Contents(s) - {key}
    {
      hide Kids, NodeOk, Laid, FreeList, Total, State.Treed, State.Sum, State.Valued, IsBlock, Filled, Rooted, Weight,
           BlockOf, Refs, ValueIn, ValueAt, ValuesIn, HasValue, Contents, Replaced, Ascending;
      ghost var t := S();
      OnDisk(s, {});
      GoneCounts(s, t, d, key, v);
      ReleaseValue(v);
      GoneContents(s, t, S(), d, key, v);
      ghost var released := S();
      BottomEnds(released);
      keyTotal := keyTotal - 1;
      SumSame(released, S());
      FewerKeys(released, S());
      ContentsSame(released, S());
    }

    /** The end of db_delete, in the leaf: the pair is there, or the neighbour of the one met above is. */
    method AtLeaf(node: Block, flag: int, iMatch: int, nodeMatch: Block, key: int, ghost g: nat, ghost h: nat,
                  ghost q: nat)
      returns (rc: int)
      requires S().Valid() && S().At(1, g, node) && (|rows| > 2 ==> node.num >= Half(M))
      requires flag == 0 || flag == LESS || flag == MORE
      requires if flag == 0 then Between(rows[1], g, key)
               else iMatch >= 0 && Matched(S(), 1, g, flag, h, q, nodeMatch, iMatch, key)
      modifies `file, `free, `current, `keyUse, `valueUse, `fl, `rows, `keyTotal
      ensures S().Valid()
      ensures rc == if key in old(Map()) then 1 else 0
      ensures Map() == old(Map()) - {key}
    {
      hide Laid, FreeList, Total, Kids, NodeOk, IsBlock, Aligned, Filled, Rooted, ValuesIn, Counted, Offset,
           State.Treed, State.Valued, State.Sum, Kept, PairsOf, Gone, Matched, CopySlots;
      ghost var s := S();
      ContentsKeys(s);
      OnDisk(s, {});
      NodeIs(s, {}, 1, g, node);
      var v; ghost var d;
      if flag != 0 {
        MatchedBelow(s, 1, g, flag, h, q, nodeMatch, iMatch, key);
        MatchedSlot(s, 1, g, flag, h, q, nodeMatch, iMatch, key);
        v := nodeMatch.slots[iMatch].value;
        d := ReplacePair(nodeMatch, iMatch, node, flag, key, h, q, g);
      } else {
        var i := KeyBinarySearch(node, key);
        if i < 0 {
          KeyMissing(s, {}, g, node, key, -(i + 1));
          return 0;
        }
        v := node.slots[i].value;
        d := DropPair(node, i, g);
      }
      Forget(v, key, s, d);
      rc := 1;
    }

    /** One turn of the loop of db_delete: flag says whether the key has been met, and on which side the walk goes. */
    method NextDown(key: int, node0: Block, flag0: int, iMatch0: int, nodeMatch0: Block, ghost l: nat, ghost g0: nat,
                    ghost h0: nat, ghost q0: nat)
      returns (flag: int, iMatch: int, nodeMatch: Block, node: Block, ghost g: nat, ghost h: nat, ghost q: nat)
      requires S().Treed({}) && S().Balanced(0) && l >= 1 && S().At(l + 1, g0, node0)
      requires l + 1 == |rows| - 1 || node0.num >= Half(M)
      requires flag0 == 0 || flag0 == LESS || flag0 == MORE
      requires if flag0 == 0 then Between(rows[l + 1], g0, key)
               else iMatch0 >= 0 && Matched(S(), l + 1, g0, flag0, h0, q0, nodeMatch0, iMatch0, key)
      modifies `file, `free, `keyUse, `valueUse, `fl, `tag, `rows
      ensures S().Treed({}) && S().Balanced(0) && SamePairs(old(S()), S()) && S().At(l, g, node)
      ensures l == |rows| - 1 || node.num >= Half(M)
      ensures flag == 0 || flag == LESS || flag == MORE
      ensures if flag == 0 then Between(rows[l], g, key)
              else iMatch >= 0 && Matched(S(), l, g, flag, h, q, nodeMatch, iMatch, key)
    {
      hide Laid, FreeList, Total, Kids, NodeOk, IsBlock, Filled, Rooted, Offset, State.Treed, State.Sum, Kept, Matched,
           CopySlots;
      flag, iMatch, nodeMatch, node, g, h, q := flag0, iMatch0, nodeMatch0, node0, g0, h0, q0;
      ghost var s := S();
      NodeIs(s, {}, l + 1, g, node);
      var r: int;
      if flag == LESS {
        r := -1;
      } else if flag == MORE {
        r := -1 - node.num;
      } else {
        r := KeyBinarySearch(node, key);
      }
      if r >= 0 {
        KeyListed(s, {}, l + 1, g, node, r);
        nodeMatch, iMatch, h, q := node, r, l + 1, g;
        flag, node, g := Match(node, r, key, l, g);
      } else {
        var i: nat := -(r + 1);
        PlaceIn(s, l, g, i, node);
        if flag == 0 {
          Deeper(s, {}, l, g, node, key, i);
        } else {
          MatchedBelow(s, l + 1, g, flag, h, q, nodeMatch, iMatch, key);
        }
        node, g := Enter(node, i, l, g);
        if flag == 0 {
          EnteredBetween(s, S(), l, g0, i, node0, g, node, key);
        } else {
          MatchedDown(s, S(), l, g0, flag, node0, g, node, h, q, nodeMatch, iMatch, key);
        }
      }
    }

    /** db_delete: 1 for a key that was there, 0 for one that was not. */
    method Delete(key: int) returns (rc: int)
      requires S().Valid()
      modifies `file, `free, `current, `keyUse, `valueUse, `fl, `tag, `rows, `keyTotal
      ensures S().Valid()
      ensures rc == if key in old(Map()) then 1 else 0
      ensures Map() == old(Map()) - {key}
    {
      hide Laid, FreeList, Total, Kids, NodeOk, IsBlock, Aligned, Filled, Rooted, ValuesIn, Counted, Offset,
           State.Treed, State.Valued, State.Sum, Kept, PairsOf, Gone, Matched, CopySlots;
      ghost var s0 := S();
      OnDisk(s0, {});
      ContentsKeys(s0);
      RootAt(s0, {}, key);
      SamePairsRefl(s0);
      var node := file[ROOT];
      NodeIs(s0, {}, |rows| - 1, 0, node);
      var flag, iMatch, nodeMatch := 0, 0, node;
      ghost var l: nat, g: nat, h: nat, q: nat := |rows| - 1, 0, 0, 0;
      while !node.leaf
        invariant S().Treed({}) && S().Balanced(0)
        invariant SamePairs(s0, S()) && S().At(l, g, node) && (node.leaf <==> l == 1)
        invariant l == |rows| - 1 || node.num >= Half(M)
        invariant flag == 0 || flag == LESS || flag == MORE
        invariant if flag == 0 then Between(rows[l], g, key)
                  else iMatch >= 0 && Matched(S(), l, g, flag, h, q, nodeMatch, iMatch, key)
        decreases l
      {
        ghost var s := S();
        flag, iMatch, nodeMatch, node, g, h, q := NextDown(key, node, flag, iMatch, nodeMatch, l - 1, g, h, q);
        SamePairsTrans(s0, s, S());
        l := l - 1;
        NodeIs(S(), {}, l, g, node);
      }
      StillValued(s0, S());
      SameContents(s0, S());
      rc := AtLeaf(node, flag, iMatch, nodeMatch, key, g, h, q);
    }

    // ---------- reading

    /** db_search: the length of the value and its bytes, or -1 when there is no such key or no room. */
    method Search(key: int, room: nat) returns (rc: int, value: seq<byte>)
      requires S().Valid()
      ensures if key in Map() && |Map()[key]| <= room then rc == |value| && value == Map()[key] else rc == -1
    {
      hide Laid, FreeList, Total, Kids, NodeOk, IsBlock, Aligned, Filled, Rooted, ValuesIn, Counted, Offset, BlockOf,
           State.Treed, State.Valued, State.Sum, PairsOf, ValueIn, ValueAt, HasValue;
      ghost var s := S();
      OnDisk(s, {});
      ContentsKeys(s);
      RootAt(s, {}, key);
      var offset := ROOT;
      ghost var l: nat, g: nat := |rows| - 1, 0;
      while true
        invariant offset in file && S().At(l, g, file[offset]) && Between(rows[l], g, key)
        decreases l
      {
        var node := file[offset];
        NodeIs(s, {}, l, g, node);
        var r := KeyBinarySearch(node, key);
        if r >= 0 {
          var v := node.slots[r].value;
          KeyListed(s, {}, l, g, node, r);
          KeyValue(s, l, g, node, r);
          var b := file[BlockOf(v)];
          var n := Number(b.bytes[v - b.self..v - b.self + WORD]);
          if n > room {
            return -1, [];
          }
          return n, ValueAt(b, v);
        }
        var i: nat := -(r + 1);
        offset := node.slots[i].child;
        if l == 1 {
          KeyMissing(s, {}, g, node, key, i);
          LeafFits(s, g, node);
        } else {
          ChildIs(s, {}, l - 1, g, node, i);
          Deeper(s, {}, l - 1, g, node, key, i);
          InLaid(s, offset);
          AtLeastRoot(offset);
        }
        if offset == 0 {
          return -1, [];
        }
        g := Place(s.T(), l - 1, g, i);
        l := l - 1;
      }
    }

    /** What the loop of db_checker adds for one block. */
    static method AddBlock(sum: Tally, node: Block) returns (t: Tally)
      ensures t == Plus(sum, Weight(node))
    {
      t := sum;
      if node.use {
        if node.keys {
          t := t.(keys := t.keys + node.num, keyBlocks := t.keyBlocks + 1);
        } else {
          t := t.(refs := t.refs + node.num, valueBlocks := t.valueBlocks + 1);
        }
      }
    }

    /** The loop of db_checker: the totals of the blocks, unless one is not in its place. */
    method AddUp() returns (ok: bool, sum: Tally)
      requires AllThere(file, size)
      ensures ok ==> sum == S().Sum() && InOrder(file, Index(size))
      ensures !ok ==> !CheckedOk(S())
    {
      hide IsBlock, Index, Addr, Total, Weight, Plus, CheckedOk, InOrder, AllThere, State.Sum;
      Firsts();
      NoBlocks(file);
      SumIs(S());
      LastAddr(file, size);
      var i := ROOT;
      sum := NONE;
      ghost var k, n := 0, Index(size);
      while i < size
        invariant 0 <= k <= n && i == Addr(k) && (i < size <==> k < n)
        invariant Total(file, k) == sum
        invariant InOrder(file, k)
        decreases n - k
      {
        Present(file, size, k);
        var node := file[i];
        if node.self != i {
          NotInPlace(S(), i);
          return false, NONE;
        }
        sum := AddBlock(sum, node);
        NextTotal(file, k, node);
        InOrderNext(file, k);
        i := i + BLOCK;
        k := k + 1;
      }
      ok := true;
    }

    /** db_checker: the head is in order, each block in its place, and the totals are those of the blocks. */
    method Checker() returns (rc: int)
      requires size >= ROOT + BLOCK && IsBlock(size) ==> AllThere(file, size)
      ensures rc == if HeadOk() && CheckedOk(S()) then 0 else -1
    {
      if !KeyOk(keyType, keySize) || keyAlign != Aligned(SLOT + keySize) || M != (BLOCK - HEADER) / keyAlign - 1 {
        return -1;
      }
      if size < ROOT + BLOCK || (size - ROOT) % BLOCK != 0 {
        return -1;
      }
      var ok, sum := AddUp();
      if !ok {
        return -1;
      }
      InPlace(S(), sum);
      if sum.keys != sum.refs || sum.keys != keyTotal || sum.keyBlocks != keyUse || sum.valueBlocks != valueUse {
        return -1;
      }
      rc := 0;
    }

    // ---------- keys as the caller gives them

    /** The value stored under a key. */
    ghost function Found(k: Key): Option<seq<byte>>
      requires |rows| > 0 && !TooLong(keySize, k)
      reads this
    {
      var r := Rank(keySize, base, k);
      if r in Map() then Some(Map()[r]) else None
    }

    ghost predicate Usable(k: Key) {
      Suits(keyType, keySize, k) && !TooLong(keySize, k) && InWindow(base, k)
    }

    lemma Ranked(key: Key)
      requires Usable(key)
      ensures forall k :: Usable(k) ==> (Rank(keySize, base, k) == Rank(keySize, base, key) <==> Same(k, key))
    {
      hide Rank, Same, InWindow, Suits, TooLong;
      forall k | Usable(k)
        ensures Rank(keySize, base, k) == Rank(keySize, base, key) <==> Same(k, key)
      {
        CmpByRank(keyType, keySize, base, k, key);
      }
    }

    /** db_insert with a key of the database's type. */
    method InsertKey(key: Key, value: seq<byte>) returns (rc: int)
      requires S().Valid() && Suits(keyType, keySize, key) && InWindow(base, key)
      modifies `asks, `file, `size, `free, `current, `keyUse, `valueUse, `fl, `tag, `rows, `keyTotal, `lost
      ensures S().Valid() && asks >= old(asks) && |old(rows)| >= 2
      ensures TooLong(keySize, key) ==> rc == -1 && S() == old(S()) && asks == old(asks)
      ensures !TooLong(keySize, key) ==>
        var n := Short(old(Wants(Rank(keySize, base, key), |value|)), |old(fl)|);
        rc == if HEADER + Aligned(WORD + |value|) > BLOCK || !Granted(grows, old(asks), old(asks) + n) then -1
              else if old(Found(key)).Some? then 0 else 1
      ensures forall k :: Usable(k) ==> Found(k) == if rc == 1 && Same(k, key) then Some(value) else old(Found(k))
    {
      hide State.Valid, Rank, Same, InWindow, Suits, Aligned;
      TwoRows();
      HasRows();
      if TooLong(keySize, key) {
        return -1;
      }
      Ranked(key);
      rc := Insert(Rank(keySize, base, key), value);
      HasRows();
    }

    lemma HasRows()
      requires S().Valid()
      ensures |rows| > 0
    {
    }

    /** db_delete with a key of the database's type. */
    method DeleteKey(key: Key) returns (rc: int)
      requires S().Valid() && Suits(keyType, keySize, key) && InWindow(base, key)
      modifies `file, `free, `current, `keyUse, `valueUse, `fl, `tag, `rows, `keyTotal
      ensures S().Valid()
      ensures TooLong(keySize, key) ==> rc == -1 && S() == old(S())
      ensures !TooLong(keySize, key) ==> rc == if old(Found(key)).Some? then 1 else 0
      ensures forall k :: Usable(k) ==> Found(k) == if rc == 1 && Same(k, key) then None else old(Found(k))
    {
      hide State.Valid, Rank, Same, InWindow, Suits;
      HasRows();
      if TooLong(keySize, key) {
        return -1;
      }
      Ranked(key);
      rc := Delete(Rank(keySize, base, key));
      HasRows();
    }

    /** db_search with a key of the database's type. */
    method SearchKey(key: Key, room: nat) returns (rc: int, value: seq<byte>)
      requires S().Valid() && Suits(keyType, keySize, key) && InWindow(base, key)
      ensures if !TooLong(keySize, key) && Found(key).Some? && |Found(key).value| <= room
              then rc == |value| && value == Found(key).value else rc == -1
    {
      hide State.Valid, Rank, InWindow, Suits;
      HasRows();
      if TooLong(keySize, key) {
        return -1, [];
      }
      rc, value := Search(Rank(keySize, base, key), room);
    }
  }

  /** 64-bit keys 0 and 2^32: the second is refused as a repeat of the first, and finds its value. */
  method RefusedRepeat(a: seq<byte>, b: seq<byte>) returns (first: int, second: int, found: seq<byte>)
    requires |a| <= 1000 && |b| <= 1000
    ensures first == 1 && second == 0 && found == a
  {
    hide State.Valid, Db.Wants, Short, Took, Db.HeadOk, Db.Map;
    var db := new Db(INT64KEY, 8, _ => true, 0);
    first := db.InsertKey(Whole(0), a);
    assert db.Usable(Whole(0)) && db.Usable(Whole(0x1_0000_0000));
    second := db.InsertKey(Whole(0x1_0000_0000), b);
    var rc;
    rc, found := db.SearchKey(Whole(0x1_0000_0000), 1000);
  }

  /** In a file that grows once, a second value goes behind the first. */
  method SecondValue() returns (first: int, second: int)
    ensures first == 1 && second == 1
  {
    hide State.Valid, Db.Wants, Took, Db.HeadOk, Blocks, Db.ForRoot, Db.Leaks, State.Sum;
    var db := new Db(INT32KEY, 4, i => i == 0, 0);
    db.SmallWants(1, 1);
    first := db.Insert(1, [0]);
    db.SmallWants(2, 1);
    second := db.Insert(2, [0]);
  }
}
