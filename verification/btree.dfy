/**
The B+tree of lib_btree/btree.c. Memory is a map from addresses to nodes, so that a value word can be, as in
the program, either a user's value or the address of a child, and a key argument can be a pointer into a node.
*/
module Btree {
  import opened Grants
  import opened BtreeLevels
  import opened BtreeSteps
  import opened BtreeProofs
  import opened BtreeShape

  class Btree {
    const N: nat        // geo->no_pairs
    const keylen: nat   // geo->keylen
    const spare: bool   // the node has words behind the last value
    const beyond: nat -> nat   // the word in memory behind the node at an address

    const grants: nat -> bool  // whether calloc has memory, call by call
    var calls: nat             // how often it has been called

    var mem: map<nat, Node>
    var node: nat       // head->node, 0 for NULL
    var height: nat     // head->height

    ghost var tag: map<nat, nat>
    ghost var rows: seq<seq<Ref>>

    ghost function T(): Tree
      reads this
    {
      Tree(N, mem, tag, rows)
    }

    ghost predicate Heap()
      reads this
    {
      && 4 <= N && 1 <= keylen <= N
      && mem.Keys == tag.Keys && 0 !in mem
      && |rows| == height + 1
      && (if height == 0 then node == 0 else node != 0 && |rows[height]| == 1 && rows[height][0].addr == node)
    }

    /** Level L and everything above it is a well-formed tree. */
    ghost predicate From(L: nat)
      reads this
    {
      Heap() && T().From(L)
    }

    /** How many nodes are allocated. */
    function Nodes(): nat
      reads this
    {
      |mem|
    }

    lemma NodesIs()
      requires mem.Keys == tag.Keys
      ensures Nodes() == Size(tag)
    {
      SizeIs(mem, tag);
    }

    function ReadKey(key: KeyRef): nat
      reads this
    {
      Read(mem, key)
    }

    method SetKeyb(a: nat, key: nat, i: nat)
      requires a in mem && i < |mem[a]|
      modifies `mem
      ensures mem == old(mem)[a := old(mem)[a][i := old(mem)[a][i].(key := key)]]
    {
      mem := mem[a := mem[a][i := mem[a][i].(key := key)]];
    }

    method SetVal(a: nat, val: nat, i: nat)
      requires a in mem && i < |mem[a]|
      modifies `mem
      ensures mem == old(mem)[a := old(mem)[a][i := old(mem)[a][i].(val := val)]]
    {
      mem := mem[a := mem[a][i := mem[a][i].(val := val)]];
    }

    method ClearPair(a: nat, i: nat)
      requires a in mem && i < |mem[a]|
      modifies `mem
      ensures mem == old(mem)[a := old(mem)[a][i := EMPTY]]
    {
      mem := mem[a := mem[a][i := EMPTY]];
    }

    method Getpos(a: nat, key: KeyRef) returns (i: nat)
      requires a in mem && |mem[a]| == N
      ensures i <= N
      ensures forall j :: 0 <= j < i ==> mem[a][j].key > ReadKey(key)
      ensures i < N ==> mem[a][i].key <= ReadKey(key)
    {
      i := 0;
      while i < N
        invariant i <= N
        invariant forall j :: 0 <= j < i ==> mem[a][j].key > ReadKey(key)
      {
        if mem[a][i].key <= ReadKey(key) {
          break;
        }
        i := i + 1;
      }
    }

    method Getfill(a: nat, start: nat) returns (i: nat)
      requires a in mem && |mem[a]| == N && start <= N
      ensures i == Fill(mem[a], start)
    {
      i := start;
      while i < N
        invariant start <= i <= N
        invariant Fill(mem[a], i) == Fill(mem[a], start)
      {
        if mem[a][i].val == 0 {
          break;
        }
        i := i + 1;
      }
    }

    /** One level of the search: a key below every key of the node lowers the node's last separator to itself. */
    method Step(key: KeyRef, level: nat, h: nat, a: nat, ghost g: nat) returns (i: nat)
      requires 1 <= level < h <= height && From(level) && Filled(T(), level + 1, 0, 0) && KeyBelow(T(), key, level)
      requires g < |rows[h]| && rows[h][g].addr == a && InRange(rows[h][g], ReadKey(key))
      modifies `mem, `rows
      ensures From(level) && Lowered(old(T()), T(), level) && ReadKey(key) == old(ReadKey(key))
      ensures rows[h] == old(rows)[h] && a in mem && i < |mem[a]| && i < |Entries(mem[a])|
      ensures IsPos(Entries(mem[a]), ReadKey(key), i) && mem[a][i].val == Entries(mem[a])[i].val
    {
      hide Tree.From, NodeOk, Kids, KidsOf, Entries, RowOk, IsPos, InRange, Lowered, Fill, Offset;
      ghost var s, R, k := T(), rows[h], ReadKey(key);
      FromOk(s, level, h);
      RowAt(s, h, g);
      ghost var n := mem[a];
      assert |Entries(n)| > 0 by { assert FilledAt(s, h, 0, 0); }
      i := Getpos(a, key);
      PosInNode(n, N, R[g], k, i);
      if i == N || mem[a][i].val == 0 {
        assert i > 0;  // the program's BUG_ON
        i := i - 1;
        SetKeyb(a, ReadKey(key), i);
        ghost var o := Offset(s.mem, R, g) + i;
        KidAt(s.mem, R, g, i);
        rows := rows[h - 1 := rows[h - 1][o := rows[h - 1][o].(lo := k)]];
        LowerTree(s, T(), level, h, g, k, i, o);
        LoweredKey(s, T(), level, key);
      } else {
        EntryAt(n, N, R[g], i);
        LoweredRefl(s, level);
      }
    }

    method FindLevel(key: KeyRef, level: nat) returns (a: nat, ghost g: nat)
      requires 1 <= level <= height && From(level) && Filled(T(), level + 1, 0, 0) && KeyBelow(T(), key, level)
      modifies `mem, `rows
      ensures From(level) && Lowered(old(T()), T(), level) && ReadKey(key) == old(ReadKey(key))
      ensures g < |rows[level]| && rows[level][g].addr == a && InRange(rows[level][g], ReadKey(key))
    {
      hide Tree.From, NodeOk, Kids, KidsOf, Entries, RowOk, IsPos, InRange, Lowered, Fill, Offset, Filled;
      a := node;
      g := 0;
      ghost var k, s0 := ReadKey(key), T();
      assert InRange(rows[height][0], k) by { FromUp(T(), level, height); RootRange(T(), k); }
      LoweredRefl(s0, level);
      var h := height;
      while h > level
        invariant level <= h <= height
        invariant From(level) && Lowered(s0, T(), level)
        invariant g < |rows[h]| && rows[h][g].addr == a && InRange(rows[h][g], k)
      {
        ghost var s := T();
        LoweredKey(s0, s, level, key);
        LoweredFilled(s0, s, level, level + 1, 0, 0);
        var i := Step(key, level, h, a, g);
        LoweredTrans(s0, s, T(), level);
        FromOk(T(), level, h);
        RouteDown(T(), h, g, k, i);
        g := Offset(mem, rows[h], g) + i;
        a := mem[a][i].val;
        h := h - 1;
      }
      FromOk(T(), level, level);
      RowAt(T(), level, g);
      assert a != 0;  // the program's BUG_ON
      LoweredKey(s0, T(), level, key);
    }

    // ---------- moving slots about

    /** for (i = fill - 1; i >= from; i--) slot i moves up by count. */
    method ShiftUp(a: nat, from: nat, fill: nat, count: nat)
      requires a in mem && |mem[a]| == N && from <= fill && fill + count <= N && count > 0
      modifies `mem
      ensures a in mem && mem == old(mem)[a := mem[a]] && |mem[a]| == N
      ensures forall j :: 0 <= j < N && (j < from || fill + count <= j) ==> mem[a][j] == old(mem[a])[j]
      ensures forall j :: from + count <= j < fill + count ==> mem[a][j] == old(mem[a])[j - count]
    {
      ghost var m: map<nat, Node> := mem;
      var i: int := fill - 1;
      while i >= from
        invariant from - 1 <= i < fill
        invariant a in mem && mem == m[a := mem[a]] && |mem[a]| == N
        invariant forall j :: 0 <= j <= i || 0 <= j < from || fill + count <= j < N ==> mem[a][j] == m[a][j]
        invariant forall j :: i + count < j < fill + count ==> mem[a][j] == m[a][j - count]
      {
        SetKeyb(a, mem[a][i].key, i + count);
        SetVal(a, mem[a][i].val, i + count);
        i := i - 1;
      }
    }

    /** for (i = from; i < fill; i++) slot i moves down by count. */
    method ShiftDown(a: nat, from: nat, fill: nat, count: nat)
      requires a in mem && |mem[a]| == N && count <= from <= fill <= N && count > 0
      modifies `mem
      ensures a in mem && mem == old(mem)[a := mem[a]] && |mem[a]| == N
      ensures forall j :: 0 <= j < from - count || fill <= j < N ==> mem[a][j] == old(mem[a])[j]
      ensures forall j :: from - count <= j < fill - count ==> mem[a][j] == old(mem[a])[j + count]
    {
      ghost var m: map<nat, Node> := mem;
      var i := from;
      while i < fill
        invariant from <= i <= fill
        invariant a in mem && mem == m[a := mem[a]] && |mem[a]| == N
        invariant forall j :: 0 <= j < from - count || i <= j < N ==> mem[a][j] == m[a][j]
        invariant forall j :: from - count <= j < i - count ==> mem[a][j] == m[a][j + count]
      {
        SetKeyb(a, mem[a][i].key, i - count);
        SetVal(a, mem[a][i].val, i - count);
        i := i + 1;
      }
    }

    /** for (i = 0; i < count; i++) slot spos + i of src is copied to slot dpos + i of dst. */
    method CopyRange(dst: nat, dpos: nat, src: nat, spos: nat, count: nat)
      requires dst in mem && src in mem && dst != src && |mem[dst]| == |mem[src]| == N
      requires dpos + count <= N && spos + count <= N
      modifies `mem
      ensures dst in mem && mem == old(mem)[dst := mem[dst]] && |mem[dst]| == N
      ensures forall j :: 0 <= j < dpos || dpos + count <= j < N ==> mem[dst][j] == old(mem[dst])[j]
      ensures forall j :: dpos <= j < dpos + count ==> mem[dst][j] == old(mem)[src][spos + j - dpos]
    {
      ghost var m: map<nat, Node> := mem;
      var i := 0;
      while i < count
        invariant 0 <= i <= count
        invariant dst in mem && mem == m[dst := mem[dst]] && |mem[dst]| == N
        invariant forall j :: 0 <= j < dpos || dpos + i <= j < N ==> mem[dst][j] == m[dst][j]
        invariant forall j :: dpos <= j < dpos + i ==> mem[dst][j] == m[src][spos + j - dpos]
      {
        SetKeyb(dst, mem[src][spos + i].key, dpos + i);
        SetVal(dst, mem[src][spos + i].val, dpos + i);
        i := i + 1;
      }
    }

    /** for (i = from; i < to; i++) slot i is cleared. */
    method ClearRange(a: nat, from: nat, to: nat)
      requires a in mem && |mem[a]| == N && from <= to <= N
      modifies `mem
      ensures a in mem && mem == old(mem)[a := mem[a]] && |mem[a]| == N
      ensures forall j :: 0 <= j < from || to <= j < N ==> mem[a][j] == old(mem[a])[j]
      ensures forall j :: from <= j < to ==> mem[a][j] == EMPTY
    {
      ghost var m: map<nat, Node> := mem;
      var i := from;
      while i < to
        invariant from <= i <= to
        invariant a in mem && mem == m[a := mem[a]] && |mem[a]| == N
        invariant forall j :: 0 <= j < from || i <= j < N ==> mem[a][j] == m[a][j]
        invariant forall j :: from <= j < i ==> mem[a][j] == EMPTY
      {
        ClearPair(a, i);
        i := i + 1;
      }
    }

    /** The last pairs of the left node go before those of the right one. */
    method CopyUp(left: nat, lfill: nat, right: nat, rfill: nat, count: nat, ghost A: seq<Slot>, ghost B: seq<Slot>)
      requires left in mem && right in mem && left != right
      requires Holds(mem[left], N, A) && Holds(mem[right], N, B) && |A| == lfill && |B| == rfill
      requires 1 <= count < lfill && rfill + count <= N
      modifies `mem
      ensures left in mem && right in mem && mem == old(mem)[right := mem[right]]
      ensures Holds(mem[right], N, A[lfill - count..] + B)
    {
      ShiftUp(right, 0, rfill, count);
      CopyRange(right, 0, left, lfill - count, count);
    }

    method StealL(left: nat, lfill: nat, right: nat, rfill: nat, parent: nat, lpos: nat, count: nat,
                  ghost A: seq<Slot>, ghost B: seq<Slot>)
      requires left in mem && right in mem && parent in mem && left != right && left != parent && right != parent
      requires Holds(mem[left], N, A) && Holds(mem[right], N, B) && |A| == lfill && |B| == rfill
      requires 1 <= count < lfill && rfill + count <= N && lpos < |mem[parent]|
      modifies `mem
      ensures left in mem && right in mem
      ensures Holds(mem[left], N, A[..lfill - count]) && Holds(mem[right], N, A[lfill - count..] + B)
      ensures mem == old(mem)[right := mem[right]]
                     [parent := old(mem)[parent][lpos := old(mem)[parent][lpos].(key := A[lfill - count - 1].key)]]
                     [left := mem[left]]
    {
      CopyUp(left, lfill, right, rfill, count, A, B);
      SetKeyb(parent, mem[left][lfill - count - 1].key, lpos);
      ClearRange(left, lfill - count, lfill);
    }

    method StealR(left: nat, lfill: nat, right: nat, rfill: nat, parent: nat, lpos: nat, count: nat,
                  ghost A: seq<Slot>, ghost B: seq<Slot>)
      requires left in mem && right in mem && parent in mem && left != right && left != parent && right != parent
      requires Holds(mem[left], N, A) && Holds(mem[right], N, B) && |A| == lfill && |B| == rfill
      requires 1 <= count < rfill && lfill + count <= N && lpos < |mem[parent]|
      modifies `mem
      ensures left in mem && right in mem
      ensures Holds(mem[left], N, A + B[..count]) && Holds(mem[right], N, B[count..])
      ensures mem == old(mem)[left := mem[left]]
                     [parent := old(mem)[parent][lpos := old(mem)[parent][lpos].(key := B[count - 1].key)]]
                     [right := mem[right]]
    {
      CopyRange(left, lfill, right, 0, count);
      assert Holds(mem[left], N, A + B[..count]);
      assert Holds(mem[right], N, B);
      SetKeyb(parent, mem[right][count - 1].key, lpos);
      ShiftDown(right, count, rfill, count);
      ClearRange(right, rfill - count, rfill);
    }

    /** One round of the loop of split. */
    method MovePair(a: nat, new_: nat, i: nat, half: nat)
      requires a in mem && new_ in mem && a != new_ && i < half && i + half < |mem[a]| && i < |mem[new_]|
      modifies `mem
      ensures mem == old(mem)[a := old(mem)[a][i := old(mem)[a][i + half]][i + half := EMPTY]]
                     [new_ := old(mem)[new_][i := old(mem)[a][i]]]
    {
      SetKeyb(new_, mem[a][i].key, i);
      SetVal(new_, mem[a][i].val, i);
      assert mem[new_] == old(mem)[new_][i := old(mem)[a][i]];
      SetKeyb(a, mem[a][i + half].key, i);
      SetVal(a, mem[a][i + half].val, i);
      assert mem[a] == old(mem)[a][i := old(mem)[a][i + half]];
      ClearPair(a, i + half);
    }

    /** The loop of split. */
    method MovePairs(a: nat, new_: nat, half: nat)
      requires a in mem && new_ in mem && a != new_ && |mem[a]| == |mem[new_]| == N && 2 * half <= N
      modifies `mem
      ensures a in mem && new_ in mem && mem == old(mem)[a := mem[a]][new_ := mem[new_]] && |mem[a]| == |mem[new_]| == N
      ensures forall j :: 0 <= j < half ==> mem[new_][j] == old(mem)[a][j] && mem[a][j] == old(mem)[a][j + half]
      ensures forall j :: half <= j < N ==> mem[new_][j] == old(mem)[new_][j]
      ensures forall j :: half <= j < N ==> mem[a][j] == if j < 2 * half then EMPTY else old(mem)[a][j]
    {
      ghost var m: map<nat, Node> := mem;
      var i := 0;
      while i < half
        invariant 0 <= i <= half
        invariant a in mem && new_ in mem && mem == m[a := mem[a]][new_ := mem[new_]]
        invariant Moved(m[a], m[new_], mem[a], mem[new_], i, half)
      {
        MovedNext(m[a], m[new_], mem[a], mem[new_], i, half);
        MovePair(a, new_, i, half);
        i := i + 1;
      }
    }

    /** What split moves: the upper half of a full node goes to a cleared one, the rest moves up. */
    method MoveHalf(a: nat, new_: nat, fill: nat, ghost A: seq<Slot>)
      requires a in mem && new_ in mem && a != new_ && Holds(mem[a], N, A) && |A| == fill == N
      requires 4 <= N && |mem[new_]| == N && forall j :: 0 <= j < N ==> mem[new_][j] == EMPTY
      modifies `mem
      ensures a in mem && new_ in mem && mem == old(mem)[a := mem[a]][new_ := mem[new_]]
      ensures Holds(mem[new_], N, A[..fill / 2]) && Holds(mem[a], N, A[fill / 2..])
    {
      var half := fill / 2;
      MovePairs(a, new_, half);
      if fill % 2 == 1 {
        SetKeyb(a, mem[a][fill - 1].key, half);
        SetVal(a, mem[a][fill - 1].val, half);
        ClearPair(a, fill - 1);
      }
      assert forall j :: 0 <= j < N - half ==> mem[a][j] == A[half..][j];
    }

    /** "shift and insert" of btree_insert_level. */
    method ShiftIn(a: nat, pos: nat, fill: nat, key: KeyRef, val: nat, ghost A: seq<Slot>)
      requires a in mem && Holds(mem[a], N, A) && |A| == fill < N && pos <= fill && val != 0
      requires key.At? ==> key.addr != a
      modifies `mem
      ensures a in mem && mem == old(mem)[a := mem[a]]
      ensures Holds(mem[a], N, A[..pos] + [Slot(old(ReadKey(key)), val)] + A[pos..])
    {
      hide Holds;
      ghost var n := mem[a];
      assert |n| == N by { HoldsSize(n, N, A); }
      ShiftUp(a, pos, fill, 1);
      SetKeyb(a, ReadKey(key), pos);
      SetVal(a, val, pos);
      ShiftInHolds(n, N, A, pos, mem[a][pos], mem[a]);
    }

    /** "remove and shift" of btree_remove_level; a position past the last pair drops the last pair. */
    method ShiftOut(a: nat, pos: nat, fill: nat, ghost A: seq<Slot>)
      requires a in mem && Holds(mem[a], N, A) && |A| == fill && pos <= fill && fill >= 1
      modifies `mem
      ensures a in mem && mem == old(mem)[a := mem[a]]
      ensures pos < fill ==> Holds(mem[a], N, A[..pos] + A[pos + 1..])
      ensures pos == fill ==> Holds(mem[a], N, A[..fill - 1])
    {
      if pos + 1 < fill {
        ShiftDown(a, pos + 1, fill, 1);
      }
      ClearPair(a, fill - 1);
    }

    // ---------- insertion

    /** calloc: a cleared node at an address not in use, or 0 when there is no memory. */
    method Alloc(ghost level: nat) returns (a: nat)
      requires mem.Keys == tag.Keys
      modifies `mem, `tag, `calls
      ensures calls == old(calls) + 1
      ensures Asked(grants, old(calls), calls, old(Size(tag)), Size(tag), 1, a != 0)
      ensures a == 0 ==> mem == old(mem) && tag == old(tag)
      ensures a != 0 ==> a !in old(mem) && mem == old(mem)[a := Cleared(N)] && tag == old(tag)[a := level]
    {
      calls := calls + 1;
      assert grants(calls - 1) <==> Granted(grants, calls - 1, calls);
      if !grants(calls - 1) {
        a := 0;
      } else {
        ghost var x := FreshAddress(mem);
        a :| a != 0 && a !in mem;
        mem := mem[a := Cleared(N)];
        tag := tag[a := level];
      }
    }

    /** The root is a node ready to become the only child of a new root. */
    ghost predicate RootReady()
      reads this
    {
      height > 0 ==> node in mem && node in tag && tag[node] == height
                     && |mem[node]| == N && Entries(mem[node]) != []
    }

    /** A new root receives the least key of the old one, and its address. */
    method Crown(a: nat, ghost s: Tree)
      requires a !in s.mem && mem == s.mem[a := Cleared(N)] && s.N == N >= 4
      requires node != 0 ==> node in s.mem && |s.mem[node]| == N && Entries(NodeAt(s.mem, node)) != []
      modifies `mem
      ensures mem == s.mem[a := GrownRoot(s, node)]
    {
      hide Entries, GrownRoot, Fill;
      if node != 0 {
        var fill := Getfill(node, 0);
        RootKey(s, node);
        SetKeyb(a, mem[node][fill - 1].key, 0);
        SetVal(a, node, 0);
        assert mem == s.mem[a := mem[a]];
      }
      GrownRootIs(s, node, mem[a]);
    }

    method Grow() returns (err: int)
      requires RootReady() && From(height + 1)
      modifies this
      ensures Asked(grants, old(calls), calls, old(Size(tag)), Size(tag), 1, err == 0)
      ensures err != 0 ==> err == -ENOMEM && T() == old(T()) && height == old(height) && node == old(node)
      ensures err == 0 ==> height == old(height) + 1 && From(height) && Framed(old(T()), T(), height)
      ensures err == 0 ==> node !in old(mem) && Entries(NodeAt(mem, node)) == Slots(Before(old(T()), old(node), height))
      ensures err == 0 ==> rows[height - 1] == Before(old(T()), old(node), height)
    {
      hide Tree.From, NodeOk, Kids, KidsOf, Entries, Holds, Fill, Before, RowOk, Framed, GrownRoot, Slots;
      hide Asked;
      ghost var s := T();
      var a := Alloc(height + 1);
      if a == 0 {
        return -ENOMEM;
      }
      ClearedHolds(N);
      ghost var below := Before(s, node, height + 1);
      Crown(a, s);
      rows := rows[height := below] + [[Ref(a, 0, Inf)]];
      GrowDone(s, node, a, T());
      node := a;
      height := height + 1;
      err := 0;
    }

    /** The ghost side of a steal: the row of the two nodes and the row they list are brought up to date. */
    ghost method AfterSteal(s: Tree, level: nat, p: nat, i: nat, X: seq<Slot>, Y: seq<Slot>, exc: nat, me: nat, k: nat)
      returns (g: nat)
      requires 1 <= level && level + 1 < |s.rows|
      requires s.From(level) && p < |s.rows[level + 1]| && s.mem.Keys == s.tag.Keys
      requires i + 1 < |Entries(NodeAt(s.mem, s.rows[level + 1][p].addr))|
      requires i < |NodeAt(s.mem, s.rows[level + 1][p].addr)|
      requires Offset(s.mem, s.rows[level + 1], p) + i + 1 < |s.rows[level]|
      requires X != [] && s.N == N && s.tag == tag && s.rows == rows && height + 1 == |rows|
      requires var c := Offset(s.mem, s.rows[level + 1], p) + i;
        var l, r, pa := s.rows[level][c].addr, s.rows[level][c + 1].addr, s.rows[level + 1][p].addr;
        && X + Y == Entries(NodeAt(s.mem, l)) + Entries(NodeAt(s.mem, r)) && Entries(NodeAt(s.mem, l)) != []
        && (exc == 0 || exc == l || exc == r)
        && (InRange(s.rows[level][c], k) || InRange(s.rows[level][c + 1], k))
        && l in mem && r in mem && Holds(mem[l], N, X) && Holds(mem[r], N, Y)
        && pa in s.mem && l != r && l != pa && r != pa
        && var np := s.mem[pa][i := s.mem[pa][i].(key := LastKey(X))];
           (mem == s.mem[r := mem[r]][pa := np][l := mem[l]] || mem == s.mem[l := mem[l]][pa := np][r := mem[r]])
      requires |X| >= 2 && |Y| >= 2 && Filled(s, level, exc, me)
      modifies `rows
      ensures |rows| == |s.rows| && mem.Keys == s.mem.Keys
      ensures T().From(level) && SamePairs(s.rows[level - 1], rows[level - 1]) && Filled(T(), level, 0, 0)
      ensures Framed(s, T(), level) && rows[height] == s.rows[height]
      ensures g < |rows[level]| && InRange(rows[level][g], k)
      ensures Entries(NodeAt(mem, rows[level][g].addr)) == X || Entries(NodeAt(mem, rows[level][g].addr)) == Y
      ensures var c := Offset(s.mem, s.rows[level + 1], p) + i;
        Counts(mem, rows[level]) == Counts(s.mem, s.rows[level])[c := |X|][c + 1 := |Y|]
    {
      hide Entries, NodeOk, Kids, KidsOf, Holds, Filled, InRange, Framed, RowOk, SamePairs, Offset, Counts;
      var c := Offset(s.mem, s.rows[level + 1], p) + i;
      var l, r, pa := s.rows[level][c].addr, s.rows[level][c + 1].addr, s.rows[level + 1][p].addr;
      Reorder(s.mem, l, r, pa, mem[l], mem[r], s.mem[pa][i := s.mem[pa][i].(key := LastKey(X))]);
      var t := Reshared(s, level, p, i, LastKey(X), mem[l], mem[r]);
      rows := t.rows;
      g := StealDone(s, t, level, p, i, X, Y, mem[l], mem[r], exc, me, k);
      FromOk(s, level, level);
      FromOk(s, level, level + 1);
      DealtCounts(s, level, p, i, X, Y, mem[l], mem[r]);
    }

    /** steal_r between the children lpos and lpos + 1 of a node. */
    method TakeR(left: nat, lfill: nat, right: nat, rfill: nat, parent: nat, lpos: nat, count: nat,
              ghost level: nat, ghost p: nat, ghost exc: nat, ghost me: nat, ghost k: nat) returns (ghost g: nat)
      requires 1 <= level < height && From(level) && Filled(T(), level, exc, me)
      requires p < |rows[level + 1]| && rows[level + 1][p].addr == parent
      requires lpos + 1 < |Entries(NodeAt(mem, parent))|
      requires var c := Offset(mem, rows[level + 1], p) + lpos;
        && c + 1 < |rows[level]| && rows[level][c].addr == left && rows[level][c + 1].addr == right
        && (exc == 0 || exc == left || exc == right)
        && (InRange(rows[level][c], k) || InRange(rows[level][c + 1], k))
      requires left in mem && right in mem && lfill == |Entries(mem[left])| && rfill == |Entries(mem[right])|
      requires 1 <= count && lfill >= 1 && lfill + count <= N && lfill + count >= 2 && rfill >= count + 2
      modifies `mem, `rows
      ensures From(level) && SamePairs(old(rows)[level - 1], rows[level - 1]) && Filled(T(), level, 0, 0)
      ensures Framed(old(T()), T(), level)
      ensures g < |rows[level]| && InRange(rows[level][g], k)
      ensures |Entries(NodeAt(mem, rows[level][g].addr))| == lfill + count ||
        |Entries(NodeAt(mem, rows[level][g].addr))| == rfill - count
      ensures var c := Offset(old(mem), old(rows)[level + 1], p) + lpos;
        Counts(mem, rows[level]) == old(Counts(mem, rows[level]))[c := lfill + count][c + 1 := rfill - count]
    {
      hide Tree.From, Exact, Entries, NodeOk, Kids, KidsOf, Holds, Filled, InRange, Framed, RowOk, SamePairs, Offset,
           Counts;
      ghost var s := T();
      Neighbour(s, level, p, lpos);
      ghost var A, B := Entries(mem[left]), Entries(mem[right]);
      ExactHolds(mem[left], N);
      ExactHolds(mem[right], N);
      StealR(left, lfill, right, rfill, parent, lpos, count, A, B);
      DealtRight(A, B, count);
      g := AfterSteal(s, level, p, lpos, A + B[..count], B[count..], exc, me, k);
    }

    /** steal_l between the children lpos and lpos + 1 of a node. */
    method TakeL(left: nat, lfill: nat, right: nat, rfill: nat, parent: nat, lpos: nat, count: nat,
              ghost level: nat, ghost p: nat, ghost exc: nat, ghost me: nat, ghost k: nat) returns (ghost g: nat)
      requires 1 <= level < height && From(level) && Filled(T(), level, exc, me)
      requires p < |rows[level + 1]| && rows[level + 1][p].addr == parent
      requires lpos + 1 < |Entries(NodeAt(mem, parent))|
      requires var c := Offset(mem, rows[level + 1], p) + lpos;
        && c + 1 < |rows[level]| && rows[level][c].addr == left && rows[level][c + 1].addr == right
        && (exc == 0 || exc == left || exc == right)
        && (InRange(rows[level][c], k) || InRange(rows[level][c + 1], k))
      requires left in mem && right in mem && lfill == |Entries(mem[left])| && rfill == |Entries(mem[right])|
      requires 1 <= count && rfill + count <= N && rfill + count >= 2 && lfill >= count + 2
      modifies `mem, `rows
      ensures From(level) && SamePairs(old(rows)[level - 1], rows[level - 1]) && Filled(T(), level, 0, 0)
      ensures Framed(old(T()), T(), level)
      ensures g < |rows[level]| && InRange(rows[level][g], k)
      ensures |Entries(NodeAt(mem, rows[level][g].addr))| == lfill - count ||
        |Entries(NodeAt(mem, rows[level][g].addr))| == rfill + count
      ensures var c := Offset(old(mem), old(rows)[level + 1], p) + lpos;
        Counts(mem, rows[level]) == old(Counts(mem, rows[level]))[c := lfill - count][c + 1 := rfill + count]
    {
      hide Tree.From, Exact, Entries, NodeOk, Kids, KidsOf, Holds, Filled, InRange, Framed, RowOk, SamePairs, Offset,
           Counts;
      ghost var s := T();
      Neighbour(s, level, p, lpos);
      ghost var A, B := Entries(mem[left]), Entries(mem[right]);
      ExactHolds(mem[left], N);
      ExactHolds(mem[right], N);
      StealL(left, lfill, right, rfill, parent, lpos, count, A, B);
      DealtLeft(A, B, count);
      g := AfterSteal(s, level, p, lpos, A[..lfill - count], A[lfill - count..] + B, exc, me, k);
    }

    /** The second half of split: the new node, already entered above, receives the upper pairs of node a. */
    method MoveOver(a: nat, new_: nat, fill: nat, ghost level: nat, ghost s0: Tree, ghost s1: Tree, ghost R: seq<Ref>,
                    ghost c: nat, ghost k: nat) returns (ghost g: nat)
      requires 1 <= level < |s0.rows| && s0.From(level) && s0.mem.Keys == s0.tag.Keys && new_ !in s0.mem
      requires 4 <= N == s0.N == fill && Heap() && level < height && From(level + 1)
      requires c < |s0.rows[level]| && s0.rows[level][c].addr == a && InRange(s0.rows[level][c], k)
      requires a in s0.mem && a in s0.tag && s0.tag[a] == level && |Entries(s0.mem[a])| == N && Exact(s0.mem[a], N)
      requires Filled(s0, level, 0, 0) && Filled(T(), level + 1, 0, 0)
      requires s1 == s0.(mem := s0.mem[new_ := Cleared(s0.N)], tag := s0.tag[new_ := level])
      requires Framed(s1, T(), level + 1) && |rows| >= |s0.rows|
      requires RowOk(s0.mem, s0.tag, s0.N, R, level) && |R| == |s0.rows[level]|
      requires forall j :: 0 <= j < |R| ==> R[j].addr == s0.rows[level][j].addr && R[j].hi == s0.rows[level][j].hi
      requires (R == s0.rows[level] || |R| == 1) && InRange(R[c], Entries(s0.mem[a])[fill / 2 - 1].key)
      requires Inserted(R, rows[level], c, Entries(s0.mem[a])[fill / 2 - 1].key, new_)
      modifies `mem, `rows
      ensures From(level) && Filled(T(), level, 0, 0) && Framed(s0, T(), level)
      ensures SamePairs(s0.rows[level - 1], rows[level - 1]) && HasRoom(T(), level, g, k)
      ensures Counts(mem, rows[level]) == Halved(N, Counts(s0.mem, s0.rows[level]), c)
    {
      hide Entries, NodeOk, Kids, KidsOf, Holds, Filled, InRange, Framed, RowOk, SamePairs, Exact, Inserted,
           HasRoom, Counts;
      ghost var s2, es := T(), Entries(s0.mem[a]);
      ExactHolds(s0.mem[a], N);
      FramedNode(s1, s2, level + 1, a);
      FramedNode(s1, s2, level + 1, new_);
      MoveHalf(a, new_, fill, es);
      rows := rows[level - 1 := Kids(mem, rows[level])];
      g := SplitDone(s0, s1, s2, T(), R, level, c, es, new_, k);
      SplitOthers(s0, s1, s2, T(), R, level, c, new_);
      HoldsEntries(mem[new_], N, es[..fill / 2]);
      HoldsEntries(mem[a], N, es[fill / 2..]);
      SplitCounts(s0.mem, mem, s0.rows[level], R, rows[level], c, es[fill / 2 - 1].key, new_);
    }

    /** The new node of a split that went wrong above is given back. */
    method Free(new_: nat, ghost level: nat, ghost s0: Tree, ghost s1: Tree, ghost s2: Tree)
      requires 1 <= level < |s0.rows| && s0.From(level)
      requires s0.mem.Keys == s0.tag.Keys && new_ !in s0.mem && Filled(s0, level, 0, 0)
      requires s1 == s0.(mem := s0.mem[new_ := Cleared(s0.N)], tag := s0.tag[new_ := level])
      requires s2 == T() && s2.From(level + 1) && Framed(s1, s2, level + 1) && |s2.rows| == |s0.rows|
      requires Filled(s2, level + 1, 0, 0) && s2.mem.Keys == s2.tag.Keys
      requires if level == |s0.rows| - 1 then s2 == s1 else SamePairs(s0.rows[level], s2.rows[level])
      modifies `mem, `tag, `rows
      ensures T().From(level) && Filled(T(), level, 0, 0)
      ensures Framed(s0, T(), level) && SamePairs(s0.rows[level - 1], rows[level - 1])
      ensures mem == s2.mem - {new_} && tag == s2.tag - {new_} && |rows| == |s2.rows|
      ensures forall l :: level <= l < |rows| ==> rows[l] == s2.rows[l]
    {
      hide Tree.From, Entries, NodeOk, Kids, Filled, Framed, SamePairs, Cleared;
      mem := mem - {new_};
      tag := tag - {new_};
      rows := rows[level - 1 := Kids(mem, rows[level])];
      SplitFailed(s0, s1, s2, T(), level, new_);
      SplitFailedFramed(s0, s1, s2, T(), level, new_);
    }

    /** The new node is entered above the full one; merely that the recursion reads the key in the full node's slot. */
    method LinkHalf(a: nat, new_: nat, fill: nat, level: nat, ghost c: nat, ghost s0: Tree, ghost s1: Tree)
      returns (err: int, ghost R: seq<Ref>)
      requires 1 <= level <= height && From(level + 1) && T() == s1 && Filled(s1, level + 1, 0, 0)
      requires |s0.rows| == height + 1 && s0.From(level) && new_ != 0 && new_ !in s0.mem && node in s0.mem
      requires s1 == s0.(mem := s0.mem[new_ := Cleared(N)], tag := s0.tag[new_ := level])
      requires c < |s0.rows[level]| && s0.rows[level][c].addr == a && a in s0.mem && Exact(s0.mem[a], N)
      requires |Entries(s0.mem[a])| == N == fill && a in s0.tag && s0.tag[a] == level
      modifies this
      ensures err == 0 || err == -ENOMEM
      ensures Asked(grants, old(calls), calls, old(Size(tag)), Size(tag),
                    Calls(N, Fills(s1, level + 1), Above(s1, level, c)), err == 0)
      ensures Heap() && From(level + 1) && Filled(T(), level + 1, 0, 0) && Framed(s1, T(), level + 1)
      ensures err != 0 ==> height == old(height) && tag == old(tag)
      ensures err != 0 ==> if level == height then T() == s1 else SamePairs(s0.rows[level], rows[level])
      ensures err == 0 ==> height >= old(height) && level < height
      ensures RowOk(s0.mem, s0.tag, N, R, level) && |R| == |s0.rows[level]| && (R == s0.rows[level] || |R| == 1)
      ensures forall j :: 0 <= j < |R| ==> R[j].addr == s0.rows[level][j].addr && R[j].hi == s0.rows[level][j].hi
      ensures InRange(R[c], Entries(s0.mem[a])[fill / 2 - 1].key)
      ensures err == 0 ==> Inserted(R, rows[level], c, Entries(s0.mem[a])[fill / 2 - 1].key, new_)
      decreases height + 1 - level, 0
    {
      hide Tree.From, Entries, NodeOk, Kids, KidsOf, Holds, Filled, InRange, Framed, RowOk, SamePairs, Exact,
           Before, Inserted, HasRoom, Chain, Asked, Size, Fills, Calls, Above, Route;
      ExactHolds(s0.mem[a], N);
      ExactAt(s0.mem[a], N, fill / 2 - 1);
      ghost var k0, p := Entries(s0.mem[a])[fill / 2 - 1].key, 0;
      R := Before(s0, node, level + 1);
      if level == height { FromUp(s0, level, height); }
      SplitKey(s0, node, level, c, fill / 2 - 1);
      AllocBefore(s0, s1, level, new_, node);
      if level < height { RouteAbove(s1, level, c, k0); }
      err, p := InsertLevel(At(a, fill / 2 - 1), new_, level + 1, Above(s1, level, c));
      if err == 0 {
        ChainFrom(T(), level);
        InsertedAt(R, rows[level], p, c, k0, new_);
      }
    }

    method Split(a: nat, level: nat, ghost c: nat, ghost k: nat) returns (err: int, ghost g: nat)
      requires 1 <= level <= height && From(level) && Filled(T(), level, 0, 0)
      requires c < |rows[level]| && rows[level][c].addr == a && InRange(rows[level][c], k)
      requires a in mem && |Entries(mem[a])| == N
      modifies this
      ensures From(level) && Filled(T(), level, 0, 0) && Framed(old(T()), T(), level)
      ensures SamePairs(old(rows)[level - 1], rows[level - 1])
      ensures err == 0 || err == -ENOMEM
      ensures Asked(grants, old(calls), calls, old(Size(tag)), Size(tag),
                    1 + old(Calls(N, Fills(T(), level + 1), Above(T(), level, c))), err == 0)
      ensures err != 0 ==> height == old(height) && tag == old(tag)
      ensures err == 0 ==> height >= old(height) && HasRoom(T(), level, g, k)
      ensures err == 0 ==> Counts(mem, rows[level]) == Halved(N, old(Counts(mem, rows[level])), c)
      decreases height + 1 - level, 1
    {
      hide Tree.From, Entries, NodeOk, Kids, KidsOf, Holds, Filled, InRange, Framed, RowOk, SamePairs, Exact,
           Before, Inserted, HasRoom, Chain, Asked, Size, Fills, Calls, Above, Counts, Halved;
      var fill := N;
      ghost var s0, M := T(), Calls(N, Fills(T(), level + 1), Above(T(), level, c));
      FromOk(s0, level, level);
      RowAt(s0, level, c);
      NodeHolds(mem[a], N, rows[level][c]);
      ExactHolds(mem[a], N);
      var new_ := Alloc(level);
      if new_ == 0 {
        FramedRefl(s0, level);
        SamePairsRefl(rows[level - 1]);
        AskedRefused(grants, old(calls), calls, Size(tag), Size(tag), 1, M, Size(tag));
        return -ENOMEM, 0;
      }
      ghost var s1, c1, n1, R := T(), calls, Size(tag), [];
      HalfAdded(s0, s1, level, new_, c);
      err, R := LinkHalf(a, new_, fill, level, c, s0, s1);
      AskedBoth(grants, old(calls), c1, calls, old(Size(tag)), n1, Size(tag), Size(tag - {new_}), 1, M, err == 0);
      ghost var s2 := T();
      if err != 0 {
        Free(new_, level, s0, s1, s2);
        return err, 0;
      }
      g := MoveOver(a, new_, fill, level, s0, s1, R, c, k);
    }

    /** How rebalance_insert and rebalance find a node's parent: by searching for the key again. */
    method FindParent(key: KeyRef, child: nat, level: nat, ghost c: nat, ghost exc: nat, ghost me: nat)
      returns (parent: nat, childNo: nat, ghost p: nat)
      requires 1 <= level < height && From(level) && Filled(T(), level, exc, me) && KeyBelow(T(), key, level)
      requires exc == 0 || FilledAbove(T(), level, exc)
      requires c < |rows[level]| && rows[level][c].addr == child && InRange(rows[level][c], ReadKey(key))
      modifies `mem, `rows
      ensures From(level) && Filled(T(), level, exc, me) && Framed(old(T()), T(), level) && tag == old(tag)
      ensures |rows| == |old(rows)| && rows[level] == old(rows)[level] && rows[level - 1] == old(rows)[level - 1]
      ensures rows[height] == old(rows)[height]
      ensures forall a :: a in old(mem) && old(tag)[a] <= level + 1 ==> a in mem && mem[a] == old(mem)[a]
      ensures ReadKey(key) == old(ReadKey(key))
      ensures p < |rows[level + 1]| && rows[level + 1][p].addr == parent
      ensures parent in mem && Exact(mem[parent], N) && childNo < |Entries(mem[parent])|
      ensures c == Offset(mem, rows[level + 1], p) + childNo && InRange(rows[level + 1][p], ReadKey(key))
      ensures child in mem && Exact(mem[child], N) && mem[child] == old(mem)[child]
      ensures Fills(T(), level) == old(Fills(T(), level))
    {
      hide Entries, NodeOk, Kids, KidsOf, Holds, Filled, InRange, Framed, Lowered, IsPos, RowOk, SamePairs, Fill,
           Offset, Exact, FilledAbove;
      hide Fills;
      ghost var s0, k := T(), ReadKey(key);
      FilledUp(s0, level, level + 2, exc, me);
      parent, p := FindLevel(key, level + 1);
      ghost var s := T();
      LoweredFills(s0, s, level + 1, level);
      LoweredFrom(s0, s, level);
      LoweredFilled(s0, s, level + 1, level, exc, me);
      LoweredNear(s0, s, level);
      assert s.Ok(level) && s.Ok(level + 1);
      RowAt(s, level, c);
      RowAt(s, level + 1, p);
      NodeHolds(mem[child], N, rows[level][c]);
      NodeHolds(mem[parent], N, rows[level + 1][p]);
      childNo := Getpos(parent, key);
      FoundParent(s, level, c, p, k, childNo);
      assert mem[parent][childNo].val == child;  // the program's BUG_ON
    }

    /** The child at position i of a node, and how many pairs it holds. */
    method ChildFill(parent: nat, i: nat, level: nat, ghost p: nat, ghost exc: nat, ghost me: nat)
      returns (child: nat, fill: nat)
      requires 1 <= level < height && From(level) && Filled(T(), level, exc, me)
      requires p < |rows[level + 1]| && rows[level + 1][p].addr == parent && parent in mem
      requires i < |Entries(mem[parent])|
      ensures child != 0 && child in mem && fill == |Entries(mem[child])| <= N
      ensures var g := Offset(mem, rows[level + 1], p) + i; g < |rows[level]| && rows[level][g].addr == child
      ensures child != exc ==> fill >= 2
    {
      hide Tree.From, Entries, NodeOk, Kids, KidsOf, Filled, RowOk, Offset, Fill;
      ghost var s := T();
      FromOk(s, level, level);
      FromOk(s, level, level + 1);
      RowAt(s, level + 1, p);
      PairListed(s, level + 1, p, i);
      child := mem[parent][i].val;
      ghost var g := Offset(mem, rows[level + 1], p) + i;
      RowAt(s, level, g);
      NodeHolds(mem[child], N, rows[level][g]);
      ExactHolds(mem[child], N);
      fill := Getfill(child, 0);
      FilledNode(s, level, exc, me, g);
    }

    /** rebalance_insert's first try to make room: half of what the left neighbour can take goes there. */
    method TryLeft(child: nat, level: nat, parent: nat, childNo: nat, ghost c: nat, ghost p: nat, ghost k: nat)
      returns (done: bool, ghost g: nat)
      requires 1 <= level < height && From(level) && Filled(T(), level, 0, 0)
      requires p < |rows[level + 1]| && rows[level + 1][p].addr == parent && parent in mem
      requires childNo < |Entries(mem[parent])| && c == Offset(mem, rows[level + 1], p) + childNo
      requires c < |rows[level]| && rows[level][c].addr == child && InRange(rows[level][c], k)
      requires child in mem && |Entries(mem[child])| == N
      modifies `mem, `rows
      ensures From(level) && Filled(T(), level, 0, 0) && Framed(old(T()), T(), level)
      ensures SamePairs(old(rows)[level - 1], rows[level - 1])
      ensures done ==> HasRoom(T(), level, g, k)
      ensures !done ==> T() == old(T())
      ensures done <==> childNo > 0 && |Entries(NodeAt(old(mem), old(rows)[level][c - 1].addr))| + 2 <= N
      ensures done ==>
        var C, x := old(Counts(mem, rows[level])), |Entries(NodeAt(old(mem), old(rows)[level][c - 1].addr))|;
        Counts(mem, rows[level]) == C[c - 1 := x + (N - x) / 2][c := N - (N - x) / 2]
    {
      hide Tree.From, Entries, NodeOk, Kids, KidsOf, Filled, InRange, Framed, RowOk, SamePairs, Offset, HasRoom,
           Counts;
      ghost var s := T();
      done, g := false, 0;
      if childNo > 0 {
        var left, noLeft := ChildFill(parent, childNo - 1, level, p, 0, 0);
        var delta := N - noLeft;
        if delta >= 2 {
          g := TakeR(left, noLeft, child, N, parent, childNo - 1, delta / 2, level, p, 0, 0, k);
          RoomIs(T(), level, g, k);
          return true, g;
        }
      }
      FramedRefl(s, level);
      SamePairsRefl(rows[level - 1]);
    }

    /** Its second try: half of what the right neighbour can take goes there. */
    method TryRight(child: nat, level: nat, parent: nat, childNo: nat, ghost c: nat, ghost p: nat, ghost k: nat)
      returns (done: bool, ghost g: nat)
      requires 1 <= level < height && From(level) && Filled(T(), level, 0, 0)
      requires p < |rows[level + 1]| && rows[level + 1][p].addr == parent && parent in mem && Exact(mem[parent], N)
      requires childNo < |Entries(mem[parent])| && c == Offset(mem, rows[level + 1], p) + childNo
      requires c < |rows[level]| && rows[level][c].addr == child && InRange(rows[level][c], k)
      requires child in mem && |Entries(mem[child])| == N
      modifies `mem, `rows
      ensures From(level) && Filled(T(), level, 0, 0) && Framed(old(T()), T(), level)
      ensures SamePairs(old(rows)[level - 1], rows[level - 1])
      ensures done ==> HasRoom(T(), level, g, k)
      ensures !done ==> T() == old(T())
      ensures done <==>
        && childNo + 1 < |Entries(NodeAt(old(mem), parent))| && c + 1 < |old(rows)[level]|
        && |Entries(NodeAt(old(mem), old(rows)[level][c + 1].addr))| + 2 <= N
      ensures done ==>
        var C, x := old(Counts(mem, rows[level])), |Entries(NodeAt(old(mem), old(rows)[level][c + 1].addr))|;
        Counts(mem, rows[level]) == C[c := N - (N - x) / 2][c + 1 := x + (N - x) / 2]
    {
      hide Tree.From, Entries, NodeOk, Kids, KidsOf, Filled, InRange, Framed, RowOk, SamePairs, Offset, HasRoom,
           Counts, Exact;
      ghost var s := T();
      done, g := false, 0;
      ExactHolds(mem[parent], N);
      var fill := Getfill(parent, childNo);
      FillFrom(mem[parent], childNo);
      if childNo + 1 < fill {
        var right, noRight := ChildFill(parent, childNo + 1, level, p, 0, 0);
        var delta := N - noRight;
        if delta >= 2 {
          g := TakeL(child, N, right, noRight, parent, childNo, delta / 2, level, p, 0, 0, k);
          RoomIs(T(), level, g, k);
          return true, g;
        }
      }
      FramedRefl(s, level);
      SamePairsRefl(rows[level - 1]);
    }

    /** rebalance_insert's two tries to make room by moving pairs to a neighbour. */
    method StealForInsert(key: KeyRef, child: nat, level: nat, ghost c: nat, ghost k: nat)
      returns (done: bool, ghost g: nat)
      requires 1 <= level < height && From(level) && Filled(T(), level, 0, 0) && KeyBelow(T(), key, level - 1)
      requires c < |rows[level]| && rows[level][c].addr == child && k == ReadKey(key) && InRange(rows[level][c], k)
      requires child in mem && |Entries(mem[child])| == N
      modifies `mem, `rows
      ensures From(level) && Filled(T(), level, 0, 0) && Framed(old(T()), T(), level)
      ensures SamePairs(old(rows)[level - 1], rows[level - 1])
      ensures done ==> HasRoom(T(), level, g, k)
      ensures !done ==> c < |rows[level]| && rows[level][c].addr == child && InRange(rows[level][c], k)
      ensures !done ==> child in mem && |Entries(mem[child])| == N && tag == old(tag)
      ensures !done ==> Fills(T(), level) == old(Fills(T(), level))
      ensures done <==> (c > 0 && Takes(N, old(Fills(T(), level)), c, c - 1)) ||
                        Takes(N, old(Fills(T(), level)), c, c + 1)
      ensures done ==> Counts(mem, rows[level]) == Eased(N, old(Fills(T(), level)), c)
    {
      hide Tree.From, Entries, NodeOk, Kids, KidsOf, Holds, Filled, InRange, Framed, Lowered, IsPos, RowOk,
           SamePairs, Fill, Offset, Exact, HasRoom, Fills, Takes, Eased, Counts;
      var parent, childNo; ghost var p;
      parent, childNo, p := FindParent(key, child, level, c, 0, 0);
      ghost var s := T();
      LinkOf(s, level);
      TakesHere(s, level, c, p, childNo);
      done, g := TryLeft(child, level, parent, childNo, c, p, k);
      if done {
        EasedLeft(s, level, c, p, childNo);
      } else {
        done, g := TryRight(child, level, parent, childNo, c, p, k);
        if done { EasedRight(s, level, c, p, childNo); }
      }
      FramedTrans(old(T()), s, T(), level);
    }

    /** Nodes g and h of a level stand side by side in one node, and h has two free slots. */
    ghost predicate Beside(level: nat, g: nat, h: nat)
      reads this
    {
      && level + 1 < |rows| && h < |rows[level]| && (h + 1 == g || h == g + 1)
      && Above(T(), level, h) == Above(T(), level, g) && |Entries(NodeAt(mem, rows[level][h].addr))| <= N - 2
    }

    lemma NoCalls(level: nat, g: nat)
      requires level < |rows| && g < |rows[level]|
      ensures (exists h :: Beside(level, g, h)) ==> Calls(N, Fills(T(), level), g) == 0
    {
      hide Entries, Counts, Parent, Fills;
      FillsParts(T(), level);
      CountAt(mem, rows[level], g);
      if h :| Beside(level, g, h) {
        CountAt(mem, rows[level], h);
        assert Takes(N, Fills(T(), level), g, h);
      }
    }

    method RebalanceInsert(key: KeyRef, child: nat, level: nat, ghost c: nat) returns (err: int, ghost g: nat)
      requires 1 <= level <= height && From(level) && Filled(T(), level, 0, 0) && KeyBelow(T(), key, level - 1)
      requires c < |rows[level]| && rows[level][c].addr == child && InRange(rows[level][c], ReadKey(key))
      requires child in mem && |Entries(mem[child])| == N
      modifies this
      ensures From(level) && Filled(T(), level, 0, 0) && Framed(old(T()), T(), level)
      ensures SamePairs(old(rows)[level - 1], rows[level - 1])
      ensures err == 0 || err == -ENOMEM
      ensures Asked(grants, old(calls), calls, old(Size(tag)), Size(tag), old(Calls(N, Fills(T(), level), c)), err == 0)
      ensures err != 0 ==> height == old(height) && tag == old(tag)
      ensures err == 0 ==> height >= old(height) && HasRoom(T(), level, g, old(ReadKey(key)))
      ensures err == 0 ==> Counts(mem, rows[level]) == Eased(N, old(Fills(T(), level)), c)
      ensures old(exists h :: Beside(level, c, h)) ==> err == 0 && calls == old(calls)
      decreases height + 1 - level, 2
    {
      hide Tree.From, Entries, NodeOk, Kids, Filled, InRange, Framed, RowOk, SamePairs, Asked, Size, HasRoom, Fills,
           Calls, Takes, Above, Eased, Counts, Beside;
      ghost var k, s0 := ReadKey(key), T();
      CallsFull(s0, level, c);
      EasedFull(s0, level, c);
      NoCalls(level, c);
      if level == height {
        RootAlone(s0, level, c);
        err, g := Split(child, level, c, k);
        return;
      }
      var done;
      done, g := StealForInsert(key, child, level, c, k);
      ghost var s := T();
      if done {
        AskedNone(grants, calls, Size(tag));
        return 0, g;
      }
      FillsUp(s0, s, level, c);
      err, g := Split(child, level, c, k);
      FramedTrans(s0, s, T(), level);
      SamePairsTrans(s0.rows[level - 1], s.rows[level - 1], rows[level - 1]);
    }

    /** The search btree_insert_level and btree_remove_level begin with: the node, the position and the fill. */
    method FindSlot(key: KeyRef, level: nat, ghost exc: nat, ghost me: nat)
      returns (a: nat, pos: nat, fill: nat, ghost g: nat)
      requires 1 <= level <= height && From(level) && Filled(T(), level, exc, me) && KeyBelow(T(), key, level)
      requires exc == 0 || FilledAbove(T(), level, exc)
      modifies `mem, `rows
      ensures From(level) && Filled(T(), level, exc, me) && Framed(old(T()), T(), level)
      ensures Lowered(old(T()), T(), level) && rows[level - 1] == old(rows)[level - 1] && tag == old(tag)
      ensures ReadKey(key) == old(ReadKey(key)) && KeyBelow(T(), key, level)
      ensures forall x :: x in old(mem) && old(tag)[x] <= level ==> x in mem && mem[x] == old(mem)[x]
      ensures g < |rows[level]| && rows[level][g].addr == a && InRange(rows[level][g], ReadKey(key))
      ensures a in mem && a in tag && tag[a] == level && Exact(mem[a], N)
      ensures IsPos(Entries(mem[a]), ReadKey(key), pos) && pos <= fill == |Entries(mem[a])|
      ensures pos < N ==> (mem[a][pos].val == 0 <==> pos == fill)
      ensures g == Route(old(rows)[level], ReadKey(key)) == Route(rows[level], ReadKey(key))
    {
      hide Entries, NodeOk, Kids, KidsOf, Holds, Filled, InRange, Framed, Lowered, IsPos, RowOk, Fill, Exact,
           FilledAbove, Route;
      ghost var s0, k := T(), ReadKey(key);
      FilledUp(s0, level, level + 1, exc, me);
      a, g := FindLevel(key, level);
      ghost var s := T();
      RouteFound(s0, s, level, level, g, k);
      LoweredFramed(s0, s, level);
      LoweredNodes(s0, s, level);
      LoweredKey(s0, s, level, key);
      LoweredFilled(s0, s, level, level, exc, me);
      assert s.Ok(level);
      RowAt(s, level, g);
      NodeHolds(mem[a], N, rows[level][g]);
      ExactHolds(mem[a], N);
      pos := Getpos(a, key);
      PosInNode(mem[a], N, rows[level][g], k, pos);
      PosBound(Entries(mem[a]), k, pos);
      fill := Getfill(a, pos);
      FillFrom(mem[a], pos);
    }

    /** "shift and insert" in its place in the tree. */
    method PutPair(a: nat, pos: nat, fill: nat, key: KeyRef, val: nat, level: nat, ghost g: nat, ghost exc: nat,
                   ghost me: nat)
      returns (ghost p: nat)
      requires 1 <= level <= height && From(level) && Filled(T(), level, exc, me) && KeyBelow(T(), key, level - 1)
      requires g < |rows[level]| && rows[level][g].addr == a && InRange(rows[level][g], ReadKey(key))
      requires a in mem && a in tag && tag[a] == level && Exact(mem[a], N)
      requires IsPos(Entries(mem[a]), ReadKey(key), pos) && pos <= fill == |Entries(mem[a])| < N && val != 0
      requires pos < fill ==> Entries(mem[a])[pos].key != ReadKey(key)
      requires fill + 1 >= MinFill(rows) && (exc == 0 || exc == a)
      modifies `mem, `rows
      ensures From(level) && Filled(T(), level, 0, 0) && Framed(old(T()), T(), level)
      ensures Inserted(old(rows)[level - 1], rows[level - 1], p, old(ReadKey(key)), val)
      ensures rows[level] == old(rows)[level] && Placed(old(Counts(mem, rows[level])), Counts(mem, rows[level]), g)
    {
      hide Entries, NodeOk, Kids, KidsOf, Holds, Filled, InRange, Framed, Lowered, IsPos, RowOk, Fill, Exact,
           Inserted, Offset, Counts;
      ghost var s, k, es := T(), ReadKey(key), Entries(mem[a]);
      ExactHolds(mem[a], N);
      ShiftIn(a, pos, fill, key, val, es);
      HoldsEntries(mem[a], N, es[..pos] + [Slot(k, val)] + es[pos..]);
      ghost var t := InsertStep(s, level, g, pos, k, val, mem[a]);
      rows := rows[level - 1 := Kids(mem, rows[level])];
      assert T() == t;
      p := Offset(s.mem, s.rows[level], g) + pos;
      WithNodeFramed(s, t, level, a);
      WithNodeFilled(s, t, level, a, exc, me);
      FromOk(s, level, level);
      NodeCounts(s, t, level, g);
      CountAt(s.mem, s.rows[level], g);
    }

    /** Where an absent key belongs in its level; after a rebalance there is room. */
    method FindFree(key: KeyRef, level: nat, ghost E: seq<Ref>, ghost k: nat, ghost exc: nat, ghost me: nat,
                    ghost room: bool, ghost c: nat, ghost s0: Tree)
      returns (a: nat, pos: nat, fill: nat, ghost g: nat)
      requires 1 <= level <= height && From(level) && Filled(T(), level, exc, me) && KeyBelow(T(), key, level - 1)
      requires k == ReadKey(key) && SamePairs(E, rows[level - 1]) && forall r :: r in E ==> r.lo != k
      requires exc == 0 || (FilledAbove(T(), level, exc) && level == height && exc == node && me + 1 >= MinFill(rows))
      requires (room ==> HasRoom(T(), level, c, k)) && Framed(s0, T(), level)
      modifies `mem, `rows
      ensures From(level) && Filled(T(), level, exc, me) && Framed(s0, T(), level) && Framed(old(T()), T(), level)
      ensures rows[level - 1] == old(rows)[level - 1] && ReadKey(key) == k && KeyBelow(T(), key, level - 1)
      ensures tag == old(tag)
      ensures exc != 0 ==> FilledAbove(T(), level, exc)
      ensures g < |rows[level]| && rows[level][g].addr == a && InRange(rows[level][g], k)
      ensures g == Route(rows[level], k)
      ensures a in mem && a in tag && tag[a] == level && Exact(mem[a], N) && |mem[a]| == N
      ensures IsPos(Entries(mem[a]), k, pos) && pos <= fill == |Entries(mem[a])| <= N
      ensures pos < fill ==> Entries(mem[a])[pos].key != k
      ensures (room ==> fill < N) && (exc == 0 || exc == a) && fill + 1 >= MinFill(rows)
      ensures Fills(T(), level) == old(Fills(T(), level)) && g == Route(old(rows)[level], k)
    {
      hide Tree.From, Entries, NodeOk, Kids, Filled, InRange, Framed, Lowered, IsPos, RowOk, SamePairs, Exact,
           HasRoom, FilledAbove, Fills, Route;
      ghost var s1 := T();
      a, pos, fill, g := FindSlot(key, level, exc, me);
      ghost var s := T();
      FramedTrans(s0, s1, s, level);
      FramedKey(s1, s, level, key);
      FromOk(s, level, level);
      ExactHolds(mem[a], N);
      if pos < fill { KeyAbsent(s, level, g, pos, E, k); }
      assert !(pos < fill && mem[a][pos].key == ReadKey(key));  // the program's BUG_ON
      if room { RoomKept(s1, s, level, c, g, k); }
      LoweredFills(s1, s, level, level);
      FilledNode(s, level, exc, me, g);
      if exc != 0 { RootAbove(s, exc); }
    }

    /** The body of btree_insert_level once its level exists: a full node is rebalanced and the search repeated. */
    method InsertInto(key: KeyRef, val: nat, level: nat, ghost E: seq<Ref>, ghost k: nat,
                      ghost exc0: nat, ghost me: nat, ghost room0: bool, ghost c0: nat, ghost g0: nat)
      returns (err: int, ghost p: nat, ghost rounds: nat)
      requires 1 <= level <= height && From(level) && Filled(T(), level, exc0, me) && KeyBelow(T(), key, level - 1)
      requires val != 0 && k == ReadKey(key) && E == rows[level - 1] && forall r :: r in E ==> r.lo != k
      requires if exc0 == 0 then me == 0
               else level == height && exc0 == node && room0 && FilledAbove(T(), level, exc0) && me + 1 >= MinFill(rows)
      requires room0 ==> HasRoom(T(), level, c0, k)
      requires g0 == Route(rows[level], k)
      modifies this
      ensures From(level) && Filled(T(), level, 0, 0) && Framed(old(T()), T(), level)
      ensures err == 0 || err == -ENOMEM
      ensures Asked(grants, old(calls), calls, old(Size(tag)), Size(tag), old(Calls(N, Fills(T(), level), g0)),
                    err == 0)
      ensures 1 <= rounds <= 2 && (room0 ==> rounds == 1)
      ensures err != 0 ==> !room0 && height == old(height) && SamePairs(E, rows[level - 1]) && tag == old(tag)
      ensures err == 0 ==> height >= old(height) && Inserted(E, rows[level - 1], p, k, val)
      ensures room0 ==> height == old(height)
      ensures err == 0 ==>
        Placed(Eased(N, old(Fills(T(), level)), g0), Counts(mem, rows[level]), Route(rows[level], k))
      decreases if room0 then 0 else height + 1 - level, 3
    {
      hide Tree.From, Entries, NodeOk, Kids, KidsOf, Holds, Filled, InRange, Framed, Lowered, IsPos, RowOk,
           SamePairs, Fill, Offset, Exact, Inserted, HasRoom, FilledAbove, Asked, Size, Fills, Calls, Route,
           Counts, Eased, Placed;
      ghost var s0, room, c := T(), room0, c0;
      AskedNone(grants, calls, Size(tag));
      FramedRefl(s0, level);
      SamePairsRefl(E);
      rounds := 0;
      ghost var M := Calls(N, Fills(s0, level), g0);
      while true
        invariant rounds == (if room && !room0 then 1 else 0) && (!room ==> tag == old(tag))
        invariant level <= height && From(level) && SamePairs(E, rows[level - 1]) && Framed(s0, T(), level)
        invariant Filled(T(), level, exc0, me) && height >= old(height) && (room0 ==> room)
        invariant room0 || !room ==> height == old(height)
        invariant exc0 != 0 ==> level == height && exc0 == node && FilledAbove(T(), level, exc0)
        invariant room ==> HasRoom(T(), level, c, k)
        invariant rounds == 0 ==> T() == s0 && calls == old(calls)
        invariant rounds == 1 ==> Counts(mem, rows[level]) == Eased(N, Fills(s0, level), g0)
        invariant Asked(grants, old(calls), calls, old(Size(tag)), Size(tag), if rounds == 0 then 0 else M, true)
        decreases !room
      {
        rounds := rounds + 1;
        FramedKey(s0, T(), level, key);
        var a, pos, fill; ghost var g;
        ghost var s1 := T();
        a, pos, fill, g := FindFree(key, level, E, k, exc0, me, room, c, s0);
        ghost var s := T();
        FillsUp(s1, s, level, g);
        FramedKey(s0, s, level, key);
        if rounds == 1 && fill < N {
          CallsRoom(s, level, g);
          EasedRoom(s, level, g);
        }
        if fill == N {
          err, c := RebalanceInsert(key, a, level, g);
          FramedTrans(s0, s, T(), level);
          SamePairsTrans(E, s.rows[level - 1], rows[level - 1]);
          if err != 0 {
            return err, 0, rounds;
          }
          room := true;
          continue;
        }
        assert fill < N;  // the program's BUG_ON
        p := PutPair(a, pos, fill, key, val, level, g, exc0, me);
        InsertedFrom(E, s.rows[level - 1], rows[level - 1], p, k, val);
        FramedTrans(s0, s, T(), level);
        return 0, p, rounds;
      }
    }

    method InsertLevel(key: KeyRef, val: nat, level: nat, ghost g: nat) returns (err: int, ghost p: nat)
      requires 1 <= level <= height + 1 && From(level) && Filled(T(), level, 0, 0) && KeyBelow(T(), key, level - 1)
      requires level == height + 1 ==> RootReady()
      requires val != 0
      requires forall r :: r in Before(T(), node, level) ==> r.lo != ReadKey(key)
      requires level <= height ==> g == Route(rows[level], ReadKey(key))
      modifies this
      ensures From(level) && Filled(T(), level, 0, 0) && Framed(old(T()), T(), level)
      ensures err == 0 || err == -ENOMEM
      ensures Asked(grants, old(calls), calls, old(Size(tag)), Size(tag), old(Calls(N, Fills(T(), level), g)), err == 0)
      ensures err != 0 ==> height == old(height) && tag == old(tag) && (level == height + 1 ==> T() == old(T()))
      ensures err != 0 && level <= height ==> SamePairs(old(rows)[level - 1], rows[level - 1])
      ensures err == 0 ==> height >= old(height) && level <= height
      ensures err == 0 && level == old(height) + 1 ==> height == level
      ensures level == old(height) && |Entries(NodeAt(old(mem), old(node)))| < N ==> err == 0 && height == level
      ensures err == 0 ==> Inserted(old(Before(T(), node, level)), rows[level - 1], p, old(ReadKey(key)), val)
      ensures err == 0 && level <= old(height) ==>
        Placed(Eased(N, old(Fills(T(), level)), g), Counts(mem, rows[level]), Route(rows[level], old(ReadKey(key))))
      decreases height + 1 - level, 4
    {
      hide Tree.From, Entries, NodeOk, Kids, Filled, Framed, RowOk, SamePairs, Before, Inserted, HasRoom,
           FilledAbove, Asked, Size, Fills, Calls, Route, Counts, Eased, Placed;
      ghost var s0, E, k := T(), Before(T(), node, level), ReadKey(key);
      FramedRefl(s0, level);
      if height < level {
        CallsNone(s0, level, g);
        err := Grow();
        if err != 0 {
          return err, 0;
        }
        ghost var s, c1, n1 := T(), calls, Size(tag);
        GrownFilled(s, E);
        BeforeShort(s0, level);
        RootHasRoom(s, k);
        RootRoute(s, k);
        CallsRoom(s, level, 0);
        RootAbove(s, node);
        FramedKey(s0, s, level, key);
        ghost var rounds;
        err, p, rounds := InsertInto(key, val, level, E, k, node, |E|, true, 0, 0);
        AskedThen(grants, old(calls), c1, calls, old(Size(tag)), n1, Size(tag), 1, 0, err == 0);
        FramedTrans(s0, s, T(), level);
      } else {
        BeforeIs(s0, node, level);
        ghost var room := level == height && |Entries(NodeAt(mem, node))| < N;
        if room {
          RootHasRoom(s0, k);
        }
        ghost var rounds;
        err, p, rounds := InsertInto(key, val, level, E, k, 0, 0, room, 0, g);
      }
    }

    // ---------- removal

    method Shrink(fill: nat)
      requires height >= 1 && From(height) && fill == |Entries(NodeAt(mem, node))| && (fill == 0 ==> height == 1)
      modifies this
      ensures Heap() && T().From(old(height)) && Framed(old(T()), T(), old(height))
      ensures height == if fill == 0 || (fill == 1 && old(height) > 1) then old(height) - 1 else old(height)
      ensures if height == old(height) then T() == old(T())
              else rows[height] == Topped(old(rows)[height])
      ensures Size(tag) + (if height == old(height) then 0 else 1) == old(Size(tag))
    {
      hide Kids, KidsOf, Entries, NodeOk, Framed;
      ghost var s := T();
      RootIn(s);
      assert s.Ok(height) && s.Link(height - 1);
      if fill == 0 || (fill == 1 && height > 1) {
        ShrinkRow(s, node);
        var a := node;
        node := mem[a][0].val;
        height := height - 1;
        mem := mem - {a};
        tag := tag - {a};
        rows := rows[..height] + [if height == 0 then [] else [Ref(node, 0, Inf)]];
        ShrinkFramed(s, T(), a);
      } else {
        FramedRefl(s, height);
      }
    }

    /** merge, first part: the pairs of the right node are copied, and the two children change places. */
    method JoinChildren(level: nat, left: nat, lfill: nat, right: nat, rfill: nat, parent: nat, lpos: nat, ghost p: nat)
      requires 1 <= level < height && From(level) && Filled(T(), level + 1, 0, 0)
      requires p < |rows[level + 1]| && rows[level + 1][p].addr == parent
      requires lpos + 1 < |Entries(NodeAt(mem, parent))|
      requires var c := Offset(mem, rows[level + 1], p) + lpos;
        c + 1 < |rows[level]| && rows[level][c].addr == left && rows[level][c + 1].addr == right
      requires left in mem && right in mem && lfill == |Entries(mem[left])| && rfill == |Entries(mem[right])|
      requires lfill + rfill <= N
      modifies `mem, `rows
      ensures From(level + 1) && Filled(T(), level + 1, 0, 0) && Framed(old(T()), T(), level)
      ensures tag == old(tag) && mem.Keys == old(mem).Keys && |rows| == |old(rows)|
      ensures rows == old(rows)[level := Swapped(old(rows)[level], Offset(old(mem), old(rows)[level + 1], p) + lpos)]
      ensures forall x :: x in mem && x != left && x != parent ==> mem[x] == old(mem)[x]
      ensures left in mem && Holds(mem[left], N, old(Entries(mem[left])) + old(Entries(mem[right])))
      ensures parent in mem && tag[parent] == level + 1
      ensures Entries(mem[parent]) == SwapVals(Entries(NodeAt(old(mem), parent)), lpos)
      ensures Offset(mem, rows[level + 1], p) == Offset(old(mem), old(rows)[level + 1], p)
      ensures Fills(T(), level + 1) == old(Fills(T(), level + 1))
    {
      hide Entries, NodeOk, Kids, KidsOf, Holds, Filled, InRange, Framed, RowOk, Exact, Offset, Swapped, SwapVals,
           Fills;
      ghost var s0, c := T(), Offset(mem, rows[level + 1], p) + lpos;
      Neighbour(s0, level, p, lpos);
      ExactHolds(mem[left], N);
      ExactHolds(mem[right], N);
      assert s0.Ok(level + 1);
      RowAt(s0, level + 1, p);
      ghost var pn: Node := mem[parent];
      CopyAll(left, lfill, right, rfill, Entries(mem[left]), Entries(mem[right]));
      SetVal(parent, right, lpos);
      SetVal(parent, left, lpos + 1);
      assert mem[parent] == SwapVals(pn, lpos) by { SwapValsIs(pn, lpos, right, left); }
      rows := rows[level := Swapped(rows[level], c)];
      SwapDone(s0, T(), level, p, lpos);
      FromOk(s0, level, level);
      RowAt(s0, level, c);
      FromUp(s0, level, level + 1);
      SwapFills(s0, T(), level + 1, parent, left);
    }

    method CopyAll(left: nat, lfill: nat, right: nat, rfill: nat, ghost A: seq<Slot>, ghost B: seq<Slot>)
      requires left in mem && right in mem && left != right
      requires Holds(mem[left], N, A) && Holds(mem[right], N, B) && |A| == lfill && |B| == rfill && lfill + rfill <= N
      modifies `mem
      ensures left in mem && mem == old(mem)[left := mem[left]] && Holds(mem[left], N, A + B)
    {
      CopyRange(left, lfill, right, 0, rfill);
    }

    /** merge: the right node's pairs move to the left one, and the entry for the right node is removed above. */
    method Merge(level: nat, left: nat, lfill: nat, right: nat, rfill: nat, parent: nat, lpos: nat,
                 ghost p: nat, ghost exc: nat, ghost me: nat)
      requires 1 <= level < height && From(level) && Filled(T(), level, exc, me) && FilledAbove(T(), level, exc)
      requires p < |rows[level + 1]| && rows[level + 1][p].addr == parent
      requires lpos + 1 < |Entries(NodeAt(mem, parent))|
      requires var c := Offset(mem, rows[level + 1], p) + lpos;
        c + 1 < |rows[level]| && rows[level][c].addr == left && rows[level][c + 1].addr == right
        && (exc == left || exc == right)
      requires left in mem && right in mem && lfill == |Entries(mem[left])| && rfill == |Entries(mem[right])|
      requires lfill >= 1 && 2 <= lfill + rfill <= N
      modifies this
      ensures From(level) && level <= height && Filled(T(), level, 0, 0) && Framed(old(T()), T(), level)
      ensures SamePairs(old(rows)[level - 1], rows[level - 1])
      ensures Size(tag) + 1 + Frees(N, Dropped(old(Fills(T(), level + 1)), p), level + 1, p) == old(Size(tag))
      ensures var c, C := Offset(old(mem), old(rows)[level + 1], p) + lpos, old(Counts(mem, rows[level]));
        Counts(mem, rows[level]) == C[..c] + [C[c] + C[c + 1]] + C[c + 2..]
      decreases height - level, 0
    {
      hide Entries, NodeOk, Kids, KidsOf, Holds, Filled, InRange, Framed, RowOk, SamePairs, Exact, Removed, Offset,
           FilledAbove, Swapped, SwapVals, Fills, Frees, Dropped, Counts, Size;
      ghost var s0, A, B := T(), Entries(mem[left]), Entries(mem[right]);
      ghost var c := Offset(mem, rows[level + 1], p) + lpos;
      FilledUp(s0, level, level + 1, exc, me);
      JoinChildren(level, left, lfill, right, rfill, parent, lpos, p);
      ghost var s1 := T();
      ghost var ret, hit, x;
      ghost var outside;
      ret, hit, x, outside := RemoveLevel(At(parent, lpos), level + 1, p);
      ghost var s2 := T();
      FromOk(s0, level, level);
      FromOk(s0, level, level + 1);
      RowAt(s0, level + 1, p);
      MergeCounts(s0, s1, s2, level, c, left, right, parent, level + 1 <= height, A, B);
      SizeLess(tag, right);
      mem := mem - {right};
      tag := tag - {right};
      rows := rows[level - 1 := Kids(mem, rows[level])];
      MergeDone(s0, s1, s2, T(), level, p, lpos, exc, me, level + 1 <= height, s0.rows[level], c, left, right, parent,
                A, B);
    }

    /** The first thing a rebalance tries: to merge the child into its left neighbour. */
    method MergeLeft(level: nat, child: nat, fill: nat, parent: nat, childNo: nat, ghost c: nat, ghost p: nat)
      returns (done: bool, left: nat, noLeft: nat)
      requires 1 <= level < height && From(level) && Filled(T(), level, child, fill) && FilledAbove(T(), level, child)
      requires p < |rows[level + 1]| && rows[level + 1][p].addr == parent && parent in mem
      requires c < |rows[level]| && rows[level][c].addr == child
      requires child in mem && |Entries(mem[child])| == fill >= 1
      requires childNo < |Entries(mem[parent])| && c == Offset(mem, rows[level + 1], p) + childNo
      modifies this
      ensures done ==> From(level) && level <= height && Filled(T(), level, 0, 0) && Framed(old(T()), T(), level)
      ensures done ==> SamePairs(old(rows)[level - 1], rows[level - 1])
      ensures !done ==> unchanged(this) && (left != 0 <==> childNo > 0)
      ensures !done && left != 0 ==> 0 < c && rows[level][c - 1].addr == left && left in mem
                                     && noLeft == |Entries(mem[left])| && fill + noLeft > N
      ensures done <==> old(FitsLeft(T(), level, c, childNo))
      ensures done ==> Size(tag) + 1 + Frees(N, Dropped(old(Fills(T(), level + 1)), p), level + 1, p) == old(Size(tag))
      ensures done ==>
        var C := old(Counts(mem, rows[level])); Counts(mem, rows[level]) == C[..c - 1] + [C[c - 1] + C[c]] + C[c + 1..]
      decreases height - level, 1
    {
      hide Tree.From, Entries, NodeOk, Kids, Filled, Framed, RowOk, SamePairs, Offset, FilledAbove,
           Fills, Frees, Dropped, Counts, Size;
      done, left, noLeft := false, 0, 0;
      if childNo > 0 {
        ghost var s := T();
        FromOk(s, level, level);
        left, noLeft := ChildFill(parent, childNo - 1, level, p, child, fill);
        OtherChild(s, level, c, c - 1);
        if fill + noLeft <= N {
          Merge(level, left, noLeft, child, fill, parent, childNo - 1, p, child, fill);
          done := true;
        }
      }
    }

    /** The second: to merge it with its right neighbour. */
    method MergeRight(level: nat, child: nat, fill: nat, parent: nat, childNo: nat, pfill: nat, ghost c: nat,
                      ghost p: nat)
      returns (done: bool, right: nat, noRight: nat)
      requires 1 <= level < height && From(level) && Filled(T(), level, child, fill) && FilledAbove(T(), level, child)
      requires p < |rows[level + 1]| && rows[level + 1][p].addr == parent && parent in mem
      requires c < |rows[level]| && rows[level][c].addr == child
      requires child in mem && |Entries(mem[child])| == fill >= 1
      requires childNo < |Entries(mem[parent])| == pfill && c == Offset(mem, rows[level + 1], p) + childNo
      modifies this
      ensures done ==> From(level) && level <= height && Filled(T(), level, 0, 0) && Framed(old(T()), T(), level)
      ensures done ==> SamePairs(old(rows)[level - 1], rows[level - 1])
      ensures !done ==> unchanged(this) && (right != 0 <==> childNo + 1 < pfill)
      ensures !done && right != 0 ==> c + 1 < |rows[level]| && rows[level][c + 1].addr == right && right in mem
                                      && noRight == |Entries(mem[right])| && fill + noRight > N
      ensures done <==> old(FitsRight(T(), level, c, p, childNo))
      ensures done ==> Size(tag) + 1 + Frees(N, Dropped(old(Fills(T(), level + 1)), p), level + 1, p) == old(Size(tag))
      ensures done ==>
        var C := old(Counts(mem, rows[level])); Counts(mem, rows[level]) == C[..c] + [C[c] + C[c + 1]] + C[c + 2..]
      decreases height - level, 1
    {
      hide Tree.From, Entries, NodeOk, Kids, Filled, Framed, RowOk, SamePairs, Offset, FilledAbove,
           Fills, Frees, Dropped, Counts, Size;
      done, right, noRight := false, 0, 0;
      if childNo + 1 < pfill {
        ghost var s := T();
        FromOk(s, level, level);
        right, noRight := ChildFill(parent, childNo + 1, level, p, child, fill);
        OtherChild(s, level, c, c + 1);
        if fill + noRight <= N {
          Merge(level, child, fill, right, noRight, parent, childNo, p, child, fill);
          done := true;
        }
      }
    }

    /** Nodes g and h of a level stand side by side in one node, and their pairs fit in one. */
    ghost predicate Fitting(level: nat, g: nat, h: nat)
      reads this
    {
      && level + 1 < |rows| && g < |rows[level]| && h < |rows[level]| && (h + 1 == g || h == g + 1)
      && Above(T(), level, h) == Above(T(), level, g)
      && |Entries(NodeAt(mem, rows[level][g].addr))| + |Entries(NodeAt(mem, rows[level][h].addr))| <= N
    }

    /** A node that is not the root and holds few pairs goes exactly when it fits into a neighbour. */
    lemma FreesSome(level: nat, g: nat)
      requires level + 1 < |rows| && g < |rows[level]| && |Entries(NodeAt(mem, rows[level][g].addr))| < N / 2
      ensures Frees(N, Fills(T(), level), level, g) > 0 <==> exists h :: Fitting(level, g, h)
    {
      hide Entries, Counts, Parent, Fills, Dropped;
      var F := Fills(T(), level);
      FillsParts(T(), level);
      CountAt(mem, rows[level], g);
      if h :| Fitting(level, g, h) {
        CountAt(mem, rows[level], h);
        assert Joins(N, F, g, h);
      }
      if g > 0 && Joins(N, F, g, g - 1) {
        CountAt(mem, rows[level], g - 1);
        assert Fitting(level, g, g - 1);
      }
      if Joins(N, F, g, g + 1) {
        CountAt(mem, rows[level], g + 1);
        assert Fitting(level, g, g + 1);
      }
    }

    method Rebalance(key: KeyRef, level: nat, child: nat, fill: nat, ghost c: nat)
      requires 1 <= level < height && From(level) && Filled(T(), level, child, fill) && KeyBelow(T(), key, level)
      requires FilledAbove(T(), level, child)
      requires c < |rows[level]| && rows[level][c].addr == child && InRange(rows[level][c], ReadKey(key))
      requires child in mem && |Entries(mem[child])| == fill >= 1
      modifies this
      ensures From(level) && level <= height && Filled(T(), level, 0, 0) && Framed(old(T()), T(), level)
      ensures SamePairs(old(rows)[level - 1], rows[level - 1])
      ensures fill < N / 2 ==> Size(tag) + Frees(N, old(Fills(T(), level)), level, c) == old(Size(tag))
      ensures fill < N / 2 ==> Counts(mem, rows[level]) == Settled(N, old(Fills(T(), level)), c)
      ensures fill < N / 2 ==> (Size(tag) < old(Size(tag)) <==> old(exists h :: Fitting(level, c, h)))
      decreases height - level, 3
    {
      hide Tree.From, Entries, NodeOk, Kids, KidsOf, Holds, Filled, InRange, Framed, RowOk, SamePairs, Exact,
           Offset, FilledAbove, Fill, IsPos, Lowered, Chain, AllOk, Fills, Frees, Settled, Counts, Size,
           Fitting;
      if fill < N / 2 { FreesSome(level, c); }
      var parent, childNo; ghost var p;
      parent, childNo, p := FindParent(key, child, level, c, child, fill);
      ghost var s, k := T(), ReadKey(key);
      FromOk(s, level, level);
      RowAt(s, level, c);
      AboveFree(s, level, child);
      Relieve(level, child, fill, parent, childNo, c, p, k);
      FramedTrans(old(T()), s, T(), level);
    }

    /** What rebalance does once it knows the parent: join the node with a neighbour, or move pairs to it. */
    method Relieve(level: nat, child: nat, fill: nat, parent: nat, childNo: nat, ghost c: nat, ghost p: nat,
                   ghost k: nat)
      requires 1 <= level < height && From(level) && Filled(T(), level, child, fill) && FilledAbove(T(), level, child)
      requires p < |rows[level + 1]| && rows[level + 1][p].addr == parent && parent in mem && Exact(mem[parent], N)
      requires c < |rows[level]| && rows[level][c].addr == child && InRange(rows[level][c], k)
      requires child in mem && |Entries(mem[child])| == fill >= 1
      requires childNo < |Entries(mem[parent])| && c == Offset(mem, rows[level + 1], p) + childNo
      modifies this
      ensures From(level) && level <= height && Filled(T(), level, 0, 0) && Framed(old(T()), T(), level)
      ensures SamePairs(old(rows)[level - 1], rows[level - 1])
      ensures fill < N / 2 ==> Size(tag) + Frees(N, old(Fills(T(), level)), level, c) == old(Size(tag))
      ensures fill < N / 2 ==> Counts(mem, rows[level]) == Settled(N, old(Fills(T(), level)), c)
      decreases height - level, 2
    {
      hide Tree.From, Entries, NodeOk, Kids, KidsOf, Holds, Filled, InRange, Framed, RowOk, SamePairs, Exact,
           Offset, FilledAbove, Fill, Fills, Frees, Dropped, Settled, Counts, Size, FitsLeft, FitsRight;
      ghost var s := T();
      ExactHolds(mem[parent], N);
      LinkOf(s, level);
      var left, right, noLeft, noRight := 0, 0, 0, 0;
      var done;
      done, left, noLeft := MergeLeft(level, child, fill, parent, childNo, c, p);
      if done {
        if fill < N / 2 { FewJoined(s, level, c, p, childNo); }
        return;
      }
      var pfill := Getfill(parent, childNo);
      FillFrom(mem[parent], childNo);
      done, right, noRight := MergeRight(level, child, fill, parent, childNo, pfill, c, p);
      if done {
        if fill < N / 2 { FewJoined(s, level, c, p, childNo); }
        return;
      }
      if fill > 1 {
        FilledBack(s, level, child, fill);
        SamePairsRefl(rows[level - 1]);
        FramedRefl(s, level);
        if fill < N / 2 { FewKept(s, level, c, p, childNo); }
        return;
      }
      if fill < N / 2 { FewDealt(s, level, c, p, childNo); }
      StealSome(level, child, fill, left, noLeft, right, noRight, parent, childNo, c, p, k);
    }

    /** The last part of rebalance: the node is down to one pair and neither neighbour has room for it. */
    method StealSome(level: nat, child: nat, fill: nat, left: nat, noLeft: nat, right: nat, noRight: nat,
                     parent: nat, childNo: nat, ghost c: nat, ghost p: nat, ghost k: nat)
      requires 1 <= level < height && From(level) && Filled(T(), level, child, fill) && fill == 1
      requires p < |rows[level + 1]| && rows[level + 1][p].addr == parent
      requires c < |rows[level]| && rows[level][c].addr == child && InRange(rows[level][c], k)
      requires child in mem && |Entries(mem[child])| == fill && FilledAbove(T(), level, child)
      requires childNo < |Entries(NodeAt(mem, parent))| && c == Offset(mem, rows[level + 1], p) + childNo
      requires left != 0 <==> childNo > 0
      requires left != 0 ==> 0 < c && rows[level][c - 1].addr == left && left in mem
                             && noLeft == |Entries(mem[left])| && fill + noLeft > N
      requires right != 0 <==> childNo + 1 < |Entries(NodeAt(mem, parent))|
      requires right != 0 ==> c + 1 < |rows[level]| && rows[level][c + 1].addr == right && right in mem
                              && noRight == |Entries(mem[right])| && fill + noRight > N
      modifies `mem, `rows
      ensures From(level) && Filled(T(), level, 0, 0) && Framed(old(T()), T(), level)
      ensures SamePairs(old(rows)[level - 1], rows[level - 1])
      ensures var C := old(Counts(mem, rows[level]));
        Counts(mem, rows[level]) ==
        if left != 0 then C[c - 1 := noLeft - (noLeft - fill) / 2][c := fill + (noLeft - fill) / 2]
        else if right != 0 then C[c := fill + (noRight - fill) / 2][c + 1 := noRight - (noRight - fill) / 2]
        else C
    {
      hide Tree.From, Entries, NodeOk, Kids, KidsOf, Filled, InRange, Framed, RowOk, SamePairs, Offset, FilledAbove,
           Counts;
      ghost var s, g := T(), 0;
      FromOk(s, level, level);
      FromOk(s, level, level + 1);
      if left != 0 {
        var i := (noLeft - fill) / 2;
        assert i >= 1;  // the program's BUG_ON
        SiblingFits(s, level, c - 1);
        g := TakeL(left, noLeft, child, fill, parent, childNo - 1, i, level, p, child, fill, k);
        return;
      }
      if right != 0 {
        var i := (noRight - fill) / 2;
        assert i >= 1;  // the program's BUG_ON
        SiblingFits(s, level, c + 1);
        g := TakeR(child, fill, right, noRight, parent, childNo, i, level, p, child, fill, k);
        return;
      }
      FilledUp(s, level, level + 1, child, fill);
      FilledNode(s, level + 1, 0, 0, p);
      RowAt(s, level + 1, p);
      assert false;  // the program's BUG()
    }

    /** "remove and shift" in its place in the tree. */
    method DropPair(a: nat, pos: nat, fill: nat, level: nat, ghost g: nat) returns (ghost q: nat, ghost x: nat)
      requires 1 <= level <= height && From(level) && Filled(T(), level, 0, 0)
      requires g < |rows[level]| && rows[level][g].addr == a
      requires a in mem && a in tag && tag[a] == level && Exact(mem[a], N)
      requires pos <= fill == |Entries(mem[a])| && fill >= 1
      modifies `mem, `rows
      ensures From(level) && Filled(T(), level, a, fill - 1) && Framed(old(T()), T(), level)
      ensures |rows| == |old(rows)| && forall l :: level <= l < |rows| ==> rows[l] == old(rows)[l]
      ensures q == (if pos < fill then pos else fill - 1) && x == Offset(old(mem), old(rows)[level], g) + q
      ensures Removed(old(rows)[level - 1], rows[level - 1], x, true)
      ensures q + 1 < fill ==> x < |rows[level - 1]| && Le(old(rows)[level - 1][x].hi, rows[level - 1][x].hi)
      ensures a in mem && Exact(mem[a], N)
      ensures Fills(T(), level) == Dropped(old(Fills(T(), level)), g)
      ensures Entries(mem[a]) == old(Entries(mem[a]))[..q] + old(Entries(mem[a]))[q + 1..]
    {
      hide Entries, NodeOk, Kids, KidsOf, Holds, Filled, Framed, RowOk, Exact, Removed, Offset, Fills,
           Dropped;
      ghost var s, es := T(), Entries(mem[a]);
      q := if pos < fill then pos else fill - 1;
      ExactHolds(mem[a], N);
      ShiftOut(a, pos, fill, es);
      assert es[..fill - 1] + es[fill..] == es[..fill - 1];
      HoldsEntries(mem[a], N, es[..q] + es[q + 1..]);
      ghost var t := RemoveStep(s, level, g, q, mem[a]);
      rows := rows[level - 1 := Kids(mem, rows[level])];
      assert T() == t;
      x := Offset(s.mem, s.rows[level], g) + q;
      WithNodeFramed(s, t, level, a);
      FilledShrunk(s, t, level, a);
      DroppedFills(s, t, level, g);
      assert t.Ok(level);
      RowAt(t, level, g);
      NodeHolds(mem[a], N, rows[level][g]);
    }

    /** What btree_remove_level does once a node is left with few pairs. */
    method Settle(key: KeyRef, level: nat, a: nat, fill: nat, ghost g: nat)
      requires 1 <= level <= height && From(level) && Filled(T(), level, a, fill) && KeyBelow(T(), key, level)
      requires g < |rows[level]| && rows[level][g].addr == a && InRange(rows[level][g], ReadKey(key))
      requires a in mem && |Entries(mem[a])| == fill && a in tag && tag[a] == level
      requires fill + 1 >= if height == 1 then 1 else 2
      modifies this
      ensures Heap() && T().From(level) && Filled(T(), level, 0, 0)
      ensures Framed(old(T()), T(), level) && level <= height + 1
      ensures level <= height ==> SamePairs(old(rows)[level - 1], rows[level - 1])
      ensures level == height + 1 ==> rows[level - 1] == Topped(old(rows)[level - 1])
      ensures Size(tag) + Frees(N, old(Fills(T(), level)), level, g) == old(Size(tag))
      ensures level <= height ==> Counts(mem, rows[level]) == Settled(N, old(Fills(T(), level)), g)
      decreases height - level, 4
    {
      hide Entries, NodeOk, Kids, KidsOf, Filled, Framed, RowOk, SamePairs, InRange, Topped, Fills,
           Frees, Settled, Counts, Size;
      ghost var s := T();
      if fill >= N / 2 || level == height { EnoughPairs(s, level, g); }
      if fill < N / 2 {
        if level < height {
          AboveFree(s, level, a);
          Rebalance(key, level, a, fill, g);
        } else {
          Shrink(fill);
          if height == old(height) {
            FilledBack(s, level, a, fill);
            SamePairsRefl(rows[level - 1]);
          } else {
            FilledNone(T(), level);
          }
        }
      } else {
        FilledBack(s, level, a, fill);
        SamePairsRefl(rows[level - 1]);
        FramedRefl(s, level);
      }
    }

    /** The search for key, which no pair has, ends in a full leaf whose first values read as the key. */
    ghost predicate Overruns(key: nat)
      reads this
      requires |rows| > 1
    {
      !Listed(rows[0], key) && Overrun(T(), keylen, key)
    }

    /** What a read behind a node gives. */
    ghost predicate Foreign(word: nat) {
      exists a: nat :: word == beyond(a)
    }

    /** The node a removal starts from: the node the key argument points into, or the one its search ends in. */
    ghost function Lead(key: KeyRef, level: nat, p: nat): nat
      reads this
      requires level < |rows|
    {
      if key.At? then p else Route(rows[level], ReadKey(key))
    }

    /** What btree_remove_level looks at before it changes anything. */
    method FindPair(key: KeyRef, level: nat, ghost p: nat)
      returns (a: nat, pos: nat, fill: nat, hit: bool, ret: nat, ghost g: nat, ghost o: nat, ghost outside: bool)
      requires 1 <= level <= height && From(level) && Filled(T(), level, 0, 0) && KeyBelow(T(), key, level)
      requires key.At? ==> level >= 2 && p < |rows[level]| && rows[level][p].addr == key.addr && key.addr in mem
                           && key.pos + 1 < |Entries(mem[key.addr])|
      requires key.Own? ==> level == 1
      modifies `mem, `rows
      ensures From(level) && Filled(T(), level, 0, 0) && Framed(old(T()), T(), level) && KeyBelow(T(), key, level)
      ensures rows[level - 1] == old(rows)[level - 1]
      ensures g < |rows[level]| && rows[level][g].addr == a
      ensures a in mem && a in tag && tag[a] == level && Exact(mem[a], N)
      ensures 1 <= fill == |Entries(mem[a])| && pos <= fill && o == Offset(mem, rows[level], g)
      ensures InRange(rows[level][g], ReadKey(key)) && fill >= MinFill(rows)
      ensures key.At? ==> hit && rows[level][g].addr == key.addr && pos == key.pos && pos + 1 < fill
                          && o == old(Offset(mem, rows[level], p))
      ensures key.Own? ==> (hit <==> Listed(old(rows)[0], key.key) || Misread(old(T()), keylen, key.key))
      ensures key.Own? && Listed(old(rows)[0], key.key) ==> pos < fill && IsPair(old(rows)[0], o + pos, key.key, ret)
      ensures key.Own? && Misread(old(T()), keylen, key.key) ==>
        pos == fill && IsNext(old(rows)[0], o + pos - 1, key.key) && (outside || ret == 0)
      ensures outside <==> key.Own? && !spare && old(Overruns(key.key))
      ensures outside ==> ret == beyond(a)
      ensures !hit ==> ret == 0
      ensures Fills(T(), level) == old(Fills(T(), level)) && tag == old(tag) && g == old(Lead(key, level, p))
    {
      hide Entries, NodeOk, Kids, KidsOf, Filled, Framed, Lowered, RowOk, SamePairs, InRange, Exact, IsPos, Offset,
           Listed, Overrun, KeySlot, LastLeafHasRoom, IsNext, Fills, Route;
      ghost var s0, k := T(), ReadKey(key);
      a, pos, fill, g := FindSlot(key, level, 0, 0);
      ghost var s := T();
      o := Offset(mem, rows[level], g);
      LoweredFills(s0, s, level, level);
      FilledNode(s, level, 0, 0, g);
      ExactHolds(mem[a], N);
      if key.At? {
        HeldAt(s0, s, level, p, key.addr, key.pos, g, k, pos);
      } else {
        OwnKey(s0, s, keylen, g, k, pos);
      }
      hit := !(level == 1 && KeySlot(mem[a], keylen, pos) != ReadKey(key));
      if !hit {
        ret := 0;
      } else if pos < N {
        ret := mem[a][pos].val;
      } else if spare {
        ret := 0;  // bval(N) is a word behind the last value: calloc cleared it and nothing ever writes it
      } else {
        ret := beyond(a);
      }
      outside := hit && pos >= N && !spare;
    }

    /** What btree_remove_level does once it has found a pair. */
    method TakeOut(key: KeyRef, level: nat, a: nat, pos: nat, fill: nat, ghost g: nat) returns (ghost x: nat)
      requires 1 <= level <= height && From(level) && Filled(T(), level, 0, 0) && KeyBelow(T(), key, level)
      requires g < |rows[level]| && rows[level][g].addr == a && InRange(rows[level][g], ReadKey(key))
      requires a in mem && a in tag && tag[a] == level && Exact(mem[a], N)
      requires 1 <= fill == |Entries(mem[a])| && pos <= fill && fill >= MinFill(rows)
      requires key.At? ==> key.addr == a && pos == key.pos && pos + 1 < fill
      modifies this
      ensures Heap() && T().From(level) && Filled(T(), level, 0, 0)
      ensures Framed(old(T()), T(), level) && level <= height + 1
      ensures x == Offset(old(mem), old(rows)[level], g) + if pos < fill then pos else fill - 1
      ensures Removed(old(rows)[level - 1], rows[level - 1], x, level <= height)
      ensures key.At? ==> x < |rows[level - 1]| && Le(old(rows)[level - 1][x].hi, rows[level - 1][x].hi)
      ensures Size(tag) + Frees(N, Dropped(old(Fills(T(), level)), g), level, g) == old(Size(tag))
      ensures level <= height ==> Counts(mem, rows[level]) == Settled(N, Dropped(old(Fills(T(), level)), g), g)
      decreases height - level, 5
    {
      hide Entries, NodeOk, Kids, KidsOf, Filled, Framed, RowOk, SamePairs, InRange, Exact, Removed, Offset, Topped,
           Fills, Frees, Dropped, Settled, Counts, Size;
      ghost var s, q := T(), 0;
      q, x := DropPair(a, pos, fill, level, g);
      ghost var t := T();
      if key.At? {
        ShiftedKey(s, mem, level, g, q);
      }
      Settle(key, level, a, fill - 1, g);
      FramedTrans(s, t, T(), level);
      RemovedSettled(s.rows[level - 1], t.rows[level - 1], rows[level - 1], x, level <= height);
    }

    method RemoveLevel(key: KeyRef, level: nat, ghost p: nat)
      returns (ret: nat, ghost hit: bool, ghost x: nat, ghost outside: bool)
      requires 1 <= level <= height && From(level) && Filled(T(), level, 0, 0) && KeyBelow(T(), key, level)
      requires key.At? ==> level >= 2 && p < |rows[level]| && rows[level][p].addr == key.addr && key.addr in mem
                           && key.pos + 1 < |Entries(mem[key.addr])|
      requires key.Own? ==> level == 1
      modifies this
      ensures Heap() && T().From(level) && Filled(T(), level, 0, 0)
      ensures Framed(old(T()), T(), level) && level <= height + 1
      ensures hit ==> Removed(old(rows)[level - 1], rows[level - 1], x, level <= height)
      ensures key.At? ==> hit && x == old(Offset(mem, rows[level], p)) + key.pos && x < |rows[level - 1]|
                          && Le(old(rows)[level - 1][x].hi, rows[level - 1][x].hi)
      ensures key.Own? ==> (hit <==> Listed(old(rows)[0], key.key) || Misread(old(T()), keylen, key.key))
      ensures key.Own? && Listed(old(rows)[0], key.key) ==>
        IsPair(old(rows)[0], x, key.key, ret)
      ensures key.Own? && Misread(old(T()), keylen, key.key) ==>
        IsNext(old(rows)[0], x, key.key) && (outside || ret == 0)
      ensures outside <==> key.Own? && !spare && old(Overruns(key.key))
      ensures outside ==> Foreign(ret)
      ensures !hit ==> ret == 0 && level <= height && rows[level - 1] == old(rows)[level - 1]
      ensures !hit ==> tag == old(tag) && Fills(T(), level) == old(Fills(T(), level))
      ensures hit ==>
        Size(tag) + Frees(N, Dropped(old(Fills(T(), level)), old(Lead(key, level, p))), level, old(Lead(key, level, p)))
        == old(Size(tag))
      ensures hit && level <= height ==>
        Counts(mem, rows[level]) ==
        Settled(N, Dropped(old(Fills(T(), level)), old(Lead(key, level, p))), old(Lead(key, level, p)))
      decreases height - level, 6
    {
      hide Entries, NodeOk, Kids, KidsOf, Filled, Framed, RowOk, SamePairs, InRange, Exact, Removed, Offset, Topped,
           Listed, Overrun, LastLeafHasRoom, IsNext, IsPair, Misread, Overruns, Fills, Frees, Dropped,
           Settled, Counts, Size, Lead;
      ghost var s0 := T();
      var a, pos, fill, found; ghost var g, o;
      a, pos, fill, found, ret, g, o, outside := FindPair(key, level, p);
      hit, x := found, 0;
      if !found {
        return;
      }
      ghost var s := T();
      x := TakeOut(key, level, a, pos, fill, g);
      FramedTrans(s0, s, T(), level);
    }

    // ---------- the interface

    /** A well-formed tree: every node but the root holds at least two pairs. */
    ghost predicate Valid()
      reads this
    {
      From(1) && Filled(T(), 1, 0, 0)
    }

    /** The map the tree stands for. */
    ghost function Map(): map<nat, nat>
      reads this
    {
      if |rows| == 0 then map[] else PairsOf(rows[0])
    }

    /** words is NODESIZE / sizeof(long); the geometry follows from it and from the length of a key. */
    constructor (words: nat, geoKeylen: nat, grants: nat -> bool, beyond: nat -> nat)
      requires geoKeylen >= 1 && words / (1 + geoKeylen) >= 4 && words / (1 + geoKeylen) >= geoKeylen
      ensures Valid() && Map() == map[] && N == words / (1 + geoKeylen) && keylen == geoKeylen && height == 0
      ensures spare == (words % (1 + geoKeylen) != 0) && this.grants == grants && this.beyond == beyond
      ensures calls == 0
    {
      N, keylen, spare := words / (1 + geoKeylen), geoKeylen, words % (1 + geoKeylen) != 0;
      this.grants, this.beyond, calls := grants, beyond, 0;
      mem, tag := map[], map[];
      node, height := 0, 0;
      rows := [[]];
    }

    method Last() returns (found: bool, key: nat)
      requires Valid()
      ensures found <==> Map() != map[]
      ensures found ==> key in Map() && forall k :: k in Map() ==> k <= key
    {
      if height == 0 {
        return false, 0;
      }
      hide Entries, NodeOk, Kids, KidsOf, Filled, RowOk, Chain, PairsOf;
      var h, a := height, node;
      while h > 1
        invariant 1 <= h <= height && rows[h] != [] && rows[h][0].addr == a
      {
        FirstPair(h);
        a := mem[a][0].val;
        h := h - 1;
      }
      FirstPair(1);
      key := mem[a][0].key;
      found := true;
      ChainFrom(T(), 0);
      PairsAt(rows[0], 0);
      forall k | k in Map()
        ensures k <= key
      {
        PairsEnds(rows[0], k);
      }
    }

    lemma FirstPair(l: nat)
      requires Valid() && 1 <= l <= height && rows[l] != []
      ensures var a := rows[l][0].addr;
        && a in mem && |mem[a]| > 0
        && rows[l - 1] != [] && rows[l - 1][0].addr == mem[a][0].val && rows[l - 1][0].lo == mem[a][0].key
    {
      hide NodeOk, Kids, Filled, RowOk, Entries;
      var s := T();
      assert s.Ok(l) && s.Link(l - 1);
      RowAt(s, l, 0);
      FilledSub(s, 1, l);
      FilledNode(s, l, 0, 0, 0);
      HeadPair(s, l);
    }

    /** The descent of btree_lookup: the leaf for the key, or 0 when the descent runs off a node. */
    method LookupLeaf(key: nat) returns (a: nat, ghost g: nat)
      requires Valid() && height > 0
      ensures a == 0 ==> key !in Map()
      ensures a != 0 ==> a in mem && |mem[a]| == N && g < |rows[1]| && rows[1][g].addr == a && InRange(rows[1][g], key)
    {
      hide Tree.From, Entries, NodeOk, Kids, KidsOf, Filled, RowOk, Chain, PairsOf, IsPos, InRange, Offset, Listed;
      ghost var s := T();
      g := 0;
      PairsHas(rows[0], key);
      assert InRange(rows[height][0], key) by { FromUp(s, 1, height); RootRange(s, key); }
      a := node;
      var h: nat := height;
      while h > 1
        invariant 1 <= h <= height && g < |rows[h]| && rows[h][g].addr == a && InRange(rows[h][g], key)
      {
        FromOk(s, 1, h);
        RowAt(s, h, g);
        var i := Getpos(a, Own(key));
        PosInNode(mem[a], N, rows[h][g], key, i);
        if Listed(rows[0], key) { ListedBelow(s, h, g, key, i); }
        if i == N {
          return 0, 0;
        }
        if mem[a][i].val == 0 {
          return 0, 0;
        }
        EntryAt(mem[a], N, rows[h][g], i);
        RouteDown(s, h, g, key, i);
        g := Offset(mem, rows[h], g) + i;
        a := mem[a][i].val;
        h := h - 1;
      }
      FromOk(s, 1, 1);
      RowAt(s, 1, g);
    }

    method Lookup(key: nat) returns (val: nat)
      requires Valid()
      ensures val == if key in Map() then Map()[key] else 0
    {
      if height == 0 {
        return 0;
      }
      hide Tree.From, Entries, NodeOk, Filled, RowOk, PairsOf, InRange;
      var a; ghost var g;
      a, g := LookupLeaf(key);
      if a == 0 {
        return 0;
      }
      var i := 0;
      while i < N
        invariant i <= N && forall j :: 0 <= j < i ==> mem[a][j].key != key
      {
        if mem[a][i].key == key {
          LeafSlot(T(), g, key, i);
          return mem[a][i].val;
        }
        i := i + 1;
      }
      LeafMiss(T(), g, key);
      return 0;
    }

    /** The leaf a search for the key ends in. */
    ghost function Leaf(key: nat): nat
      reads this
    {
      if |rows| > 1 then Route(rows[1], key) else 0
    }

    /** The leaf for the key is not full, or a leaf beside it, of the same node, has two free slots. */
    ghost predicate RoomFor(key: nat)
      reads this
    {
      && height > 0 && |rows| == height + 1 && Leaf(key) < |rows[1]|
      && (|Entries(NodeAt(mem, rows[1][Leaf(key)].addr))| < N || exists h :: Beside(1, Leaf(key), h))
    }

    lemma NothingCalled(key: nat)
      requires RoomFor(key)
      ensures Calls(N, Fills(T(), 1), Leaf(key)) == 0
    {
      hide Entries, Beside, Calls, Fills, Route;
      NoCalls(1, Leaf(key));
      if |Entries(NodeAt(mem, rows[1][Leaf(key)].addr))| < N { CallsRoom(T(), 1, Leaf(key)); }
    }

    method Insert(key: nat, val: nat) returns (err: int)
      requires Valid() && val != 0 && key !in Map()
      modifies this
      ensures Valid() && (err == 0 || err == -ENOMEM)
      ensures calls >= old(calls) && (err == 0 <==> Granted(grants, old(calls), calls))
      ensures err == 0 <==> Granted(grants, old(calls), old(calls) + old(Calls(N, Fills(T(), 1), Leaf(key))))
      ensures err == 0 ==> calls == old(calls) + old(Calls(N, Fills(T(), 1), Leaf(key)))
      ensures old(RoomFor(key)) ==> err == 0 && calls == old(calls)
      ensures calls <= old(calls) + old(height) + 1
      ensures err == 0 ==> height >= old(height)
      ensures err == 0 && old(height) > 0 ==>
        Placed(old(Eased(N, Fills(T(), 1), Leaf(key))), Counts(mem, rows[1]), Leaf(key))
      ensures Map() == if err == 0 then old(Map())[key := val] else old(Map())
      ensures if err == 0 then Nodes() == old(Nodes()) + calls - old(calls) else mem.Keys == old(mem.Keys)
      ensures old(height) == 0 && err == 0 ==> height == 1
      ensures old(height) == 1 && |old(Map())| < N ==> err == 0 && height == 1
    {
      hide Entries, NodeOk, Kids, KidsOf, Filled, RowOk, Chain, PairsOf, Framed, Inserted, SamePairs, Fills, Calls,
           Route, Granted, Asked, RoomFor, Tree.From, Size, Before, Listed, Counts, Above, Nodes, Eased, Placed;
      ghost var s0, p, M := T(), 0, Calls(N, Fills(T(), 1), Leaf(key));
      NodesIs();
      PairsHas(rows[0], key);
      if height == 0 { NoPairs(); }
      Unlisted(rows[0], key);
      BeforeLeaves(s0, node);
      if height == 1 { SoleLeaf(s0); }
      if RoomFor(key) { NothingCalled(key); }
      CallsBound(s0, 1, Leaf(key));
      err, p := InsertLevel(Own(key), val, 1, Leaf(key));
      AskedAll(grants, old(calls), calls, old(Size(tag)), Size(tag), M, err == 0);
      NodesIs();
      if err == 0 {
        TreeInserted(s0, T(), p, key, val);
      } else if height > 0 {
        PairsSame(s0.rows[0], rows[0]);
      }
    }

    /** How many nodes the removal of a pair from the leaf for the key gives back. */
    ghost function Freed(key: nat): nat
      reads this
    {
      Frees(N, Dropped(Fills(T(), 1), Leaf(key)), 1, Leaf(key))
    }

    /** How full it leaves the leaves. */
    ghost function LeavesAfter(key: nat): seq<nat>
      reads this
    {
      Settled(N, Dropped(Fills(T(), 1), Leaf(key)), Leaf(key))
    }

    /** The leaf for the key is left with few pairs, and they fit into a leaf beside it, of the same node. */
    ghost predicate LeafGoes(key: nat)
      reads this
    {
      && |rows| > 2 && Leaf(key) < |rows[1]| && |Entries(NodeAt(mem, rows[1][Leaf(key)].addr))| <= N / 2
      && exists h: nat :: Room(Leaf(key), h)
    }

    /** Leaves g and h stand side by side in one node and, once g has lost a pair, fit in one. */
    ghost predicate Room(g: nat, h: nat)
      reads this
    {
      && |rows| > 2 && g < |rows[1]| && h < |rows[1]| && (h + 1 == g || h == g + 1)
      && Above(T(), 1, h) == Above(T(), 1, g)
      && |Entries(NodeAt(mem, rows[1][g].addr))| + |Entries(NodeAt(mem, rows[1][h].addr))| <= N + 1
    }

    lemma LeafFreed(key: nat)
      requires Valid() && height > 0
      ensures height > 1 ==> (Freed(key) > 0 <==> LeafGoes(key))
    {
      if height > 1 && Leaf(key) < |rows[1]| {
        hide Tree.From, Entries, Counts, Parent, Fills, Filled, Leaf, Frees, Dropped, Room, Swallows, NodeOk, RowOk;
        var g := Leaf(key);
        FillsParts(T(), 1);
        CountAt(mem, rows[1], g);
        FilledNode(T(), 1, 0, 0, g);
        FromOk(T(), 1, 1);
        RowAt(T(), 1, g);
        FreesLow(N, Fills(T(), 1), 1, g);
        SomeRoom(g);
      }
    }

    lemma SomeRoom(g: nat)
      requires |rows| > 2 && g < |rows[1]|
      ensures (exists h: nat :: Room(g, h)) <==>
              (g > 0 && Swallows(N, Fills(T(), 1), g, g - 1)) || Swallows(N, Fills(T(), 1), g, g + 1)
    {
      hide Fills, Room, Swallows;
      RoomSwallows(g, g + 1);
      if g > 0 { RoomSwallows(g, g - 1); }
      if h: nat :| Room(g, h) { RoomSwallows(g, h); }
    }

    lemma RoomSwallows(g: nat, h: nat)
      requires |rows| > 2
      ensures Room(g, h) <==> (h + 1 == g || h == g + 1) && g < |rows[1]| && Swallows(N, Fills(T(), 1), g, h)
    {
      hide Entries, Counts, Parent, Fills;
      FillsParts(T(), 1);
      if g < |rows[1]| { CountAt(mem, rows[1], g); }
      if h < |rows[1]| { CountAt(mem, rows[1], h); }
    }

    /** outside says that a word behind the node was read, which then is what the caller is given. */
    method Remove(key: nat) returns (ret: nat, ghost next: nat, ghost outside: bool)
      requires Valid()
      modifies this
      ensures Valid()
      ensures var hit := key in old(Map()) || (old(height) > 0 && Misread(old(T()), keylen, key));
        && Nodes() + (if hit then old(Freed(key)) else 0) == old(Nodes())
        && (hit && height > 0 ==> Counts(mem, rows[1]) == old(LeavesAfter(key)))
        && (hit && old(height) > 1 ==> (Nodes() < old(Nodes()) <==> old(LeafGoes(key))))
      ensures outside <==> old(height) > 0 && !spare && old(Overruns(key))
      ensures key in old(Map()) ==> ret == old(Map())[key] && Map() == old(Map()) - {key}
      ensures key !in old(Map()) && !outside ==> ret == 0
      ensures outside ==> Misread(old(T()), keylen, key) && Foreign(ret)
      ensures key !in old(Map()) && !Misread(old(T()), keylen, key) ==> Map() == old(Map())
      ensures key !in old(Map()) && Misread(old(T()), keylen, key) ==>
        && next in old(Map()) && key < next && (forall k :: k in old(Map()) ==> k < key || next <= k)
        && Map() == old(Map()) - {next}
    {
      if height == 0 {
        EmptyMap();
        return 0, 0, false;
      }
      LeafFreed(key);
      ghost var hit;
      ret, hit, next, outside := RemoveSome(key);
    }

    /** btree_remove of a tree that is not empty. */
    method RemoveSome(key: nat) returns (ret: nat, ghost hit: bool, ghost next: nat, ghost outside: bool)
      requires Valid() && height > 0
      modifies this
      ensures Valid()
      ensures Nodes() + (if hit then old(Freed(key)) else 0) == old(Nodes())
      ensures hit && height > 0 ==> Counts(mem, rows[1]) == old(LeavesAfter(key))
      ensures outside <==> !spare && old(Overruns(key))
      ensures outside ==> Misread(old(T()), keylen, key) && Foreign(ret)
      ensures hit <==> key in old(Map()) || Misread(old(T()), keylen, key)
      ensures if hit then Took(old(Map()), Map(), key, next, ret) else Map() == old(Map())
      ensures key !in old(Map()) && !outside ==> ret == 0
    {
      hide Tree.From, Entries, NodeOk, Kids, Filled, RowOk, PairsOf, Framed, Removed, Overrun, LastLeafHasRoom, Listed,
           Chain, IsNext, IsPair, Misread, Overruns, Foreign, Took, Fills, Frees,
           Dropped, Settled, Counts, Size, Nodes, Route;
      ghost var s0, x := T(), 0;
      if Overruns(key) { OverrunMisreads(key); }
      PairsHas(rows[0], key);
      next := 0;
      NodesIs();
      ret, hit, x, outside := RemoveLevel(Own(key), 1, 0);
      ChainFrom(s0, 0);
      ChainFrom(T(), 0);
      NodesIs();
      if hit {
        if height == 0 { NoPairs(); }
        next := PairGone(s0.rows[0], rows[0], x, height >= 1, key, ret);
      }
    }

    lemma OverrunMisreads(key: nat)
      requires |rows| > 1 && Overruns(key)
      ensures Misread(T(), keylen, key)
    {
    }

    /** A tree of fewer pairs than a node holds mistakes a cleared slot for key 0. */
    lemma ZeroMisread()
      requires Valid() && 0 < |Map()| < N && 0 !in Map()
      ensures Misread(T(), keylen, 0) && !Overrun(T(), keylen, 0)
    {
      hide NodeOk, RowOk;
      var s := T();
      ChainFrom(s, 0);
      PairsSize(rows[0]);
      PairsHas(rows[0], 0);
      assert s.Ok(1) && s.Link(0);
      KidsNone(mem);
      LastOffset(s, |rows[1]| - 1);
      ZeroNeverOverruns();
    }

    /** Key 0 is never taken for the value words behind the keys of a full leaf. */
    lemma ZeroNeverOverruns()
      requires Valid() && height > 0
      ensures !Overrun(T(), keylen, 0)
    {
      hide RowOk, IsPos;
      var s := T();
      assert s.Ok(1);
      var R := rows[1];
      forall i | 0 <= i < |R| && |Entries(NodeAt(mem, R[i].addr))| == N
        ensures Overlay(NodeAt(mem, R[i].addr), keylen) != 0
      {
        RowAt(s, 1, i);
        OverlayPositive(NodeAt(mem, R[i].addr), keylen);
      }
    }

    lemma NoPairs()
      requires Valid() && height == 0
      ensures rows[0] == []
    {
    }

    lemma EmptyMap()
      requires Valid() && height == 0
      ensures Map() == map[]
    {
    }

    lemma EmptyIsValid()
      requires 4 <= N && 1 <= keylen <= N && mem == map[] && tag == map[] && rows == [[]] && height == 0 && node == 0
      ensures Valid() && Map() == map[]
    {
    }

    /** An empty tree takes over the nodes of the other. */
    method TakeAll(victim: Btree)
      requires this != victim && Valid() && victim.Valid() && N == victim.N && keylen == victim.keylen && node == 0
      modifies this, victim
      ensures Valid() && victim.Valid() && victim.Map() == map[] && old(Map()) == map[] && Map() == old(victim.Map())
      ensures calls == old(calls) && Nodes() == old(victim.Nodes())
    {
      hide NodeOk, RowOk, Kids, Filled, PairsOf, Tree.From, Entries;
      EmptyMap();
      mem, node, height := victim.mem, victim.node, victim.height;
      tag, rows := victim.tag, victim.rows;
      victim.node, victim.height := 0, 0;
      victim.mem, victim.tag, victim.rows := map[], map[], [[]];
      victim.EmptyIsValid();
    }

    /** btree_merge; the two trees live in separate memories. */
    method Absorb(victim: Btree) returns (err: int)
      requires this != victim && Valid() && victim.Valid() && N == victim.N && keylen == victim.keylen
      requires Map().Keys !! victim.Map().Keys
      modifies this, victim
      ensures Valid() && victim.Valid() && (err == 0 || err == -ENOMEM)
      ensures calls >= old(calls) && (err == 0 <==> Granted(grants, old(calls), calls))
      ensures old(height) == 0 ==> err == 0 && calls == old(calls) && Nodes() == old(victim.Nodes())
      ensures Map() + victim.Map() == old(Map() + victim.Map()) && Map().Keys !! victim.Map().Keys
      ensures err == 0 ==> victim.Map() == map[] && Map() == old(Map() + victim.Map())
    {
      hide NodeOk, RowOk, Kids, Filled, PairsOf, Tree.From, Entries, Granted, Nodes;
      GrantedJoin(grants, calls, calls, calls);
      if node == 0 {
        TakeAll(victim);
        return 0;
      }
      ghost var all := Map() + victim.Map();
      while true
        invariant Valid() && victim.Valid()
        invariant Map() + victim.Map() == all && Map().Keys !! victim.Map().Keys
        invariant calls >= old(calls) && Granted(grants, old(calls), calls)
        decreases victim.Map().Keys
      {
        ghost var c1 := calls;
        var found;
        found, err := MoveLast(victim);
        GrantedJoin(grants, old(calls), c1, calls);
        if !found || err != 0 {
          return err;
        }
      }
    }

    /** One round of btree_merge: the victim's greatest pair changes trees. */
    method MoveLast(victim: Btree) returns (found: bool, err: int)
      requires this != victim && Valid() && victim.Valid() && Map().Keys !! victim.Map().Keys
      modifies this, victim
      ensures Valid() && victim.Valid() && (err == 0 || err == -ENOMEM)
      ensures calls >= old(calls) && (err == 0 <==> Granted(grants, old(calls), calls))
      ensures Map() + victim.Map() == old(Map() + victim.Map()) && Map().Keys !! victim.Map().Keys
      ensures !found ==> victim.Map() == map[] && err == 0
      ensures found && err == 0 ==> victim.Map().Keys < old(victim.Map().Keys)
    {
      hide Tree.From, Filled, PairsOf, Granted, LastLeafHasRoom, Overrun;
      GrantedJoin(grants, calls, calls, calls);
      ghost var m, v := Map(), victim.Map();
      var key;
      found, key := victim.Last();
      if !found {
        return false, 0;
      }
      var val := victim.Lookup(key);
      victim.ValuesNotNull(key);
      err := Insert(key, val);
      if err != 0 {
        return;
      }
      var duplicate := key;
      var removed; ghost var next;
      ghost var outside;
      removed, next, outside := victim.Remove(duplicate);
      MovePairToMap(m, v, key);
    }

    lemma ValuesNotNull(key: nat)
      requires Valid() && key in Map()
      ensures Map()[key] != 0
    {
      hide NodeOk, RowOk, Kids, KidsOf, Filled, Chain, PairsOf, Entries, Offset;
      var s := T();
      PairsHas(rows[0], key);
      var i :| 0 <= i < |rows[0]| && rows[0][i].lo == key;
      ChainFrom(s, 0);
      PairsAt(rows[0], i);
      assert s.Ok(1) && s.Link(0);
      var p, q := Locate(mem, rows[1], i);
      RowAt(s, 1, p);
      PairListed(s, 1, p, q);
      EntryAt(mem[rows[1][p].addr], N, rows[1][p], q);
    }
  }

  /** Removing key 0, which is absent, empties a tree whose only key is 5. */
  method RemoveAbsentZero() returns (ret: nat, ghost before: map<nat, nat>, ghost after: map<nat, nat>)
    ensures before == map[5 := 1] && after == map[] && ret == 0
  {
    hide Tree.From, Filled, Overrun, LastLeafHasRoom, Listed, PairsOf;
    var t := new Btree(16, 1, _ => true, _ => 0);
    var err := t.Insert(5, 1);
    before := t.Map();
    assert 5 in before;
    t.ZeroMisread();
    ghost var next;
    ghost var outside;
    ret, next, outside := t.Remove(0);
    after := t.Map();
  }

  /** One more key, in a tree of height 0 or 1 with room. */
  method AddOne(t: Btree, k: nat, i: nat)
    requires t.Valid() && t.height <= 1 && (t.height == 0 <==> i == 0) && i < t.N && Ones(t.Map(), k, i)
    requires forall c :: t.grants(c)
    modifies t
    ensures t.Valid() && t.height == 1 && Ones(t.Map(), k, i + 1)
  {
    hide Btree.From, Filled, PairsOf, Ones;
    OnesNext(t.Map(), k, i);
    OnesCount(t.Map(), k, i);
    assert t.Valid();
    var err := t.Insert(k + i + 1, 1);
  }

  /** A tree of one full leaf: the five keys after k, each with value 1. */
  method FiveOnes(k: nat) returns (t: Btree)
    ensures fresh(t) && t.Valid() && t.height == 1 && t.N == 5 && t.keylen == 2 && t.spare && Ones(t.Map(), k, 5)
  {
    hide Btree.Valid, Btree.Map, Ones;
    t := new Btree(16, 2, _ => true, _ => 0);
    NoOnes(k);
    AddOne(t, k, 0);
    AddOne(t, k, 1);
    AddOne(t, k, 2);
    AddOne(t, k, 3);
    AddOne(t, k, 4);
  }

  /** Removing an absent key that the first two values of the only leaf spell drops the pair above it instead. */
  method RemoveAbsentOverrun() returns (ret: nat, ghost before: map<nat, nat>, ghost after: map<nat, nat>)
    ensures 0x1_0000_0000_0000_0001 !in before && 0x1_0000_0000_0000_0002 in before
    ensures after == before - {0x1_0000_0000_0000_0002} && ret == 0
  {
    hide Tree.From, Filled, Misread, PairsOf;
    var t := FiveOnes(0x1_0000_0000_0000_0001);
    before := t.Map();
    OnesOverrun(t.T(), 0x1_0000_0000_0000_0001);
    ghost var next;
    ghost var outside;
    ret, next, outside := t.Remove(0x1_0000_0000_0000_0001);
    after := t.Map();
  }
}
