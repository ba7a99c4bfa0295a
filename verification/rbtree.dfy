/**
The nodes of a red-black tree on the heap, tied to the cells that describe them.
*/
module Rbtree {
  import opened RbCells
  import opened RbColours
  import opened RbFixup
  import opened RbOrder
  import RbBounds
  import opened Octets

  class Node {
    var key: nat
    var left: Node?
    var right: Node?
    var parent: Node?
    var red: bool

    constructor (key: nat)
      ensures this.key == key
    {
      this.key := key;
      left, right, parent, red := null, null, null, false;
    }
  }

  ghost function At(ns: seq<Node>, sentinel: Node, k: int): Node {
    if 0 <= k < |ns| then ns[k] else sentinel
  }

  ghost predicate Distinct(ns: seq<Node>, sentinel: Node) {
    && (forall i :: 0 <= i < |ns| ==> ns[i] != sentinel)
    && (forall i, j :: 0 <= i < j < |ns| ==> ns[i] != ns[j])
  }

  /** The fields of ns[i] are the ones its cell names, but for the parents of the loose nodes. */
  ghost predicate Holds(ns: seq<Node>, sentinel: Node, cs: seq<Cell>, loose: set<int>, i: int)
    requires 0 <= i < |ns| == |cs|
    reads ns[i]
  {
    && ns[i].left == At(ns, sentinel, cs[i].left) && ns[i].right == At(ns, sentinel, cs[i].right)
    && ns[i].red == cs[i].red && (i !in loose ==> ns[i].parent == At(ns, sentinel, cs[i].parent))
  }

  ghost predicate AllHold(ns: seq<Node>, sentinel: Node, cs: seq<Cell>, loose: set<int>)
    requires |ns| == |cs|
    reads ns
  {
    forall i {:trigger Holds(ns, sentinel, cs, loose, i)} :: 0 <= i < |ns| ==> Holds(ns, sentinel, cs, loose, i)
  }

  /** The keys of the nodes, in order. */
  ghost predicate Keyed(ns: seq<Node>, keys: seq<nat>, half: nat)
    reads ns`key
  {
    |keys| == |ns| && forall i :: 0 <= i < |ns| ==> ns[i].key == keys[i] && keys[i] < 2 * half
  }

  lemma KeyedUp(l: seq<Node>, keys: seq<nat>, half: nat, node: Node, d: int)
    requires Keyed(l, keys, half) && 0 <= d <= |l| && node.key < 2 * half
    ensures Keyed(Added(l, d, node), Added(keys, d, node.key), half)
  {
  }

  lemma KeyedDown(l: seq<Node>, keys: seq<nat>, half: nat, d: int)
    requires Keyed(l, keys, half) && 0 <= d < |l|
    ensures Keyed(Without(l, d), Without(keys, d), half)
  {
  }

  class Tree {
    var root: Node
    const sentinel: Node
    ghost var ns: seq<Node>
    ghost var cs: seq<Cell>
    ghost var rt: int
    ghost var loose: set<int>
    ghost var keys: seq<nat>
    const timer: bool
    const half: nat

    /** ngx_rbtree_init: timer tells which insert function is installed; keys are less than 2 * half. */
    constructor (sentinel: Node, timer: bool, half: nat)
      requires half > 0
      modifies sentinel`red
      ensures Valid() && ns == [] && this.sentinel == sentinel && this.timer == timer && this.half == half
    {
      this.sentinel, this.timer, this.half := sentinel, timer, half;
      root := sentinel;
      ns, cs, rt, loose, keys := [], [], NIL, {}, [];
      new;
      sentinel.red := false;
    }

    /** A red-black tree whose in-order sequence ns is sorted. */
    ghost predicate Valid()
      reads this, sentinel, ns
    {
      half > 0 && Shape() && Good(cs, rt) && Keyed(ns, keys, half) && |keys| == |ns| && Sorted(timer, half, keys)
    }

    /** The nodes ns, in order, are linked as the cells say. */
    ghost predicate Rep()
      reads this, sentinel, ns
    {
      && |cs| == |ns| && Distinct(ns, sentinel) && !sentinel.red
      && root == At(ns, sentinel, rt) && AllHold(ns, sentinel, cs, loose)
    }

    lemma Look(i: int)
      requires Rep() && In(cs, i)
      ensures Holds(ns, sentinel, cs, loose, i) && ns[i] != sentinel
    {
    }

    lemma Is(j: int, k: int)
      requires Rep() && (j == NIL || In(cs, j)) && (k == NIL || In(cs, k))
      ensures At(ns, sentinel, j) == At(ns, sentinel, k) <==> j == k
    {
    }

    method SetLeft(x: Node, v: Node, ghost i: int, ghost k: int)
      requires Rep() && In(cs, i) && x == ns[i] && v == At(ns, sentinel, k)
      modifies this`cs, x`left
      ensures Rep() && x.left == v && cs == old(cs)[i := old(cs)[i].(left := k)]
    {
      x.left := v;
      cs := cs[i := cs[i].(left := k)];
      forall j | 0 <= j < |ns|
        ensures Holds(ns, sentinel, cs, loose, j)
      {
        assert old(Holds(ns, sentinel, cs, loose, j));
      }
    }

    method SetRight(x: Node, v: Node, ghost i: int, ghost k: int)
      requires Rep() && In(cs, i) && x == ns[i] && v == At(ns, sentinel, k)
      modifies this`cs, x`right
      ensures Rep() && x.right == v && cs == old(cs)[i := old(cs)[i].(right := k)]
    {
      x.right := v;
      cs := cs[i := cs[i].(right := k)];
      forall j | 0 <= j < |ns|
        ensures Holds(ns, sentinel, cs, loose, j)
      {
        assert old(Holds(ns, sentinel, cs, loose, j));
      }
    }

    /** The parent of x is tied when it is the one named, and let loose otherwise. */
    method SetParent(x: Node, v: Node?, ghost i: int, ghost k: int)
      requires Rep() && In(cs, i) && x == ns[i]
      modifies this`cs, this`loose, x`parent
      ensures Rep() && x.parent == v && cs == old(cs)[i := old(cs)[i].(parent := k)]
      ensures loose == if v == At(ns, sentinel, k) then old(loose) - {i} else old(loose) + {i}
    {
      x.parent := v;
      cs := cs[i := cs[i].(parent := k)];
      loose := if v == At(ns, sentinel, k) then loose - {i} else loose + {i};
      forall j | 0 <= j < |ns|
        ensures Holds(ns, sentinel, cs, loose, j)
      {
        assert old(Holds(ns, sentinel, cs, loose, j));
      }
    }

    method SetRed(x: Node, red: bool, ghost i: int, ghost dh: int)
      requires Rep() && In(cs, i) && x == ns[i]
      modifies this`cs, x`red
      ensures Rep() && x.red == red && cs == old(cs)[i := old(cs)[i].(red := red, h := old(cs)[i].h + dh)]
    {
      x.red := red;
      cs := cs[i := cs[i].(red := red, h := cs[i].h + dh)];
      forall j | 0 <= j < |ns|
        ensures Holds(ns, sentinel, cs, loose, j)
      {
        assert old(Holds(ns, sentinel, cs, loose, j));
      }
    }

    /** The loops and rotations below start and end with every parent tied but the root's. */
    ghost predicate Shape()
      reads this, sentinel, ns
    {
      Rep() && Linked(cs, rt) && loose <= {rt}
    }

    method SetRoot(v: Node, ghost k: int)
      requires Rep() && v == At(ns, sentinel, k)
      modifies this`root, this`rt, this`loose
      ensures Rep() && root == v && rt == k && loose == old(loose) + {k}
    {
      root, rt := v, k;
      loose := loose + {k};
      forall j | 0 <= j < |ns|
        ensures Holds(ns, sentinel, cs, loose, j)
      {
        assert old(Holds(ns, sentinel, cs, loose, j));
      }
    }

    /** Bring the bookkeeping up to date: r has the links and colours of cs. */
    ghost method Recount(r: seq<Cell>)
      requires Rep() && SameLinks(cs, r)
      modifies this`cs
      ensures Rep() && cs == r
    {
      cs := r;
      forall j | 0 <= j < |ns|
        ensures Holds(ns, sentinel, cs, loose, j)
      {
        assert old(Holds(ns, sentinel, cs, loose, j));
      }
    }

    /** What the tests and reads of a rotation at i rely on. */
    lemma Scene(i: int, s: bool)
      requires Shape() && In(cs, i) && Kd(cs[i], s) != NIL
      ensures var y := Kd(cs[i], s); In(cs, y) && Around(cs, rt, i, s, y, Kd(cs[y], !s), cs[i].parent) && y != rt
      ensures ns[i] != sentinel && At(ns, sentinel, Kd(cs[i], s)) != sentinel
      ensures (if s then ns[i].left else ns[i].right) == ns[Kd(cs[i], s)]
      ensures ns[i] == root <==> i == rt
      ensures var y := Kd(cs[i], s); var b := Kd(cs[y], !s); var v := if s then ns[y].right else ns[y].left;
              v == At(ns, sentinel, b) && (v == sentinel <==> b == NIL)
      ensures i != rt ==> ns[i].parent == ns[cs[i].parent]
      ensures i != rt ==> (ns[cs[i].parent].left == ns[i] <==> cs[cs[i].parent].left == i)
      ensures i != rt ==> (ns[cs[i].parent].right == ns[i] <==> cs[cs[i].parent].right == i)
    {
      RotAround(cs, rt, i, s);
      assert LinkedAt(cs, rt, i);
      assert Holds(ns, sentinel, cs, loose, i) && Holds(ns, sentinel, cs, loose, Kd(cs[i], s));
      if i != rt { assert LinkedAt(cs, rt, cs[i].parent) && Holds(ns, sentinel, cs, loose, cs[i].parent); }
    }

    /** The link to node, from its parent or the root pointer, is made to lead to temp. */
    method Replace(node: Node, temp: Node, ghost i: int, ghost p: int, ghost y: int)
      requires Rep() && In(cs, i) && node == ns[i] && (y == NIL || In(cs, y)) && temp == At(ns, sentinel, y)
      requires node == root <==> i == rt
      requires i != rt ==> In(cs, p) && node.parent == ns[p] && (ns[p].left == node <==> cs[p].left == i)
      modifies this`cs, this`rt, this`root, this`loose, ns`left, ns`right
      ensures Rep() && cs == Hang(old(cs), old(rt), i, p, y)
      ensures rt == (if i == old(rt) then y else old(rt))
      ensures loose == if i == old(rt) then old(loose) + {y} else old(loose)
      ensures root == if i == old(rt) then temp else old(root)
      ensures forall n :: n in ns && (i == old(rt) || n != ns[p]) ==> n.left == old(n.left) && n.right == old(n.right)
    {
      if node == root {
        SetRoot(temp, y);
      } else if node == node.parent.left {
        SetLeft(node.parent, temp, p, y);
      } else {
        SetRight(node.parent, temp, p, y);
      }
    }

    method RotateLeft(node: Node, ghost i: int)
      requires Shape() && In(cs, i) && node == ns[i] && cs[i].right != NIL
      modifies this`cs, this`rt, this`root, this`loose, ns`left, ns`right, ns`parent
      ensures In(old(cs), old(cs[i].right))
      ensures var y := old(cs[i].right); Around(old(cs), old(rt), i, false, y, old(cs)[y].left, old(cs[i].parent))
      ensures Shape() && cs == Rot(old(cs), old(rt), i, false)
      ensures rt == if i == old(rt) then old(cs[i].right) else old(rt)
    {
      Scene(i, false);
      ghost var c0, y := cs, cs[i].right;
      ghost var b, p := cs[y].left, cs[i].parent;
      RotLinked(cs, rt, i, false);
      RotWritesLinks(cs, rt, i, false, y, b, p);
      hide Linked, AllHold, Distinct, Holds, SameLinks, Rot, Hang;
      var temp := node.right;
      SetRight(node, temp.left, i, b);
      if temp.left != sentinel {
        SetParent(temp.left, node, b, i);
      }
      SetParent(temp, node.parent, y, p);
      Replace(node, temp, i, p, y);
      SetLeft(temp, node, y, i);
      SetParent(node, temp, i, y);
      Recount(Rot(c0, old(rt), i, false));
    }

    method RotateRight(node: Node, ghost i: int)
      requires Shape() && In(cs, i) && node == ns[i] && cs[i].left != NIL
      modifies this`cs, this`rt, this`root, this`loose, ns`left, ns`right, ns`parent
      ensures In(old(cs), old(cs[i].left))
      ensures var y := old(cs[i].left); Around(old(cs), old(rt), i, true, y, old(cs)[y].right, old(cs[i].parent))
      ensures Shape() && cs == Rot(old(cs), old(rt), i, true) && rt == if i == old(rt) then old(cs[i].left) else old(rt)
    {
      Scene(i, true);
      ghost var c0, y := cs, cs[i].left;
      ghost var b, p := cs[y].right, cs[i].parent;
      RotLinked(cs, rt, i, true);
      RotWritesLinks(cs, rt, i, true, y, b, p);
      hide Linked, AllHold, Distinct, Holds, SameLinks, Rot, Hang;
      var temp := node.left;
      SetLeft(node, temp.right, i, b);
      if temp.right != sentinel {
        SetParent(temp.right, node, b, i);
      }
      SetParent(temp, node.parent, y, p);
      Replace(node, temp, i, p, y);
      SetRight(temp, node, y, i);
      SetParent(node, temp, i, y);
      Recount(Rot(c0, old(rt), i, true));
    }

    // ---------- insertion

    /** The relatives the loop looks at, below a red parent. */
    lemma FixScene(e: int)
      requires Shape() && Fix(cs, rt, e) && e != rt && Red(cs, cs[e].parent)
      ensures var p := cs[e].parent; In(cs, p) && p != rt && p != e && ns[e].parent == ns[p]
      ensures var p := cs[e].parent; var g := cs[p].parent;
              In(cs, g) && g != p && g != e && ns[p].parent == ns[g] && !cs[g].red && (g == rt || ns[g] != root)
      ensures var p := cs[e].parent; var g := cs[p].parent;
              (ns[g].left == ns[p] <==> cs[g].left == p) && (cs[g].left == p <==> cs[g].right != p)
      ensures var p := cs[e].parent;
        (ns[p].left == ns[e] <==> cs[p].left == e) && (cs[p].left == e <==> cs[p].right != e)
      ensures var p := cs[e].parent; (ns[p].right == ns[e] <==> cs[p].right == e)
      ensures var g := cs[cs[e].parent].parent; var l, r := cs[g].left, cs[g].right;
              ns[g].left == At(ns, sentinel, l) && ns[g].right == At(ns, sentinel, r)
      ensures var g := cs[cs[e].parent].parent; var l, r := cs[g].left, cs[g].right;
              At(ns, sentinel, l).red == Red(cs, l) && At(ns, sentinel, r).red == Red(cs, r)
    {
      RedParent(cs, rt, e);
      var p := cs[e].parent;
      var g := cs[p].parent;
      KidIn(cs, rt, g, true);
      KidIn(cs, rt, g, false);
      KidIn(cs, rt, p, true);
      KidIn(cs, rt, p, false);
      assert Holds(ns, sentinel, cs, loose, e) && Holds(ns, sentinel, cs, loose, p) &&
          Holds(ns, sentinel, cs, loose, g);
      Hue(cs[g].left);
      Hue(cs[g].right);
    }

    /** Colours read from the heap, the sentinel's included. */
    lemma Hue(k: int)
      requires Rep() && (k == NIL || In(cs, k))
      ensures At(ns, sentinel, k).red == Red(cs, k)
    {
      if k != NIL { assert Holds(ns, sentinel, cs, loose, k); }
    }

    /** Red parent and uncle. */
    method Flip(node: Node, temp: Node, ghost e: int, ghost p: int, ghost g: int, ghost s: bool) returns (up: Node)
      requires Shape() && Fix(cs, rt, e) && e != rt && Red(cs, cs[e].parent) && node == ns[e]
      requires p == cs[e].parent && g == cs[p].parent && In(cs, g) && Kd(cs[g], s) == p && Red(cs, Kd(cs[g], !s))
      requires temp == ns[Kd(cs[g], !s)]
      modifies this`cs, ns`red
      ensures Shape() && Fix(cs, rt, g) && up == ns[g] && FixRank(cs, rt, g) < FixRank(old(cs), rt, e)
    {
      FixScene(e);
      ghost var u := Kd(cs[g], !s);
      FlipFix(cs, rt, e, g, p, u, s);
      hide AllHold, Distinct, Linked, Balanced, Edges;
      SetRed(node.parent, false, p, 1);
      SetRed(temp, false, u, 1);
      SetRed(node.parent.parent, true, g, 0);
      up := node.parent.parent;
    }

    /** node is the right child of a red left child of g. */
    method TwistLeft(node: Node, ghost e: int, ghost p: int, ghost g: int) returns (down: Node)
      requires Shape() && Fix(cs, rt, e) && e != rt && Red(cs, cs[e].parent) && node == ns[e]
      requires p == cs[e].parent && g == cs[p].parent && In(cs, g)
      requires cs[g].left == p && !Red(cs, cs[g].right) && cs[p].right == e
      modifies this`cs, this`rt, this`root, this`loose, ns`left, ns`right, ns`parent
      ensures Shape() && Fix(cs, rt, p) && rt == old(rt) && down == ns[p] && p != rt && cs[p].parent == e && Red(cs, e)
      ensures cs[e].parent == g && cs[e].left == p && cs[g].left == e && !Red(cs, cs[g].right)
    {
      FixScene(e);
      TwistFix(cs, rt, e, g, p, false);
      RotAround(cs, rt, p, false);
      PlainTurn(cs, rt, p, false);
      hide AllHold, Distinct, Linked, Balanced, Edges, Rot;
      down := node.parent;
      RotateLeft(down, p);
    }

    /** node is the left child of a red left child of g, and the other child of g is black. */
    method LiftRight(node: Node, ghost e: int, ghost p: int, ghost g: int)
      requires Shape() && Fix(cs, rt, e) && e != rt && Red(cs, cs[e].parent) && node == ns[e]
      requires p == cs[e].parent && g == cs[p].parent && In(cs, g)
      requires cs[g].left == p && !Red(cs, cs[g].right) && cs[p].left == e
      modifies this`cs, this`rt, this`root, this`loose, ns`left, ns`right, ns`parent, ns`red
      ensures Shape() && Fix(cs, rt, e) && FixRank(cs, rt, e) == 0
    {
      FixScene(e);
      LiftFix(cs, rt, e, g, p, true);
      DyeLinked(cs, rt, p, false, 0);
      DyeLinked(Dye(cs, p, false, 0), rt, g, true, 0);
      hide AllHold, Distinct, Linked, Balanced, Edges, Rot;
      SetRed(node.parent, false, p, 0);
      SetRed(node.parent.parent, true, g, 0);
      RotateRight(node.parent.parent, g);
    }

    /** node is the left child of a red right child of g. */
    method TwistRight(node: Node, ghost e: int, ghost p: int, ghost g: int) returns (down: Node)
      requires Shape() && Fix(cs, rt, e) && e != rt && Red(cs, cs[e].parent) && node == ns[e]
      requires p == cs[e].parent && g == cs[p].parent && In(cs, g)
      requires cs[g].right == p && !Red(cs, cs[g].left) && cs[p].left == e
      modifies this`cs, this`rt, this`root, this`loose, ns`left, ns`right, ns`parent
      ensures Shape() && Fix(cs, rt, p) && rt == old(rt) && down == ns[p] && p != rt && cs[p].parent == e && Red(cs, e)
      ensures cs[e].parent == g && cs[e].right == p && cs[g].right == e && !Red(cs, cs[g].left)
    {
      FixScene(e);
      TwistFix(cs, rt, e, g, p, true);
      RotAround(cs, rt, p, true);
      PlainTurn(cs, rt, p, true);
      hide AllHold, Distinct, Linked, Balanced, Edges, Rot;
      down := node.parent;
      RotateRight(down, p);
    }

    /** node is the right child of a red right child of g, and the other child of g is black. */
    method LiftLeft(node: Node, ghost e: int, ghost p: int, ghost g: int)
      requires Shape() && Fix(cs, rt, e) && e != rt && Red(cs, cs[e].parent) && node == ns[e]
      requires p == cs[e].parent && g == cs[p].parent && In(cs, g)
      requires cs[g].right == p && !Red(cs, cs[g].left) && cs[p].right == e
      modifies this`cs, this`rt, this`root, this`loose, ns`left, ns`right, ns`parent, ns`red
      ensures Shape() && Fix(cs, rt, e) && FixRank(cs, rt, e) == 0
    {
      FixScene(e);
      LiftFix(cs, rt, e, g, p, false);
      DyeLinked(cs, rt, p, false, 0);
      DyeLinked(Dye(cs, p, false, 0), rt, g, true, 0);
      hide AllHold, Distinct, Linked, Balanced, Edges, Rot;
      SetRed(node.parent, false, p, 0);
      SetRed(node.parent.parent, true, g, 0);
      RotateLeft(node.parent.parent, g);
    }

    /** Whether the loop goes on: node is not the root and has a red parent. */
    ghost predicate Climbs(node: Node, e: int)
      requires Rep() && In(cs, e)
      reads this, sentinel, ns, node
    {
      && node == ns[e] && (node == root <==> e == rt)
      && (e != rt ==>
          In(cs, cs[e].parent) && node.parent == ns[cs[e].parent] && node.parent.red == cs[cs[e].parent].red)
    }

    lemma Climb(e: int)
      requires Shape() && Fix(cs, rt, e)
      ensures Climbs(ns[e], e)
    {
      assert Holds(ns, sentinel, cs, loose, e);
      if e != rt {
        Hangs(cs, rt, e);
        Hue(cs[e].parent);
      }
    }

    /** The climb after an insertion: violations move up until none is left. */
    method Repair(leaf: Node, ghost at: int)
      requires Shape() && Fix(cs, rt, at) && leaf == ns[at]
      modifies this`cs, this`rt, this`root, this`loose, ns`left, ns`right, ns`parent, ns`red
      ensures Shape() && Good(cs, rt)
    {
      hide AllHold, Distinct, Linked, Balanced, Edges, Holds;
      var node := leaf;
      ghost var e := at;
      Climb(e);
      while node != root && node.parent.red
        invariant Shape() && Fix(cs, rt, e) && Climbs(node, e)
        decreases FixRank(cs, rt, e)
      {
        FixRankNat(cs, rt, e);
        FixScene(e);
        ghost var p := cs[e].parent;
        ghost var g := cs[p].parent;
        if node.parent == node.parent.parent.left {
          var temp := node.parent.parent.right;
          if temp.red {
            node := Flip(node, temp, e, p, g, true);
            e := g;
          } else {
            if node == node.parent.right {
              node := TwistLeft(node, e, p, g);
              p, e := e, p;
            }
            LiftRight(node, e, p, g);
          }
        } else {
          var temp := node.parent.parent.left;
          if temp.red {
            node := Flip(node, temp, e, p, g, false);
            e := g;
          } else {
            if node == node.parent.left {
              node := TwistRight(node, e, p, g);
              p, e := e, p;
            }
            LiftLeft(node, e, p, g);
          }
        }
        Climb(e);
      }
      FixDone(cs, rt, e);
      SetRed(root, false, rt, if cs[rt].red then 1 else 0);
    }

    // ---------- the leaf

    lemma AtUp(l: seq<Node>, node: Node, d: int, k: int)
      requires 0 <= d <= |l| && (k == NIL || 0 <= k < |l|)
      ensures At(Added(l, d, node), sentinel, Up(k, d)) == At(l, sentinel, k)
    {
    }

    /** Making room for node at index d moves no pointer; the link that will lead to it is still empty. */
    lemma SpliceHolds(node: Node, q: int, s: bool, d: int, r: seq<Cell>, i: int)
      requires Shape() && Free(cs, q, s, d) && Inserted(cs, r, q, s, d) && In(cs, i)
      ensures var l := Added(ns, d, node);
              Holds(l, sentinel, r[Up(q, d) := Put(r[Up(q, d)], s, NIL)], {Up(rt, d)}, Up(i, d))
    {
      assert Holds(ns, sentinel, cs, loose, i);
      var c := cs[i];
      KidIn(cs, rt, i, true);
      KidIn(cs, rt, i, false);
      AtUp(ns, node, d, c.left);
      AtUp(ns, node, d, c.right);
      AtUp(ns, node, d, i);
      if i != rt { Hangs(cs, rt, i); AtUp(ns, node, d, c.parent); }
      assert r[Up(i, d)] == Moved(c, i, q, s, d);
      hide Linked, AllHold, Distinct, Inserted;
    }

    lemma SpliceAll(node: Node, q: int, s: bool, d: int)
      requires Shape() && Free(cs, q, s, d) && node !in ns && node != sentinel
      requires node.left == sentinel && node.right == sentinel && node.red && node.parent == ns[q]
      ensures var r, l := RbCells.Insert(cs, q, s, d), Added(ns, d, node);
              AllHold(l, sentinel, r[Up(q, d) := Put(r[Up(q, d)], s, NIL)], {Up(rt, d)})
    {
      InsertCells(cs, q, s, d);
      var r, l := RbCells.Insert(cs, q, s, d), Added(ns, d, node);
      var cs' := r[Up(q, d) := Put(r[Up(q, d)], s, NIL)];
      hide Linked, RbCells.Insert, Inserted, Distinct, Holds, Put, Free, Up;
      forall j | 0 <= j < |l|
        ensures Holds(l, sentinel, cs', {Up(rt, d)}, j)
      {
        SpliceIndex(node, q, s, d, r, j);
      }
    }

    lemma SpliceIndex(node: Node, q: int, s: bool, d: int, r: seq<Cell>, j: int)
      requires Shape() && Free(cs, q, s, d) && Inserted(cs, r, q, s, d) && node != sentinel
      requires node.left == sentinel && node.right == sentinel && node.red && node.parent == ns[q]
      requires 0 <= j <= |ns|
      ensures var l := Added(ns, d, node);
              Holds(l, sentinel, r[Up(q, d) := Put(r[Up(q, d)], s, NIL)], {Up(rt, d)}, j)
    {
      hide Linked, Distinct, Holds, AllHold, Put, Moved;
      if j == d { SpliceLeaf(node, q, s, d, r); } else { SpliceHolds(node, q, s, d, r, if j > d then j - 1 else j); }
    }

    lemma SpliceLeaf(node: Node, q: int, s: bool, d: int, r: seq<Cell>)
      requires Shape() && Free(cs, q, s, d) && Inserted(cs, r, q, s, d) && node != sentinel
      requires node.left == sentinel && node.right == sentinel && node.red && node.parent == ns[q]
      ensures var l := Added(ns, d, node);
              Holds(l, sentinel, r[Up(q, d) := Put(r[Up(q, d)], s, NIL)], {Up(rt, d)}, d)
    {
      AtUp(ns, node, d, q);
      hide Linked, AllHold, Distinct, Put;
    }

    static lemma DistinctUp(l: seq<Node>, sentinel: Node, node: Node, d: int)
      requires Distinct(l, sentinel) && node !in l && node != sentinel && 0 <= d <= |l|
      ensures Distinct(Added(l, d, node), sentinel)
    {
    }

    ghost method Splice(node: Node, q: int, s: bool, d: int)
      requires Shape() && Free(cs, q, s, d) && node !in ns && node != sentinel
      requires node.left == sentinel && node.right == sentinel && node.red && node.parent == ns[q]
      modifies this`cs, this`ns, this`rt, this`loose
      ensures ns == Added(old(ns), d, node) && rt == Up(old(rt), d) && loose == {rt}
      ensures var r := RbCells.Insert(old(cs), q, s, d); cs == r[Up(q, d) := Put(r[Up(q, d)], s, NIL)]
      ensures Rep()
    {
      assert In(cs, rt);
      hide Linked, RbCells.Insert, AllHold, Holds, Distinct;
      AtUp(ns, node, d, rt);
      DistinctUp(ns, sentinel, node, d);
      SpliceAll(node, q, s, d);
      var r, l := RbCells.Insert(cs, q, s, d), Added(ns, d, node);
      ns, cs, rt, loose := l, r[Up(q, d) := Put(r[Up(q, d)], s, NIL)], Up(rt, d), {Up(rt, d)};
    }

    /** *p = node, where p is the left or the right field of temp. */
    method Attach(temp: Node, node: Node, left: bool, ghost q: int, ghost d: int)
      requires Shape() && Free(cs, q, left, d) && temp == ns[q] && node !in ns && node != sentinel
      modifies this`cs, this`ns, this`rt, this`loose, temp`left, temp`right, node`left, node`right, node`parent,
          node`red
      ensures Rep() && ns == Added(old(ns), d, node) && cs == RbCells.Insert(old(cs), q, left, d)
      ensures rt == Up(old(rt), d) && loose <= {rt}
    {
      InsertCells(cs, q, left, d);
      node.parent := temp;
      node.left, node.right := sentinel, sentinel;
      node.red := true;
      Splice(node, q, left, d);
      if left { SetLeft(temp, node, Up(q, d), d); } else { SetRight(temp, node, Up(q, d), d); }
    }

    /** Where the search for node's place stands: at the node k, with every key outside k's stretch passed. */
    ghost predicate Searching(temp: Node, key: nat, k: int)
      reads this, sentinel, ns
    {
      Valid() && In(cs, k) && temp == ns[k] && 0 <= cs[k].lo <= k < cs[k].hi <= |keys|
      && Placed(timer, half, keys, key, cs[k].lo, cs[k].hi)
    }

    lemma SearchStart(key: nat)
      requires Valid() && root != sentinel
      ensures In(cs, rt) && Searching(root, key, rt)
    {
      assert In(cs, rt);
      assert LinkedAt(cs, rt, rt);
    }

    /** One step down, to the side the comparison names. */
    lemma SearchStep(temp: Node, key: nat, k: int, left: bool, base: nat)
      requires Searching(temp, key, k) && AllFit(timer, half, base, keys) && Fits(timer, half, base, key)
      requires left == Less(timer, half, key, temp.key)
      ensures (if left then temp.left else temp.right) == At(ns, sentinel, Kd(cs[k], left))
      ensures Kd(cs[k], left) == NIL <==> At(ns, sentinel, Kd(cs[k], left)) == sentinel
      ensures Kd(cs[k], left) != NIL ==> Searching(At(ns, sentinel, Kd(cs[k], left)), key, Kd(cs[k], left))
      ensures Kd(cs[k], left) != NIL ==> var c := cs[Kd(cs[k], left)]; c.hi - c.lo < cs[k].hi - cs[k].lo
      ensures Kd(cs[k], left) == NIL ==> var d := if left then k else k + 1;
                                         Free(cs, k, left, d) && Placed(timer, half, keys, key, d, d)
    {
      assert LinkedAt(cs, rt, k) && Holds(ns, sentinel, cs, loose, k);
      Narrow(timer, half, base, keys, key, cs[k].lo, cs[k].hi, k);
      KidIn(cs, rt, k, left);
      if Kd(cs[k], left) != NIL { assert LinkedAt(cs, rt, Kd(cs[k], left)); }
      hide Sorted, Placed, AllFit, Less, AllHold, Linked, Good;
    }

    method InsertValue(top: Node, node: Node, ghost base: nat) returns (ghost q: int, ghost s: bool, ghost d: int)
      requires Valid() && !timer && top == root != sentinel && node !in ns && node != sentinel
      requires AllFit(timer, half, base, keys) && Fits(timer, half, base, node.key)
      modifies this`cs, this`ns, this`rt, this`loose, ns`left, ns`right, node`left, node`right, node`parent, node`red
      ensures Free(old(cs), q, s, d) && cs == RbCells.Insert(old(cs), q, s, d)
      ensures 0 <= d <= |keys| && |keys| == |old(ns)|
      ensures Rep() && ns == Added(old(ns), d, node) && rt == Up(old(rt), d) && loose <= {rt}
      ensures Placed(timer, half, keys, node.key, d, d)
    {
      hide Placed, AllFit, Fits, Good, Linked, Sorted, AllHold, Distinct;
      var temp: Node := top;
      var left := false;
      SearchStart(node.key);
      q := rt;
      while true
        invariant Valid() && In(cs, q) && temp == ns[q] && Searching(temp, node.key, q)
        modifies {}
        decreases cs[q].hi - cs[q].lo
      {
        left := node.key < temp.key;
        SearchStep(temp, node.key, q, left, base);
        var next := if left then temp.left else temp.right;
        if next == sentinel {
          d := if left then q else q + 1;
          break;
        }
        temp := next;
        q := Kd(cs[q], left);
      }
      s := left;
      Attach(temp, node, left, q, d);
    }

    method InsertTimerValue(top: Node, node: Node, ghost base: nat) returns (ghost q: int, ghost s: bool, ghost d: int)
      requires Valid() && timer && top == root != sentinel && node !in ns && node != sentinel
      requires AllFit(timer, half, base, keys) && Fits(timer, half, base, node.key)
      modifies this`cs, this`ns, this`rt, this`loose, ns`left, ns`right, node`left, node`right, node`parent, node`red
      ensures Free(old(cs), q, s, d) && cs == RbCells.Insert(old(cs), q, s, d)
      ensures 0 <= d <= |keys| && |keys| == |old(ns)|
      ensures Rep() && ns == Added(old(ns), d, node) && rt == Up(old(rt), d) && loose <= {rt}
      ensures Placed(timer, half, keys, node.key, d, d)
    {
      hide Placed, AllFit, Fits, Good, Linked, Sorted, AllHold, Distinct;
      var temp: Node := top;
      var left := false;
      SearchStart(node.key);
      q := rt;
      while true
        invariant Valid() && In(cs, q) && temp == ns[q] && Searching(temp, node.key, q)
        modifies {}
        decreases cs[q].hi - cs[q].lo
      {
        // ngx_rbtree_key_int_t is signed and as wide as the key.
        var difference := (node.key - temp.key) % (2 * half);
        left := (if difference >= half then difference - 2 * half else difference) < 0;
        SearchStep(temp, node.key, q, left, base);
        var next := if left then temp.left else temp.right;
        if next == sentinel {
          d := if left then q else q + 1;
          break;
        }
        temp := next;
        q := Kd(cs[q], left);
      }
      s := left;
      Attach(temp, node, left, q, d);
    }

    /** The first node becomes a black root. */
    method InsertFirst(node: Node)
      requires Valid() && root == sentinel && node != sentinel && node.key < 2 * half
      modifies this`cs, this`rt, this`root, this`loose, this`ns, this`keys
      modifies node`left, node`right, node`parent, node`red
      ensures Valid() && old(ns) == [] && old(keys) == [] && ns == [node] && keys == [node.key]
    {
      assert |ns| > 0 ==> In(cs, rt);
      node.parent := null;
      node.left, node.right := sentinel, sentinel;
      node.red := false;
      root := node;
      ns, cs, rt, loose := [node], [Cell(NIL, NIL, NIL, false, 0, 1, 1)], 0, {0};
      keys := [node.key];
    }

    /** tree->insert(*root, node, sentinel) */
    method CallInsert(node: Node, ghost base: nat) returns (ghost d: int)
      requires Valid() && root != sentinel && node !in ns && node != sentinel
      requires AllFit(timer, half, base, keys) && Fits(timer, half, base, node.key)
      modifies this`cs, this`ns, this`rt, this`loose, ns`left, ns`right, node`left, node`right, node`parent, node`red
      ensures Shape() && Fix(cs, rt, d) && 0 <= d < |ns| && node == ns[d] && |keys| == |old(ns)| && d <= |keys|
      ensures ns == Added(old(ns), d, node) && Placed(timer, half, keys, node.key, d, d)
    {
      hide Good, Linked, AllHold, Distinct, Placed, Sorted, AllFit, RbCells.Insert, Keyed;
      ghost var q: int, s: bool;
      if timer { q, s, d := InsertTimerValue(root, node, base); } else { q, s, d := InsertValue(root, node, base); }
      InsertFix(old(cs), old(rt), q, s, d);
    }

    static lemma Joined(l: seq<Node>, node: Node, d: int)
      requires 0 <= d <= |l|
      ensures forall i :: 0 <= i <= |l| ==> Added(l, d, node)[i] in l || Added(l, d, node)[i] == node
    {
    }

    /** The leaf and the climb, in a tree that is not empty. */
    method InsertBelow(node: Node, ghost base: nat) returns (ghost d: int)
      requires Valid() && root != sentinel && node !in ns && node != sentinel
      requires AllFit(timer, half, base, keys) && Fits(timer, half, base, node.key)
      modifies this`cs, this`rt, this`root, this`loose, this`ns
      modifies ns`left, ns`right, ns`parent, ns`red, node`left, node`right, node`parent, node`red
      ensures Shape() && Good(cs, rt) && |keys| == |old(ns)| && 0 <= d <= |keys| && ns == Added(old(ns), d, node)
      ensures Placed(timer, half, keys, node.key, d, d)
    {
      hide Good, Linked, AllHold, Distinct, Placed, Sorted, AllFit, Fits, Fix, Keyed, Added;
      d := CallInsert(node, base);
      Joined(old(ns), node, d);
      Repair(node, d);
    }

    /** Inserting node into a sorted red-black tree: it comes after every node not above it and before the rest. */
    method Insert(node: Node, ghost base: nat) returns (ghost d: int)
      requires Valid() && node !in ns && node != sentinel
      requires AllFit(timer, half, base, keys) && Fits(timer, half, base, node.key)
      modifies this`cs, this`rt, this`root, this`loose, this`ns, this`keys
      modifies ns`left, ns`right, ns`parent, ns`red, node`left, node`right, node`parent, node`red
      ensures Valid() && 0 <= d <= |old(ns)| && ns == Added(old(ns), d, node)
      ensures |old(keys)| == |old(ns)| && keys == Added(old(keys), d, node.key)
      ensures Placed(timer, half, old(keys), node.key, d, d)
    {
      if root == sentinel {
        InsertFirst(node);
        d := 0;
      } else {
        hide Good, Linked, AllHold, Distinct, Placed, Sorted, AllFit, Keyed, Added;
        d := InsertBelow(node, base);
        PlacedSorted(timer, half, base, keys, node.key, d);
        KeyedUp(old(ns), keys, half, node, d);
        keys := Added(keys, d, node.key);
      }
    }

    // ---------- deletion: the climb

    /** What the loop knows of temp, the sentinel's parent field included. */
    ghost predicate Falls(temp: Node, t: int, dp: int)
      requires Rep()
      reads this, sentinel, ns
    {
      && temp == At(ns, sentinel, t) && temp.red == Red(cs, t) && (temp == root <==> t == rt)
      && (t != rt ==> In(cs, dp) && temp.parent == ns[dp])
    }

    /** The relatives of a black temp. */
    lemma FallScene(t: int, p: int, s: bool)
      requires Shape() && Short(cs, rt, t, p, s) && t != rt
      ensures var w := Kd(cs[p], !s); In(cs, w) && w != rt && w != p && (if s then ns[p].right else ns[p].left) == ns[w]
      ensures ns[p].left == At(ns, sentinel, t) <==> s
      ensures var w := Kd(cs[p], !s);
              ns[w].left == At(ns, sentinel, cs[w].left) && ns[w].right == At(ns, sentinel, cs[w].right) &&
                  ns[w].red == cs[w].red
      ensures var w := Kd(cs[p], !s); ns[w].left.red == Red(cs, cs[w].left) && ns[w].right.red == Red(cs, cs[w].right)
      ensures ns[p].red == cs[p].red && (t != NIL ==> ns[t].parent == ns[p])
    {
      Sibling(cs, rt, t, p, s);
      var w := Kd(cs[p], !s);
      KidIn(cs, rt, p, true);
      KidIn(cs, rt, p, false);
      KidIn(cs, rt, w, true);
      KidIn(cs, rt, w, false);
      assert Holds(ns, sentinel, cs, loose, p) && Holds(ns, sentinel, cs, loose, w);
      if t != NIL { assert Holds(ns, sentinel, cs, loose, t); }
      Hue(cs[w].left);
      Hue(cs[w].right);
    }

    /** temp is a left child and its sibling red. */
    method SiblingUpLeft(temp: Node, w: Node, ghost t: int, ghost p: int) returns (w': Node)
      requires Shape() && Short(cs, rt, t, p, true) && t != rt && !Red(cs, t) && Falls(temp, t, p)
      requires In(cs, cs[p].right) && w == ns[cs[p].right] && cs[cs[p].right].red
      modifies this`cs, this`rt, this`root, this`loose, ns`left, ns`right, ns`parent, ns`red
      ensures Shape() && Short(cs, rt, t, p, true) && t != rt && !Red(cs, t) && Falls(temp, t, p)
      ensures In(cs, cs[p].right) && w' == ns[cs[p].right] && !cs[cs[p].right].red && cs[p].red
    {
      FallScene(t, p, true);
      ghost var c0, y := cs, cs[p].right;
      RedSibling(cs, rt, t, p, true);
      DyeLinked(cs, rt, y, false, 0);
      DyeLinked(Dye(cs, y, false, 0), rt, p, true, 0);
      hide AllHold, Distinct, Linked, Balanced, Edges, Rot;
      SetRed(w, false, y, 0);
      SetRed(temp.parent, true, p, 0);
      RotateLeft(temp.parent, p);
      FallScene(t, p, true);
      Hue(t);
      Is(t, rt);
      w' := temp.parent.right;
    }

    /** Both children of the black sibling are black. */
    method PassOn(temp: Node, w: Node, ghost t: int, ghost p: int, ghost s: bool)
      returns (up: Node, ghost dp: int, ghost ds: bool)
      requires Shape() && Short(cs, rt, t, p, s) && t != rt && !Red(cs, t) && Falls(temp, t, p)
      requires In(cs, Kd(cs[p], !s)) && w == ns[Kd(cs[p], !s)] && !w.red
      requires !Red(cs, cs[Kd(cs[p], !s)].left) && !Red(cs, cs[Kd(cs[p], !s)].right)
      modifies this`cs, ns`red
      ensures Shape() && Short(cs, rt, p, dp, ds) && Falls(up, p, dp) && In(cs, p) && cs[p].red == old(cs)[p].red
      ensures ShortRank(cs, rt, p) < ShortRank(old(cs), rt, t) && (cs[p].red ==> ShortRank(cs, rt, p) == 0)
    {
      FallScene(t, p, s);
      ghost var c0, y := cs, Kd(cs[p], !s);
      PassUpShort(cs, rt, t, p, s, y);
      dp, ds := UpperParent(cs, rt, p), UpperSide(cs, rt, p);
      FallsUp(p);
      hide AllHold, Distinct, Linked, Balanced, Edges;
      SetRed(w, true, y, -1);
      up := temp.parent;
      ghost var red := cs[p].red;
      Recount(Dye(cs, p, red, -1));
      Hue(p);
    }

    lemma FallsUp(p: int)
      requires Shape() && In(cs, p)
      ensures (ns[p] == root <==> p == rt) && (p != rt ==> In(cs, cs[p].parent) && ns[p].parent == ns[cs[p].parent])
    {
      assert Holds(ns, sentinel, cs, loose, p);
      if p != rt { Hangs(cs, rt, p); }
    }

    /** temp is a left child; its black sibling's left child is red and the right one black. */
    method SiblingTurnLeft(temp: Node, w: Node, ghost t: int, ghost p: int) returns (w': Node)
      requires Shape() && Short(cs, rt, t, p, true) && t != rt && !Red(cs, t) && Falls(temp, t, p)
      requires In(cs, cs[p].right) && w == ns[cs[p].right] && !w.red
      requires Red(cs, cs[cs[p].right].left) && !Red(cs, cs[cs[p].right].right)
      modifies this`cs, this`rt, this`root, this`loose, ns`left, ns`right, ns`parent, ns`red
      ensures Shape() && Short(cs, rt, t, p, true) && t != rt && !Red(cs, t) && Falls(temp, t, p)
      ensures In(cs, cs[p].right) && w' == ns[cs[p].right] && !w'.red && Red(cs, cs[cs[p].right].right)
    {
      FallScene(t, p, true);
      ghost var c0, y := cs, cs[p].right;
      ghost var n := cs[y].left;
      NearRed(cs, rt, t, p, true, y);
      DyeLinked(cs, rt, n, false, 0);
      DyeLinked(Dye(cs, n, false, 0), rt, y, true, 0);
      hide AllHold, Distinct, Linked, Balanced, Edges, Rot;
      SetRed(w.left, false, n, 0);
      SetRed(w, true, y, 0);
      RotateRight(w, y);
      FallScene(t, p, true);
      Hue(t);
      Is(t, rt);
      w' := temp.parent.right;
    }

    /** temp is a left child; its black sibling's right child is red. */
    method SettleLeft(temp: Node, w: Node, ghost t: int, ghost p: int)
      requires Shape() && Short(cs, rt, t, p, true) && t != rt && !Red(cs, t) && Falls(temp, t, p)
      requires In(cs, cs[p].right) && w == ns[cs[p].right] && !w.red && Red(cs, cs[cs[p].right].right)
      modifies this`cs, this`rt, this`root, this`loose, ns`left, ns`right, ns`parent, ns`red
      ensures Shape() && Good(cs, rt)
    {
      FallScene(t, p, true);
      ghost var c0, y := cs, cs[p].right;
      ghost var c := cs[y].right;
      SettleChain(cs, rt, t, p, true, y, c);
      hide AllHold, Distinct, Linked, Balanced, Edges, Rot;
      SetRed(w, temp.parent.red, y, 0);
      SetRed(temp.parent, false, p, 0);
      SetRed(w.right, false, c, 1);
      RotateLeft(temp.parent, p);
    }

    /** temp is a right child and its sibling red. */
    method SiblingUpRight(temp: Node, w: Node, ghost t: int, ghost p: int) returns (w': Node)
      requires Shape() && Short(cs, rt, t, p, false) && t != rt && !Red(cs, t) && Falls(temp, t, p)
      requires In(cs, cs[p].left) && w == ns[cs[p].left] && cs[cs[p].left].red
      modifies this`cs, this`rt, this`root, this`loose, ns`right, ns`left, ns`parent, ns`red
      ensures Shape() && Short(cs, rt, t, p, false) && t != rt && !Red(cs, t) && Falls(temp, t, p)
      ensures In(cs, cs[p].left) && w' == ns[cs[p].left] && !cs[cs[p].left].red && cs[p].red
    {
      FallScene(t, p, false);
      ghost var c0, y := cs, cs[p].left;
      RedSibling(cs, rt, t, p, false);
      DyeLinked(cs, rt, y, false, 0);
      DyeLinked(Dye(cs, y, false, 0), rt, p, true, 0);
      hide AllHold, Distinct, Linked, Balanced, Edges, Rot;
      SetRed(w, false, y, 0);
      SetRed(temp.parent, true, p, 0);
      RotateRight(temp.parent, p);
      FallScene(t, p, false);
      Hue(t);
      Is(t, rt);
      w' := temp.parent.left;
    }

    /** temp is a right child; its black sibling's right child is red and the left one black. */
    method SiblingTurnRight(temp: Node, w: Node, ghost t: int, ghost p: int) returns (w': Node)
      requires Shape() && Short(cs, rt, t, p, false) && t != rt && !Red(cs, t) && Falls(temp, t, p)
      requires In(cs, cs[p].left) && w == ns[cs[p].left] && !w.red
      requires Red(cs, cs[cs[p].left].right) && !Red(cs, cs[cs[p].left].left)
      modifies this`cs, this`rt, this`root, this`loose, ns`right, ns`left, ns`parent, ns`red
      ensures Shape() && Short(cs, rt, t, p, false) && t != rt && !Red(cs, t) && Falls(temp, t, p)
      ensures In(cs, cs[p].left) && w' == ns[cs[p].left] && !w'.red && Red(cs, cs[cs[p].left].left)
    {
      FallScene(t, p, false);
      ghost var c0, y := cs, cs[p].left;
      ghost var n := cs[y].right;
      NearRed(cs, rt, t, p, false, y);
      DyeLinked(cs, rt, n, false, 0);
      DyeLinked(Dye(cs, n, false, 0), rt, y, true, 0);
      hide AllHold, Distinct, Linked, Balanced, Edges, Rot;
      SetRed(w.right, false, n, 0);
      SetRed(w, true, y, 0);
      RotateLeft(w, y);
      FallScene(t, p, false);
      Hue(t);
      Is(t, rt);
      w' := temp.parent.left;
    }

    /** temp is a right child; its black sibling's left child is red. */
    method SettleRight(temp: Node, w: Node, ghost t: int, ghost p: int)
      requires Shape() && Short(cs, rt, t, p, false) && t != rt && !Red(cs, t) && Falls(temp, t, p)
      requires In(cs, cs[p].left) && w == ns[cs[p].left] && !w.red && Red(cs, cs[cs[p].left].left)
      modifies this`cs, this`rt, this`root, this`loose, ns`right, ns`left, ns`parent, ns`red
      ensures Shape() && Good(cs, rt)
    {
      FallScene(t, p, false);
      ghost var c0, y := cs, cs[p].left;
      ghost var c := cs[y].left;
      SettleChain(cs, rt, t, p, false, y, c);
      hide AllHold, Distinct, Linked, Balanced, Edges, Rot;
      SetRed(w, temp.parent.red, y, 0);
      SetRed(temp.parent, false, p, 0);
      SetRed(w.left, false, c, 1);
      RotateRight(temp.parent, p);
    }

    lemma Falling(temp: Node, t: int, dp: int, ds: bool)
      requires Shape() && Short(cs, rt, t, dp, ds) && temp == At(ns, sentinel, t) && (t != rt ==> temp.parent == ns[dp])
      ensures Falls(temp, t, dp)
    {
      Hue(t);
      Is(t, rt);
    }

    /** One turn of the loop for a left child. */
    method RefillLeft(temp: Node, ghost t: int, ghost p: int)
      returns (next: Node, ghost t': int, ghost dp: int, ghost ds: bool)
      requires Shape() && Short(cs, rt, t, p, true) && t != rt && !Red(cs, t) && Falls(temp, t, p)
      modifies this`cs, this`rt, this`root, this`loose, ns`left, ns`right, ns`parent, ns`red
      ensures Shape() && Short(cs, rt, t', dp, ds) && Falls(next, t', dp)
      ensures ShortRank(cs, rt, t') < ShortRank(old(cs), old(rt), t)
    {
      hide AllHold, Distinct, Linked, Balanced, Edges, Holds;
      ShortRankNat(cs, rt, t);
      FallScene(t, p, true);
      var w := temp.parent.right;
      if w.red {
        w := SiblingUpLeft(temp, w, t, p);
        FallScene(t, p, true);
      }
      if !w.left.red && !w.right.red {
        t' := p;
        next, dp, ds := PassOn(temp, w, t, p, true);
      } else {
        if !w.right.red {
          w := SiblingTurnLeft(temp, w, t, p);
        }
        SettleLeft(temp, w, t, p);
        GoodShort(cs, rt);
        next, t', dp, ds := root, rt, NIL, true;
        Falling(root, rt, NIL, true);
      }
    }

    /** One turn of the loop for a right child. */
    method RefillRight(temp: Node, ghost t: int, ghost p: int)
      returns (next: Node, ghost t': int, ghost dp: int, ghost ds: bool)
      requires Shape() && Short(cs, rt, t, p, false) && t != rt && !Red(cs, t) && Falls(temp, t, p)
      modifies this`cs, this`rt, this`root, this`loose, ns`right, ns`left, ns`parent, ns`red
      ensures Shape() && Short(cs, rt, t', dp, ds) && Falls(next, t', dp)
      ensures ShortRank(cs, rt, t') < ShortRank(old(cs), old(rt), t)
    {
      hide AllHold, Distinct, Linked, Balanced, Edges, Holds;
      ShortRankNat(cs, rt, t);
      FallScene(t, p, false);
      var w := temp.parent.left;
      if w.red {
        w := SiblingUpRight(temp, w, t, p);
        FallScene(t, p, false);
      }
      if !w.left.red && !w.right.red {
        t' := p;
        next, dp, ds := PassOn(temp, w, t, p, false);
      } else {
        if !w.left.red {
          w := SiblingTurnRight(temp, w, t, p);
        }
        SettleRight(temp, w, t, p);
        GoodShort(cs, rt);
        next, t', dp, ds := root, rt, NIL, true;
        Falling(root, rt, NIL, true);
      }
    }

    /** The climb after a deletion: the shortage moves up until it can be made good. */
    method Refill(heir: Node, ghost at: int, ghost dp0: int, ghost ds0: bool)
      requires Shape() && Short(cs, rt, at, dp0, ds0) && Falls(heir, at, dp0)
      modifies this`cs, this`rt, this`root, this`loose, ns`left, ns`right, ns`parent, ns`red, sentinel`red
      ensures Shape() && Good(cs, rt)
    {
      hide AllHold, Distinct, Linked, Balanced, Edges, Holds;
      var temp := heir;
      ghost var t, dp, ds := at, dp0, ds0;
      while temp != root && !temp.red
        invariant Shape() && Short(cs, rt, t, dp, ds) && Falls(temp, t, dp)
        decreases ShortRank(cs, rt, t)
      {
        FallScene(t, dp, ds);
        ShortRankNat(cs, rt, t);
        if temp == temp.parent.left {
          temp, t, dp, ds := RefillLeft(temp, t, dp);
        } else {
          temp, t, dp, ds := RefillRight(temp, t, dp);
        }
      }
      ShortDone(cs, rt, t, dp, ds);
      Blacken(temp, t);
    }

    /** ngx_rbt_black(temp), where temp may be the sentinel. */
    method Blacken(temp: Node, ghost t: int)
      requires Shape() && temp == At(ns, sentinel, t) && (t == NIL || In(cs, t)) && temp.red == Red(cs, t)
      modifies this`cs, temp`red
      ensures Rep() && cs == Repay(old(cs), t)
    {
      if temp == sentinel {
        temp.red := false;
        Is(t, NIL);
      } else {
        SetRed(temp, false, t, if Red(cs, t) then 1 else 0);
      }
    }

    // ---------- deletion: taking the node out

    static lemma AtDown(l: seq<Node>, sentinel: Node, d: int, k: int)
      requires 0 <= d < |l| && k != d && (k == NIL || 0 <= k < |l|)
      ensures At(Without(l, d), sentinel, Down(k, d)) == At(l, sentinel, k)
    {
    }

    static lemma DistinctDown(l: seq<Node>, sentinel: Node, d: int)
      requires Distinct(l, sentinel) && 0 <= d < |l|
      ensures Distinct(Without(l, d), sentinel) && l[d] !in Without(l, d)
    {
    }

    /** The links of c0 once every link to d leads to its child t instead. */
    static ghost predicate Bypassed(c0: seq<Cell>, c1: seq<Cell>, d: int, t: int) {
      |c1| == |c0| && forall i {:trigger c1[i]} :: 0 <= i < |c0| && i != d ==>
        && c1[i].left == (if c0[i].left == d then t else c0[i].left)
        && c1[i].right == (if c0[i].right == d then t else c0[i].right)
        && c1[i].red == c0[i].red && (i != t ==> c1[i].parent == c0[i].parent)
    }

    lemma UnspliceKid(c0: seq<Cell>, r0: int, d: int, t: int, i: int, s: bool)
      requires Rep() && Linked(c0, r0) && Bypassed(c0, cs, d, t) && Thin(c0, d, t) && In(c0, i) && i != d
      ensures var k := Kd(c0[i], s); var v := if s then ns[i].left else ns[i].right;
              v == At(Without(ns, d), sentinel, Down(if k == d then t else k, d))
    {
      KidIn(c0, r0, i, s);
      KidIn(c0, r0, d, c0[d].left != NIL);
      var k := Kd(c0[i], s);
      AtDown(ns, sentinel, d, if k == d then t else k);
      hide Linked, AllHold, Distinct, Without, Down;
      Look(i);
    }

    lemma UnspliceParent(c0: seq<Cell>, r0: int, d: int, t: int, i: int)
      requires Rep() && Linked(c0, r0) && Bypassed(c0, cs, d, t) && Thin(c0, d, t) && In(c0, i) && i != d
      requires i == t ==> cs[t].parent == c0[d].parent
      requires i !in loose && i != r0 && (i != t || d != r0)
      ensures ns[i].parent == At(Without(ns, d), sentinel, Down(if i == t then c0[d].parent else c0[i].parent, d))
    {
      Hangs(c0, r0, i);
      if d != r0 { Hangs(c0, r0, d); }
      if c0[i].parent == d { Neighbours(c0, r0, d, true, i); }
      AtDown(ns, sentinel, d, if i == t then c0[d].parent else c0[i].parent);
      hide Linked, AllHold, Distinct, Without, Down;
      Look(i);
    }

    /** Nothing leads to d any more, so it can be struck from the sequence. */
    lemma UnspliceHolds(c0: seq<Cell>, r0: int, d: int, t: int, r: seq<Cell>, free: set<int>, i: int)
      requires Rep() && Linked(c0, r0) && Bypassed(c0, cs, d, t) && Removed(c0, r, d, t) && In(c0, i) && i != d
      requires i == t && t !in loose ==> cs[t].parent == c0[d].parent
      requires i in loose || i == r0 || (i == t && d == r0) ==> Down(i, d) in free
      ensures Holds(Without(ns, d), sentinel, r, free, Down(i, d))
    {
      UnspliceKid(c0, r0, d, t, i, true);
      UnspliceKid(c0, r0, d, t, i, false);
      AtDown(ns, sentinel, d, i);
      if Down(i, d) !in free { UnspliceParent(c0, r0, d, t, i); }
      assert r[Down(i, d)] == Lowered(c0[i], i, d, t, c0[d].parent);
      hide Linked, AllHold, Distinct, Removed, Without, Down, Thin;
      Look(i);
    }

    lemma UnspliceAll(c0: seq<Cell>, r0: int, d: int, t: int, free: set<int>)
      requires Rep() && Linked(c0, r0) && Bypassed(c0, cs, d, t) && Thin(c0, d, t)
      requires In(cs, t) && In(c0, d) && t !in loose ==> cs[t].parent == c0[d].parent
      requires loose <= {r0, t} && (r0 != d ==> Down(r0, d) in free)
      requires t != NIL && (t in loose || d == r0) ==> Down(t, d) in free
      ensures AllHold(Without(ns, d), sentinel, Remove(c0, d, t), free)
    {
      var l, r := Without(ns, d), Remove(c0, d, t);
      RemoveCells(c0, d, t);
      hide Linked, AllHold, Distinct, Removed, Remove, Without, Thin, Bypassed, Holds;
      forall j | 0 <= j < |l|
        ensures Holds(l, sentinel, r, free, j)
      {
        var i := if j >= d then j + 1 else j;
        assert Down(i, d) == j && In(c0, i) && i != d;
        UnspliceHolds(c0, r0, d, t, r, free, i);
      }
      AllHoldIs(l, r, free);
    }

    lemma AllHoldIs(l: seq<Node>, r: seq<Cell>, free: set<int>)
      requires |l| == |r| && forall j :: 0 <= j < |l| ==> Holds(l, sentinel, r, free, j)
      ensures AllHold(l, sentinel, r, free)
    {
      hide Holds;
    }

    /** Strike d, to which no link leads, from the sequence. */
    ghost method Unsplice(c0: seq<Cell>, r0: int, d: int, t: int)
      requires Rep() && Linked(c0, r0) && Bypassed(c0, cs, d, t) && Thin(c0, d, t)
      requires In(cs, t) && In(c0, d) && t !in loose ==> cs[t].parent == c0[d].parent
      requires rt == (if d == r0 then t else r0) && loose <= {r0, t}
      modifies this`cs, this`ns, this`rt, this`loose
      ensures Rep() && ns == Without(old(ns), d) && cs == Remove(c0, d, t) && rt == Down(old(rt), d)
      ensures loose == (if d != r0 && t !in old(loose) then {rt} else {rt, Down(t, d)}) - {NIL}
    {
      var free := (if d != r0 && t !in loose then {Down(rt, d)} else {Down(rt, d), Down(t, d)}) - {NIL};
      UnspliceAll(c0, r0, d, t, free);
      KidIn(c0, r0, d, c0[d].left != NIL);
      if d != r0 { assert In(c0, r0); }
      AtDown(ns, sentinel, d, rt);
      DistinctDown(ns, sentinel, d);
      ns, cs, rt, loose := Without(ns, d), Remove(c0, d, t), Down(rt, d), free;
    }

    /** After its parent's link leads to t and t's parent field is written, nothing leads to d. */
    static lemma Bypass(c0: seq<Cell>, r0: int, d: int, t: int, p: int, c1: seq<Cell>)
      requires Linked(c0, r0) && Thin(c0, d, t) && d != r0 && p == c0[d].parent && In(c0, p)
      requires t == NIL || In(c0, t)
      requires c1 == if t == NIL then Hang(c0, r0, d, p, t)
        else var h := Hang(c0, r0, d, p, t); h[t := h[t].(parent := p)]
      ensures Bypassed(c0, c1, d, t)
    {
      Hangs(c0, r0, d);
      forall i | 0 <= i < |c0| && i != d
        ensures p != i ==> c0[i].left != d && c0[i].right != d
      {
        KidIn(c0, r0, i, true);
        KidIn(c0, r0, i, false);
      }
      hide Linked, Thin;
    }

    // ---------- deletion: the successor in the node's place

    static lemma AtMore(l: seq<Node>, sentinel: Node, x: Node, k: int)
      requires k == NIL || 0 <= k < |l|
      ensures At(l + [x], sentinel, k) == At(l, sentinel, k)
    {
    }

    lemma AppendHolds(x: Node, z: int, i: int)
      requires Rep() && Linked(cs, rt) && In(cs, z) && In(cs, i)
      ensures Holds(ns + [x], sentinel, cs + [cs[z]], if z == rt then loose + {rt, |ns|} else loose + {rt}, i)
    {
      Look(i);
      KidIn(cs, rt, i, true);
      KidIn(cs, rt, i, false);
      if i != rt { Hangs(cs, rt, i); AtMore(ns, sentinel, x, cs[i].parent); }
      AtMore(ns, sentinel, x, cs[i].left);
      AtMore(ns, sentinel, x, cs[i].right);
      hide Linked, AllHold, Distinct;
    }

    lemma AppendLast(x: Node, z: int)
      requires Rep() && Linked(cs, rt) && In(cs, z)
      requires x.left == ns[z].left && x.right == ns[z].right && x.red == ns[z].red
      requires x.parent == ns[z].parent && (z in loose ==> z == rt)
      ensures Holds(ns + [x], sentinel, cs + [cs[z]], if z == rt then loose + {rt, |ns|} else loose + {rt}, |ns|)
    {
      Look(z);
      KidIn(cs, rt, z, true);
      KidIn(cs, rt, z, false);
      if z != rt { Hangs(cs, rt, z); AtMore(ns, sentinel, x, cs[z].parent); }
      AtMore(ns, sentinel, x, cs[z].left);
      AtMore(ns, sentinel, x, cs[z].right);
      hide Linked, AllHold, Distinct;
    }

    /** x, a copy of the node at z, joins the sequence without being linked to. */
    ghost method Append(x: Node, z: int)
      requires Rep() && Linked(cs, rt) && In(cs, z)
      requires x.left == ns[z].left && x.right == ns[z].right && x.red == ns[z].red
      requires x.parent == ns[z].parent && (z in loose ==> z == rt) && x !in ns && x != sentinel
      modifies this`ns, this`cs, this`loose
      ensures Rep() && ns == old(ns) + [x] && cs == old(cs) + [old(cs)[z]]
      ensures loose == old(loose) + {rt} + if z == rt then {|old(ns)|} else {}
    {
      var l, c, free := ns + [x], cs + [cs[z]], if z == rt then loose + {rt, |ns|} else loose + {rt};
      assert In(cs, rt);
      AtMore(ns, sentinel, x, rt);
      assert Distinct(l, sentinel);
      hide Linked, AllHold, Distinct, Holds;
      forall j | 0 <= j < |l|
        ensures Holds(l, sentinel, c, free, j)
      {
        if j == |ns| { AppendLast(x, z); } else { AppendHolds(x, z, j); }
      }
      AllHoldIs(l, c, free);
      ns, cs, loose := l, c, free;
    }

    /** Every link to z leads to the copy at n instead. */
    static ghost predicate RedirectedAt(c0: seq<Cell>, r0: int, c2: seq<Cell>, z: int, n: int, i: int)
      requires n == |c0| && |c2| == n + 1 && 0 <= i < n
    {
      && c2[i].left == (if c0[i].left == z then n else c0[i].left)
      && c2[i].right == (if c0[i].right == z then n else c0[i].right)
      && c2[i].red == c0[i].red && (i != r0 ==> c2[i].parent == if c0[i].parent == z then n else c0[i].parent)
    }

    static ghost predicate Redirected(c0: seq<Cell>, r0: int, c2: seq<Cell>, z: int, n: int) {
      && n == |c0| && |c2| == n + 1 && In(c0, z) && c2[n] == c0[z]
      && forall i {:trigger RedirectedAt(c0, r0, c2, z, n, i)} :: 0 <= i < n && i != z ==>
          RedirectedAt(c0, r0, c2, z, n, i)
    }

    static ghost function Redirect(c0: seq<Cell>, r0: int, z: int): (r: seq<Cell>)
      requires In(c0, z) && (z != r0 ==> In(c0, c0[z].parent))
      requires (c0[z].left == NIL || In(c0, c0[z].left)) && (c0[z].right == NIL || In(c0, c0[z].right))
      ensures |r| == |c0| + 1
    {
      var n, l, r := |c0|, c0[z].left, c0[z].right;
      var h := Hang(c0 + [c0[z]], r0, z, c0[z].parent, n);
      KidsTo(h, l, r, n)
    }

    static ghost function KidsTo(cs: seq<Cell>, l: int, r: int, n: int): (c: seq<Cell>)
      requires (l == NIL || In(cs, l)) && (r == NIL || In(cs, r))
      ensures |c| == |cs|
    {
      var h1 := if l == NIL then cs else cs[l := cs[l].(parent := n)];
      if r == NIL then h1 else h1[r := h1[r].(parent := n)]
    }

    static lemma RedirectLinks(c0: seq<Cell>, r0: int, z: int, i: int)
      requires Linked(c0, r0) && In(c0, z) && In(c0, i) && i != z
      ensures if z != r0 && c0[z].parent == i then SideOf(c0, z, i, c0[i].left == z)
        else c0[i].left != z && c0[i].right != z
      ensures i != r0 ==> (c0[i].parent == z <==> i == c0[z].left || i == c0[z].right)
    {
      if z != r0 { Hangs(c0, r0, z); }
      KidIn(c0, r0, i, true);
      KidIn(c0, r0, i, false);
      KidIn(c0, r0, z, true);
      KidIn(c0, r0, z, false);
      if c0[i].parent == z && i != r0 { Neighbours(c0, r0, z, true, i); }
      hide Linked;
    }

    static lemma RedirectCells(c0: seq<Cell>, r0: int, z: int)
      requires Linked(c0, r0) && In(c0, z)
      ensures z != r0 ==> In(c0, c0[z].parent)
      ensures (c0[z].left == NIL || In(c0, c0[z].left)) && (c0[z].right == NIL || In(c0, c0[z].right))
      ensures Redirected(c0, r0, Redirect(c0, r0, z), z, |c0|)
    {
      if z != r0 { Hangs(c0, r0, z); }
      KidIn(c0, r0, z, true);
      KidIn(c0, r0, z, false);
      KidsDiffer(c0, r0, z);
      hide Linked;
      var r := Redirect(c0, r0, z);
      forall i | 0 <= i < |c0| && i != z
        ensures RedirectedAt(c0, r0, r, z, |c0|, i)
      {
        RedirectLinks(c0, r0, z, i);
        RedirectCell(c0, r0, z, i);
      }
    }

    static lemma RedirectCell(c0: seq<Cell>, r0: int, z: int, i: int)
      requires In(c0, z) && In(c0, i) && i != z && c0[z].left != z && c0[z].right != z
      requires (c0[z].left == NIL || In(c0, c0[z].left)) && (c0[z].right == NIL || In(c0, c0[z].right))
      requires z != r0 ==> In(c0, c0[z].parent) && c0[z].parent != z
      requires if z != r0 && c0[z].parent == i then SideOf(c0, z, i, c0[i].left == z)
        else c0[i].left != z && c0[i].right != z
      requires i != r0 ==> (c0[i].parent == z <==> i == c0[z].left || i == c0[z].right)
      ensures RedirectedAt(c0, r0, Redirect(c0, r0, z), z, |c0|, i)
    {
    }

    static lemma AtSwap(l: seq<Node>, sentinel: Node, x: Node, z: int, k: int)
      requires 0 <= z < |l| && (k == NIL || 0 <= k < |l|)
      ensures At(l + [x], sentinel, if k == z then |l| else k) == At(l[z := x], sentinel, k)
    {
    }

    lemma CollapseHolds(l: seq<Node>, x: Node, c0: seq<Cell>, r0: int, z: int, i: int)
      requires Rep() && ns == l + [x] && Redirected(c0, r0, cs, z, |c0|) && Linked(c0, r0) && In(c0, i)
      requires loose <= {r0, |c0|} && (z != r0 ==> |c0| !in loose)
      ensures Holds(l[z := x], sentinel, c0, {r0}, i)
    {
      var j := if i == z then |c0| else i;
      if i != z { assert RedirectedAt(c0, r0, cs, z, |c0|, i); }
      Look(j);
      KidIn(c0, r0, i, true);
      KidIn(c0, r0, i, false);
      AtSwap(l, sentinel, x, z, c0[i].left);
      AtSwap(l, sentinel, x, z, c0[i].right);
      if i != r0 { Hangs(c0, r0, i); AtSwap(l, sentinel, x, z, c0[i].parent); }
      hide Linked, AllHold, Distinct, Redirected, At;
    }

    static lemma DistinctSwap(l: seq<Node>, sentinel: Node, x: Node, z: int)
      requires Distinct(l + [x], sentinel) && 0 <= z < |l|
      ensures Distinct(l[z := x], sentinel)
    {
      var m := l + [x];
      assert m[|l|] == x && forall i :: 0 <= i < |l| ==> m[i] == l[i];
    }

    /** The copy x takes z's place in the sequence. */
    ghost method Collapse(l: seq<Node>, x: Node, c0: seq<Cell>, r0: int, z: int)
      requires Rep() && ns == l + [x] && Redirected(c0, r0, cs, z, |c0|) && Linked(c0, r0)
      requires loose <= {r0, |c0|} && (z != r0 ==> |c0| !in loose) && rt == if z == r0 then |c0| else r0
      modifies this`ns, this`cs, this`loose, this`rt
      ensures Rep() && ns == l[z := x] && cs == c0 && rt == r0 && loose == {r0}
    {
      assert In(c0, r0);
      AtSwap(l, sentinel, x, z, r0);
      DistinctSwap(l, sentinel, x, z);
      var l' := l[z := x];
      hide Linked, AllHold, Distinct, Holds, Redirected, At;
      forall j | 0 <= j < |l|
        ensures Holds(l', sentinel, c0, {r0}, j)
      {
        CollapseHolds(l, x, c0, r0, z, j);
      }
      AllHoldIs(l', c0, {r0});
      ns, cs, loose, rt := l', c0, {r0}, r0;
    }

    /** What Replace needs of the node at z. */
    lemma ReplaceReady(z: int)
      requires Rep() && Linked(cs, rt) && In(cs, z) && (z in loose ==> z == rt)
      ensures ns[z] == root <==> z == rt
      ensures z != rt ==> var p := cs[z].parent;
                          In(cs, p) && p != z && ns[z].parent == ns[p] && (ns[p].left == ns[z] <==> cs[p].left == z)
      ensures ns[z].left == At(ns, sentinel, cs[z].left) && ns[z].right == At(ns, sentinel, cs[z].right)
    {
      Look(z);
      if z != rt { Hangs(cs, rt, z); Look(cs[z].parent); KidIn(cs, rt, cs[z].parent, true); }
    }

    /** The children of x are told who their parent is. */
    method Adopt(x: Node, ghost n: int, ghost l: int, ghost r: int)
      requires Rep() && In(cs, n) && x == ns[n] && (l == NIL || In(cs, l)) && (r == NIL || In(cs, r))
      requires x.left == At(ns, sentinel, l) && x.right == At(ns, sentinel, r)
      modifies this`cs, this`loose, ns`parent
      ensures Rep() && cs == KidsTo(old(cs), l, r, n)
      ensures loose == old(loose) - (if l == NIL then {} else {l}) - if r == NIL then {} else {r}
    {
      hide AllHold, Distinct;
      Is(l, NIL);
      Is(r, NIL);
      if x.left != sentinel {
        SetParent(x.left, x, l, n);
      }
      if x.right != sentinel {
        SetParent(x.right, x, r, n);
      }
    }

    /** subst copies node's links, parent and colour. */
    method Copy(node: Node, subst: Node, ghost z: int)
      requires Rep() && Linked(cs, rt) && In(cs, z) && node == ns[z] && subst !in ns && subst != sentinel
      requires z in loose ==> z == rt
      modifies this`ns, this`cs, this`loose, subst`left, subst`right, subst`parent, subst`red
      ensures Rep() && ns == old(ns) + [subst] && cs == old(cs) + [old(cs)[z]]
      ensures loose == old(loose) + {rt} + if z == rt then {|old(ns)|} else {}
      ensures subst.left == At(ns, sentinel, old(cs)[z].left) && subst.right == At(ns, sentinel, old(cs)[z].right)
    {
      KidIn(cs, rt, z, true);
      KidIn(cs, rt, z, false);
      ReplaceReady(z);
      hide Linked, AllHold, Distinct, Holds;
      subst.left := node.left;
      subst.right := node.right;
      subst.parent := node.parent;
      subst.red := node.red;
      AtMore(ns, sentinel, subst, cs[z].left);
      AtMore(ns, sentinel, subst, cs[z].right);
      Append(subst, z);
    }

    /** subst, which is out of the tree, takes node's links, parent and colour, and node's neighbours link to it. */
    method Substitute(node: Node, subst: Node, ghost z: int, ghost k: int)
      requires Rep() && Linked(cs, rt) && In(cs, z) && node == ns[z] && subst !in ns && subst != sentinel
      requires loose <= {rt} || (loose <= {rt, k} && k != NIL && (k == cs[z].left || k == cs[z].right))
      modifies this`ns, this`cs, this`loose, this`rt, this`root, ns`left, ns`right, ns`parent
      modifies subst`left, subst`right, subst`parent, subst`red
      ensures Rep() && ns == old(ns)[z := subst] && cs == old(cs) && rt == old(rt) && loose == {rt}
    {
      ghost var l, c0, r0, n := ns, cs, rt, |ns|;
      ghost var p := cs[z].parent;
      KidIn(cs, rt, z, true);
      KidIn(cs, rt, z, false);
      ReplaceReady(z);
      RedirectCells(cs, rt, z);
      hide Linked, AllHold, Distinct, Holds, Redirected, Hang, KidsTo, At;
      Copy(node, subst, z);
      assert ns[n] == subst && ns[z] == node && (z != r0 ==> ns[p] == l[p] != subst);
      Replace(node, subst, z, p, n);
      Adopt(subst, n, c0[z].left, c0[z].right);
      Collapse(l, subst, c0, r0, z);
    }

    // ---------- walking

    /** The left end of a subtree. */
    lemma LeftLink(k: int)
      requires Shape() && In(cs, k)
      ensures 0 <= cs[k].lo <= k < cs[k].hi <= |cs|
      ensures ns[k].left == At(ns, sentinel, cs[k].left) && (ns[k].left == sentinel <==> cs[k].left == NIL)
      ensures ns[k].right == At(ns, sentinel, cs[k].right) && (ns[k].right == sentinel <==> cs[k].right == NIL)
      ensures if cs[k].left == NIL then cs[k].lo == k
              else In(cs, cs[k].left) && cs[cs[k].left].lo == cs[k].lo && cs[cs[k].left].hi == k
      ensures if cs[k].right == NIL then cs[k].hi == k + 1
              else In(cs, cs[k].right) && cs[cs[k].right].lo == k + 1 && cs[cs[k].right].hi == cs[k].hi
    {
      assert LinkedAt(cs, rt, k);
      Look(k);
      Is(cs[k].left, NIL);
      Is(cs[k].right, NIL);
    }

    /** ngx_rbtree_min: the first node of the subtree, in order. */
    method Min(top: Node, ghost k: int) returns (node: Node)
      requires Shape() && In(cs, k) && top == ns[k]
      ensures In(cs, cs[k].lo) && node == ns[cs[k].lo]
    {
      hide AllHold, Distinct, Linked;
      node := top;
      ghost var j := k;
      LeftLink(j);
      while node.left != sentinel
        invariant In(cs, j) && node == ns[j] && cs[j].lo == cs[k].lo && 0 <= cs[j].lo <= j < cs[j].hi
        invariant node.left == At(ns, sentinel, cs[j].left) && (node.left == sentinel <==> cs[j].left == NIL)
        decreases cs[j].hi
      {
        LeftLink(j);
        node := node.left;
        j := cs[j].left;
        LeftLink(j);
      }
      LeftLink(j);
    }

    /** How a climb sees node j and its parent. */
    lemma ParentLink(j: int)
      requires Shape() && In(cs, j)
      ensures ns[j] == root <==> j == rt
      ensures j == rt ==> cs[j].hi == |cs|
      ensures j != rt ==>
        var p := cs[j].parent; In(cs, p) && ns[j].parent == ns[p] && (ns[p].left == ns[j] <==> cs[p].left == j)
      ensures j != rt ==> var p := cs[j].parent; cs[p].left == j ==> cs[j].hi == p
      ensures j != rt ==> var p := cs[j].parent; cs[p].left != j ==>
        cs[j].hi == cs[p].hi && cs[p].lo < cs[j].lo && 0 <= cs[p].lo
    {
      assert LinkedAt(cs, rt, j);
      Look(j);
      if j != rt {
        Hangs(cs, rt, j);
        assert LinkedAt(cs, rt, cs[j].parent);
        Look(cs[j].parent);
        KidIn(cs, rt, cs[j].parent, true);
      }
    }

    /** ngx_rbtree_next: the node after this one in order, or null after the last. */
    method Next(from: Node, ghost i: int) returns (next: Node?)
      requires Shape() && In(cs, i) && from == ns[i]
      ensures next == if i + 1 < |ns| then ns[i + 1] else null
    {
      LeftLink(i);
      if from.right != sentinel {
        next := Min(from.right, cs[i].right);
        return;
      }
      hide AllHold, Distinct, Linked;
      var node := from;
      ghost var j := i;
      while true
        invariant In(cs, j) && node == ns[j] && cs[j].hi == i + 1 && cs[j].lo >= 0
        decreases cs[j].lo
      {
        var parent := node.parent;
        ParentLink(j);
        if node == root {
          return null;
        }
        if node == parent.left {
          return parent;
        }
        node := parent;
        j := cs[j].parent;
      }
    }

    /** Timers in a window come in the order of their distance from its start. */
    lemma RanksAscend()
      requires Valid()
      ensures forall base: nat :: AllFit(timer, half, base, keys) ==> ByRank(timer, half, base, keys)
    {
      forall base: nat | AllFit(timer, half, base, keys)
        ensures ByRank(timer, half, base, keys)
      {
        SortedIsByRank(timer, half, base, keys);
      }
    }

    /** From the least node on, one Next after another meets every node once, in key order, and ends with null. */
    method Walk() returns (seen: seq<Node>)
      requires Valid()
      ensures seen == ns && Keyed(seen, keys, half)
      ensures forall base: nat :: AllFit(timer, half, base, keys) ==> ByRank(timer, half, base, keys)
    {
      RanksAscend();
      seen := [];
      if root == sentinel {
        assert |ns| > 0 ==> In(cs, rt);
        return;
      }
      assert In(cs, rt) && LinkedAt(cs, rt, rt);
      var node: Node? := Min(root, rt);
      ghost var i := 0;
      hide AllHold, Distinct, Linked, Good, Sorted, Keyed;
      while node != null
        invariant 0 <= i <= |ns| == |cs| && seen == ns[..i]
        invariant node == if i < |ns| then ns[i] else null
        decreases |ns| - i
      {
        seen := seen + [node];
        node := Next(node, i);
        i := i + 1;
      }
    }

    /** The height of the tree is at most 2 * log2(n + 1). */
    lemma Low()
      requires Valid()
      ensures rt == NIL || In(cs, rt)
      ensures Pow2(RbBounds.Height(cs, rt, rt)) <= (|ns| + 1) * (|ns| + 1)
    {
      RbBounds.HeightBound(cs, rt);
    }

    /** Where a walk down from x ends, going to the left at each true: the nodes' own fields are followed. */
    ghost function Descend(x: Node, path: seq<bool>): (y: Node?)
      reads this, sentinel, ns
      decreases |path|
    {
      if path == [] then x else if x !in ns then null else
        var next := if path[0] then x.left else x.right;
        if next == null then null else Descend(next, path[1..])
    }

    /** The black nodes such a walk leaves behind. */
    ghost function BlackNodes(x: Node, path: seq<bool>): int
      reads this, sentinel, ns
      decreases |path|
    {
      if path == [] || x !in ns then 0 else
        var next := if path[0] then x.left else x.right;
        (if x.red then 0 else 1) + if next == null then 0 else BlackNodes(next, path[1..])
    }

    /** Walks from the root to the sentinel all meet the same number of black nodes. */
    lemma SameBlackNodes(p: seq<bool>, q: seq<bool>)
      requires Valid() && Descend(root, p) == sentinel && Descend(root, q) == sentinel
      ensures BlackNodes(root, p) == BlackNodes(root, q)
    {
      WalkedCells(rt, p);
      WalkedCells(rt, q);
      RbBounds.SameBlacks(cs, rt, rt, p);
      RbBounds.SameBlacks(cs, rt, rt, q);
    }

    /** A walk over the nodes is a walk over the cells. */
    lemma {:induction false} WalkedCells(k: int, path: seq<bool>)
      requires Shape() && (k == NIL || In(cs, k)) && Descend(At(ns, sentinel, k), path) == sentinel
      ensures RbBounds.Reaches(cs, k, path) && BlackNodes(At(ns, sentinel, k), path) == RbBounds.Blacks(cs, k, path)
      decreases |path|
    {
      if path == [] {
        Is(k, NIL);
      } else if k != NIL {
        LeftLink(k);
        KidIn(cs, rt, k, path[0]);
        Look(k);
        WalkedCells(Kd(cs[k], path[0]), path[1..]);
      }
    }

    // ---------- deletion

    /** The node to unlink has at most one child: node itself, or its successor when it has two. */
    method Choose(node: Node, ghost z: int) returns (temp: Node, subst: Node, ghost d: int, ghost t: int)
      requires Shape() && In(cs, z) && node == ns[z]
      ensures Thin(cs, d, t) && subst == ns[d] && temp == At(ns, sentinel, t) && (t == NIL || In(cs, t))
      ensures In(cs, d) && (d == z || (d == z + 1 && cs[d].left == NIL && d != rt))
    {
      LeftLink(z);
      hide AllHold, Distinct, Linked;
      if node.left == sentinel {
        temp := node.right;
        subst := node;
        d, t := z, cs[z].right;
      } else if node.right == sentinel {
        temp := node.left;
        subst := node;
        d, t := z, cs[z].left;
      } else {
        LeftLink(cs[z].right);
        subst := Min(node.right, cs[z].right);
        d := cs[cs[z].right].lo;
        LeftLink(d);
        if subst.left != sentinel {
          temp := subst.left;
          t := cs[d].left;
        } else {
          temp := subst.right;
          t := cs[d].right;
        }
        LeftEnd(cs[z].right);
        RootLow();
      }
    }

    lemma RootLow()
      requires Shape() && |cs| > 0
      ensures In(cs, rt) && cs[rt].lo == 0
    {
      assert In(cs, rt) && LinkedAt(cs, rt, rt);
    }

    /** The first node of a subtree has no left child. */
    lemma LeftEnd(k: int)
      requires Shape() && In(cs, k)
      ensures In(cs, cs[k].lo) && cs[cs[k].lo].left == NIL && cs[cs[k].lo].lo == cs[k].lo
      decreases cs[k].hi - cs[k].lo
    {
      LeftLink(k);
      if cs[k].left != NIL { LeftEnd(cs[k].left); }
    }

    /** subst's parent links to temp, and temp's parent field is set: to subst itself when node is its parent. */
    method Unlink(node: Node, subst: Node, temp: Node, ghost d: int, ghost t: int)
      requires Shape() && Thin(cs, d, t) && subst == ns[d]
      requires temp == At(ns, sentinel, t) && (t == NIL || In(cs, t)) && d != rt
      modifies this`cs, this`ns, this`rt, this`loose, ns`left, ns`right, ns`parent, sentinel`parent
      ensures old(subst.parent) != null && In(old(cs), old(cs[d].parent))
      ensures old(subst.parent) == old(ns)[old(cs[d].parent)]
      ensures temp.parent == if subst != node && old(subst.parent) == node then subst else old(subst.parent)
      ensures Rep() && ns == Without(old(ns), d) && cs == Remove(old(cs), d, t) && rt == Down(old(rt), d)
      ensures loose == (if temp.parent == old(subst.parent) then {rt} else {rt, Down(t, d)}) - {NIL}
    {
      ghost var p, c0, r0 := cs[d].parent, cs, rt;
      UnlinkReady(d, t);
      Is(t, NIL);
      hide AllHold, Distinct, Linked, Thin, Hang, Remove, Holds;
      if subst == subst.parent.left {
        SetLeft(subst.parent, temp, p, t);
      } else {
        SetRight(subst.parent, temp, p, t);
      }
      var up := if subst == node then subst.parent else if subst.parent == node then subst else subst.parent;
      if temp == sentinel {
        temp.parent := up;
      } else {
        SetParent(temp, up, t, p);
      }
      Bypass(c0, r0, d, t, p, cs);
      Unsplice(c0, r0, d, t);
    }

    lemma UnlinkReady(d: int, t: int)
      requires Shape() && Thin(cs, d, t) && d != rt
      ensures var p := cs[d].parent;
        In(cs, p) && p != d && ns[d].parent == ns[p] && (ns[p].left == ns[d] <==> cs[p].left == d)
      ensures t != rt && t != d && Hang(cs, rt, d, cs[d].parent, t) ==
        (var p := cs[d].parent; if cs[p].left == d then cs[p := cs[p].(left := t)] else cs[p := cs[p].(right := t)])
    {
      ParentLink(d);
      Hangs(cs, rt, d);
      KidIn(cs, rt, d, true);
      KidIn(cs, rt, d, false);
      if t == NIL { assert In(cs, rt); }
    }

    /** subst is the root, so it is node: what is left is its only child, or nothing. */
    method UnlinkRoot(temp: Node, ghost d: int, ghost t: int)
      requires Shape() && Good(cs, rt) && Thin(cs, d, t)
      requires d == rt && temp == At(ns, sentinel, t) && (t == NIL || In(cs, t))
      modifies this`cs, this`ns, this`rt, this`loose, this`root, temp`red
      ensures Shape() && Good(cs, rt) && ns == Without(old(ns), d)
    {
      ghost var c0, r0 := cs, rt;
      RemoveBlack(cs, rt, d, t);
      BypassRoot(c0, r0, t);
      AtDown(ns, sentinel, d, t);
      hide AllHold, Distinct, Linked, Thin, Remove, Bypassed, Balanced, Edges, Holds;
      SetRoot(temp, t);
      Unsplice(c0, r0, d, t);
      Hue(Down(t, d));
      ShortDone(cs, rt, Down(t, d), GapParent(c0, r0, d), GapSide(c0, r0, d));
      Blacken(temp, Down(t, d));
    }

    static lemma BypassRoot(c0: seq<Cell>, r0: int, t: int)
      requires Linked(c0, r0) && Thin(c0, r0, t)
      ensures Bypassed(c0, c0, r0, t) && t != r0
    {
      KidIn(c0, r0, r0, true);
      KidIn(c0, r0, r0, false);
      forall i | 0 <= i < |c0| && i != r0
        ensures c0[i].left != r0 && c0[i].right != r0
      {
        KidIn(c0, r0, i, true);
        KidIn(c0, r0, i, false);
      }
    }

    static lemma SwapDown(l: seq<Node>, z: int)
      requires 0 <= z < |l| - 1
      ensures Without(l, z + 1)[z := l[z + 1]] == Without(l, z) && Without(l, z + 1)[z] == l[z]
    {
    }

    /** Below the node it replaces, the successor is its right child. */
    static lemma SuccessorSlot(c0: seq<Cell>, r0: int, z: int, d: int, t: int)
      requires Linked(c0, r0) && Thin(c0, d, t) && In(c0, z) && d == z + 1 && d != r0 && c0[d].parent == z
      ensures Remove(c0, d, t)[z].right == Down(t, d)
    {
      Neighbours(c0, r0, z, true, d);
      assert LinkedAt(c0, r0, z);
      if c0[z].left != NIL { assert LinkedAt(c0, r0, c0[z].left); }
      RemoveCells(c0, d, t);
      assert Down(z, d) == z;
    }

    /** The successor takes over from the node with two children, keeping the shape the removal left. */
    method TakeOver(node: Node, subst: Node, temp: Node, ghost z: int, ghost d: int, ghost t: int)
      requires Shape() && In(cs, z) && node == ns[z] && Thin(cs, d, t) && subst == ns[d] && d == z + 1 && d != rt
      requires temp == At(ns, sentinel, t) && (t == NIL || In(cs, t))
      modifies this`cs, this`ns, this`rt, this`loose, this`root, ns`left, ns`right, ns`parent, ns`red, sentinel`parent
      ensures In(old(cs), old(cs)[d].parent) && Rep() && ns == Without(old(ns), z) && cs == Remove(old(cs), d, t)
      ensures rt == Down(old(rt), d) && loose <= {rt}
      ensures 0 <= Down(old(cs)[d].parent, d) < |ns|
      ensures temp == sentinel ==> temp.parent == ns[Down(old(cs)[d].parent, d)]
    {
      ghost var l, c0, r0, p := ns, cs, rt, cs[d].parent;
      UnlinkReady(d, t);
      Is(d, z);
      Is(p, z);
      Is(p, d);
      RemoveLinked(cs, rt, d, t);
      if p == z { SuccessorSlot(cs, rt, z, d, t); }
      DistinctDown(ns, sentinel, d);
      SwapDown(ns, z);
      AtDown(ns, sentinel, d, p);
      hide AllHold, Distinct, Linked, Thin, Remove, Holds, Without;
      Look(d);
      assert l[d] in l;
      Unlink(node, subst, temp, d, t);
      assert forall n :: n in ns ==> n in l;
      assert In(cs, z) && node == ns[z] && subst !in ns && subst != sentinel;
      assert loose <= {rt} || (p == z && Down(t, d) != NIL && loose <= {rt, Down(t, d)});
      assert Down(t, d) != NIL && p == z ==> Down(t, d) == cs[z].right;
      Substitute(node, subst, z, Down(t, d));
    }

    /** Relinking for the removal of node; red tells whether a red node was unlinked. */
    method Detach(node: Node, subst: Node, temp: Node, ghost z: int, ghost d: int, ghost t: int)
      requires Shape() && In(cs, z) && node == ns[z] && Thin(cs, d, t) && subst == ns[d] && d != rt
      requires d == z || (d == z + 1 && cs[d].left == NIL)
      requires temp == At(ns, sentinel, t) && (t == NIL || In(cs, t))
      modifies this`cs, this`ns, this`rt, this`loose, this`root, ns`left, ns`right, ns`parent, ns`red, sentinel`parent
      ensures In(old(cs), old(cs)[d].parent) && Shape() && ns == Without(old(ns), z) && cs == Remove(old(cs), d, t)
      ensures rt == Down(old(rt), d) && 0 <= Down(old(cs)[d].parent, d) < |ns|
      ensures temp == sentinel ==> temp.parent == ns[Down(old(cs)[d].parent, d)]
      ensures temp == At(ns, sentinel, Down(t, d))
    {
      UnlinkReady(d, t);
      RemoveLinked(cs, rt, d, t);
      Is(d, z);
      Is(t, NIL);
      AtDown(ns, sentinel, d, t);
      AtDown(ns, sentinel, d, cs[d].parent);
      ThinApart(cs, rt, d, t, z);
      if d > z { SwapDown(ns, z); AtDown(ns, sentinel, z, t); }
      hide AllHold, Distinct, Linked, Thin, Remove, Holds, Without;
      if subst == node {
        Unlink(node, subst, temp, d, t);
      } else {
        TakeOver(node, subst, temp, z, d, t);
      }
    }

    static lemma ThinApart(c0: seq<Cell>, r0: int, d: int, t: int, z: int)
      requires Linked(c0, r0) && Thin(c0, d, t) && In(c0, z) && (d == z || (d == z + 1 && c0[d].left == NIL))
      ensures t != d && (d == z + 1 ==> t != z && Down(t, d) == Down(t, z))
    {
      assert LinkedAt(c0, r0, d);
      if t != NIL { assert LinkedAt(c0, r0, t); }
    }

    /** temp after the relinking, as the climb sees it. */
    lemma FallsAfter(temp: Node, t: int, dp: int, ds: bool)
      requires Shape() && Short(cs, rt, t, dp, ds) && temp == At(ns, sentinel, t)
      requires t == NIL && t != rt ==> In(cs, dp) && temp.parent == ns[dp]
      ensures Falls(temp, t, dp)
    {
      if t != NIL && t != rt { KidIn(cs, rt, dp, ds); Look(t); }
      Falling(temp, t, dp, ds);
    }

    /** Unlinking and climbing, when the root is not the node to unlink. */
    method DeleteBelow(node: Node, subst: Node, temp: Node, ghost z: int, ghost d: int, ghost t: int)
      requires Shape() && Good(cs, rt) && In(cs, z) && node == ns[z] && Thin(cs, d, t) && subst == ns[d] && d != rt
      requires d == z || (d == z + 1 && cs[d].left == NIL)
      requires temp == At(ns, sentinel, t) && (t == NIL || In(cs, t))
      modifies this`cs, this`ns, this`rt, this`loose, this`root
      modifies ns`left, ns`right, ns`parent, ns`red, sentinel`parent, sentinel`red
      ensures Shape() && Good(cs, rt) && ns == Without(old(ns), z)
    {
      Look(d);
      hide AllHold, Distinct, Linked, Thin, Remove, Holds, Without, Balanced, Edges;
      var red := subst.red;
      ghost var gp, gs := GapParent(cs, rt, d), GapSide(cs, rt, d);
      if cs[d].red { RemoveRed(cs, rt, d, t); } else { RemoveBlack(cs, rt, d, t); }
      Detach(node, subst, temp, z, d, t);
      if !red {
        FallsAfter(temp, Down(t, d), gp, gs);
        Remaining(old(ns), z);
        Refill(temp, Down(t, d), gp, gs);
      }
    }

    static lemma Remaining(l: seq<Node>, z: int)
      requires 0 <= z < |l|
      ensures forall i :: 0 <= i < |l| - 1 ==> Without(l, z)[i] in l
    {
    }

    /** Deleting node leaves the others in order, and node unlinked. */
    method Delete(node: Node, ghost z: int)
      requires Valid() && In(cs, z) && node == ns[z]
      modifies this`cs, this`ns, this`rt, this`loose, this`root, this`keys
      modifies ns`left, ns`right, ns`parent, ns`red, sentinel`parent, sentinel`red, node`key
      ensures Valid() && 0 <= z < |old(ns)| == |old(keys)| && ns == Without(old(ns), z) && keys == Without(old(keys), z)
      ensures node.left == null && node.right == null && node.parent == null && node.key == 0
    {
      hide AllHold, Distinct, Linked, Thin, Holds, Without, Good, Sorted, Keyed;
      DropSorted(timer, half, keys, z);
      DistinctDown(ns, sentinel, z);
      RootLow();
      var temp, subst;
      ghost var d, t;
      temp, subst, d, t := Choose(node, z);
      Is(d, rt);
      if subst == root {
        UnlinkRoot(temp, d, t);
      } else {
        DeleteBelow(node, subst, temp, z, d, t);
      }
      KeyedDown(old(ns), keys, half, z);
      keys := Without(keys, z);
      Forget(node);
    }

    /** The fields of a removed node are cleared, which touches no node of the tree. */
    method Forget(node: Node)
      requires Valid() && node !in ns
      modifies node`left, node`right, node`parent, node`key
      ensures Valid() && node.left == null && node.right == null && node.parent == null && node.key == 0
    {
      node.left, node.right, node.parent, node.key := null, null, null, 0;
      forall j | 0 <= j < |ns|
        ensures Holds(ns, sentinel, cs, loose, j)
      {
        assert ns[j] in ns;
        assert old(Holds(ns, sentinel, cs, loose, j));
      }
    }
  }
}
