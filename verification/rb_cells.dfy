/**
Red-black trees with their nodes numbered in key order: a node is its index in the in-order sequence, and its
cell names its neighbours by index (NIL for the sentinel), its colour, and the stretch lo..hi of indices its
subtree covers. Every rule of the tree is then a rule about one cell and the cells next to it.
*/
module RbCells {

  const NIL := -1

  /** h counts the black nodes on the paths from here down to the sentinel, this node included. */
  datatype Cell = Cell(left: int, right: int, parent: int, red: bool, lo: int, hi: int, h: int)

  /** Sides: true is left, false is right. */
  function Kd(c: Cell, s: bool): int {
    if s then c.left else c.right
  }

  function Put(c: Cell, s: bool, k: int): Cell {
    if s then c.(left := k) else c.(right := k)
  }

  predicate In(cs: seq<Cell>, k: int) {
    0 <= k < |cs|
  }

  /** k is the child of i that covers lo..hi, or NIL when there is nothing to cover. */
  ghost predicate Kid(cs: seq<Cell>, k: int, i: int, lo: int, hi: int) {
    if lo == hi then k == NIL
    else In(cs, k) && cs[k].lo == lo && cs[k].hi == hi && cs[k].parent == i
  }

  ghost predicate LinkedAt(cs: seq<Cell>, root: int, i: int)
    requires In(cs, i)
  {
    var c := cs[i];
    && 0 <= c.lo <= i < c.hi <= |cs|
    && Kid(cs, c.left, i, c.lo, i) && Kid(cs, c.right, i, i + 1, c.hi)
    && (if i == root then c.lo == 0 && c.hi == |cs|
        else In(cs, c.parent) && (cs[c.parent].left == i || cs[c.parent].right == i))
  }

  /** The cells form one binary tree with the given root, and its in-order sequence is 0, 1, 2, ... */
  ghost predicate Linked(cs: seq<Cell>, root: int) {
    && (forall i {:trigger LinkedAt(cs, root, i)} :: 0 <= i < |cs| ==> LinkedAt(cs, root, i))
    && (if |cs| == 0 then root == NIL else In(cs, root))
  }

  // ---------- rotations

  /** The cells a rotation at x touches: y is the child that moves up, b the grandchild that changes sides. */
  ghost predicate Around(cs: seq<Cell>, root: int, x: int, s: bool, y: int, b: int, p: int) {
    && In(cs, x) && In(cs, y) && y != x
    && y == Kd(cs[x], s) && b == Kd(cs[y], !s) && p == cs[x].parent
    && (b == NIL || (In(cs, b) && b != x && b != y))
    && (x == root || (In(cs, p) && p != x && p != y && p != b))
  }

  lemma RotAround(cs: seq<Cell>, root: int, x: int, s: bool)
    requires Linked(cs, root) && In(cs, x) && Kd(cs[x], s) != NIL
    ensures In(cs, Kd(cs[x], s))
    ensures var y := Kd(cs[x], s); Around(cs, root, x, s, y, Kd(cs[y], !s), cs[x].parent)
    ensures root != Kd(cs[x], s)
  {
    assert LinkedAt(cs, root, x);
    var y := Kd(cs[x], s);
    assert LinkedAt(cs, root, y);
    if Kd(cs[y], !s) != NIL { assert LinkedAt(cs, root, Kd(cs[y], !s)); }
    if x != root { assert LinkedAt(cs, root, cs[x].parent); }
  }

  /** x takes b in place of y and y takes x; the two also trade their black heights. */
  function RotX(x: Cell, y: int, b: int, yh: int, s: bool): Cell {
    var c := Put(x, s, b).(parent := y, h := yh);
    if s then c.(lo := y + 1) else c.(hi := y)
  }

  function RotY(x: Cell, xi: int, y: Cell, s: bool): Cell {
    var c := Put(y, !s, xi).(parent := x.parent, h := x.h);
    if s then c.(hi := x.hi) else c.(lo := x.lo)
  }

  function RotP(p: Cell, x: int, y: int, s: bool): Cell {
    if Kd(p, !s) == x then Put(p, !s, y) else Put(p, s, y)
  }

  /** Rotation at x: with s, its left child moves up (right rotate), otherwise its right child (left rotate). */
  ghost function Rot(cs: seq<Cell>, root: int, x: int, s: bool): (r: seq<Cell>)
    requires In(cs, x) && In(cs, Kd(cs[x], s))
    requires var y := Kd(cs[x], s); Around(cs, root, x, s, y, Kd(cs[y], !s), cs[x].parent)
    ensures |r| == |cs|
  {
    var y := Kd(cs[x], s);
    var b := Kd(cs[y], !s);
    var p := cs[x].parent;
    var s1 := if b == NIL then cs else cs[b := cs[b].(parent := x)];
    var s2 := if x == root then s1 else s1[p := RotP(cs[p], x, y, s)];
    s2[x := RotX(cs[x], y, b, cs[y].h, s)][y := RotY(cs[x], x, cs[y], s)]
  }

  /** What a rotation does to each cell. */
  ghost predicate Rotated(cs: seq<Cell>, r: seq<Cell>, root: int, x: int, s: bool, y: int, b: int, p: int) {
    && |r| == |cs| && Around(cs, root, x, s, y, b, p)
    && r[x] == RotX(cs[x], y, b, cs[y].h, s) && r[y] == RotY(cs[x], x, cs[y], s)
    && (b != NIL ==> r[b] == cs[b].(parent := x))
    && (x != root ==> r[p] == RotP(cs[p], x, y, s))
    && forall i {:trigger r[i]} :: 0 <= i < |cs| && i != x && i != y && i != b && (x == root || i != p) ==>
        r[i] == cs[i]
  }

  lemma RotCells(cs: seq<Cell>, root: int, x: int, s: bool)
    requires In(cs, x) && In(cs, Kd(cs[x], s))
    requires var y := Kd(cs[x], s); Around(cs, root, x, s, y, Kd(cs[y], !s), cs[x].parent)
    ensures var y := Kd(cs[x], s); Rotated(cs, Rot(cs, root, x, s), root, x, s, y, Kd(cs[y], !s), cs[x].parent)
  {
    hide RotX, RotY, RotP;
  }

  lemma RotLinkedX(cs: seq<Cell>, r: seq<Cell>, root: int, x: int, s: bool, y: int, b: int, p: int)
    requires Linked(cs, root) && Rotated(cs, r, root, x, s, y, b, p)
    ensures LinkedAt(r, if x == root then y else root, x)
  {
    assert LinkedAt(cs, root, x) && LinkedAt(cs, root, y);
  }

  lemma RotLinkedY(cs: seq<Cell>, r: seq<Cell>, root: int, x: int, s: bool, y: int, b: int, p: int)
    requires Linked(cs, root) && Rotated(cs, r, root, x, s, y, b, p)
    ensures LinkedAt(r, if x == root then y else root, y)
  {
    assert LinkedAt(cs, root, x) && LinkedAt(cs, root, y);
    if x != root { assert LinkedAt(cs, root, p); }
  }

  lemma RotLinkedB(cs: seq<Cell>, r: seq<Cell>, root: int, x: int, s: bool, y: int, b: int, p: int)
    requires Linked(cs, root) && Rotated(cs, r, root, x, s, y, b, p) && b != NIL
    ensures LinkedAt(r, if x == root then y else root, b)
  {
    assert LinkedAt(cs, root, x) && LinkedAt(cs, root, y) && LinkedAt(cs, root, b);
  }

  /** Away from x and y a rotation leaves the children where they were. */
  lemma RotKid(cs: seq<Cell>, r: seq<Cell>, root: int, x: int, s: bool, y: int, b: int, p: int,
               k: int, i: int, lo: int, hi: int)
    requires Linked(cs, root) && Rotated(cs, r, root, x, s, y, b, p)
    requires i != x && i != y && Kid(cs, k, i, lo, hi) && (x == root || k != x)
    requires x == root ==> k != x
    ensures Kid(r, k, i, lo, hi)
  {
    hide LinkedAt;
    if lo != hi {
      YBelowX(cs, root, x, s, y, b);
      if k == p && x != root { assert r[k].lo == cs[k].lo; }
    }
  }

  lemma RotTaken(cs: seq<Cell>, r: seq<Cell>, root: int, x: int, s: bool, y: int, b: int, p: int, lo: int, hi: int)
    requires Linked(cs, root) && Rotated(cs, r, root, x, s, y, b, p)
    requires Kid(cs, x, p, lo, hi)
    ensures Kid(r, y, p, lo, hi)
  {
    assert LinkedAt(cs, root, x) && LinkedAt(cs, root, y);
  }

  lemma RotLinkedP(cs: seq<Cell>, r: seq<Cell>, root: int, x: int, s: bool, y: int, b: int, p: int)
    requires Linked(cs, root) && Rotated(cs, r, root, x, s, y, b, p) && x != root
    ensures LinkedAt(r, root, p)
  {
    assert LinkedAt(cs, root, p) && LinkedAt(cs, root, x);
    var c := cs[p];
    if c.left == x { RotTaken(cs, r, root, x, s, y, b, p, c.lo, p); }
    else { RotKid(cs, r, root, x, s, y, b, p, c.left, p, c.lo, p); }
    if c.right == x { RotTaken(cs, r, root, x, s, y, b, p, p + 1, c.hi); }
    else { RotKid(cs, r, root, x, s, y, b, p, c.right, p, p + 1, c.hi); }
    if p != root { RotChildOf(cs, r, root, x, s, y, b, p, p); }
  }

  lemma YBelowX(cs: seq<Cell>, root: int, x: int, s: bool, y: int, b: int)
    requires Linked(cs, root) && In(cs, x) && y == Kd(cs[x], s) && y != NIL && In(cs, y) && b == Kd(cs[y], !s)
    ensures cs[y].parent == x && (b != NIL ==> In(cs, b) && cs[b].parent == y)
  {
    assert LinkedAt(cs, root, x) && LinkedAt(cs, root, y);
  }

  lemma RotLinkedElse(cs: seq<Cell>, r: seq<Cell>, root: int, x: int, s: bool, y: int, b: int, p: int, i: int)
    requires Linked(cs, root) && Rotated(cs, r, root, x, s, y, b, p)
    requires 0 <= i < |cs| && i != x && i != y && i != b && (x == root || i != p)
    ensures LinkedAt(r, if x == root then y else root, i)
  {
    var c := cs[i];
    assert LinkedAt(cs, root, i);
    assert r[i] == c;
    NotItsKid(cs, root, x, i, p);
    RotKid(cs, r, root, x, s, y, b, p, c.left, i, c.lo, i);
    RotKid(cs, r, root, x, s, y, b, p, c.right, i, i + 1, c.hi);
    if i != root { RotChildOf(cs, r, root, x, s, y, b, p, i); }
  }

  lemma NotItsKid(cs: seq<Cell>, root: int, x: int, i: int, p: int)
    requires Linked(cs, root) && In(cs, x) && In(cs, i) && p == cs[x].parent && (x == root || i != p)
    ensures cs[i].left != x && cs[i].right != x
  {
    assert LinkedAt(cs, root, x) && LinkedAt(cs, root, i);
  }

  lemma RotChildOf(cs: seq<Cell>, r: seq<Cell>, root: int, x: int, s: bool, y: int, b: int, p: int, i: int)
    requires Linked(cs, root) && Rotated(cs, r, root, x, s, y, b, p)
    requires 0 <= i < |cs| && i != x && i != y && i != b && i != root && r[i].parent == cs[i].parent
    ensures In(r, cs[i].parent) && (r[cs[i].parent].left == i || r[cs[i].parent].right == i)
  {
    assert LinkedAt(cs, root, i) && LinkedAt(cs, root, x);
    var q := cs[i].parent;
    hide Linked;
    assert x != q && y != q && q != b && (x == root || q != p) ==> r[q] == cs[q];
  }

  /** A rotation keeps the tree a tree over the same in-order sequence. */
  lemma RotLinked(cs: seq<Cell>, root: int, x: int, s: bool)
    requires Linked(cs, root) && In(cs, x) && Kd(cs[x], s) != NIL
    ensures In(cs, Kd(cs[x], s))
    ensures var y := Kd(cs[x], s); Around(cs, root, x, s, y, Kd(cs[y], !s), cs[x].parent)
    ensures Linked(Rot(cs, root, x, s), if x == root then Kd(cs[x], s) else root)
  {
    RotAround(cs, root, x, s);
    var y := Kd(cs[x], s);
    var b, p := Kd(cs[y], !s), cs[x].parent;
    RotCells(cs, root, x, s);
    var r, root' := Rot(cs, root, x, s), if x == root then y else root;
    hide Rotated, Rot, LinkedAt, Around;
    forall i | 0 <= i < |r|
      ensures LinkedAt(r, root', i)
    {
      if i == x { RotLinkedX(cs, r, root, x, s, y, b, p); }
      else if i == y { RotLinkedY(cs, r, root, x, s, y, b, p); }
      else if i == b { RotLinkedB(cs, r, root, x, s, y, b, p); }
      else if i == p && x != root { RotLinkedP(cs, r, root, x, s, y, b, p); }
      else { RotLinkedElse(cs, r, root, x, s, y, b, p, i); }
    }
  }

  /** Same links and colours; the bookkeeping may differ. */
  ghost predicate SameLinks(a: seq<Cell>, b: seq<Cell>) {
    |a| == |b|
    && forall i :: 0 <= i < |a| ==>
         a[i].left == b[i].left && a[i].right == b[i].right && a[i].parent == b[i].parent && a[i].red == b[i].red
  }

  /** Where x hung, y hangs; at the root nothing is written here. */
  ghost function Hang(cs: seq<Cell>, root: int, x: int, p: int, y: int): (r: seq<Cell>)
    requires x != root ==> In(cs, p)
    ensures |r| == |cs|
  {
    if x == root then cs else if cs[p].left == x then cs[p := cs[p].(left := y)] else cs[p := cs[p].(right := y)]
  }

  /** The pointers a rotation writes, in the program's order. */
  ghost function RotWrites(cs: seq<Cell>, root: int, x: int, s: bool, y: int, b: int, p: int): (r: seq<Cell>)
    requires Around(cs, root, x, s, y, b, p)
    ensures |r| == |cs|
  {
    var s1 := cs[x := Put(cs[x], s, b)];
    var s2 := if b == NIL then s1 else s1[b := s1[b].(parent := x)];
    var s3 := s2[y := s2[y].(parent := p)];
    var s4 := Hang(s3, root, x, p, y);
    var s5 := s4[y := Put(s4[y], !s, x)];
    s5[x := s5[x].(parent := y)]
  }

  lemma RotWritesLinks(cs: seq<Cell>, root: int, x: int, s: bool, y: int, b: int, p: int)
    requires Linked(cs, root) && Around(cs, root, x, s, y, b, p)
    ensures SameLinks(RotWrites(cs, root, x, s, y, b, p), Rot(cs, root, x, s))
  {
    if x != root { assert LinkedAt(cs, root, x) && LinkedAt(cs, root, p); }
    hide Linked, LinkedAt;
    RotWritesAre(cs, root, x, s, y, b, p);
  }

  lemma RotWritesAre(cs: seq<Cell>, root: int, x: int, s: bool, y: int, b: int, p: int)
    requires Around(cs, root, x, s, y, b, p)
    requires x != root ==> (Kd(cs[p], true) == x <==> Kd(cs[p], false) != x)
    ensures SameLinks(RotWrites(cs, root, x, s, y, b, p), Rot(cs, root, x, s))
  {
  }

  // ---------- a new leaf, and a cell taken out: the indices above it shift by one

  function Up(k: int, d: int): int {
    if k >= d then k + 1 else k
  }

  function Down(k: int, d: int): int {
    if k > d then k - 1 else k
  }

  /** Cell i once index d has become the s-side child of q. */
  ghost function Moved(c: Cell, i: int, q: int, s: bool, d: int): Cell {
    var over := c.lo <= q < c.hi;
    var m := Cell(Up(c.left, d), Up(c.right, d), Up(c.parent, d), c.red,
                  if over then c.lo else Up(c.lo, d), if over || c.hi > d then c.hi + 1 else c.hi, c.h);
    if i == q then Put(m, s, d) else m
  }

  ghost predicate Free(cs: seq<Cell>, q: int, s: bool, d: int) {
    In(cs, q) && Kd(cs[q], s) == NIL && d == if s then q else q + 1
  }

  ghost function Insert(cs: seq<Cell>, q: int, s: bool, d: int): (r: seq<Cell>)
    requires Free(cs, q, s, d)
    ensures |r| == |cs| + 1
  {
    seq(|cs| + 1, j requires 0 <= j <= |cs| =>
      if j == d then Cell(NIL, NIL, Up(q, d), true, d, d + 1, 0)
      else var i := if j > d then j - 1 else j; Moved(cs[i], i, q, s, d))
  }

  ghost predicate Inserted(cs: seq<Cell>, r: seq<Cell>, q: int, s: bool, d: int) {
    && |r| == |cs| + 1 && Free(cs, q, s, d)
    && r[d] == Cell(NIL, NIL, Up(q, d), true, d, d + 1, 0)
    && forall i {:trigger Up(i, d)} :: 0 <= i < |cs| ==> r[Up(i, d)] == Moved(cs[i], i, q, s, d)
  }

  lemma InsertCells(cs: seq<Cell>, q: int, s: bool, d: int)
    requires Free(cs, q, s, d)
    ensures Inserted(cs, Insert(cs, q, s, d), q, s, d)
  {
    hide Moved;
  }

  lemma MovedKid(cs: seq<Cell>, r: seq<Cell>, root: int, q: int, s: bool, d: int, k: int, i: int, lo: int, hi: int)
    requires Linked(cs, root) && Inserted(cs, r, q, s, d)
    requires Kid(cs, k, i, lo, hi) && i != q && 0 <= i && lo < hi && (lo <= q < hi || hi <= d || d <= lo)
    ensures var over := lo <= q < hi;
            Kid(r, Up(k, d), Up(i, d), if over then lo else Up(lo, d), if over || hi > d then hi + 1 else hi)
  {
    hide Free, Linked;
    assert In(cs, k);
    assert r[Up(k, d)] == Moved(cs[k], k, q, s, d);
  }

  lemma MovedQ(cs: seq<Cell>, r: seq<Cell>, root: int, q: int, s: bool, d: int)
    requires Linked(cs, root) && Inserted(cs, r, q, s, d)
    ensures LinkedAt(r, Up(root, d), Up(q, d)) && LinkedAt(r, Up(root, d), d)
  {
    assert LinkedAt(cs, root, q);
    if Kd(cs[q], !s) != NIL { assert LinkedAt(cs, root, Kd(cs[q], !s)); }
    if q != root { assert LinkedAt(cs, root, cs[q].parent); }
  }

  /** The stretch of a cell contains q, or lies on one side of the new index. */
  lemma Beside(cs: seq<Cell>, root: int, q: int, s: bool, d: int, i: int)
    requires Linked(cs, root) && Free(cs, q, s, d) && In(cs, i)
    ensures cs[i].lo <= q < cs[i].hi || cs[i].hi <= d || d <= cs[i].lo
  {
    assert LinkedAt(cs, root, i);
  }

  lemma MovedLeft(cs: seq<Cell>, r: seq<Cell>, root: int, q: int, s: bool, d: int, i: int)
    requires Linked(cs, root) && Inserted(cs, r, q, s, d) && In(cs, i) && i != q
    ensures Kid(r, Up(cs[i].left, d), Up(i, d), Moved(cs[i], i, q, s, d).lo, Up(i, d))
  {
    assert LinkedAt(cs, root, i);
    var c := cs[i];
    if c.left != NIL {
      Beside(cs, root, q, s, d, c.left);
      MovedKid(cs, r, root, q, s, d, c.left, i, c.lo, i);
    } 
    Beside(cs, root, q, s, d, i);
  }

  lemma MovedRight(cs: seq<Cell>, r: seq<Cell>, root: int, q: int, s: bool, d: int, i: int)
    requires Linked(cs, root) && Inserted(cs, r, q, s, d) && In(cs, i) && i != q
    ensures Kid(r, Up(cs[i].right, d), Up(i, d), Up(i, d) + 1, Moved(cs[i], i, q, s, d).hi)
  {
    assert LinkedAt(cs, root, i);
    var c := cs[i];
    if c.right != NIL {
      Beside(cs, root, q, s, d, c.right);
      MovedKid(cs, r, root, q, s, d, c.right, i, i + 1, c.hi);
    }
    Beside(cs, root, q, s, d, i);
  }

  lemma MovedElse(cs: seq<Cell>, r: seq<Cell>, root: int, q: int, s: bool, d: int, i: int)
    requires Linked(cs, root) && Inserted(cs, r, q, s, d) && In(cs, i) && i != q
    ensures LinkedAt(r, Up(root, d), Up(i, d))
  {
    MovedLeft(cs, r, root, q, s, d, i);
    MovedRight(cs, r, root, q, s, d, i);
    assert LinkedAt(cs, root, i);
    Beside(cs, root, q, s, d, i);
    assert r[Up(i, d)] == Moved(cs[i], i, q, s, d);
    if i != root {
      var g := cs[i].parent;
      assert r[Up(g, d)] == Moved(cs[g], g, q, s, d);
    }
  }

  /** Hanging a new leaf at a free side of q keeps the tree linked; the leaf gets index d and pushes up the rest. */
  lemma InsertLinked(cs: seq<Cell>, root: int, q: int, s: bool, d: int)
    requires Linked(cs, root) && Free(cs, q, s, d)
    ensures Linked(Insert(cs, q, s, d), Up(root, d))
  {
    var r, root' := Insert(cs, q, s, d), Up(root, d);
    InsertCells(cs, q, s, d);
    assert In(cs, root);
    hide Insert, Inserted, LinkedAt, Moved, Free, Up;
    forall j | 0 <= j < |r|
      ensures LinkedAt(r, root', j)
    {
      MovedIndex(cs, r, root, q, s, d, j);
    }
    UpIn(|cs|, root, d);
  }

  lemma UpIn(n: nat, k: int, d: int)
    requires 0 <= k < n
    ensures 0 <= Up(k, d) <= n
  {}

  lemma MovedIndex(cs: seq<Cell>, r: seq<Cell>, root: int, q: int, s: bool, d: int, j: int)
    requires Linked(cs, root) && Inserted(cs, r, q, s, d) && In(r, j)
    ensures LinkedAt(r, Up(root, d), j)
  {
    hide LinkedAt, Linked, Moved;
    MovedQ(cs, r, root, q, s, d);
    var i := if j > d then j - 1 else j;
    if j != d && i != q { MovedElse(cs, r, root, q, s, d, i); }
  }

  /** Cell i once d is gone and d's only child t hangs in its place. */
  ghost function Lowered(c: Cell, i: int, d: int, t: int, dp: int): Cell {
    Cell(Down(if c.left == d then t else c.left, d), Down(if c.right == d then t else c.right, d),
         Down(if i == t then dp else c.parent, d), c.red, Down(c.lo, d), Down(c.hi, d), c.h)
  }

  ghost predicate Thin(cs: seq<Cell>, d: int, t: int) {
    In(cs, d) && (cs[d].left == NIL || cs[d].right == NIL)
    && t == if cs[d].left == NIL then cs[d].right else cs[d].left
  }

  ghost function Remove(cs: seq<Cell>, d: int, t: int): (r: seq<Cell>)
    requires Thin(cs, d, t)
    ensures |r| == |cs| - 1
  {
    seq(|cs| - 1, j requires 0 <= j < |cs| - 1 =>
      var i := if j >= d then j + 1 else j; Lowered(cs[i], i, d, t, cs[d].parent))
  }

  ghost predicate Removed(cs: seq<Cell>, r: seq<Cell>, d: int, t: int) {
    && |r| == |cs| - 1 && Thin(cs, d, t)
    && forall i {:trigger Down(i, d)} :: 0 <= i < |cs| && i != d ==>
        r[Down(i, d)] == Lowered(cs[i], i, d, t, cs[d].parent)
  }

  lemma RemoveCells(cs: seq<Cell>, d: int, t: int)
    requires Thin(cs, d, t)
    ensures Removed(cs, Remove(cs, d, t), d, t)
  {
    hide Lowered;
  }

  lemma LoweredKid(cs: seq<Cell>, r: seq<Cell>, root: int, d: int, t: int, k: int, i: int, lo: int, hi: int)
    requires Linked(cs, root) && Removed(cs, r, d, t)
    requires Kid(cs, k, i, lo, hi) && k != d && i != d && 0 <= i && lo < hi
    ensures Kid(r, Down(k, d), Down(i, d), Down(lo, d), Down(hi, d)) && k != t
  {
    if t != NIL { assert LinkedAt(cs, root, d); }
    assert LinkedAt(cs, root, k);
    hide Thin, Linked, LinkedAt;
    assert r[Down(k, d)] == Lowered(cs[k], k, d, t, cs[d].parent);
  }

  /** The child of d takes d's place below i. */
  lemma LoweredHeir(cs: seq<Cell>, r: seq<Cell>, root: int, d: int, t: int, i: int, lo: int, hi: int)
    requires Linked(cs, root) && Removed(cs, r, d, t)
    requires Kid(cs, d, i, lo, hi) && i != d && 0 <= i && lo < hi
    ensures Kid(r, Down(t, d), Down(i, d), Down(lo, d), Down(hi, d))
  {
    assert LinkedAt(cs, root, d);
    if t != NIL { assert r[Down(t, d)] == Lowered(cs[t], t, d, t, cs[d].parent); }
  }

  lemma LoweredSide(cs: seq<Cell>, r: seq<Cell>, root: int, d: int, t: int, k: int, i: int, lo: int, hi: int)
    requires Linked(cs, root) && Removed(cs, r, d, t)
    requires Kid(cs, k, i, lo, hi) && i != d && In(cs, i) && lo <= hi
    ensures Kid(r, Down(if k == d then t else k, d), Down(i, d), Down(lo, d), Down(hi, d))
  {
    if lo < hi {
      if k == d { LoweredHeir(cs, r, root, d, t, i, lo, hi); } else { LoweredKid(cs, r, root, d, t, k, i, lo, hi); }
    }
  }

  lemma LoweredBelow(cs: seq<Cell>, r: seq<Cell>, root: int, d: int, t: int, i: int)
    requires Linked(cs, root) && Removed(cs, r, d, t) && In(cs, i) && i != d && i != root && i != t
    ensures var c := r[Down(i, d)];
      In(r, c.parent) && (r[c.parent].left == Down(i, d) || r[c.parent].right == Down(i, d))
  {
    assert LinkedAt(cs, root, i) && LinkedAt(cs, root, d);
    var g := cs[i].parent;
    assert g != d;
    assert r[Down(i, d)] == Lowered(cs[i], i, d, t, cs[d].parent);
    assert r[Down(g, d)] == Lowered(cs[g], g, d, t, cs[d].parent);
  }

  lemma LoweredBelowHeir(cs: seq<Cell>, r: seq<Cell>, root: int, d: int, t: int)
    requires Linked(cs, root) && Removed(cs, r, d, t) && t != NIL && d != root
    ensures In(cs, t) && t != d
    ensures var c := r[Down(t, d)];
      In(r, c.parent) && (r[c.parent].left == Down(t, d) || r[c.parent].right == Down(t, d))
  {
    assert LinkedAt(cs, root, d);
    var g := cs[d].parent;
    assert LinkedAt(cs, root, g) && In(cs, t) && In(cs, g);
    assert r[Down(t, d)] == Lowered(cs[t], t, d, t, g);
    assert r[Down(g, d)] == Lowered(cs[g], g, d, t, g);
  }

  lemma LoweredElse(cs: seq<Cell>, r: seq<Cell>, root: int, d: int, t: int, i: int)
    requires Linked(cs, root) && Removed(cs, r, d, t) && In(cs, i) && i != d
    ensures LinkedAt(r, Down(if d == root then t else root, d), Down(i, d))
  {
    assert LinkedAt(cs, root, i) && LinkedAt(cs, root, d);
    var c := cs[i];
    assert r[Down(i, d)] == Lowered(cs[i], i, d, t, cs[d].parent);
    LoweredSide(cs, r, root, d, t, c.left, i, c.lo, i);
    LoweredSide(cs, r, root, d, t, c.right, i, i + 1, c.hi);
    if i == t { if d != root { LoweredBelowHeir(cs, r, root, d, t); } }
    else if i != root { LoweredBelow(cs, r, root, d, t, i); }
  }

  /** Taking out a cell with at most one child keeps the tree linked; the indices above it come down by one. */
  lemma RemoveLinked(cs: seq<Cell>, root: int, d: int, t: int)
    requires Linked(cs, root) && Thin(cs, d, t)
    ensures Linked(Remove(cs, d, t), Down(if d == root then t else root, d))
  {
    var r, root' := Remove(cs, d, t), Down(if d == root then t else root, d);
    RemoveCells(cs, d, t);
    RemovedRoot(cs, root, d, t);
    hide Remove, Removed, LinkedAt, Lowered, Down, Thin;
    forall j | 0 <= j < |r|
      ensures LinkedAt(r, root', j)
    {
      LoweredIndex(cs, r, root, d, t, j);
    }
  }

  lemma RemovedRoot(cs: seq<Cell>, root: int, d: int, t: int)
    requires Linked(cs, root) && Thin(cs, d, t)
    ensures var root' := Down(if d == root then t else root, d);
      if |cs| == 1 then root' == NIL else 0 <= root' < |cs| - 1
  {
    assert LinkedAt(cs, root, d);
  }

  lemma LoweredIndex(cs: seq<Cell>, r: seq<Cell>, root: int, d: int, t: int, j: int)
    requires Linked(cs, root) && Removed(cs, r, d, t) && In(r, j)
    ensures LinkedAt(r, Down(if d == root then t else root, d), j)
  {
    hide LinkedAt, Linked, Lowered;
    LoweredElse(cs, r, root, d, t, if j >= d then j + 1 else j);
  }
}
