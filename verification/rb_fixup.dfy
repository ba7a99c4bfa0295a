/**
The steps of the two fix-up loops: each keeps the rules, moves the one violation up, or ends it.
*/
module RbFixup {
  import opened RbCells
  import opened RbColours

  /** A red-black tree: linked in order, equal black heights, no red child of a red node, black root. */
  ghost predicate Good(cs: seq<Cell>, root: int) {
    Linked(cs, root) && Balanced(cs, NIL, true) && Edges(cs, root, NIL, NIL) && !Red(cs, root)
  }

  /** The same, but for the red node e, which may be the root or have a red parent. */
  ghost predicate Fix(cs: seq<Cell>, root: int, e: int) {
    && Linked(cs, root) && Balanced(cs, NIL, true) && Edges(cs, root, e, NIL)
    && Red(cs, e) && (e != root ==> !Red(cs, root))
  }

  predicate SideOf(cs: seq<Cell>, k: int, p: int, s: bool) {
    In(cs, p) && Kd(cs[p], s) == k && Kd(cs[p], !s) != k
  }

  /** Where a node hangs. */
  lemma Hangs(cs: seq<Cell>, root: int, k: int)
    requires Linked(cs, root) && In(cs, k) && k != root
    ensures var p := cs[k].parent; In(cs, p) && p != k && SideOf(cs, k, p, cs[p].left == k)
    ensures cs[cs[k].parent].hi - cs[cs[k].parent].lo > cs[k].hi - cs[k].lo
  {
    assert LinkedAt(cs, root, k);
    assert LinkedAt(cs, root, cs[k].parent);
  }

  /** A red parent has a parent itself, a black one. */
  lemma RedParent(cs: seq<Cell>, root: int, e: int)
    requires Fix(cs, root, e) && e != root && Red(cs, cs[e].parent)
    ensures var p := cs[e].parent; In(cs, p) && p != root && p != e && SideOf(cs, e, p, cs[p].left == e)
    ensures var p := cs[e].parent; var g := cs[p].parent;
            In(cs, g) && g != p && g != e && SideOf(cs, p, g, cs[g].left == p)
    ensures var g := cs[cs[e].parent].parent; !cs[g].red && cs[g].hi - cs[g].lo > cs[e].hi - cs[e].lo
  {
    var p := cs[e].parent;
    Hangs(cs, root, e);
    Hangs(cs, root, p);
    assert EdgeAt(cs, root, p, e, NIL);
  }

  // ---------- insertion

  /** How much of the climb is left: nothing once the parent is black. */
  ghost function FixRank(cs: seq<Cell>, root: int, e: int): int
    requires In(cs, e)
  {
    if e == root || !Red(cs, cs[e].parent) then 0 else 1 + |cs| - (cs[e].hi - cs[e].lo)
  }

  lemma FixRankNat(cs: seq<Cell>, root: int, e: int)
    requires Linked(cs, root) && In(cs, e)
    ensures FixRank(cs, root, e) >= 0
    ensures e != root && Red(cs, cs[e].parent) ==> FixRank(cs, root, e) >= 1
  {
    assert LinkedAt(cs, root, e);
  }

  /** Both children of black g are red: all three change colour, and g is the node to look at next. */
  ghost function Flip(cs: seq<Cell>, g: int, p: int, u: int): (r: seq<Cell>)
    requires In(cs, g) && In(cs, p) && In(cs, u)
    ensures |r| == |cs|
  {
    Dye(Dye(Dye(cs, p, false, 1), u, false, 1), g, true, 0)
  }

  lemma FlipBal(cs: seq<Cell>, root: int, g: int, p: int, u: int, i: int)
    requires Linked(cs, root) && Balanced(cs, NIL, true) && In(cs, g) && In(cs, p) && In(cs, u) && In(cs, i)
    requires !cs[g].red && cs[p].red && cs[u].red && p != u && exists s :: Kd(cs[g], s) == p && Kd(cs[g], !s) == u
    ensures BalAt(Flip(cs, g, p, u), i, NIL, true)
  {
    assert BalAt(cs, i, NIL, true) && BalAt(cs, p, NIL, true) && BalAt(cs, u, NIL, true);
    KidIn(cs, root, i, true);
    KidIn(cs, root, i, false);
    KidIn(cs, root, g, true);
    KidIn(cs, root, g, false);
    hide Linked, Balanced;
  }

  lemma FlipEdge(cs: seq<Cell>, root: int, e: int, g: int, p: int, u: int, i: int)
    requires Linked(cs, root) && Edges(cs, root, e, NIL)
    requires In(cs, g) && In(cs, p) && In(cs, u) && In(cs, i) && In(cs, e)
    requires !cs[g].red && p != u && exists s :: Kd(cs[g], s) == p && Kd(cs[g], !s) == u
    requires cs[e].parent == p
    ensures EdgeAt(Flip(cs, g, p, u), root, i, g, NIL)
  {
    assert EdgeAt(cs, root, i, e, NIL);
    if i != root && cs[i].parent == g { Neighbours(cs, root, g, true, i); }
    KidIn(cs, root, g, true);
    KidIn(cs, root, g, false);
    hide Linked, Edges;
  }

  lemma FlipFix(cs: seq<Cell>, root: int, e: int, g: int, p: int, u: int, s: bool)
    requires Fix(cs, root, e) && e != root && In(cs, g) && In(cs, p) && In(cs, u)
    requires cs[e].parent == p && cs[p].parent == g && Kd(cs[g], s) == p && Kd(cs[g], !s) == u && p != u
    requires !cs[g].red && cs[p].red && cs[u].red
    ensures Fix(Flip(cs, g, p, u), root, g)
    ensures FixRank(Flip(cs, g, p, u), root, g) < FixRank(cs, root, e)
  {
    var r := Flip(cs, g, p, u);
    DyeLinked(cs, root, p, false, 1);
    DyeLinked(Dye(cs, p, false, 1), root, u, false, 1);
    DyeLinked(Dye(Dye(cs, p, false, 1), u, false, 1), root, g, true, 0);
    KidIn(cs, root, g, s);
    KidIn(cs, root, g, !s);
    FlipParts(cs, root, e, g, p, u, s);
    RedParent(cs, root, e);
    FixRankNat(cs, root, e);
  }

  lemma FlipParts(cs: seq<Cell>, root: int, e: int, g: int, p: int, u: int, s: bool)
    requires Fix(cs, root, e) && e != root && In(cs, g) && In(cs, p) && In(cs, u)
    requires cs[e].parent == p && cs[p].parent == g && Kd(cs[g], s) == p && Kd(cs[g], !s) == u && p != u
    requires !cs[g].red && cs[p].red && cs[u].red
    ensures Balanced(Flip(cs, g, p, u), NIL, true) && Edges(Flip(cs, g, p, u), root, g, NIL)
  {
    hide BalAt, EdgeAt, Linked, Flip;
    forall i | 0 <= i < |cs|
      ensures BalAt(Flip(cs, g, p, u), i, NIL, true) && EdgeAt(Flip(cs, g, p, u), root, i, g, NIL)
    {
      FlipBal(cs, root, g, p, u, i);
      FlipEdge(cs, root, e, g, p, u, i);
    }
  }

  lemma DropSkips(cs: seq<Cell>, dp: int, ds: bool, x: int, y: int)
    requires Balanced(cs, dp, ds)
    ensures BalancedBut(cs, dp, ds, x, y)
  {
    hide BalAt;
  }

  /** e lies between its red parent p and its grandparent: rotating it above p makes p the red child of red e. */
  lemma TwistFix(cs: seq<Cell>, root: int, e: int, g: int, p: int, s: bool)
    requires Fix(cs, root, e) && e != root && In(cs, g) && In(cs, p) && p != root && p != e
    requires cs[e].parent == p && cs[p].parent == g && Kd(cs[p], s) == e && cs[p].red && !cs[g].red
    requires Kd(cs[g], !s) == p && Kd(cs[g], s) != p && !Red(cs, Kd(cs[g], s))
    ensures var r := Turn(cs, root, p, s, true, true);
            && Fix(r, root, p) && r[p].parent == e && Red(r, e) && r[e].parent == g && Kd(r[e], !s) == p
            && Kd(r[g], !s) == e && !Red(r, Kd(r[g], s)) && !r[g].red
  {
    TwistReady(cs, root, e, g, p, s);
    DropSkips(cs, NIL, true, p, e);
    TurnGood(cs, root, p, s, true, true, NIL, true, e, p);
    TurnCells(cs, root, p, s, true, true);
    KidIn(cs, root, g, s);
    KidIn(cs, root, g, !s);
    KidIn(cs, root, e, !s);
    hide Turn, Linked, Balanced, Edges;
    TwistShape(cs, Turn(cs, root, p, s, true, true), root, e, g, p, s);
  }

  lemma TwistShape(cs: seq<Cell>, r: seq<Cell>, root: int, e: int, g: int, p: int, s: bool)
    requires In(cs, e) && In(cs, g) && In(cs, p) && p != root
    requires p != e && g != p && g != e && !Red(cs, root) && e != root
    requires cs[e].parent == p && cs[p].parent == g && Kd(cs[p], s) == e && cs[e].red && cs[p].red && !cs[g].red
    requires Kd(cs[g], !s) == p && Kd(cs[g], s) != p && !Red(cs, Kd(cs[g], s))
    requires var u := Kd(cs[g], s); u == NIL || (In(cs, u) && cs[u].parent == g)
    requires var b := Kd(cs[e], !s); b == NIL || (In(cs, b) && cs[b].parent == e && b != root)
    requires Turned(cs, r, root, p, s, true, true, e, Kd(cs[e], !s), g)
    ensures Red(r, p) && !Red(r, root) && r[p].parent == e && Red(r, e) && r[e].parent == g && Kd(r[e], !s) == p
    ensures Kd(r[g], !s) == e && !Red(r, Kd(r[g], s)) && !r[g].red
  {
  }

  /** A turn that keeps both colours is just the rotation. */
  lemma PlainTurn(cs: seq<Cell>, root: int, x: int, s: bool)
    requires Linked(cs, root) && In(cs, x) && Kd(cs[x], s) != NIL && In(cs, Kd(cs[x], s))
    requires var y := Kd(cs[x], s); Around(cs, root, x, s, y, Kd(cs[y], !s), cs[x].parent)
    ensures Turn(cs, root, x, s, cs[x].red, cs[Kd(cs[x], s)].red) == Rot(cs, root, x, s)
  {
    var y := Kd(cs[x], s);
    assert Dye(cs, y, cs[y].red, 0) == cs && Dye(cs, x, cs[x].red, 0) == cs;
  }

  lemma TwistReady(cs: seq<Cell>, root: int, e: int, g: int, p: int, s: bool)
    requires Fix(cs, root, e) && e != root && In(cs, g) && In(cs, p) && p != root && p != e
    requires cs[e].parent == p && cs[p].parent == g && Kd(cs[p], s) == e && cs[p].red && !cs[g].red
    ensures TurnHeights(cs, p, s, true, true, e, NIL, true) && TurnColours(cs, root, p, s, true, true, e, e, p)
  {
    assert BalAt(cs, e, NIL, true) && BalAt(cs, p, NIL, true);
    KidBlack(cs, root, p, !s, e);
    KidBlack(cs, root, e, s, e);
    KidBlack(cs, root, e, !s, e);
    KidsDiffer(cs, root, p);
    KidIn(cs, root, e, s);
    KidIn(cs, root, e, !s);
    hide Linked, Balanced, Edges;
  }

  lemma KidBlack(cs: seq<Cell>, root: int, x: int, s: bool, e: int)
    requires Linked(cs, root) && Edges(cs, root, e, NIL) && In(cs, x) && cs[x].red
    ensures Kd(cs[x], s) == e || !Red(cs, Kd(cs[x], s))
  {
    KidIn(cs, root, x, s);
    KidsDiffer(cs, root, x);
    hide Linked;
    if Red(cs, Kd(cs[x], s)) { assert EdgeAt(cs, root, Kd(cs[x], s), e, NIL); }
  }

  /** Red p, a child of black g whose other child is black, is painted black and rotated above g, now red. */
  lemma LiftReady(cs: seq<Cell>, root: int, g: int, s: bool, dp: int, ds: bool, e: int)
    requires Linked(cs, root) && In(cs, g) && In(cs, Kd(cs[g], s)) && Balanced(cs, dp, ds) && Edges(cs, root, e, NIL)
    requires !cs[g].red && cs[Kd(cs[g], s)].red
    requires !Red(cs, Kd(cs[g], !s)) && dp != Kd(cs[g], s) && !(dp == g && ds == s)
    requires e == NIL || e == Kd(cs[Kd(cs[g], s)], s)
    ensures TurnHeights(cs, g, s, true, false, Kd(cs[g], s), dp, ds)
    ensures TurnColours(cs, root, g, s, true, false, Kd(cs[g], s), e, NIL)
  {
    var p := Kd(cs[g], s);
    assert BalAt(cs, g, dp, ds) && BalAt(cs, p, dp, ds);
    KidBlack(cs, root, p, !s, e);
    KidsDiffer(cs, root, p);
    KidIn(cs, root, p, s);
    KidIn(cs, root, p, !s);
    hide Linked, Balanced, Edges;
  }

  lemma Lift(cs: seq<Cell>, root: int, g: int, s: bool, dp: int, ds: bool, e: int)
    requires Linked(cs, root) && In(cs, g) && In(cs, Kd(cs[g], s)) && Balanced(cs, dp, ds) && Edges(cs, root, e, NIL)
    requires !cs[g].red && cs[Kd(cs[g], s)].red
    requires !Red(cs, Kd(cs[g], !s)) && dp != Kd(cs[g], s) && !(dp == g && ds == s)
    requires e == NIL || e == Kd(cs[Kd(cs[g], s)], s)
    ensures var r := Turn(cs, root, g, s, true, false); var root' := if g == root then Kd(cs[g], s) else root;
            Linked(r, root') && Balanced(r, dp, ds) && Edges(r, root', NIL, NIL)
  {
    LiftReady(cs, root, g, s, dp, ds, e);
    DropSkips(cs, dp, ds, g, Kd(cs[g], s));
    TurnGood(cs, root, g, s, true, false, dp, ds, e, NIL);
  }

  /** The last step of an insertion. */
  lemma LiftFix(cs: seq<Cell>, root: int, e: int, g: int, p: int, s: bool)
    requires Fix(cs, root, e) && e != root && In(cs, g) && In(cs, p) && p != root && p != e && g != p && g != e
    requires cs[e].parent == p && cs[p].parent == g && Kd(cs[p], s) == e && Kd(cs[g], s) == p && cs[p].red && !cs[g].red
    requires !Red(cs, Kd(cs[g], !s))
    ensures var r := Turn(cs, root, g, s, true, false); var root' := if g == root then p else root;
            Fix(r, root', e) && e != root' && r[e].parent == p && !Red(r, p)
  {
    hide Turn, Linked, Balanced, Edges;
    Lift(cs, root, g, s, NIL, true, e);
    TurnCells(cs, root, g, s, true, false);
    KidIn(cs, root, p, !s);
    KidsDiffer(cs, root, p);
    var r, root' := Turn(cs, root, g, s, true, false), if g == root then p else root;
    WeakenEdges(r, root', e);
    assert Turned(cs, r, root, g, s, true, false, p, Kd(cs[p], !s), cs[g].parent);
    assert r[p] == RotY(cs[g], g, cs[p], s).(red := false);
  }

  lemma WeakenEdges(cs: seq<Cell>, root: int, e: int)
    requires Edges(cs, root, NIL, NIL)
    ensures Edges(cs, root, e, NIL)
  {
    forall i | 0 <= i < |cs|
      ensures EdgeAt(cs, root, i, e, NIL)
    {
      assert EdgeAt(cs, root, i, NIL, NIL);
    }
  }

  /** Once the loop has ended, painting the root black makes a red-black tree. */
  lemma FixDone(cs: seq<Cell>, root: int, e: int)
    requires Fix(cs, root, e) && (e == root || !Red(cs, cs[e].parent))
    ensures In(cs, root) && Good(Dye(cs, root, false, if cs[root].red then 1 else 0), root)
  {
    assert In(cs, root);
    var r := Dye(cs, root, false, if cs[root].red then 1 else 0);
    DyeLinked(cs, root, root, false, if cs[root].red then 1 else 0);
    hide BalAt, EdgeAt, Linked;
    forall i | 0 <= i < |cs|
      ensures BalAt(r, i, NIL, true) && EdgeAt(r, root, i, NIL, NIL)
    {
      FixDoneAt(cs, root, e, i);
    }
  }

  lemma FixDoneAt(cs: seq<Cell>, root: int, e: int, i: int)
    requires Fix(cs, root, e) && (e == root || !Red(cs, cs[e].parent)) && In(cs, i) && In(cs, root)
    ensures var r := Dye(cs, root, false, if cs[root].red then 1 else 0);
            BalAt(r, i, NIL, true) && EdgeAt(r, root, i, NIL, NIL)
  {
    assert BalAt(cs, i, NIL, true) && EdgeAt(cs, root, i, e, NIL);
    KidIn(cs, root, i, true);
    KidIn(cs, root, i, false);
    hide Linked, Balanced, Edges;
  }

  // ---------- deletion

  /** temp t hangs on the ds-side of dp, which is one black node short; t may be red, below a red node. */
  ghost predicate Short(cs: seq<Cell>, root: int, t: int, dp: int, ds: bool) {
    && Linked(cs, root) && Balanced(cs, dp, ds) && Edges(cs, root, t, t)
    && (t == NIL || In(cs, t))
    && (if t == root then dp == NIL else SideOf(cs, t, dp, ds) && !Red(cs, root))
  }

  /** How much of the climb is left. */
  ghost function ShortRank(cs: seq<Cell>, root: int, t: int): int {
    if t == root || Red(cs, t) then 0 else if In(cs, t) then 1 + |cs| - (cs[t].hi - cs[t].lo) else 1 + |cs|
  }

  lemma ShortRankNat(cs: seq<Cell>, root: int, t: int)
    requires Linked(cs, root)
    ensures ShortRank(cs, root, t) >= 0
    ensures t != root && !Red(cs, t) ==> ShortRank(cs, root, t) >= 1
  {
    if In(cs, t) { assert LinkedAt(cs, root, t); }
  }

  /** A black temp excuses no edge. */
  lemma BlackTemp(cs: seq<Cell>, root: int, t: int)
    requires Linked(cs, root) && Edges(cs, root, t, t) && !Red(cs, t)
    ensures Edges(cs, root, NIL, NIL)
  {
    hide Linked;
    forall i | 0 <= i < |cs|
      ensures EdgeAt(cs, root, i, NIL, NIL)
    {
      assert EdgeAt(cs, root, i, t, t);
    }
  }

  /** The sibling of a short temp is a real node: it has a black node at least below it, or is one. */
  lemma Sibling(cs: seq<Cell>, root: int, t: int, p: int, s: bool)
    requires Short(cs, root, t, p, s) && t != root
    ensures var w := Kd(cs[p], !s); In(cs, w) && w != t && w != p && cs[w].parent == p && w != root
    ensures t != NIL ==> cs[t].parent == p && t != p
    ensures cs[Kd(cs[p], !s)].h == H(cs, t) + 1 && H(cs, t) >= 0
  {
    assert BalAt(cs, p, p, s);
    KidIn(cs, root, p, s);
    KidIn(cs, root, p, !s);
    if t != NIL { assert BalAt(cs, t, p, s); }
  }

  /** Red sibling w: black above a red parent, it gives temp a black sibling. */
  lemma RedSibling(cs: seq<Cell>, root: int, t: int, p: int, s: bool)
    requires Short(cs, root, t, p, s) && t != root && !Red(cs, t) && In(cs, Kd(cs[p], !s)) && cs[Kd(cs[p], !s)].red
    ensures var w := Kd(cs[p], !s);
            var r, root' := Turn(cs, root, p, !s, true, false), if p == root then w else root;
            Short(r, root', t, p, s) && t != root' && !Red(r, t) && r[p].red && !Red(r, Kd(r[p], !s))
  {
    var w := Kd(cs[p], !s);
    Sibling(cs, root, t, p, s);
    BlackTemp(cs, root, t);
    assert EdgeAt(cs, root, w, NIL, NIL) && BalAt(cs, w, p, s);
    Lift(cs, root, p, !s, p, s, NIL);
    TurnCells(cs, root, p, !s, true, false);
    var r, root' := Turn(cs, root, p, !s, true, false), if p == root then w else root;
    LooseEdges(r, root', t);
    KidBlack(cs, root, w, s, NIL);
    KidIn(cs, root, w, s);
    KidsDiffer(cs, root, w);
    RedSiblingColours(cs, r, root, t, p, s, w);
  }

  lemma RedSiblingColours(cs: seq<Cell>, r: seq<Cell>, root: int, t: int, p: int, s: bool, w: int)
    requires Linked(cs, root) && In(cs, p) && In(cs, w) && w == Kd(cs[p], !s) && Kd(cs[p], s) == t && t != w
    requires !Red(cs, t) && !Red(cs, root) && w != root && w != p
    requires cs[w].red && !Red(cs, Kd(cs[w], s)) && (t == NIL || In(cs, t))
    requires (t != NIL ==> cs[t].parent == p && t != p) && t != root
    requires In(cs, Kd(cs[w], s)) && cs[Kd(cs[w], s)].parent == w && Kd(cs[w], s) != root
    requires Turned(cs, r, root, p, !s, true, false, w, Kd(cs[w], s), cs[p].parent)
    ensures var root' := if p == root then w else root;
            SideOf(r, t, p, s) && !Red(r, root') && t != root' && !Red(r, t) && r[p].red && !Red(r, Kd(r[p], !s))
  {
    KidIn(cs, root, p, s);
    hide Linked;
  }

  lemma LooseEdges(cs: seq<Cell>, root: int, t: int)
    requires Edges(cs, root, NIL, NIL)
    ensures Edges(cs, root, t, t)
  {
    forall i | 0 <= i < |cs|
      ensures EdgeAt(cs, root, i, t, t)
    {
      assert EdgeAt(cs, root, i, NIL, NIL);
    }
  }

  /** Black sibling with black children: painted red, it passes the shortage on to the parent. */
  ghost function PassUp(cs: seq<Cell>, w: int, p: int): (r: seq<Cell>)
    requires In(cs, w) && In(cs, p)
    ensures |r| == |cs|
  {
    var c1 := Dye(cs, w, true, -1);
    Dye(c1, p, c1[p].red, -1)
  }

  ghost function UpperParent(cs: seq<Cell>, root: int, p: int): int
    requires In(cs, p)
  {
    if p == root then NIL else cs[p].parent
  }

  ghost function UpperSide(cs: seq<Cell>, root: int, p: int): bool
    requires In(cs, p)
  {
    p != root && In(cs, cs[p].parent) && cs[cs[p].parent].left == p
  }

  lemma PassUpBal(cs: seq<Cell>, root: int, t: int, p: int, s: bool, w: int, i: int)
    requires Short(cs, root, t, p, s) && t != root && w == Kd(cs[p], !s) && In(cs, w) && !cs[w].red && In(cs, i)
    ensures BalAt(PassUp(cs, w, p), i, UpperParent(cs, root, p), UpperSide(cs, root, p))
  {
    Sibling(cs, root, t, p, s);
    assert BalAt(cs, i, p, s) && BalAt(cs, w, p, s) && BalAt(cs, p, p, s);
    if p != root { Hangs(cs, root, p); }
    KidIn(cs, root, i, true);
    KidIn(cs, root, i, false);
    KidIn(cs, root, w, true);
    KidIn(cs, root, w, false);
    KidsDiffer(cs, root, p);
    KidsDiffer(cs, root, i);
    hide Linked, Balanced, Edges, Short;
    PassUpLocal(cs, root, t, p, s, w, i);
  }

  lemma PassUpLocal(cs: seq<Cell>, root: int, t: int, p: int, s: bool, w: int, i: int)
    requires In(cs, p) && In(cs, w) && In(cs, i) && w == Kd(cs[p], !s)
    requires t == Kd(cs[p], s) && w != t && w != p && cs[w].parent == p
    requires w != root && !cs[w].red && (t == NIL || (In(cs, t) && t != p)) && H(cs, t) >= 0 && cs[w].h == H(cs, t) + 1
    requires BalAt(cs, i, p, s) && BalAt(cs, w, p, s) && BalAt(cs, p, p, s)
    requires p != root ==> var g := cs[p].parent; In(cs, g) && g != p && SideOf(cs, p, g, cs[g].left == p)
    requires forall d :: var k := Kd(cs[i], d); k == NIL || (In(cs, k) && cs[k].parent == i && k != root && k != i)
    requires forall d :: var k := Kd(cs[w], d); k == NIL || (In(cs, k) && cs[k].parent == w && k != root && k != w)
    ensures BalAt(PassUp(cs, w, p), i, UpperParent(cs, root, p), UpperSide(cs, root, p))
  {
    hide BalAt, PassUp, UpperParent, UpperSide, SideOf;
    if i == p || i == w {
      PassUpHere(cs, root, t, p, s, w, i);
    } else {
      PassUpElse(cs, root, t, p, s, w, i);
    }
  }

  lemma PassUpHere(cs: seq<Cell>, root: int, t: int, p: int, s: bool, w: int, i: int)
    requires In(cs, p) && In(cs, w) && In(cs, i) && w == Kd(cs[p], !s)
    requires t == Kd(cs[p], s) && w != t && w != p && cs[w].parent == p
    requires w != root && !cs[w].red && (t == NIL || (In(cs, t) && t != p)) && H(cs, t) >= 0 && cs[w].h == H(cs, t) + 1
    requires BalAt(cs, i, p, s) && BalAt(cs, w, p, s) && BalAt(cs, p, p, s)
    requires p != root ==> var g := cs[p].parent; In(cs, g) && g != p && SideOf(cs, p, g, cs[g].left == p)
    requires forall d :: var k := Kd(cs[i], d); k == NIL || (In(cs, k) && cs[k].parent == i && k != root && k != i)
    requires forall d :: var k := Kd(cs[w], d); k == NIL || (In(cs, k) && cs[k].parent == w && k != root && k != w)
    requires i == p || i == w
    ensures BalAt(PassUp(cs, w, p), i, UpperParent(cs, root, p), UpperSide(cs, root, p))
  {
  }

  lemma PassUpElse(cs: seq<Cell>, root: int, t: int, p: int, s: bool, w: int, i: int)
    requires In(cs, p) && In(cs, w) && In(cs, i) && w == Kd(cs[p], !s)
    requires t == Kd(cs[p], s) && w != t && w != p && cs[w].parent == p
    requires w != root && !cs[w].red && (t == NIL || (In(cs, t) && t != p)) && H(cs, t) >= 0 && cs[w].h == H(cs, t) + 1
    requires BalAt(cs, i, p, s) && BalAt(cs, w, p, s) && BalAt(cs, p, p, s)
    requires p != root ==> var g := cs[p].parent; In(cs, g) && g != p && SideOf(cs, p, g, cs[g].left == p)
    requires forall d :: var k := Kd(cs[i], d); k == NIL || (In(cs, k) && cs[k].parent == i && k != root && k != i)
    requires forall d :: var k := Kd(cs[w], d); k == NIL || (In(cs, k) && cs[k].parent == w && k != root && k != w)
    requires i != p && i != w
    ensures BalAt(PassUp(cs, w, p), i, UpperParent(cs, root, p), UpperSide(cs, root, p))
  {
  }

  lemma PassUpEdge(cs: seq<Cell>, root: int, t: int, p: int, s: bool, w: int, i: int)
    requires Short(cs, root, t, p, s) && t != root && w == Kd(cs[p], !s) && In(cs, w) && !cs[w].red && !Red(cs, t)
    requires !Red(cs, cs[w].left) && !Red(cs, cs[w].right) && In(cs, i)
    ensures EdgeAt(PassUp(cs, w, p), root, i, p, p)
  {
    Sibling(cs, root, t, p, s);
    BlackTemp(cs, root, t);
    assert EdgeAt(cs, root, i, NIL, NIL);
    if i != root && cs[i].parent == w { Neighbours(cs, root, w, true, i); }
    hide Short, Linked, Balanced, Edges;
  }

  lemma PassUpShort(cs: seq<Cell>, root: int, t: int, p: int, s: bool, w: int)
    requires Short(cs, root, t, p, s) && t != root && w == Kd(cs[p], !s) && In(cs, w) && !cs[w].red && !Red(cs, t)
    requires !Red(cs, cs[w].left) && !Red(cs, cs[w].right)
    ensures Short(PassUp(cs, w, p), root, p, UpperParent(cs, root, p), UpperSide(cs, root, p))
    ensures cs[p].red ==> ShortRank(PassUp(cs, w, p), root, p) == 0
    ensures ShortRank(PassUp(cs, w, p), root, p) < ShortRank(cs, root, t)
  {
    var r := PassUp(cs, w, p);
    Sibling(cs, root, t, p, s);
    DyeLinked(cs, root, w, true, -1);
    DyeLinked(Dye(cs, w, true, -1), root, p, Dye(cs, w, true, -1)[p].red, -1);
    if p != root { Hangs(cs, root, p); }
    if t != NIL { Hangs(cs, root, t); }
    ShortRankNat(cs, root, t);
    assert LinkedAt(cs, root, p);
    PassUpParts(cs, root, t, p, s, w);
    hide Linked, Balanced, Edges;
  }

  lemma PassUpParts(cs: seq<Cell>, root: int, t: int, p: int, s: bool, w: int)
    requires Short(cs, root, t, p, s) && t != root && w == Kd(cs[p], !s) && In(cs, w) && !cs[w].red && !Red(cs, t)
    requires !Red(cs, cs[w].left) && !Red(cs, cs[w].right)
    ensures Balanced(PassUp(cs, w, p), UpperParent(cs, root, p), UpperSide(cs, root, p))
    ensures Edges(PassUp(cs, w, p), root, p, p)
  {
    hide BalAt, EdgeAt, Linked, PassUp, UpperParent, UpperSide;
    forall i | 0 <= i < |cs|
      ensures BalAt(PassUp(cs, w, p), i, UpperParent(cs, root, p), UpperSide(cs, root, p))
      ensures EdgeAt(PassUp(cs, w, p), root, i, p, p)
    {
      PassUpBal(cs, root, t, p, s, w, i);
      PassUpEdge(cs, root, t, p, s, w, i);
    }
  }

  /** Black sibling whose outer child is black and inner child red: a rotation makes the outer one red. */
  lemma NearRed(cs: seq<Cell>, root: int, t: int, p: int, s: bool, w: int)
    requires Short(cs, root, t, p, s) && t != root && w == Kd(cs[p], !s) && In(cs, w) && !cs[w].red && !Red(cs, t)
    requires Red(cs, Kd(cs[w], s)) && !Red(cs, Kd(cs[w], !s))
    ensures var r := Turn(cs, root, w, s, true, false);
            Short(r, root, t, p, s) && Kd(r[p], !s) == Kd(cs[w], s) && !cs[w].red && r[p].red == cs[p].red
    ensures var r := Turn(cs, root, w, s, true, false);
            !Red(r, Kd(cs[w], s)) && Kd(r[Kd(cs[w], s)], !s) == w && Red(r, w) && !Red(r, t)
  {
    Sibling(cs, root, t, p, s);
    BlackTemp(cs, root, t);
    var n := Kd(cs[w], s);
    KidIn(cs, root, w, s);
    Hangs(cs, root, w);
    Hangs(cs, root, n);
    Lift(cs, root, w, s, p, s, NIL);
    TurnCells(cs, root, w, s, true, false);
    var r := Turn(cs, root, w, s, true, false);
    LooseEdges(r, root, t);
    KidIn(cs, root, n, !s);
    hide Linked, Balanced, Edges;
    NearRedShape(cs, r, root, t, p, s, w, n);
  }

  lemma NearRedShape(cs: seq<Cell>, r: seq<Cell>, root: int, t: int, p: int, s: bool, w: int, n: int)
    requires In(cs, p) && In(cs, w) && In(cs, n) && w == Kd(cs[p], !s) && Kd(cs[p], s) == t && n == Kd(cs[w], s)
    requires w != t && w != root && w != p && cs[w].parent == p
    requires (t == NIL || (In(cs, t) && cs[t].parent == p && t != p))
    requires t != root && cs[n].parent == w && n != root && n != w && !Red(cs, t) && !Red(cs, root)
    requires var b := Kd(cs[n], !s); b == NIL || (In(cs, b) && cs[b].parent == n && b != root && b != n)
    requires Turned(cs, r, root, w, s, true, false, n, Kd(cs[n], !s), p)
    ensures SideOf(r, t, p, s) && !Red(r, root) && Kd(r[p], !s) == n && r[p].red == cs[p].red
    ensures !Red(r, n) && Kd(r[n], !s) == w && Red(r, w) && !Red(r, t)
  {
  }

  /** Black sibling w with a red outer child c: the last rotation, which makes up the missing black node. */
  ghost function Settle(cs: seq<Cell>, root: int, p: int, s: bool, c: int): (r: seq<Cell>)
    requires Linked(cs, root) && In(cs, p) && In(cs, c) && Kd(cs[p], !s) != NIL
    ensures |r| == |cs|
  {
    DyeLinked(cs, root, c, false, 1);
    Turn(Dye(cs, c, false, 1), root, p, !s, false, cs[p].red)
  }

  /** The program paints the outer child last. */
  lemma SettleOrder(cs: seq<Cell>, w: int, p: int, c: int, red: bool)
    requires In(cs, w) && In(cs, p) && In(cs, c) && w != p && w != c && p != c
    ensures Dye(Dye(Dye(cs, w, red, 0), p, false, 0), c, false, 1) ==
      Dye(Dye(Dye(cs, c, false, 1), w, red, 0), p, false, 0)
  {
  }

  lemma SettleApart(cs: seq<Cell>, root: int, p: int, w: int, c: int)
    requires Linked(cs, root) && In(cs, p) && In(cs, w) && In(cs, c) && (cs[p].left == w || cs[p].right == w)
    requires cs[w].left == c || cs[w].right == c
    ensures w != p && w != c && p != c
  {
    KidIn(cs, root, p, cs[p].left == w);
    KidIn(cs, root, w, cs[w].left == c);
    Hangs(cs, root, w);
    Hangs(cs, root, c);
  }

  lemma SettleReady(cs: seq<Cell>, root: int, t: int, p: int, s: bool, w: int, c: int)
    requires Short(cs, root, t, p, s) && t != root && w == Kd(cs[p], !s) && In(cs, w) && !cs[w].red && !Red(cs, t)
    requires c == Kd(cs[w], !s) && Red(cs, c)
    ensures var d := Dye(cs, c, false, 1);
            TurnHeights(d, p, !s, false, cs[p].red, w, NIL, true) &&
                TurnColours(d, root, p, !s, false, cs[p].red, w, NIL, NIL)
  {
    Sibling(cs, root, t, p, s);
    BlackTemp(cs, root, t);
    KidIn(cs, root, w, s);
    KidIn(cs, root, w, !s);
    KidsDiffer(cs, root, w);
    assert BalAt(cs, p, p, s) && BalAt(cs, w, p, s) && BalAt(cs, c, p, s) && EdgeAt(cs, root, p, NIL, NIL);
    hide Linked, Balanced, Edges;
  }

  lemma SettleOthers(cs: seq<Cell>, root: int, t: int, p: int, s: bool, w: int, c: int)
    requires Short(cs, root, t, p, s) && t != root && w == Kd(cs[p], !s) && In(cs, w) && !cs[w].red && !Red(cs, t)
    requires c == Kd(cs[w], !s) && Red(cs, c)
    ensures BalancedBut(Dye(cs, c, false, 1), NIL, true, p, w) && Edges(Dye(cs, c, false, 1), root, NIL, NIL)
  {
    BlackTemp(cs, root, t);
    KidIn(cs, root, w, !s);
    forall i | 0 <= i < |cs|
      ensures EdgeAt(Dye(cs, c, false, 1), root, i, NIL, NIL)
      ensures i != p && i != w ==> BalAt(Dye(cs, c, false, 1), i, NIL, true)
    {
      KidIn(cs, root, i, true);
      KidIn(cs, root, i, false);
      assert BalAt(cs, i, p, s) && EdgeAt(cs, root, i, NIL, NIL);
    }
  }

  lemma SettleGood(cs: seq<Cell>, root: int, t: int, p: int, s: bool, w: int, c: int)
    requires Short(cs, root, t, p, s) && t != root && w == Kd(cs[p], !s) && In(cs, w) && !cs[w].red && !Red(cs, t)
    requires c == Kd(cs[w], !s) && Red(cs, c)
    ensures Good(Settle(cs, root, p, s, c), if p == root then w else root)
  {
    DyeLinked(cs, root, c, false, 1);
    KidIn(cs, root, w, !s);
    var d, root' := Dye(cs, c, false, 1), if p == root then w else root;
    SettleReady(cs, root, t, p, s, w, c);
    SettleOthers(cs, root, t, p, s, w, c);
    Sibling(cs, root, t, p, s);
    TurnGood(d, root, p, !s, false, cs[p].red, NIL, true, NIL, NIL);
    TurnCells(d, root, p, !s, false, cs[p].red);
    KidIn(cs, root, w, s);
    hide Linked, Balanced, Edges;
    SettleRoot(cs, d, Settle(cs, root, p, s, c), root, p, s, w, c);
  }

  /** The same for the program's order of writes. */
  lemma SettleChain(cs: seq<Cell>, root: int, t: int, p: int, s: bool, w: int, c: int)
    requires Short(cs, root, t, p, s) && t != root && w == Kd(cs[p], !s) && In(cs, w) && !cs[w].red && !Red(cs, t)
    requires c == Kd(cs[w], !s) && Red(cs, c)
    ensures var c3 := Dye(Dye(Dye(cs, w, cs[p].red, 0), p, false, 0), c, false, 1);
            && Linked(c3, root) && Kd(c3[p], !s) == w && Around(c3, root, p, !s, w, Kd(c3[w], s), c3[p].parent)
            && Good(Rot(c3, root, p, !s), if p == root then w else root)
  {
    SettleGood(cs, root, t, p, s, w, c);
    SettleApart(cs, root, p, w, c);
    SettleOrder(cs, w, p, c, cs[p].red);
    DyeLinked(cs, root, w, cs[p].red, 0);
    DyeLinked(Dye(cs, w, cs[p].red, 0), root, p, false, 0);
    var c3 := Dye(Dye(Dye(cs, w, cs[p].red, 0), p, false, 0), c, false, 1);
    DyeLinked(Dye(Dye(cs, w, cs[p].red, 0), p, false, 0), root, c, false, 1);
    RotAround(c3, root, p, !s);
    hide Good, Linked, Rot;
  }

  lemma SettleRoot(cs: seq<Cell>, d: seq<Cell>, r: seq<Cell>, root: int, p: int, s: bool, w: int, c: int)
    requires In(cs, p) && In(cs, w) && In(cs, c) && w == Kd(cs[p], !s)
    requires c == Kd(cs[w], !s) && d == Dye(cs, c, false, 1) && c != p && c != w
    requires !Red(cs, root) && !cs[w].red && w != p && w != root
    requires var b := Kd(cs[w], s); b == NIL || (In(cs, b) && cs[b].parent == w && b != root && b != w)
    requires Turned(d, r, root, p, !s, false, cs[p].red, w, Kd(d[w], s), d[p].parent)
    ensures !Red(r, if p == root then w else root)
  {
  }

  /** A good tree is short of nothing, whatever temp is set to. */
  lemma GoodShort(cs: seq<Cell>, root: int)
    requires Good(cs, root)
    ensures Short(cs, root, root, NIL, true)
  {
    LooseEdges(cs, root, root);
    hide LinkedAt, Balanced, Edges;
  }

  ghost function Repay(cs: seq<Cell>, t: int): (r: seq<Cell>)
    ensures |r| == |cs|
  {
    if Red(cs, t) then Dye(cs, t, false, 1) else cs
  }

  lemma ShortDoneAt(cs: seq<Cell>, root: int, t: int, dp: int, ds: bool, i: int)
    requires Short(cs, root, t, dp, ds) && (t == root || Red(cs, t)) && In(cs, i)
    ensures BalAt(Repay(cs, t), i, NIL, true) && EdgeAt(Repay(cs, t), root, i, NIL, NIL)
  {
    assert BalAt(cs, i, dp, ds) && EdgeAt(cs, root, i, t, t);
    KidIn(cs, root, i, true);
    KidIn(cs, root, i, false);
    KidsDiffer(cs, root, i);
    if t != NIL && t != root { Hangs(cs, root, t); KidIn(cs, root, dp, ds); }
    hide Linked, Balanced, Edges;
  }

  /** Painting temp black at the end of the loop makes a red-black tree. */
  lemma ShortDone(cs: seq<Cell>, root: int, t: int, dp: int, ds: bool)
    requires Short(cs, root, t, dp, ds) && (t == root || Red(cs, t))
    ensures Good(Repay(cs, t), root)
  {
    if Red(cs, t) { DyeLinked(cs, root, t, false, 1); }
    hide BalAt, EdgeAt, Linked;
    forall i | 0 <= i < |cs|
      ensures BalAt(Repay(cs, t), i, NIL, true) && EdgeAt(Repay(cs, t), root, i, NIL, NIL)
    {
      ShortDoneAt(cs, root, t, dp, ds, i);
    }
  }

  // ---------- the two ends: a new red leaf, and a node taken out

  lemma InsertedBal(cs: seq<Cell>, r: seq<Cell>, root: int, q: int, s: bool, d: int, i: int)
    requires Linked(cs, root) && Balanced(cs, NIL, true) && Inserted(cs, r, q, s, d) && In(cs, i)
    ensures BalAt(r, Up(i, d), NIL, true) && BalAt(r, d, NIL, true)
  {
    assert BalAt(cs, i, NIL, true);
    KidIn(cs, root, i, true);
    KidIn(cs, root, i, false);
    InsertedH(cs, r, q, s, d, cs[i].left);
    InsertedH(cs, r, q, s, d, cs[i].right);
    hide Linked, Balanced;
    assert r[Up(i, d)] == Moved(cs[i], i, q, s, d);
  }

  lemma InsertedH(cs: seq<Cell>, r: seq<Cell>, q: int, s: bool, d: int, k: int)
    requires Inserted(cs, r, q, s, d) && (k == NIL || In(cs, k))
    ensures H(r, Up(k, d)) == H(cs, k) && (k != NIL ==> Red(r, Up(k, d)) == Red(cs, k))
  {
    if k != NIL { assert r[Up(k, d)] == Moved(cs[k], k, q, s, d); }
  }

  lemma InsertedEdge(cs: seq<Cell>, r: seq<Cell>, root: int, q: int, s: bool, d: int, i: int)
    requires Linked(cs, root) && Edges(cs, root, NIL, NIL) && Inserted(cs, r, q, s, d) && In(cs, i)
    ensures EdgeAt(r, Up(root, d), Up(i, d), d, NIL) && EdgeAt(r, Up(root, d), d, d, NIL)
  {
    assert EdgeAt(cs, root, i, NIL, NIL);
    if i != root { Hangs(cs, root, i); InsertedH(cs, r, q, s, d, cs[i].parent); }
    InsertedH(cs, r, q, s, d, i);
    hide Linked, Edges;
    assert r[Up(i, d)] == Moved(cs[i], i, q, s, d);
  }

  lemma InsertedAt(cs: seq<Cell>, r: seq<Cell>, root: int, q: int, s: bool, d: int, j: int)
    requires Good(cs, root) && Inserted(cs, r, q, s, d) && In(r, j)
    ensures BalAt(r, j, NIL, true) && EdgeAt(r, Up(root, d), j, d, NIL)
  {
    hide Linked, Balanced, Edges, BalAt, EdgeAt;
    var i := if j > d then j - 1 else if j < d then j else q;
    InsertedBal(cs, r, root, q, s, d, i);
    InsertedEdge(cs, r, root, q, s, d, i);
  }

  /** A red leaf hung at a free place breaks at most the rule about red parents, and only for itself. */
  lemma InsertFix(cs: seq<Cell>, root: int, q: int, s: bool, d: int)
    requires Good(cs, root) && Free(cs, q, s, d)
    ensures Fix(Insert(cs, q, s, d), Up(root, d), d)
  {
    InsertLinked(cs, root, q, s, d);
    InsertCells(cs, q, s, d);
    var r := Insert(cs, q, s, d);
    assert In(cs, root);
    InsertedH(cs, r, q, s, d, root);
    hide Linked, BalAt, EdgeAt, Insert, Inserted;
    forall j | 0 <= j < |r|
      ensures BalAt(r, j, NIL, true) && EdgeAt(r, Up(root, d), j, d, NIL)
    {
      InsertedAt(cs, r, root, q, s, d, j);
    }
  }

  lemma RemovedH(cs: seq<Cell>, r: seq<Cell>, d: int, t: int, k: int)
    requires Removed(cs, r, d, t) && (k == NIL || In(cs, k)) && k != d
    ensures H(r, Down(k, d)) == H(cs, k) && (k != NIL ==> In(r, Down(k, d)) && Red(r, Down(k, d)) == Red(cs, k))
  {
    if k != NIL { assert r[Down(k, d)] == Lowered(cs[k], k, d, t, cs[d].parent); }
  }

  /** The child of a thin node has no black node below: the node's other side is empty. */
  lemma ThinHeight(cs: seq<Cell>, root: int, d: int, t: int)
    requires Good(cs, root) && Thin(cs, d, t)
    ensures H(cs, t) == 0 && cs[d].h == (if cs[d].red then 0 else 1)
    ensures (t == NIL || (In(cs, t) && t != d && t != root && cs[t].parent == d))
    ensures cs[d].red ==> !Red(cs, t) && d != root
  {
    assert BalAt(cs, d, NIL, true);
    KidIn(cs, root, d, true);
    KidIn(cs, root, d, false);
    if cs[d].red { KidBlack(cs, root, d, cs[d].left != NIL, NIL); }
  }

  /** The place left short by taking out d. */
  ghost function GapParent(cs: seq<Cell>, root: int, d: int): int
    requires In(cs, d)
  {
    if d == root then NIL else Down(cs[d].parent, d)
  }

  ghost function GapSide(cs: seq<Cell>, root: int, d: int): bool
    requires In(cs, d)
  {
    In(cs, cs[d].parent) && cs[cs[d].parent].left == d
  }

  /** Taking out d changes no side's black height but that of d's place, and that only when d was black. */
  lemma RemovedDue(cs: seq<Cell>, r: seq<Cell>, root: int, d: int, t: int, i: int, s: bool)
    requires Good(cs, root) && Removed(cs, r, d, t) && In(cs, i) && i != d
    ensures Due(r, Down(i, d), s, if cs[d].red then NIL else GapParent(cs, root, d), cs[d].red || GapSide(cs, root, d))
         == Due(cs, i, s, NIL, true)
  {
    ThinHeight(cs, root, d, t);
    KidIn(cs, root, i, s);
    KidsDiffer(cs, root, i);
    var k := Kd(cs[i], s);
    if k == d { RemovedH(cs, r, d, t, t); } else { RemovedH(cs, r, d, t, k); }
    if d != root { Hangs(cs, root, d); }
    hide Good, Linked, Balanced, Edges, Thin, H;
    assert r[Down(i, d)] == Lowered(cs[i], i, d, t, cs[d].parent);
  }

  lemma RemovedBal(cs: seq<Cell>, r: seq<Cell>, root: int, d: int, t: int, i: int)
    requires Good(cs, root) && Removed(cs, r, d, t) && In(cs, i) && i != d
    ensures BalAt(r, Down(i, d), if cs[d].red then NIL else GapParent(cs, root, d), cs[d].red || GapSide(cs, root, d))
  {
    assert BalAt(cs, i, NIL, true);
    RemovedDue(cs, r, root, d, t, i, true);
    RemovedDue(cs, r, root, d, t, i, false);
    hide Good, Linked, Balanced, Edges, Thin, Due, GapParent, GapSide;
    assert r[Down(i, d)] == Lowered(cs[i], i, d, t, cs[d].parent);
  }

  lemma RemovedEdge(cs: seq<Cell>, r: seq<Cell>, root: int, d: int, t: int, i: int)
    requires Good(cs, root) && Removed(cs, r, d, t) && In(cs, i) && i != d
    ensures var root', e := Down(if d == root then t else root, d), if cs[d].red then NIL else Down(t, d);
            EdgeAt(r, root', Down(i, d), e, e)
  {
    assert EdgeAt(cs, root, i, NIL, NIL);
    ThinHeight(cs, root, d, t);
    if i != root {
      Hangs(cs, root, i);
      if cs[i].parent != d { RemovedH(cs, r, d, t, cs[i].parent); }
      else { Neighbours(cs, root, d, true, i); }
    }
    hide Good, Linked, Balanced, Edges;
    assert r[Down(i, d)] == Lowered(cs[i], i, d, t, cs[d].parent);
  }

  lemma RemovedAt(cs: seq<Cell>, r: seq<Cell>, root: int, d: int, t: int, j: int)
    requires Good(cs, root) && Removed(cs, r, d, t) && In(r, j)
    ensures BalAt(r, j, if cs[d].red then NIL else GapParent(cs, root, d), cs[d].red || GapSide(cs, root, d))
    ensures var root', e := Down(if d == root then t else root, d), if cs[d].red then NIL else Down(t, d);
            EdgeAt(r, root', j, e, e)
  {
    hide Good, BalAt, EdgeAt, GapParent, GapSide;
    var i := if j >= d then j + 1 else j;
    RemovedBal(cs, r, root, d, t, i);
    RemovedEdge(cs, r, root, d, t, i);
  }

  lemma RemovedRules(cs: seq<Cell>, root: int, d: int, t: int)
    requires Good(cs, root) && Thin(cs, d, t)
    ensures var r, root' := Remove(cs, d, t), Down(if d == root then t else root, d);
            var e := if cs[d].red then NIL else Down(t, d);
            && Linked(r, root') && Edges(r, root', e, e)
            && Balanced(r, if cs[d].red then NIL else GapParent(cs, root, d), cs[d].red || GapSide(cs, root, d))
  {
    RemoveLinked(cs, root, d, t);
    RemoveCells(cs, d, t);
    var r, root', e := Remove(cs, d, t), Down(if d == root then t else root, d), if cs[d].red then NIL else Down(t, d);
    var dp, ds := if cs[d].red then NIL else GapParent(cs, root, d), cs[d].red || GapSide(cs, root, d);
    hide Good, BalAt, EdgeAt, Remove, Removed, Down, Linked, Thin, GapParent, GapSide;
    forall j | 0 <= j < |r|
      ensures BalAt(r, j, dp, ds) && EdgeAt(r, root', j, e, e)
    {
      RemovedAt(cs, r, root, d, t, j);
    }
  }

  /** Taking out a red node with at most one child leaves a red-black tree. */
  lemma RemoveRed(cs: seq<Cell>, root: int, d: int, t: int)
    requires Good(cs, root) && Thin(cs, d, t) && cs[d].red
    ensures d != root && Good(Remove(cs, d, t), Down(root, d))
  {
    RemovedRules(cs, root, d, t);
    RemoveCells(cs, d, t);
    ThinHeight(cs, root, d, t);
    assert In(cs, root);
    RemovedH(cs, Remove(cs, d, t), d, t, root);
  }

  lemma RemovedGap(cs: seq<Cell>, r: seq<Cell>, root: int, d: int, t: int)
    requires Good(cs, root) && Removed(cs, r, d, t) && !cs[d].red && d != root
    ensures SideOf(r, Down(t, d), GapParent(cs, root, d), GapSide(cs, root, d))
  {
    Hangs(cs, root, d);
    ThinHeight(cs, root, d, t);
    var g := cs[d].parent;
    assert BalAt(cs, g, NIL, true);
    KidIn(cs, root, g, true);
    KidIn(cs, root, g, false);
    hide Good, Linked, Balanced, Edges, Thin;
    assert r[Down(g, d)] == Lowered(cs[g], g, d, t, g);
  }

  /** Taking out a black one leaves its place one black node short. */
  lemma RemoveBlack(cs: seq<Cell>, root: int, d: int, t: int)
    requires Good(cs, root) && Thin(cs, d, t) && !cs[d].red
    ensures Short(Remove(cs, d, t), Down(if d == root then t else root, d), Down(t, d), GapParent(cs, root, d),
                  GapSide(cs, root, d))
  {
    RemovedRules(cs, root, d, t);
    RemoveCells(cs, d, t);
    ThinHeight(cs, root, d, t);
    if d != root {
      Hangs(cs, root, d);
      RemovedH(cs, Remove(cs, d, t), d, t, root);
      RemovedGap(cs, Remove(cs, d, t), root, d, t);
    }
    if t != NIL { RemovedH(cs, Remove(cs, d, t), d, t, t); }
  }
}
