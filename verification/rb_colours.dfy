/**
The colour rules of a red-black tree, cell by cell, and the recolourings and rotations of the two fix-up loops.
While a node is being deleted one place of the tree, the ds-side of dp, may be a black node short.
*/
module RbColours {
  import opened RbCells

  /** The black height below k, the sentinel having none. */
  ghost function H(cs: seq<Cell>, k: int): int {
    if In(cs, k) then cs[k].h else 0
  }

  ghost predicate Red(cs: seq<Cell>, k: int) {
    In(cs, k) && cs[k].red
  }

  /** The black height that the s-side of i should have. */
  ghost function Due(cs: seq<Cell>, i: int, s: bool, dp: int, ds: bool): int
    requires In(cs, i)
  {
    H(cs, Kd(cs[i], s)) + if dp == i && ds == s then 1 else 0
  }

  ghost predicate BalAt(cs: seq<Cell>, i: int, dp: int, ds: bool)
    requires In(cs, i)
  {
    && Due(cs, i, true, dp, ds) == Due(cs, i, false, dp, ds)
    && cs[i].h == Due(cs, i, true, dp, ds) + (if cs[i].red then 0 else 1)
    && cs[i].h >= 0
  }

  /** A red node has a black parent; e, and the children of f, are excused. */
  ghost predicate EdgeAt(cs: seq<Cell>, root: int, i: int, e: int, f: int)
    requires In(cs, i)
  {
    cs[i].red && i != root && i != e && cs[i].parent != f ==> !Red(cs, cs[i].parent)
  }

  ghost predicate Balanced(cs: seq<Cell>, dp: int, ds: bool) {
    forall i {:trigger BalAt(cs, i, dp, ds)} :: 0 <= i < |cs| ==> BalAt(cs, i, dp, ds)
  }

  ghost predicate Edges(cs: seq<Cell>, root: int, e: int, f: int) {
    forall i {:trigger EdgeAt(cs, root, i, e, f)} :: 0 <= i < |cs| ==> EdgeAt(cs, root, i, e, f)
  }

  /** Paint i and correct the black height recorded for it. */
  ghost function Dye(cs: seq<Cell>, i: int, red: bool, dh: int): (r: seq<Cell>)
    requires In(cs, i)
    ensures |r| == |cs|
  {
    cs[i := cs[i].(red := red, h := cs[i].h + dh)]
  }

  lemma DyeLinked(cs: seq<Cell>, root: int, k: int, red: bool, dh: int)
    requires Linked(cs, root) && In(cs, k)
    ensures Linked(Dye(cs, k, red, dh), root)
  {
    var r := Dye(cs, k, red, dh);
    hide LinkedAt;
    forall i | 0 <= i < |r|
      ensures LinkedAt(r, root, i)
    {
      DyeLinkedAt(cs, root, k, red, dh, i);
    }
  }

  lemma DyeLinkedAt(cs: seq<Cell>, root: int, k: int, red: bool, dh: int, i: int)
    requires Linked(cs, root) && In(cs, k) && In(cs, i)
    ensures LinkedAt(Dye(cs, k, red, dh), root, i)
  {
    assert LinkedAt(cs, root, i);
  }

  /** The four subtrees around a rotation, from the cells' links. */
  lemma Neighbours(cs: seq<Cell>, root: int, x: int, s: bool, i: int)
    requires Linked(cs, root) && In(cs, x) && In(cs, i) && i != root
    requires cs[i].parent == x
    ensures i == Kd(cs[x], s) || i == Kd(cs[x], !s)
  {
    assert LinkedAt(cs, root, i);
  }

  lemma KidIn(cs: seq<Cell>, root: int, x: int, s: bool)
    requires Linked(cs, root) && In(cs, x)
    ensures var k := Kd(cs[x], s); k == NIL || (In(cs, k) && cs[k].parent == x && k != root && k != x)
  {
    assert LinkedAt(cs, root, x);
    if Kd(cs[x], s) != NIL { assert LinkedAt(cs, root, Kd(cs[x], s)); }
  }

  lemma KidsDiffer(cs: seq<Cell>, root: int, x: int)
    requires Linked(cs, root) && In(cs, x)
    ensures cs[x].left != NIL ==> cs[x].left != cs[x].right
  {
    assert LinkedAt(cs, root, x);
  }

  // ---------- a rotation with its two nodes repainted

  /** Paint the s-child of x with ry and x with rx, then rotate that child up. */
  ghost function Turn(cs: seq<Cell>, root: int, x: int, s: bool, rx: bool, ry: bool): (r: seq<Cell>)
    requires Linked(cs, root) && In(cs, x) && Kd(cs[x], s) != NIL
    ensures |r| == |cs|
  {
    RotAround(cs, root, x, s);
    DyeLinked(cs, root, Kd(cs[x], s), ry, 0);
    var c1 := Dye(cs, Kd(cs[x], s), ry, 0);
    DyeLinked(c1, root, x, rx, 0);
    var c2 := Dye(c1, x, rx, 0);
    RotAround(c2, root, x, s);
    Rot(c2, root, x, s)
  }

  ghost predicate Turned(cs: seq<Cell>, r: seq<Cell>, root: int, x: int, s: bool, rx: bool, ry: bool, y: int, b: int,
                         p: int) {
    && |r| == |cs| && Around(cs, root, x, s, y, b, p)
    && r[x] == RotX(cs[x], y, b, cs[y].h, s).(red := rx) && r[y] == RotY(cs[x], x, cs[y], s).(red := ry)
    && (b != NIL ==> r[b] == cs[b].(parent := x))
    && (x != root ==> r[p] == RotP(cs[p], x, y, s))
    && forall i {:trigger r[i]} :: 0 <= i < |cs| && i != x && i != y && i != b && (x == root || i != p) ==>
        r[i] == cs[i]
  }

  lemma TurnCells(cs: seq<Cell>, root: int, x: int, s: bool, rx: bool, ry: bool)
    requires Linked(cs, root) && In(cs, x) && Kd(cs[x], s) != NIL
    ensures In(cs, Kd(cs[x], s))
    ensures var y, r := Kd(cs[x], s), Turn(cs, root, x, s, rx, ry);
            Turned(cs, r, root, x, s, rx, ry, y, Kd(cs[y], !s), cs[x].parent) &&
                Linked(r, if x == root then y else root)
  {
    hide Linked, Rot;
    RotAround(cs, root, x, s);
    var y := Kd(cs[x], s);
    DyeLinked(cs, root, y, ry, 0);
    var c1 := Dye(cs, y, ry, 0);
    DyeLinked(c1, root, x, rx, 0);
    var c2 := Dye(c1, x, rx, 0);
    RotLinked(c2, root, x, s);
    RotCells(c2, root, x, s);
  }

  /** The heights that make the new colours right; dp, ds is the place that stays short. */
  ghost predicate TurnHeights(cs: seq<Cell>, x: int, s: bool, rx: bool, ry: bool, y: int, dp: int, ds: bool)
    requires In(cs, x) && In(cs, y)
  {
    && dp != y && !(dp == x && ds == s) && cs[y].h >= 0 && cs[y].h >= (if rx then 0 else 1)
    && Due(cs, x, !s, dp, ds) == H(cs, Kd(cs[y], !s)) == cs[y].h - (if rx then 0 else 1)
    && H(cs, Kd(cs[y], s)) == cs[y].h && cs[x].h == cs[y].h + (if ry then 0 else 1)
  }

  /** The neighbours' colours that the new colours need; e is the red child of a red node before, e' after. */
  ghost predicate TurnColours(cs: seq<Cell>, root: int, x: int, s: bool, rx: bool, ry: bool, y: int, e: int, e': int)
    requires In(cs, x) && In(cs, y)
  {
    && (rx ==> !Red(cs, Kd(cs[x], !s)) && !Red(cs, Kd(cs[y], !s)) && (ry ==> e' == x))
    && (ry ==> !Red(cs, Kd(cs[y], s)) && (x == root || !Red(cs, cs[x].parent)))
    && (e == NIL || e == y || e == Kd(cs[y], s))
  }

  lemma TurnedBalXY(cs: seq<Cell>, r: seq<Cell>, root: int, x: int, s: bool, rx: bool, ry: bool, y: int, b: int, p: int,
                    dp: int, ds: bool)
    requires Linked(cs, root) && Turned(cs, r, root, x, s, rx, ry, y, b, p) && TurnHeights(cs, x, s, rx, ry, y, dp, ds)
    ensures BalAt(r, x, dp, ds) && BalAt(r, y, dp, ds)
  {
    KidIn(cs, root, x, !s);
    KidIn(cs, root, y, s);
    KidsDiffer(cs, root, x);
    KidsDiffer(cs, root, y);
    hide Linked;
  }

  lemma TurnedBalElse(cs: seq<Cell>, r: seq<Cell>, root: int, x: int, s: bool, rx: bool, ry: bool, y: int, b: int,
                      p: int, dp: int, ds: bool, i: int)
    requires Linked(cs, root) && Turned(cs, r, root, x, s, rx, ry, y, b, p)
    requires In(cs, i) && i != x && i != y && BalAt(cs, i, dp, ds)
    ensures BalAt(r, i, dp, ds)
  {
    KidIn(cs, root, i, true);
    KidIn(cs, root, i, false);
    KidIn(cs, root, x, s);
    KidsDiffer(cs, root, i);
    if x != root { Neighbours(cs, root, p, s, x); }
    hide Linked;
  }

  lemma TurnedEdge(cs: seq<Cell>, r: seq<Cell>, root: int, x: int, s: bool, rx: bool, ry: bool, y: int, b: int, p: int,
                   e: int, e': int, i: int)
    requires Linked(cs, root) && Turned(cs, r, root, x, s, rx, ry, y, b, p)
    requires TurnColours(cs, root, x, s, rx, ry, y, e, e')
    requires In(cs, i) && EdgeAt(cs, root, i, e, NIL)
    ensures EdgeAt(r, if x == root then y else root, i, e', NIL)
  {
    KidIn(cs, root, x, s);
    KidIn(cs, root, y, s);
    KidIn(cs, root, y, !s);
    KidIn(cs, root, x, !s);
    KidsDiffer(cs, root, y);
    if i != root && cs[i].parent == x { Neighbours(cs, root, x, s, i); }
    if i != root && cs[i].parent == y { Neighbours(cs, root, y, s, i); }
    hide Linked;
  }

  ghost predicate BalancedBut(cs: seq<Cell>, dp: int, ds: bool, x: int, y: int) {
    forall i {:trigger BalAt(cs, i, dp, ds)} :: 0 <= i < |cs| && i != x && i != y ==> BalAt(cs, i, dp, ds)
  }

  lemma TurnedAt(cs: seq<Cell>, r: seq<Cell>, root: int, x: int, s: bool, rx: bool, ry: bool, y: int, b: int, p: int,
                 dp: int, ds: bool, e: int, e': int, i: int)
    requires Linked(cs, root) && Turned(cs, r, root, x, s, rx, ry, y, b, p)
    requires TurnHeights(cs, x, s, rx, ry, y, dp, ds) && TurnColours(cs, root, x, s, rx, ry, y, e, e')
    requires BalancedBut(cs, dp, ds, x, y) && Edges(cs, root, e, NIL) && In(cs, i)
    ensures BalAt(r, i, dp, ds) && EdgeAt(r, if x == root then y else root, i, e', NIL)
  {
    assert EdgeAt(cs, root, i, e, NIL);
    if i != x && i != y { assert BalAt(cs, i, dp, ds); }
    hide Linked, BalAt, EdgeAt;
    TurnedEdge(cs, r, root, x, s, rx, ry, y, b, p, e, e', i);
    if i == x || i == y { TurnedBalXY(cs, r, root, x, s, rx, ry, y, b, p, dp, ds); }
    else { TurnedBalElse(cs, r, root, x, s, rx, ry, y, b, p, dp, ds, i); }
  }

  /** A repainting rotation with fitting heights and colours leaves every rule in place. */
  lemma TurnGood(cs: seq<Cell>, root: int, x: int, s: bool, rx: bool, ry: bool, dp: int, ds: bool, e: int, e': int)
    requires Linked(cs, root) && In(cs, x) && In(cs, Kd(cs[x], s))
    requires BalancedBut(cs, dp, ds, x, Kd(cs[x], s)) && Edges(cs, root, e, NIL)
    requires TurnHeights(cs, x, s, rx, ry, Kd(cs[x], s), dp, ds)
    requires TurnColours(cs, root, x, s, rx, ry, Kd(cs[x], s), e, e')
    ensures var r := Turn(cs, root, x, s, rx, ry); var root' := if x == root then Kd(cs[x], s) else root;
            Linked(r, root') && Balanced(r, dp, ds) && Edges(r, root', e', NIL)
  {
    TurnCells(cs, root, x, s, rx, ry);
    var y := Kd(cs[x], s);
    var r, root', b, p := Turn(cs, root, x, s, rx, ry), if x == root then y else root, Kd(cs[y], !s), cs[x].parent;
    hide Turn, Turned, Linked, BalAt, EdgeAt, TurnHeights, TurnColours, BalancedBut;
    forall i | 0 <= i < |r|
      ensures BalAt(r, i, dp, ds) && EdgeAt(r, root', i, e', NIL)
    {
      TurnedAt(cs, r, root, x, s, rx, ry, y, b, p, dp, ds, e, e', i);
    }
  }
}
