/**
What the cell-by-cell rules add up to: the in-order sequence, the same number of black nodes on every path, and the
bound on the height.
*/
module RbBounds {
  import opened Octets
  import opened RbCells
  import opened RbColours
  import opened RbFixup

  /** The subtree at k is well founded: every child covers a shorter stretch. */
  lemma Covers(cs: seq<Cell>, root: int, k: int)
    requires Linked(cs, root) && In(cs, k)
    ensures var c := cs[k]; 0 <= c.lo <= k < c.hi <= |cs|
    ensures var c := cs[k];
      if c.left == NIL then c.lo == k else In(cs, c.left) && cs[c.left].lo == c.lo && cs[c.left].hi == k
    ensures var c := cs[k];
      if c.right == NIL then c.hi == k + 1
      else In(cs, c.right) && cs[c.right].lo == k + 1 && cs[c.right].hi == c.hi
  {
    assert LinkedAt(cs, root, k);
  }

  ghost function Size(cs: seq<Cell>, k: int): int {
    if In(cs, k) then cs[k].hi - cs[k].lo else 0
  }

  /** Left subtree, node, right subtree. */
  ghost function InOrder(cs: seq<Cell>, root: int, k: int): seq<int>
    requires Linked(cs, root) && (k == NIL || In(cs, k))
    decreases if k == NIL then -1 else Size(cs, k)
  {
    if k == NIL then [] else
      Covers(cs, root, k);
      InOrder(cs, root, cs[k].left) + [k] + InOrder(cs, root, cs[k].right)
  }

  /** Walking the links in order visits lo, lo + 1, ..., hi - 1. */
  lemma {:induction false} InOrderIsRange(cs: seq<Cell>, root: int, k: int)
    requires Linked(cs, root) && In(cs, k)
    ensures |InOrder(cs, root, k)| == Size(cs, k)
    ensures forall i :: 0 <= i < Size(cs, k) ==> InOrder(cs, root, k)[i] == cs[k].lo + i
    decreases Size(cs, k)
  {
    Covers(cs, root, k);
    if cs[k].left != NIL { InOrderIsRange(cs, root, cs[k].left); }
    if cs[k].right != NIL { InOrderIsRange(cs, root, cs[k].right); }
  }

  /** The black nodes met going down from k, to the left at each true, or none if the path leaves the tree early. */
  ghost function Blacks(cs: seq<Cell>, k: int, path: seq<bool>): int
    decreases |path|
  {
    if !In(cs, k) || path == [] then 0
    else (if cs[k].red then 0 else 1) + Blacks(cs, Kd(cs[k], path[0]), path[1..])
  }

  /** The path ends exactly at the sentinel. */
  ghost predicate Reaches(cs: seq<Cell>, k: int, path: seq<bool>)
    decreases |path|
  {
    if path == [] then k == NIL else In(cs, k) && Reaches(cs, Kd(cs[k], path[0]), path[1..])
  }

  /** Every path from k to the sentinel meets the same number of black nodes. */
  lemma {:induction false} SameBlacks(cs: seq<Cell>, root: int, k: int, path: seq<bool>)
    requires Good(cs, root) && Reaches(cs, k, path)
    ensures Blacks(cs, k, path) == H(cs, k)
    decreases |path|
  {
    if path != [] {
      SameBlacks(cs, root, Kd(cs[k], path[0]), path[1..]);
      assert BalAt(cs, k, NIL, true);
    }
  }

  ghost function Height(cs: seq<Cell>, root: int, k: int): nat
    requires Linked(cs, root) && (k == NIL || In(cs, k))
    decreases if k == NIL then -1 else Size(cs, k)
  {
    if k == NIL then 0 else
      Covers(cs, root, k);
      var l, r := Height(cs, root, cs[k].left), Height(cs, root, cs[k].right);
      1 + if l > r then l else r
  }

  /** No path is more than twice as long as its black nodes are many. */
  lemma {:induction false} ShortPaths(cs: seq<Cell>, root: int, k: int)
    requires Good(cs, root) && (k == NIL || In(cs, k))
    ensures H(cs, k) >= 0 && Height(cs, root, k) <= 2 * H(cs, k) + if Red(cs, k) then 1 else 0
    decreases if k == NIL then -1 else Size(cs, k)
  {
    if k != NIL {
      Covers(cs, root, k);
      assert BalAt(cs, k, NIL, true);
      ShortPaths(cs, root, cs[k].left);
      ShortPaths(cs, root, cs[k].right);
      if cs[k].red {
        KidBlack(cs, root, k, true, NIL);
        KidBlack(cs, root, k, false, NIL);
      }
    }
  }

  /** A subtree of black height h holds at least 2^h - 1 nodes. */
  lemma {:induction false} ManyNodes(cs: seq<Cell>, root: int, k: int)
    requires Good(cs, root) && (k == NIL || In(cs, k))
    ensures H(cs, k) >= 0 && Pow2(H(cs, k)) <= Size(cs, k) + 1
    decreases if k == NIL then -1 else Size(cs, k)
  {
    if k != NIL {
      Covers(cs, root, k);
      assert BalAt(cs, k, NIL, true);
      ManyNodes(cs, root, cs[k].left);
      ManyNodes(cs, root, cs[k].right);
      Pow2Grows(H(cs, cs[k].left), H(cs, k));
    }
  }

  /** height <= 2 * log2(n + 1), written without the logarithm. */
  lemma HeightBound(cs: seq<Cell>, root: int)
    requires Good(cs, root)
    ensures Pow2(Height(cs, root, root)) <= (|cs| + 1) * (|cs| + 1)
  {
    var h := H(cs, root);
    assert |cs| > 0 ==> LinkedAt(cs, root, root);
    ShortPaths(cs, root, root);
    ManyNodes(cs, root, root);
    Pow2Grows(Height(cs, root, root), h + h);
    Pow2Adds(h, h);
    Squares(Pow2(h), |cs| + 1);
  }

  lemma Squares(a: nat, b: nat)
    requires a <= b
    ensures a * a <= b * b
  {
    assert a * a <= a * b <= b * b;
  }
}
