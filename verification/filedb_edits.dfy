/**
The steps of the file B-tree that change the pairs or the height: a pair enters or leaves a leaf, a pair of an inner
node is replaced by its neighbour, and the root gains or loses a level.
*/
module FileEdits {
  import opened FileRows
  import opened FileBlocks
  import opened FileSteps

  // ---------- a leaf

  /** Block b takes the place of leaf g; of its edges the m from i on become W. */
  ghost function LeafTree(s: Tree, g: nat, i: nat, m: nat, W: seq<Edge>, b: Block): Tree
    requires |s.rows| >= 2 && g < |s.rows[1]| && Offset(s.file, s.rows[1], g) + i + m <= |s.rows[0]|
  {
    Tree(s.M, s.file[s.rows[1][g].addr := b], s.tag,
         s.rows[0 := Replaced(s.rows[0], Offset(s.file, s.rows[1], g) + i, m, W)])
  }

  lemma LeafOk(s: Tree, g: nat, i: nat, m: nat, W: seq<Edge>, b: Block)
    requires s.All() && g < |s.rows[1]| && s.rows[1][g].addr in s.file && NodeOk(b, s.M, s.rows[1][g].addr, 1)
    requires var e := s.rows[1][g]; var K := KidsAt(s.file, e); i + m <= |K| && KidsOf(b, e.sep) == Replaced(K, i, m, W)
    ensures Offset(s.file, s.rows[1], g) + i + m <= |s.rows[0]| && LeafTree(s, g, i, m, W, b).All()
  {
    hide Kids, KidsAt, Offset, RowOk, Replaced;
    OkAt(s, 1);
    RowAt(s, 1, g);
    KidsFocus(s.file, s.rows[1], g);
    var t, e := LeafTree(s, g, i, m, W, b), s.rows[1][g];
    assert KidsAt(t.file, e) == KidsOf(b, e.sep) by { KidsFit(t.file, e); }
    ParentRow(s, t, 0, g, i, m, W, []);
    forall q | 1 <= q < |t.rows|
      ensures t.Ok(q) && t.rows[q - 1] == Kids(t.file, t.rows[q])
    {
      OkAt(s, q);
      if q > 1 {
        TagAt(s, 1, g);
        ElseSame(s, t, e.addr, 1, q);
      }
    }
    AllOf(t);
  }

  lemma KidsFit(file: map<nat, Block>, e: Edge)
    requires e.addr in file && file[e.addr].num < |file[e.addr].slots|
    ensures KidsAt(file, e) == KidsOf(file[e.addr], e.sep)
  {
  }

  /** A row without the one node that changed. */
  lemma ElseSame(s: Tree, t: Tree, a: nat, l: nat, q: nat)
    requires q < |s.rows| == |t.rows| && s.M == t.M && s.Ok(q) && t.rows[q] == s.rows[q] && SameBut(s, t, a, [])
    requires a in s.tag && s.tag[a] == l && q != l
    ensures t.Ok(q) && Kids(t.file, t.rows[q]) == Kids(s.file, s.rows[q])
  {
    hide NodeOk, Kids;
    SameKids(s, t, a, [], s.rows[q], q);
  }

  lemma LeafFilled(s: Tree, g: nat, i: nat, m: nat, W: seq<Edge>, b: Block)
    requires s.All() && g < |s.rows[1]| && Offset(s.file, s.rows[1], g) + i + m <= |s.rows[0]| && Filled(s) && Rooted(s)
    requires |s.rows| > 2 ==> b.num + 1 >= Half(s.M)
    ensures Filled(LeafTree(s, g, i, m, W, b)) && Rooted(LeafTree(s, g, i, m, W, b))
  {
    hide NodeOk, Kids, KidsAt, Offset, Replaced;
    var t := LeafTree(s, g, i, m, W, b);
    OkAt(s, 1);
    TagAt(s, 1, g);
    forall q | 1 <= q < |t.rows| - 1
      ensures FilledRow(t, q)
    {
      assert FilledRow(s, q);
    }
    if |s.rows| > 2 {
      OkAt(s, |s.rows| - 1);
      TagAt(s, |s.rows| - 1, 0);
    }
  }

  // ---------- the height

  /** x takes over what the root holds, and the root becomes the node above it. */
  ghost function LiftTree(s: Tree, x: Block, r: Block): Tree
    requires |s.rows| >= 2
  {
    var top := |s.rows| - 1;
    Tree(s.M, s.file[ROOT := r][x.self := x], s.tag[x.self := top][ROOT := top + 1],
         s.rows[top := [Edge(x.self, End)]] + [[Edge(ROOT, End)]])
  }

  lemma LiftOk(s: Tree, x: Block, r: Block)
    requires s.All() && ROOT in s.file && x.self !in s.tag && x.self != ROOT
    requires NodeOk(x, s.M, x.self, |s.rows| - 1)
    requires NodeOk(r, s.M, ROOT, |s.rows|) && r.num == 0 && r.slots[0].child == x.self
    requires s.file[ROOT].num < |s.file[ROOT].slots| && KidsOf(x, End) == KidsOf(s.file[ROOT], End)
    ensures LiftTree(s, x, r).All()
  {
    hide Kids, KidsAt, RowOk;
    var t, top := LiftTree(s, x, r), |s.rows| - 1;
    KidsFit(t.file, Edge(x.self, End));
    KidsFit(t.file, Edge(ROOT, End));
    KidsFit(s.file, Edge(ROOT, End));
    KidsOne(t.file, Edge(x.self, End));
    KidsOne(t.file, Edge(ROOT, End));
    KidsOne(s.file, Edge(ROOT, End));
    OneNode(t, top, x.self);
    OneNode(t, top + 1, ROOT);
    assert KidsOf(r, End) == [Edge(x.self, End)];
    OkAt(s, top);
    TagAt(s, top, 0);
    forall q | 1 <= q < |t.rows|
      ensures t.Ok(q) && t.rows[q - 1] == Kids(t.file, t.rows[q])
    {
      if q < top {
        OkAt(s, q);
        BelowSame(s, t, ROOT, top, q);
      }
    }
    AllOf(t);
  }

  lemma OneNode(t: Tree, l: nat, a: nat)
    requires l < |t.rows| && NodeAt(t.file, t.tag, t.M, a, l) && t.rows[l] == [Edge(a, End)]
    ensures t.Ok(l)
  {
  }

  /** Rows below a change at the top. */
  lemma BelowSame(s: Tree, t: Tree, a: nat, top: nat, q: nat)
    requires q < top && q < |s.rows| && q < |t.rows| && s.M == t.M && s.Ok(q) && t.rows[q] == s.rows[q]
    requires forall x :: x in s.tag && x in s.file && s.tag[x] < top ==>
      x in t.file && t.file[x] == s.file[x] && x in t.tag && t.tag[x] == s.tag[x]
    ensures t.Ok(q) && Kids(t.file, t.rows[q]) == Kids(s.file, s.rows[q])
  {
    hide NodeOk, Kids, KidsAt;
    var R := s.rows[q];
    forall i | 0 <= i < |R|
      ensures NodeAt(t.file, t.tag, t.M, R[i].addr, q) && KidsAt(s.file, R[i]) == KidsAt(t.file, R[i])
    {
      assert NodeAt(s.file, s.tag, s.M, R[i].addr, q);
      SameBlock(s.file, t.file, R[i]);
    }
    KidsFrame(s.file, t.file, R);
  }

  /** The root, left with a single child, takes over what that holds. */
  ghost function CollapseTree(s: Tree, r: Block): Tree
    requires |s.rows| > 2 && |s.rows[|s.rows| - 2]| == 1
  {
    var top := |s.rows| - 1;
    Tree(s.M, s.file[ROOT := r], (s.tag - {s.rows[top - 1][0].addr})[ROOT := top - 1],
         s.rows[..top - 1] + [[Edge(ROOT, End)]])
  }

  lemma CollapseOk(s: Tree, r: Block)
    requires s.All() && |s.rows| > 2 && ROOT in s.file && s.file[ROOT].num == 0 && |s.file[ROOT].slots| > 0
    requires var xa := s.file[ROOT].slots[0].child;
      && xa in s.file && NodeOk(r, s.M, ROOT, |s.rows| - 2) && Sized(s.file[xa], s.M)
      && KidsOf(r, End) == KidsOf(s.file[xa], End)
    ensures |s.rows[|s.rows| - 2]| == 1 && s.rows[|s.rows| - 2][0] == Edge(s.file[ROOT].slots[0].child, End)
    ensures CollapseTree(s, r).All()
  {
    hide Kids, KidsAt, RowOk;
    var top, xa := |s.rows| - 1, s.file[ROOT].slots[0].child;
    OkAt(s, top);
    KidsFit(s.file, Edge(ROOT, End));
    KidsOne(s.file, Edge(ROOT, End));
    assert KidsOf(s.file[ROOT], End) == [Edge(xa, End)];
    var t := CollapseTree(s, r);
    KidsFit(s.file, Edge(xa, End));
    KidsOne(s.file, Edge(xa, End));
    KidsFit(t.file, Edge(ROOT, End));
    KidsOne(t.file, Edge(ROOT, End));
    OneNode(t, top - 1, ROOT);
    OkAt(s, top - 1);
    TagAt(s, top - 1, 0);
    TagAt(s, top, 0);
    forall q | 1 <= q < |t.rows|
      ensures t.Ok(q) && t.rows[q - 1] == Kids(t.file, t.rows[q])
    {
      OkAt(s, q);
      if q < top - 1 { BelowSame(s, t, ROOT, top - 1, q); }
    }
    AllOf(t);
  }

  lemma CollapseFilled(s: Tree, r: Block)
    requires s.All() && |s.rows| > 2 && |s.rows[|s.rows| - 2]| == 1 && Filled(s)
    requires |s.rows| > 3 ==> r.num >= 1
    ensures Filled(CollapseTree(s, r)) && Rooted(CollapseTree(s, r))
  {
    hide Kids, NodeOk;
    var t, top := CollapseTree(s, r), |s.rows| - 1;
    OkAt(s, top);
    TagAt(s, top, 0);
    forall q | 1 <= q < |t.rows| - 1
      ensures FilledRow(t, q)
    {
      assert FilledRow(s, q);
      OkAt(s, q);
      forall i | 0 <= i < |s.rows[q]|
        ensures s.rows[q][i].addr != ROOT
      {
        TagAt(s, q, i);
      }
    }
  }

  // ---------- replacing a pair of an inner node

  function SwapSep(R: seq<Edge>, m: Sep, e: Sep): (r: seq<Edge>)
    ensures |r| == |R|
    ensures forall i :: 0 <= i < |R| ==> r[i] == if R[i].sep == m then R[i].(sep := e) else R[i]
  {
    seq(|R|, i requires 0 <= i < |R| => if R[i].sep == m then R[i].(sep := e) else R[i])
  }

  /** The pair m of a node of level l becomes the pair of slot from; below, m stands for the same edge everywhere. */
  ghost function SwapTree(s: Tree, l: nat, g: nat, i: nat, from: Slot): Tree
    requires l < |s.rows| && g < |s.rows[l]| && s.rows[l][g].addr in s.file && i < |s.file[s.rows[l][g].addr].slots|
  {
    var a := s.rows[l][g].addr;
    var m := PairOf(s.file[a].slots[i]);
    Tree(s.M, s.file[a := ReKey(s.file[a], i, from)], s.tag,
         seq(|s.rows|, q requires 0 <= q < |s.rows| => if q < l then SwapSep(s.rows[q], m, PairOf(from))
             else s.rows[q]))
  }

  lemma {:induction false} SwapKids(f: map<nat, Block>, f': map<nat, Block>, R: seq<Edge>, S: seq<Edge>, m: Sep, e: Sep)
    requires |R| == |S| && forall i :: 0 <= i < |R| ==> KidsAt(f', S[i]) == SwapSep(KidsAt(f, R[i]), m, e)
    ensures Kids(f', S) == SwapSep(Kids(f, R), m, e)
  {
    if R != [] {
      SwapKids(f, f', R[1..], S[1..], m, e);
      SwapConcat(KidsAt(f, R[0]), Kids(f, R[1..]), m, e);
    }
  }

  lemma SwapConcat(A: seq<Edge>, B: seq<Edge>, m: Sep, e: Sep)
    ensures SwapSep(A + B, m, e) == SwapSep(A, m, e) + SwapSep(B, m, e)
  {
  }

  /** One separator of a row. */
  lemma SepOnce(R: seq<Edge>, i: nat, j: nat)
    requires Ascending(R) && i < |R| && j < |R| && R[i].sep == R[j].sep
    ensures i == j
  {
  }

  /** Edge d of row q - 1 is the last one out of node h of row q. */
  ghost predicate EndsAt(s: Tree, q: nat, h: nat, d: nat)
    requires q < |s.rows|
  {
    h < |s.rows[q]| && d + 1 == Offset(s.file, s.rows[q], h + 1)
  }

  /** Below level l the pair m is the separator of the last edge out of a node, if it is there at all. */
  lemma NotInside(s: Tree, l: nat, g: nat, i: nat, m: Sep, q: nat, h: nat, j: nat)
    requires s.All() && Ascending(s.rows[0]) && 1 <= q <= l < |s.rows| && g < |s.rows[l]| && h < |s.rows[q]|
    requires s.rows[l][g].addr in s.file && i < s.file[s.rows[l][g].addr].num < |s.file[s.rows[l][g].addr].slots|
    requires m == PairOf(s.file[s.rows[l][g].addr].slots[i]) && !(q == l && h == g && j == i)
    requires s.rows[q][h].addr in s.file && j < s.file[s.rows[q][h].addr].num < |s.file[s.rows[q][h].addr].slots|
    ensures PairOf(s.file[s.rows[q][h].addr].slots[j]) != m
  {
    hide NodeOk, Kids, KidsAt, Offset, RowOk;
    var c := Offset(s.file, s.rows[q], h) + j;
    EdgeOf(s, q, h, j);
    RowAscends(s, q - 1);
    if PairOf(s.file[s.rows[q][h].addr].slots[j]) == m {
      var d := LastBelow(s, l, g, i, q);
      SepOnce(s.rows[q - 1], c, d);
      if q < l {
        OffsetParts(s, q, h, j);
      } else {
        SamePlace(s, l, g, i, h, j);
      }
    }
  }

  /** Where the pair of an inner node shows in the rows below. */
  lemma {:induction false} LastBelow(s: Tree, l: nat, g: nat, i: nat, q: nat) returns (d: nat)
    requires s.All() && 1 <= q <= l < |s.rows| && g < |s.rows[l]|
    requires s.rows[l][g].addr in s.file && i < s.file[s.rows[l][g].addr].num < |s.file[s.rows[l][g].addr].slots|
    ensures d < |s.rows[q - 1]| && s.rows[q - 1][d].sep == PairOf(s.file[s.rows[l][g].addr].slots[i])
    ensures q == l ==> d == Offset(s.file, s.rows[l], g) + i
    ensures q < l ==> exists h :: EndsAt(s, q, h, d)
    decreases l - q
  {
    hide NodeOk, Kids, KidsAt, Offset, RowOk;
    if q == l {
      EdgeOf(s, l, g, i);
      d := Offset(s.file, s.rows[l], g) + i;
    } else {
      var h := LastBelow(s, l, g, i, q + 1);
      LastEdge(s, q, h);
      d := Offset(s.file, s.rows[q], h + 1) - 1;
      assert EndsAt(s, q, h, d);
    }
  }

  /** An edge with a key of its node is not the last one out of any node. */
  lemma OffsetParts(s: Tree, q: nat, h: nat, j: nat)
    requires s.All() && 1 <= q < |s.rows| && h < |s.rows[q]|
    requires s.rows[q][h].addr in s.file && j < s.file[s.rows[q][h].addr].num
    ensures var d := Offset(s.file, s.rows[q], h) + j; forall k :: !EndsAt(s, q, k, d)
  {
    hide NodeOk, Kids, KidsAt, Offset, RowOk;
    OkAt(s, q);
    RowAt(s, q, h);
    KidsFocus(s.file, s.rows[q], h);
    var d := Offset(s.file, s.rows[q], h) + j;
    forall k: nat | k < |s.rows[q]|
      ensures !EndsAt(s, q, k, d)
    {
      if k < h { OffsetGrows(s.file, s.rows[q], k + 1, h); } else { OffsetGrows(s.file, s.rows[q], h + 1, k + 1); }
    }
  }

  lemma SamePlace(s: Tree, q: nat, g: nat, i: nat, h: nat, j: nat)
    requires s.All() && 1 <= q < |s.rows| && g < |s.rows[q]| && h < |s.rows[q]|
    requires s.rows[q][g].addr in s.file && i < s.file[s.rows[q][g].addr].num
    requires s.rows[q][h].addr in s.file && j < s.file[s.rows[q][h].addr].num
    requires Offset(s.file, s.rows[q], g) + i == Offset(s.file, s.rows[q], h) + j
    ensures g == h && i == j
  {
    hide NodeOk, Kids, KidsAt, Offset, RowOk;
    OkAt(s, q);
    RowAt(s, q, g);
    RowAt(s, q, h);
    KidsFocus(s.file, s.rows[q], g);
    KidsFocus(s.file, s.rows[q], h);
    if g < h { OffsetGrows(s.file, s.rows[q], g + 1, h); }
    if h < g { OffsetGrows(s.file, s.rows[q], h + 1, g); }
  }

  /** No node of level l hangs on an edge with a pair of that level. */
  lemma NotAbove(s: Tree, l: nat, g: nat, i: nat, h: nat)
    requires s.All() && Ascending(s.rows[0]) && 1 <= l < |s.rows| && g < |s.rows[l]| && h < |s.rows[l]|
    requires s.rows[l][g].addr in s.file && i < s.file[s.rows[l][g].addr].num < |s.file[s.rows[l][g].addr].slots|
    ensures s.rows[l][h].sep != PairOf(s.file[s.rows[l][g].addr].slots[i])
  {
    hide NodeOk, Kids, KidsAt, Offset, RowOk;
    LastEdge(s, l, h);
    EdgeOf(s, l, g, i);
    RowAscends(s, l - 1);
    OffsetParts(s, l, g, i);
    var d := Offset(s.file, s.rows[l], h + 1) - 1;
    assert EndsAt(s, l, h, d);
    if s.rows[l][h].sep == PairOf(s.file[s.rows[l][g].addr].slots[i]) {
      SepOnce(s.rows[l - 1], d, Offset(s.file, s.rows[l], g) + i);
    }
  }

  lemma SwapKept(b: Block, sep: Sep, m: Sep, e: Sep)
    requires b.num < |b.slots| && forall j :: 0 <= j < b.num ==> PairOf(b.slots[j]) != m
    ensures KidsOf(b, if sep == m then e else sep) == SwapSep(KidsOf(b, sep), m, e)
  {
  }

  lemma SwapHere(b: Block, i: nat, sep: Sep, from: Slot)
    requires i < b.num < |b.slots| && sep != PairOf(b.slots[i])
    requires forall j :: 0 <= j < b.num && j != i ==> PairOf(b.slots[j]) != PairOf(b.slots[i])
    ensures KidsOf(ReKey(b, i, from), sep) == SwapSep(KidsOf(b, sep), PairOf(b.slots[i]), PairOf(from))
  {
  }

  /** One node of the rows a replacement reaches. */
  lemma SwapAt(s: Tree, l: nat, g: nat, i: nat, from: Slot, q: nat, h: nat)
    requires s.All() && Ascending(s.rows[0]) && 1 <= q <= l < |s.rows| && g < |s.rows[l]| && h < |s.rows[q]|
    requires s.rows[l][g].addr in s.file && i < s.file[s.rows[l][g].addr].num < |s.file[s.rows[l][g].addr].slots|
    ensures var t, m := SwapTree(s, l, g, i, from), PairOf(s.file[s.rows[l][g].addr].slots[i]);
      KidsAt(t.file, t.rows[q][h]) == SwapSep(KidsAt(s.file, s.rows[q][h]), m, PairOf(from))
  {
    hide NodeOk, Kids, Offset, RowOk, KidsOf;
    var a, t := s.rows[l][g].addr, SwapTree(s, l, g, i, from);
    var b := s.file[a];
    var m := PairOf(b.slots[i]);
    OkAt(s, q);
    OkAt(s, l);
    RowAt(s, q, h);
    var n := s.file[s.rows[q][h].addr];
    assert n.num < |n.slots| by { NodeFits(s, q, h); }
    forall j | 0 <= j < n.num && !(q == l && h == g && j == i)
      ensures PairOf(n.slots[j]) != m
    {
      NotInside(s, l, g, i, m, q, h, j);
    }
    if q == l { NotAbove(s, l, g, i, h); }
    if q == l && h == g {
      SwapHere(b, i, s.rows[l][g].sep, from);
    } else {
      SwapKept(n, s.rows[q][h].sep, m, PairOf(from));
      OtherNode(s, l, g, q, h);
    }
  }

  lemma NodeFits(s: Tree, q: nat, h: nat)
    requires q < |s.rows| && s.Ok(q) && h < |s.rows[q]|
    ensures s.rows[q][h].addr in s.file && Sized(s.file[s.rows[q][h].addr], s.M)
  {
    assert NodeAt(s.file, s.tag, s.M, s.rows[q][h].addr, q);
  }

  lemma OtherNode(s: Tree, l: nat, g: nat, q: nat, h: nat)
    requires 1 <= q < |s.rows| && 1 <= l < |s.rows| && s.Ok(l) && s.Ok(q) && g < |s.rows[l]| && h < |s.rows[q]|
    requires !(q == l && h == g)
    ensures s.rows[q][h].addr != s.rows[l][g].addr
  {
    hide NodeOk;
    TagAt(s, l, g);
    TagAt(s, q, h);
  }

  lemma SwapOk(s: Tree, l: nat, g: nat, i: nat, from: Slot)
    requires s.All() && Ascending(s.rows[0]) && 1 <= l < |s.rows| && g < |s.rows[l]|
    requires s.rows[l][g].addr in s.file && i < s.file[s.rows[l][g].addr].num < |s.file[s.rows[l][g].addr].slots|
    ensures SwapTree(s, l, g, i, from).All()
  {
    hide NodeOk, Kids, Offset, RowOk, KidsOf, KidsAt;
    var t := SwapTree(s, l, g, i, from);
    var a := s.rows[l][g].addr;
    var m := PairOf(s.file[a].slots[i]);
    OkAt(s, l);
    NodeFits(s, l, g);
    forall q | 1 <= q < |t.rows|
      ensures t.Ok(q) && t.rows[q - 1] == Kids(t.file, t.rows[q])
    {
      OkAt(s, q);
      if q <= l {
        forall h | 0 <= h < |s.rows[q]|
          ensures KidsAt(t.file, t.rows[q][h]) == SwapSep(KidsAt(s.file, s.rows[q][h]), m, PairOf(from))
        {
          SwapAt(s, l, g, i, from, q, h);
        }
        SwapKids(s.file, t.file, s.rows[q], t.rows[q], m, PairOf(from));
        SwapRow(s, t, l, g, i, from, q);
      } else {
        TagAt(s, l, g);
        ElseSame(s, t, a, l, q);
      }
    }
    assert t.rows[|t.rows| - 1] == s.rows[|s.rows| - 1];
    AllOf(t);
  }

  lemma SwapRow(s: Tree, t: Tree, l: nat, g: nat, i: nat, from: Slot, q: nat)
    requires s.All() && 1 <= q <= l < |s.rows| && g < |s.rows[l]|
    requires s.rows[l][g].addr in s.file && i < s.file[s.rows[l][g].addr].num < |s.file[s.rows[l][g].addr].slots|
    requires t == SwapTree(s, l, g, i, from)
    ensures t.Ok(q)
  {
    OkAt(s, q);
    OkAt(s, l);
    var R, S := s.rows[q], t.rows[q];
    NodeFits(s, l, g);
    assert NodeAt(s.file, s.tag, s.M, s.rows[l][g].addr, l);
    forall h | 0 <= h < |S|
      ensures S[h].addr == R[h].addr && NodeAt(t.file, t.tag, t.M, S[h].addr, q)
    {
      assert NodeAt(s.file, s.tag, s.M, R[h].addr, q);
    }
  }

  lemma SwapFilled(s: Tree, l: nat, g: nat, i: nat, from: Slot)
    requires s.All() && Filled(s) && Rooted(s) && 1 <= l < |s.rows| && g < |s.rows[l]|
    requires s.rows[l][g].addr in s.file && i < |s.file[s.rows[l][g].addr].slots|
    ensures Filled(SwapTree(s, l, g, i, from)) && Rooted(SwapTree(s, l, g, i, from))
  {
    hide Kids, NodeOk, RowOk, PairOf;
    var t := SwapTree(s, l, g, i, from);
    forall q | 1 <= q < |t.rows| - 1
      ensures FilledRow(t, q)
    {
      assert FilledRow(s, q);
    }
  }
}
