/**
What the steps of the file B-tree do to the rows: every one of them replaces a stretch of one row by another that has
the same edges below it, so that the pairs at the bottom stay as they are.
*/
module FileSteps {
  import opened FileRows
  import opened FileBlocks

  // ---------- the general step

  /** The nodes of a tree but p and the given stretch of a row are the same in both trees. */
  ghost predicate SameBut(s: Tree, t: Tree, p: nat, X: seq<Edge>) {
    forall a {:trigger s.tag[a]} ::
      a in s.tag && a in s.file && a != p && (forall i :: 0 <= i < |X| ==> a != X[i].addr) ==>
      a in t.file && t.file[a] == s.file[a] && a in t.tag && t.tag[a] == s.tag[a]
  }

  /** W takes the place of X: its nodes are nodes of level l and not among the others of the tree. */
  ghost predicate Fresh(s: Tree, t: Tree, W: seq<Edge>, X: seq<Edge>, l: nat) {
    && Distinct(W)
    && forall i :: 0 <= i < |W| ==>
         NodeAt(t.file, t.tag, t.M, W[i].addr, l) &&
             (W[i].addr !in s.tag || exists j :: 0 <= j < |X| && X[j].addr == W[i].addr)
  }

  ghost function Replaced(R: seq<Edge>, c: nat, m: nat, W: seq<Edge>): seq<Edge>
    requires c + m <= |R|
  {
    R[..c] + W + R[c + m..]
  }

  lemma SameKids(s: Tree, t: Tree, p: nat, X: seq<Edge>, R: seq<Edge>, l: nat)
    requires SameBut(s, t, p, X) && s.M == t.M
    requires forall i :: 0 <= i < |R| ==> NodeAt(s.file, s.tag, s.M, R[i].addr, l) && R[i].addr != p
    requires forall i, j :: 0 <= i < |R| && 0 <= j < |X| ==> R[i].addr != X[j].addr
    ensures Kids(s.file, R) == Kids(t.file, R)
    ensures forall i :: 0 <= i < |R| ==> NodeAt(t.file, t.tag, t.M, R[i].addr, l)
  {
    hide NodeOk;
    forall i | 0 <= i < |R|
      ensures NodeAt(t.file, t.tag, t.M, R[i].addr, l) && KidsAt(s.file, R[i]) == KidsAt(t.file, R[i])
    {
      assert s.tag[R[i].addr] == l;
    }
    KidsFrame(s.file, t.file, R);
  }

  /** Rows the step does not touch. */
  lemma Untouched(s: Tree, t: Tree, p: nat, X: seq<Edge>, l: nat, q: nat)
    requires SameBut(s, t, p, X) && s.M == t.M && q < |s.rows| == |t.rows| && s.Ok(q) && t.rows[q] == s.rows[q]
    requires q != l && q != l + 1 && p in s.tag && s.tag[p] == l + 1
    requires forall i :: 0 <= i < |X| ==> X[i].addr in s.tag && s.tag[X[i].addr] == l
    ensures t.Ok(q) && Kids(t.file, t.rows[q]) == Kids(s.file, s.rows[q])
  {
    hide NodeOk, Kids;
    SameKids(s, t, p, X, s.rows[q], q);
  }

  /** The row whose stretch is replaced: its nodes are in order, and below it nothing changes. */
  lemma ReplacedRow(s: Tree, t: Tree, p: nat, l: nat, c: nat, m: nat, W: seq<Edge>)
    requires 1 <= l < |s.rows| && s.Ok(l) && s.M == t.M && c + m <= |s.rows[l]|
    requires var X := s.rows[l][c..c + m];
      SameBut(s, t, p, X) && Fresh(s, t, W, X, l) && Kids(t.file, W) == Kids(s.file, X)
    requires p in s.tag && s.tag[p] == l + 1
    ensures var row := Replaced(s.rows[l], c, m, W);
      RowOk(t.file, t.tag, t.M, row, l) && Kids(t.file, row) == Kids(s.file, s.rows[l])
  {
    hide NodeOk, Kids;
    var R := s.rows[l];
    var A, X, B := R[..c], R[c..c + m], R[c + m..];
    forall i | 0 <= i < |A|
      ensures NodeAt(s.file, s.tag, s.M, A[i].addr, l) && A[i].addr != p
    {
      assert A[i] == R[i];
    }
    forall i | 0 <= i < |B|
      ensures NodeAt(s.file, s.tag, s.M, B[i].addr, l) && B[i].addr != p
    {
      assert B[i] == R[c + m + i];
    }
    SameKids(s, t, p, X, A, l);
    SameKids(s, t, p, X, B, l);
    KidsCut(s.file, R, c, m);
    KidsConcat(t.file, A, W);
    KidsConcat(t.file, A + W, B);
    ReplacedDistinct(s, t, R, l, c, m, W);
  }

  lemma ReplacedDistinct(s: Tree, t: Tree, R: seq<Edge>, l: nat, c: nat, m: nat, W: seq<Edge>)
    requires c + m <= |R| && RowOk(s.file, s.tag, s.M, R, l) && Fresh(s, t, W, R[c..c + m], l)
    ensures Distinct(Replaced(R, c, m, W))
  {
    hide NodeOk;
    var X := R[c..c + m];
    forall i, k | 0 <= i < |R| && (i < c || c + m <= i) && 0 <= k < |W|
      ensures R[i].addr != W[k].addr
    {
      if W[k].addr in s.tag {
        var j :| 0 <= j < |X| && X[j].addr == W[k].addr;
        assert X[j] == R[c + j];
      } else {
        assert NodeAt(s.file, s.tag, s.M, R[i].addr, l);
      }
    }
  }

  /** The row of the parent: its nodes are in order, and the row below it is the one with the stretch replaced. */
  lemma ParentRow(s: Tree, t: Tree, l: nat, g: nat, pos: nat, m: nat, W: seq<Edge>, X: seq<Edge>)
    requires l + 1 < |s.rows| && s.Ok(l + 1) && s.Link(l) && s.M == t.M && g < |s.rows[l + 1]|
    requires var e := s.rows[l + 1][g]; var K := KidsAt(s.file, e);
      && SameBut(s, t, e.addr, X) && NodeAt(t.file, t.tag, t.M, e.addr, l + 1)
      && pos + m <= |K| && KidsAt(t.file, e) == Replaced(K, pos, m, W)
    requires forall i :: 0 <= i < |X| ==> X[i].addr in s.tag && s.tag[X[i].addr] == l
    ensures var c := Offset(s.file, s.rows[l + 1], g) + pos;
      c + m <= |s.rows[l]| && Kids(t.file, s.rows[l + 1]) == Replaced(s.rows[l], c, m, W)
    ensures RowOk(t.file, t.tag, t.M, s.rows[l + 1], l + 1)
    ensures Offset(t.file, s.rows[l + 1], g) == Offset(s.file, s.rows[l + 1], g)
  {
    hide NodeOk, Kids, KidsAt;
    var P := s.rows[l + 1];
    var e := P[g];
    var A, B := P[..g], P[g + 1..];
    forall i | 0 <= i < |A|
      ensures NodeAt(s.file, s.tag, s.M, A[i].addr, l + 1) && A[i].addr != e.addr
    {
      assert A[i] == P[i];
    }
    forall i | 0 <= i < |B|
      ensures NodeAt(s.file, s.tag, s.M, B[i].addr, l + 1) && B[i].addr != e.addr
    {
      assert B[i] == P[g + 1 + i];
    }
    SameKids(s, t, e.addr, X, A, l + 1);
    SameKids(s, t, e.addr, X, B, l + 1);
    KidsFocus(s.file, P, g);
    KidsFocus(t.file, P, g);
    Inside(Kids(s.file, A), KidsAt(s.file, e), Kids(s.file, B), pos, m, W);
    forall i | 0 <= i < |P|
      ensures NodeAt(t.file, t.tag, t.M, P[i].addr, l + 1)
    {
      if i < g { assert A[i] == P[i]; } else if i > g { assert B[i - g - 1] == P[i]; }
    }
  }

  lemma Inside(A: seq<Edge>, K: seq<Edge>, B: seq<Edge>, pos: nat, m: nat, W: seq<Edge>)
    requires pos + m <= |K|
    ensures A + Replaced(K, pos, m, W) + B == Replaced(A + K + B, |A| + pos, m, W)
  {
  }

  /**
  The general step: in the row of level l the edges X out of a node are replaced by edges W with the same edges below
  them. The rows below keep every edge, so the pairs of the tree are the same in the same order.
  */
  lemma Restructure(s: Tree, t: Tree, l: nat, g: nat, pos: nat, m: nat, W: seq<Edge>)
    requires s.All() && 1 <= l && l + 1 < |s.rows| && s.M == t.M && g < |s.rows[l + 1]|
    requires var e := s.rows[l + 1][g]; var K := KidsAt(s.file, e); var c := Offset(s.file, s.rows[l + 1], g) + pos;
      && pos + m <= |K| && c + m <= |s.rows[l]|
      && t.rows == s.rows[l := Replaced(s.rows[l], c, m, W)]
      && NodeAt(t.file, t.tag, t.M, e.addr, l + 1) && KidsAt(t.file, e) == Replaced(K, pos, m, W)
      && var X := s.rows[l][c..c + m];
         SameBut(s, t, e.addr, X) && Fresh(s, t, W, X, l) && Kids(t.file, W) == Kids(s.file, X)
    ensures t.All()
    ensures Offset(t.file, t.rows[l + 1], g) == Offset(s.file, s.rows[l + 1], g)
  {
    hide NodeOk, Kids, KidsAt, Fresh, SameBut, Replaced, Offset;
    var e, c := s.rows[l + 1][g], Offset(s.file, s.rows[l + 1], g) + pos;
    var X := s.rows[l][c..c + m];
    OkAt(s, l);
    OkAt(s, l + 1);
    TagAt(s, l + 1, g);
    forall i | 0 <= i < |X|
      ensures X[i].addr in s.tag && s.tag[X[i].addr] == l
    {
      assert X[i] == s.rows[l][c + i];
      TagAt(s, l, c + i);
    }
    ParentRow(s, t, l, g, pos, m, W, X);
    ReplacedRow(s, t, e.addr, l, c, m, W);
    hide RowOk;
    forall q | 1 <= q < |s.rows|
      ensures t.Ok(q) && t.rows[q - 1] == Kids(t.file, t.rows[q])
    {
      OkAt(s, q);
      if q != l && q != l + 1 { Untouched(s, t, e.addr, X, l, q); }
    }
    AllOf(t);
  }

  lemma TagAt(s: Tree, l: nat, g: nat)
    requires l < |s.rows| && s.Ok(l) && g < |s.rows[l]|
    ensures s.rows[l][g].addr in s.tag && s.tag[s.rows[l][g].addr] == l
  {
    hide NodeOk;
    assert NodeAt(s.file, s.tag, s.M, s.rows[l][g].addr, l);
  }

  lemma AllOf(t: Tree)
    requires t.M >= 5 && |t.rows| >= 2 && t.rows[|t.rows| - 1] == [Edge(ROOT, End)]
    requires forall q :: 1 <= q < |t.rows| ==> t.Ok(q) && t.rows[q - 1] == Kids(t.file, t.rows[q])
    ensures t.All()
  {
    hide RowOk, Kids;
    forall l | 0 <= l < |t.rows| - 1
      ensures t.Link(l)
    {
      assert t.Ok(l + 1);
    }
  }

  /** Blocks outside the tree do not matter to it. */
  lemma SameTree(s: Tree, t: Tree)
    requires s.All() && t.M == s.M && t.tag == s.tag && t.rows == s.rows
    requires forall a :: a in s.tag && a in s.file ==> a in t.file && t.file[a] == s.file[a]
    ensures t.All()
  {
    hide NodeOk, Kids, KidsAt;
    forall q | 1 <= q < |t.rows|
      ensures t.Ok(q) && t.rows[q - 1] == Kids(t.file, t.rows[q])
    {
      OkAt(s, q);
      var R := s.rows[q];
      forall i | 0 <= i < |R|
        ensures NodeAt(t.file, t.tag, t.M, R[i].addr, q) && KidsAt(s.file, R[i]) == KidsAt(t.file, R[i])
      {
        assert NodeAt(s.file, s.tag, s.M, R[i].addr, q);
        SameBlock(s.file, t.file, R[i]);
      }
      KidsFrame(s.file, t.file, R);
    }
    AllOf(t);
  }

  lemma SameBlock(f: map<nat, Block>, f': map<nat, Block>, e: Edge)
    requires e.addr in f && e.addr in f' && f[e.addr] == f'[e.addr]
    ensures KidsAt(f, e) == KidsAt(f', e)
  {
  }

  // ---------- how full the nodes are

  ghost predicate FilledRow(s: Tree, l: nat)
    requires l < |s.rows| && s.M > 0
  {
    forall i :: 0 <= i < |s.rows[l]| ==>
      s.rows[l][i].addr in s.file && s.file[s.rows[l][i].addr].num + 1 >= Half(s.M)
  }

  /** Every node but the root has at least Half(M) - 1 keys. */
  ghost predicate Filled(s: Tree)
    requires s.M > 0
  {
    forall l {:trigger FilledRow(s, l)} :: 1 <= l < |s.rows| - 1 ==> FilledRow(s, l)
  }

  /** An inner root has a key. */
  ghost predicate Rooted(s: Tree) {
    |s.rows| > 2 ==> ROOT in s.file && s.file[ROOT].num >= 1
  }

  /** Replacing a stretch by nodes that are full enough. */
  lemma FilledStep(s: Tree, t: Tree, l: nat, p: nat, c: nat, m: nat, W: seq<Edge>)
    requires s.All() && t.All() && Filled(s) && s.M == t.M && 1 <= l && l + 1 < |s.rows| && c + m <= |s.rows[l]|
    requires t.rows == s.rows[l := Replaced(s.rows[l], c, m, W)] && SameBut(s, t, p, s.rows[l][c..c + m])
    requires forall i :: 0 <= i < |W| ==> W[i].addr in t.file && t.file[W[i].addr].num + 1 >= Half(s.M)
    requires p in s.tag && s.tag[p] == l + 1 && p in t.file
    requires l + 1 < |s.rows| - 1 ==> t.file[p].num + 1 >= Half(s.M) && Rooted(s)
    ensures Filled(t)
    ensures l + 1 < |s.rows| - 1 || (p == ROOT && t.file[p].num >= 1) ==> Rooted(t)
  {
    hide NodeOk, Kids, KidsAt;
    var X := s.rows[l][c..c + m];
    forall q | 1 <= q < |t.rows| - 1
      ensures FilledRow(t, q)
    {
      OkAt(s, q);
      assert FilledRow(s, q);
      var R := s.rows[q];
      OkAt(s, l);
      forall i | 0 <= i < |R| && R[i].addr != p && (q == l ==> i < c || c + m <= i)
        ensures R[i].addr in t.file && t.file[R[i].addr].num + 1 >= Half(t.M)
      {
        NotIn(s, l, c, m, q, i);
        TagAt(s, q, i);
      }
      if q == l { FilledParts(s, t, R, c, m, W); }
    }
    if l + 1 < |s.rows| - 1 { RootStays(s, t, l, p, c, m); }
  }

  lemma FilledParts(s: Tree, t: Tree, R: seq<Edge>, c: nat, m: nat, W: seq<Edge>)
    requires c + m <= |R| && t.M > 0
    requires forall i :: 0 <= i < |R| && (i < c || c + m <= i) ==>
      R[i].addr in t.file && t.file[R[i].addr].num + 1 >= Half(t.M)
    requires forall i :: 0 <= i < |W| ==> W[i].addr in t.file && t.file[W[i].addr].num + 1 >= Half(t.M)
    ensures forall i :: 0 <= i < |Replaced(R, c, m, W)| ==>
      var a := Replaced(R, c, m, W)[i].addr; a in t.file && t.file[a].num + 1 >= Half(t.M)
  {
  }

  lemma NotIn(s: Tree, l: nat, c: nat, m: nat, q: nat, i: nat)
    requires s.All() && 1 <= l < |s.rows| && 1 <= q < |s.rows| && c + m <= |s.rows[l]| && i < |s.rows[q]|
    requires q == l ==> i < c || c + m <= i
    ensures var X, a := s.rows[l][c..c + m], s.rows[q][i].addr; forall j :: 0 <= j < |X| ==> a != X[j].addr
  {
    hide NodeOk, Kids;
    OkAt(s, l);
    OkAt(s, q);
    TagAt(s, q, i);
    var X, a := s.rows[l][c..c + m], s.rows[q][i].addr;
    forall j | 0 <= j < |X|
      ensures a != X[j].addr
    {
      TagAt(s, l, c + j);
    }
  }

  lemma RootStays(s: Tree, t: Tree, l: nat, p: nat, c: nat, m: nat)
    requires s.All() && 1 <= l && l + 1 < |s.rows| - 1 && c + m <= |s.rows[l]| && SameBut(s, t, p, s.rows[l][c..c + m])
    requires p in s.tag && s.tag[p] == l + 1
    ensures ROOT in s.file && ROOT in t.file && t.file[ROOT] == s.file[ROOT]
  {
    hide NodeOk, Kids;
    var top := |s.rows| - 1;
    OkAt(s, top);
    TagAt(s, top, 0);
    NotIn(s, l, c, m, top, 0);
    assert NodeAt(s.file, s.tag, s.M, s.rows[top][0].addr, top);
  }
}
