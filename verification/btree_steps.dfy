/**
What each structural step of the B+tree does to the rows of a tree: adding or dropping a pair of one node,
moving pairs between neighbours, splitting a node and merging two.
*/
module BtreeSteps {
  import opened BtreeLevels

  /** E' is E with the pair (k, v) added at p; no key range shrinks except that of E[p], which ends at k. */
  ghost predicate Inserted(E: seq<Ref>, E': seq<Ref>, p: nat, k: nat, v: nat) {
    && p <= |E| && |E'| == |E| + 1
    && E'[p].addr == v && E'[p].lo == k
    && SamePairs(E[..p], E'[..p])
    && (p < |E| ==>
          && SamePairs(E[p + 1..], E'[p + 2..])
          && E'[p + 1].addr == E[p].addr && E'[p + 1].lo == E[p].lo
          && (Le(E[p].hi, E'[p + 1].hi) || Le(Fin(k), E'[p + 1].hi))
          && (Below(k, E[p].hi) ==> Le(E[p].hi, E'[p].hi)))
  }

  /** E' is E without its p-th pair; no key range shrinks. With exact, no key changes either. */
  ghost predicate Removed(E: seq<Ref>, E': seq<Ref>, p: nat, exact: bool) {
    && p < |E| && |E'| == |E| - 1
    && Wider(E[..p], E'[..p]) && Wider(E[p + 1..], E'[p..])
    && (exact ==> SamePairs(E[..p], E'[..p]) && SamePairs(E[p + 1..], E'[p..]))
  }

  lemma SamePairsRefl(E: seq<Ref>)
    ensures SamePairs(E, E)
  {
  }

  /** The first i pairs of n have gone to o, and those half behind them have taken their slots. */
  ghost predicate Moved(n: Node, o: Node, n': Node, o': Node, i: nat, half: nat) {
    && |n| == |o| == |n'| == |o'| && 2 * half <= |n| && i <= half
    && (forall j :: 0 <= j < i ==> o'[j] == n[j] && n'[j] == n[j + half])
    && (forall j :: i <= j < |n| ==> o'[j] == o[j])
    && (forall j :: i <= j < |n| ==> n'[j] == if half <= j < half + i then EMPTY else n[j])
  }

  lemma MovedNext(n: Node, o: Node, n': Node, o': Node, i: nat, half: nat)
    requires Moved(n, o, n', o', i, half) && i < half
    ensures Moved(n, o, n'[i := n'[i + half]][i + half := EMPTY], o'[i := n'[i]], i + 1, half)
  {
  }

  lemma InsertKids(es: seq<Slot>, hi: Bound, i: nat, k: nat, v: nat)
    requires i <= |es|
    ensures Inserted(KidsOf(es, hi), KidsOf(es[..i] + [Slot(k, v)] + es[i..], hi), i, k, v)
  {
    var E, E' := KidsOf(es, hi), KidsOf(es[..i] + [Slot(k, v)] + es[i..], hi);
    assert E'[..i] == E[..i];
    if i < |E| {
      assert E'[i + 2..] == E[i + 1..];
    }
  }

  lemma InsertedInRow(A: seq<Ref>, B: seq<Ref>, B': seq<Ref>, C: seq<Ref>, i: nat, k: nat, v: nat)
    requires Inserted(B, B', i, k, v)
    requires i == |B| && C != [] ==> !Below(k, C[0].hi)
    ensures Inserted(A + B + C, A + B' + C, |A| + i, k, v)
  {
    var E, E', p := A + B + C, A + B' + C, |A| + i;
    assert E[..p] == A + B[..i] && E'[..p] == A + B'[..i];
    SamePairsRefl(A);
    SamePairsConcat(A, B[..i], A, B'[..i]);
    if i < |B| {
      assert E[p + 1..] == B[i + 1..] + C && E'[p + 2..] == B'[i + 2..] + C;
      SamePairsRefl(C);
      SamePairsConcat(B[i + 1..], C, B'[i + 2..], C);
    } else if C != [] {
      assert E[p + 1..] == C[1..] && E'[p + 2..] == C[1..];
      SamePairsRefl(C[1..]);
    }
  }

  lemma RemoveKids(es: seq<Slot>, hi: Bound, i: nat)
    requires i < |es| && Descending(es) && Below(es[0].key, hi)
    ensures Removed(KidsOf(es, hi), KidsOf(es[..i] + es[i + 1..], hi), i, true)
    ensures i + 1 < |es| ==> Le(KidsOf(es, hi)[i].hi, KidsOf(es[..i] + es[i + 1..], hi)[i].hi)
  {
    hide KidsOf;
    var A, x, B := es[..i], es[i], es[i + 1..];
    var E, E' := KidsOf(es, hi), KidsOf(A + B, hi);
    assert es == (A + [x]) + B;
    KidsOfConcat(A + [x], B, hi);
    KidsOfAt(es, hi, i);
    if i == 0 {
      assert A + B == B && E[1..] == KidsOf(B, Fin(x.key));
      KidsOfWider(B, Fin(x.key), hi);
      assert E'[0..] == E';
      if B != [] { KidsOfAt(B, hi, 0); }
    } else {
      KidsOfConcat(A, B, hi);
      KidsOfConcat(A, [x], hi);
      var last := Fin(A[i - 1].key);
      assert E[..i] == KidsOf(A, hi) == E'[..i];
      SamePairsRefl(E[..i]);
      assert E[i + 1..] == KidsOf(B, Fin(x.key)) && E'[i..] == KidsOf(B, last);
      KidsOfWider(B, Fin(x.key), last);
      if B != [] { KidsOfAt(A + B, hi, i); }
    }
  }

  lemma RemovedInRow(A: seq<Ref>, B: seq<Ref>, B': seq<Ref>, C: seq<Ref>, i: nat)
    requires Removed(B, B', i, true)
    ensures Removed(A + B + C, A + B' + C, |A| + i, true)
  {
    var E, E', p := A + B + C, A + B' + C, |A| + i;
    assert E[..p] == A + B[..i] && E'[..p] == A + B'[..i];
    SamePairsRefl(A);
    SamePairsConcat(A, B[..i], A, B'[..i]);
    assert E[p + 1..] == B[i + 1..] + C && E'[p..] == B'[i..] + C;
    SamePairsRefl(C);
    SamePairsConcat(B[i + 1..], C, B'[i..], C);
  }

  // ---------- adding and dropping a pair of one node

  /** The tree after one node of level L was overwritten; the row its level lists is recomputed. */
  function WithNode(s: Tree, L: nat, a: nat, n: Node): Tree
    requires 1 <= L < |s.rows|
  {
    var mem' := s.mem[a := n];
    s.(mem := mem', rows := s.rows[L - 1 := Kids(mem', s.rows[L])])
  }

  lemma WithNodeFrom(s: Tree, L: nat, g: nat, n: Node)
    requires 1 <= L < |s.rows| && s.From(L) && g < |s.rows[L]|
    requires NodeOk(n, s.N, s.rows[L][g])
    ensures WithNode(s, L, s.rows[L][g].addr, n).From(L)
  {
    hide NodeOk, Kids;
    var a := s.rows[L][g].addr;
    var t := WithNode(s, L, a, n);
    assert s.Ok(L);
    assert t.Ok(L);
    assert t.Link(L - 1);
    forall m | L < m < |s.rows|
      ensures Agree(s, t, m)
    {
    }
    forall m {:trigger s.Ok(m)} | L + 1 <= m < |s.rows|
      ensures s.Ok(m)
    {
    }
    Rebuild(s, t, L);
  }

  /** The stretch of the row below that belongs to the overwritten node is replaced, the rest stays. */
  lemma WithNodeRow(s: Tree, L: nat, g: nat, n: Node) returns (A: seq<Ref>, B: seq<Ref>, C: seq<Ref>)
    requires 1 <= L < |s.rows| && s.Ok(L) && s.Link(L - 1) && g < |s.rows[L]|
    ensures B == KidsOf(Entries(NodeAt(s.mem, s.rows[L][g].addr)), s.rows[L][g].hi)
    ensures s.rows[L - 1] == A + B + C && |A| == Offset(s.mem, s.rows[L], g)
    ensures WithNode(s, L, s.rows[L][g].addr, n).rows[L - 1] == A + KidsOf(Entries(n), s.rows[L][g].hi) + C
    ensures A == Kids(s.mem, s.rows[L][..g]) && C == Kids(s.mem, s.rows[L][g + 1..])
  {
    hide NodeOk, Kids, KidsOf, Entries;
    var R := s.rows[L];
    var mem' := s.mem[R[g].addr := n];
    A, B, C := Kids(s.mem, R[..g]), KidsOf(Entries(NodeAt(s.mem, R[g].addr)), R[g].hi), Kids(s.mem, R[g + 1..]);
    KidsFocus(s.mem, R, g);
    KidsFocus(mem', R, g);
    KidsFrame(s.mem, mem', R[..g], R[..g]);
    KidsFrame(s.mem, mem', R[g + 1..], R[g + 1..]);
  }

  /** The first pair below the nodes right of g lies below the keys g answers for. */
  lemma NextIsLower(s: Tree, L: nat, g: nat, k: nat)
    requires L < |s.rows| && s.Ok(L) && Chain(s.rows[L]) && g < |s.rows[L]| && InRange(s.rows[L][g], k)
    ensures var C := Kids(s.mem, s.rows[L][g + 1..]); C != [] ==> !Below(k, C[0].hi)
  {
    hide NodeOk, Kids, KidsOf;
    var rest := s.rows[L][g + 1..];
    if Kids(s.mem, rest) != [] {
      var p, i := Locate(s.mem, rest, 0);
      var n := NodeAt(s.mem, rest[p].addr);
      assert s.rows[L][g + 1 + p] == rest[p];
      assert NodeOk(n, s.N, rest[p]);
      KidWithin(n, s.N, rest[p], i);
    }
  }

  lemma InsertNodeOk(n: Node, N: nat, r: Ref, i: nat, k: nat, v: nat, n': Node)
    requires NodeOk(n, N, r) && IsPos(Entries(n), k, i) && InRange(r, k)
    requires i < |Entries(n)| ==> Entries(n)[i].key != k
    requires v != 0 && Holds(n', N, Entries(n)[..i] + [Slot(k, v)] + Entries(n)[i..])
    ensures NodeOk(n', N, r) && Entries(n') == Entries(n)[..i] + [Slot(k, v)] + Entries(n)[i..]
  {
    HoldsEntries(n', N, Entries(n)[..i] + [Slot(k, v)] + Entries(n)[i..]);
  }

  lemma RemoveNodeOk(n: Node, N: nat, r: Ref, i: nat, n': Node)
    requires NodeOk(n, N, r) && i < |Entries(n)|
    requires Holds(n', N, Entries(n)[..i] + Entries(n)[i + 1..])
    ensures NodeOk(n', N, r) && Entries(n') == Entries(n)[..i] + Entries(n)[i + 1..]
  {
    HoldsEntries(n', N, Entries(n)[..i] + Entries(n)[i + 1..]);
  }

  lemma InsertStep(s: Tree, L: nat, g: nat, i: nat, k: nat, v: nat, n': Node) returns (t: Tree)
    requires 1 <= L < |s.rows| && s.From(L) && g < |s.rows[L]| && InRange(s.rows[L][g], k)
    requires var es := Entries(NodeAt(s.mem, s.rows[L][g].addr));
      && IsPos(es, k, i) && (i < |es| ==> es[i].key != k)
      && v != 0 && Holds(n', s.N, es[..i] + [Slot(k, v)] + es[i..])
    ensures t == WithNode(s, L, s.rows[L][g].addr, n') && t.From(L)
    ensures Inserted(s.rows[L - 1], t.rows[L - 1], Offset(s.mem, s.rows[L], g) + i, k, v)
  {
    hide NodeOk, Kids, KidsOf, Entries, Holds, IsPos, Inserted, InRange, Chain;
    var r := s.rows[L][g];
    var n := NodeAt(s.mem, r.addr);
    assert s.Ok(L) && s.Link(L - 1);
    InsertNodeOk(n, s.N, r, i, k, v, n');
    WithNodeFrom(s, L, g, n');
    var A, B, C := WithNodeRow(s, L, g, n');
    t := WithNode(s, L, r.addr, n');
    InsertBound(Entries(n), k, i);
    InsertKids(Entries(n), r.hi, i, k, v);
    ChainFrom(s, L);
    NextIsLower(s, L, g, k);
    InsertedInRow(A, B, KidsOf(Entries(n'), r.hi), C, i, k, v);
  }

  lemma InsertBound(es: seq<Slot>, k: nat, i: nat)
    requires IsPos(es, k, i)
    ensures i <= |es|
  {
  }

  lemma RemoveStep(s: Tree, L: nat, g: nat, i: nat, n': Node) returns (t: Tree)
    requires 1 <= L < |s.rows| && s.From(L) && g < |s.rows[L]|
    requires var es := Entries(NodeAt(s.mem, s.rows[L][g].addr));
      i < |es| && Holds(n', s.N, es[..i] + es[i + 1..])
    ensures t == WithNode(s, L, s.rows[L][g].addr, n') && t.From(L)
    ensures Removed(s.rows[L - 1], t.rows[L - 1], Offset(s.mem, s.rows[L], g) + i, true)
    ensures i + 1 < |Entries(NodeAt(s.mem, s.rows[L][g].addr))| ==>
      var p := Offset(s.mem, s.rows[L], g) + i;
      p < |t.rows[L - 1]| && p < |s.rows[L - 1]| && Le(s.rows[L - 1][p].hi, t.rows[L - 1][p].hi)
  {
    hide NodeOk, Kids, KidsOf, Entries, Holds, Removed;
    var r := s.rows[L][g];
    var n := NodeAt(s.mem, r.addr);
    assert s.Ok(L) && s.Link(L - 1);
    RemoveNodeOk(n, s.N, r, i, n');
    WithNodeFrom(s, L, g, n');
    var A, B, C := WithNodeRow(s, L, g, n');
    t := WithNode(s, L, r.addr, n');
    FirstInRange(n, s.N, r);
    RemoveKids(Entries(n), r.hi, i);
    RemovedInRow(A, B, KidsOf(Entries(n'), r.hi), C, i);
  }

  lemma FirstInRange(n: Node, N: nat, r: Ref)
    requires NodeOk(n, N, r) && Entries(n) != []
    ensures Descending(Entries(n)) && Below(Entries(n)[0].key, r.hi)
  {
  }

  // ---------- moving pairs between two neighbours

  function LastKey(es: seq<Slot>): nat
    requires es != []
  {
    es[|es| - 1].key
  }

  ghost predicate Spread(es: seq<Slot>, r: Ref) {
    Descending(es) && forall i :: 0 <= i < |es| ==> InRange(r, es[i].key) && es[i].val != 0
  }

  lemma NodeSpread(n: Node, N: nat, r: Ref)
    requires NodeOk(n, N, r)
    ensures Spread(Entries(n), r) && |Entries(n)| <= N == |n|
  {
  }

  lemma SpreadNode(n: Node, N: nat, r: Ref, es: seq<Slot>)
    requires Holds(n, N, es) && Spread(es, r)
    ensures NodeOk(n, N, r) && Entries(n) == es
  {
    HoldsEntries(n, N, es);
  }

  lemma SpreadJoin(A: seq<Slot>, B: seq<Slot>, a: Ref, b: Ref, r: Ref)
    requires Spread(A, a) && Spread(B, b) && b.hi == Fin(a.lo) && b.lo <= a.lo && Below(a.lo, a.hi)
    requires r.lo <= b.lo && Le(a.hi, r.hi)
    ensures Spread(A + B, r)
  {
  }

  lemma SpreadCut(X: seq<Slot>, Y: seq<Slot>, r: Ref, x: Ref, y: Ref)
    requires X != [] && Spread(X + Y, r)
    requires x.lo == LastKey(X) && Le(r.hi, x.hi)
    requires y.lo <= r.lo && Le(Fin(LastKey(X)), y.hi)
    ensures Spread(X, x) && Spread(Y, y)
    ensures InRange(r, LastKey(X)) && (Y != [] ==> r.lo < LastKey(X))
  {
    var Z := X + Y;
    assert forall i :: 0 <= i < |X| ==> Z[i] == X[i];
    assert forall i :: 0 <= i < |Y| ==> Z[|X| + i] == Y[i];
    assert Z[|X| - 1].key == LastKey(X);
    if Y != [] { assert InRange(r, Z[|X|].key); }
  }

  lemma SpreadSet(es: seq<Slot>, r: Ref, i: nat, x: nat)
    requires Spread(es, r) && i + 1 < |es| && es[i + 1].key < x && InRange(r, x) && (i == 0 || es[i - 1].key > x)
    ensures Spread(es[i := es[i].(key := x)], r)
  {
  }

  lemma SetKeyOk(n: Node, N: nat, r: Ref, i: nat, x: nat)
    requires NodeOk(n, N, r) && i + 1 < |Entries(n)| && Entries(n)[i + 1].key < x
    requires Below(x, KidsOf(Entries(n), r.hi)[i].hi)
    ensures i < |n| && NodeOk(n[i := n[i].(key := x)], N, r)
    ensures Entries(n[i := n[i].(key := x)]) == Entries(n)[i := Entries(n)[i].(key := x)]
  {
    hide KidsOf;
    KidsOfAt(Entries(n), r.hi, i);
    var es, n' := Entries(n), n[i := n[i].(key := x)];
    var es' := es[i := es[i].(key := x)];
    assert i == 0 || es[i - 1].key > x;
    HoldsEntries(n', N, es');
    assert Spread(es, r) && InRange(r, x);
    SpreadSet(es, r, i, x);
  }

  lemma KidsSetKey(es: seq<Slot>, hi: Bound, i: nat, x: nat)
    requires i + 1 < |es|
    ensures var E := KidsOf(es, hi);
      KidsOf(es[i := es[i].(key := x)], hi) == E[i := E[i].(lo := x)][i + 1 := E[i + 1].(hi := Fin(x))]
  {
  }

  /** Siblings under one parent: the right one's interval ends where the left one's begins. */
  lemma Siblings(s: Tree, L: nat, p: nat, i: nat)
    requires L + 1 < |s.rows| && s.Ok(L + 1) && s.Link(L) && p < |s.rows[L + 1]|
    requires i + 1 < |Entries(NodeAt(s.mem, s.rows[L + 1][p].addr))|
    ensures var es, c := Entries(NodeAt(s.mem, s.rows[L + 1][p].addr)), Offset(s.mem, s.rows[L + 1], p) + i;
      && c + 1 < |s.rows[L]|
      && s.rows[L][c] == KidsOf(es, s.rows[L + 1][p].hi)[i]
      && s.rows[L][c].addr == es[i].val && s.rows[L][c + 1].addr == es[i + 1].val
      && s.rows[L][c].lo == es[i].key && s.rows[L][c + 1].lo == es[i + 1].key < es[i].key
      && s.rows[L][c + 1].hi == Fin(es[i].key) && Below(es[i].key, s.rows[L][c].hi)
  {
    hide Kids, KidsOf, NodeOk, Entries;
    var n := NodeAt(s.mem, s.rows[L + 1][p].addr);
    var es := Entries(n);
    KidAt(s.mem, s.rows[L + 1], p, i);
    KidAt(s.mem, s.rows[L + 1], p, i + 1);
    KidsOfAt(es, s.rows[L + 1][p].hi, i);
    KidsOfAt(es, s.rows[L + 1][p].hi, i + 1);
    assert NodeOk(n, s.N, s.rows[L + 1][p]);
    DescendingOf(n, s.N, s.rows[L + 1][p]);
    KidWithin(n, s.N, s.rows[L + 1][p], i);
  }

  ghost predicate OthersSame(mem: map<nat, Node>, mem': map<nat, Node>, R: seq<Ref>, p: nat) {
    forall j :: 0 <= j < |R| && j != p ==> NodeAt(mem', R[j].addr) == NodeAt(mem, R[j].addr)
  }

  ghost predicate RestSame(mem: map<nat, Node>, mem': map<nat, Node>, R: seq<Ref>, c: nat) {
    forall j :: 0 <= j < |R| && j != c && j != c + 1 ==> NodeAt(mem', R[j].addr) == NodeAt(mem, R[j].addr)
  }

  /** A row of nodes whose parent p got a new separator at i. */
  lemma SeparatorRow(s: Tree, L: nat, p: nat, i: nat, x: nat, mem': map<nat, Node>)
    requires L + 1 < |s.rows| && s.Ok(L + 1) && s.Link(L) && p < |s.rows[L + 1]|
    requires i + 1 < |Entries(NodeAt(s.mem, s.rows[L + 1][p].addr))|
    requires i < |NodeAt(s.mem, s.rows[L + 1][p].addr)|
    requires var n := NodeAt(s.mem, s.rows[L + 1][p].addr);
      && NodeAt(mem', s.rows[L + 1][p].addr) == n[i := n[i].(key := x)]
      && Entries(n[i := n[i].(key := x)]) == Entries(n)[i := Entries(n)[i].(key := x)]
    requires OthersSame(s.mem, mem', s.rows[L + 1], p)
    ensures var c := Offset(s.mem, s.rows[L + 1], p) + i;
      && c + 1 < |s.rows[L]|
      && Kids(mem', s.rows[L + 1]) ==
         s.rows[L][c := s.rows[L][c].(lo := x)][c + 1 := s.rows[L][c + 1].(hi := Fin(x))]
  {
    hide Kids, KidsOf, NodeOk, Entries;
    var R := s.rows[L + 1];
    var es := Entries(NodeAt(s.mem, R[p].addr));
    var A, B, C := Kids(s.mem, R[..p]), KidsOf(es, R[p].hi), Kids(s.mem, R[p + 1..]);
    KidsFocus(s.mem, R, p);
    KidsFocus(mem', R, p);
    KidsFrame(s.mem, mem', R[..p], R[..p]);
    KidsFrame(s.mem, mem', R[p + 1..], R[p + 1..]);
    KidsSetKey(es, R[p].hi, i, x);
    Splice(A, B, C, i, B[i].(lo := x));
    Splice(A, B[i := B[i].(lo := x)], C, i + 1, B[i + 1].(hi := Fin(x)));
  }

  /** The row below two neighbours c and c + 1 of which only the sharing of pairs changed. */
  lemma ReshareRow(mem: map<nat, Node>, mem': map<nat, Node>, R: seq<Ref>, S: seq<Ref>, c: nat)
    requires c + 1 < |R| == |S| && R[..c] == S[..c] && R[c + 2..] == S[c + 2..]
    requires RestSame(mem, mem', R, c)
    requires var A, B := Entries(NodeAt(mem, R[c].addr)), Entries(NodeAt(mem, R[c + 1].addr));
      var X, Y := Entries(NodeAt(mem', S[c].addr)), Entries(NodeAt(mem', S[c + 1].addr));
      && A != [] && X != [] && A + B == X + Y
      && S[c].hi == R[c].hi && Le(R[c + 1].hi, Fin(LastKey(A))) && S[c + 1].hi == Fin(LastKey(X))
    ensures SamePairs(Kids(mem, R), Kids(mem', S))
  {
    hide Kids, KidsOf, Entries;
    var A, B := Entries(NodeAt(mem, R[c].addr)), Entries(NodeAt(mem, R[c + 1].addr));
    var X, Y := Entries(NodeAt(mem', S[c].addr)), Entries(NodeAt(mem', S[c + 1].addr));
    PairFocus(mem, R, c);
    PairFocus(mem', S, c);
    KidsFrame(mem, mem', R[..c], S[..c]);
    KidsFrame(mem, mem', R[c + 2..], S[c + 2..]);
    JoinKids(A, B, R[c].hi, R[c + 1].hi, R[c].hi);
    KidsOfConcat(X, Y, R[c].hi);
    var P, M, M', Q := Kids(mem, R[..c]), KidsOf(A, R[c].hi) + KidsOf(B, R[c + 1].hi), KidsOf(A + B, R[c].hi),
        Kids(mem, R[c + 2..]);
    SamePairsRefl(P);
    SamePairsRefl(Q);
    SamePairsConcat(P, M, P, M');
    SamePairsConcat(P + M, Q, P + M', Q);
  }

  /** steal_l and steal_r: the pairs A + B of two siblings are dealt out anew as X + Y, and the parent's key follows. */
  function Reshared(s: Tree, L: nat, p: nat, i: nat, x: nat, nl: Node, nr: Node): Tree
    requires 1 <= L && L + 1 < |s.rows| && p < |s.rows[L + 1]|
    requires Offset(s.mem, s.rows[L + 1], p) + i + 1 < |s.rows[L]|
    requires i < |NodeAt(s.mem, s.rows[L + 1][p].addr)|
  {
    var c := Offset(s.mem, s.rows[L + 1], p) + i;
    var pa := s.rows[L + 1][p].addr;
    var pn := NodeAt(s.mem, pa);
    var mem' := s.mem[s.rows[L][c].addr := nl][s.rows[L][c + 1].addr := nr][pa := pn[i := pn[i].(key := x)]];
    var S := s.rows[L][c := s.rows[L][c].(lo := x)][c + 1 := s.rows[L][c + 1].(hi := Fin(x))];
    Tree(s.N, mem', s.tag, s.rows[L := S][L - 1 := Kids(mem', S)])
  }

  lemma ReshareStep(s: Tree, L: nat, p: nat, i: nat, X: seq<Slot>, Y: seq<Slot>, nl: Node, nr: Node)
    requires 1 <= L && L + 1 < |s.rows| && s.From(L) && p < |s.rows[L + 1]|
    requires i + 1 < |Entries(NodeAt(s.mem, s.rows[L + 1][p].addr))|
    requires i < |NodeAt(s.mem, s.rows[L + 1][p].addr)|
    requires Offset(s.mem, s.rows[L + 1], p) + i + 1 < |s.rows[L]|
    requires var c := Offset(s.mem, s.rows[L + 1], p) + i;
      X + Y == Entries(NodeAt(s.mem, s.rows[L][c].addr)) + Entries(NodeAt(s.mem, s.rows[L][c + 1].addr))
    requires var c := Offset(s.mem, s.rows[L + 1], p) + i; Entries(NodeAt(s.mem, s.rows[L][c].addr)) != []
    requires X != [] && Y != [] && Holds(nl, s.N, X) && Holds(nr, s.N, Y)
    ensures var t := Reshared(s, L, p, i, LastKey(X), nl, nr);
      t.From(L) && SamePairs(s.rows[L - 1], t.rows[L - 1])
  {
    hide Kids, KidsOf, NodeOk, Entries, Holds, Spread, Agree, InRange, Chain, SamePairs;
    var R, P := s.rows[L], s.rows[L + 1];
    var c, x := Offset(s.mem, P, p) + i, LastKey(X);
    var pn := NodeAt(s.mem, P[p].addr);
    var t := Reshared(s, L, p, i, x, nl, nr);
    assert s.Ok(L) && s.Ok(L + 1) && s.Link(L) && s.Link(L - 1);
    Siblings(s, L, p, i);
    ReshareNodes(s.mem, t.mem, s.N, R, t.rows[L], c, X, Y, nl, nr);
    assert NodeOk(pn, s.N, P[p]);
    SetKeyOk(pn, s.N, P[p], i, x);
    DistinctLevels(s, L, R, P);
    assert t.Ok(L + 1);
    SeparatorRow(s, L, p, i, x, t.mem);
    assert t.Link(L);
    ReshareAbove(s, t, L);
    assert t.Ok(L) by { ReshareRowOk(s, t, L, c); }
    assert t.Link(L - 1);
    Extend(t, L);
    LastAtLeast(s.mem, s.N, R, c);
    ReshareRow(s.mem, t.mem, R, t.rows[L], c);
  }

  lemma DistinctLevels(s: Tree, L: nat, R: seq<Ref>, P: seq<Ref>)
    requires L + 1 < |s.rows| && s.Ok(L) && s.Ok(L + 1) && R == s.rows[L] && P == s.rows[L + 1]
    ensures forall i, j :: 0 <= i < |R| && 0 <= j < |P| ==> R[i].addr != P[j].addr
  {
    hide NodeOk;
  }

  lemma LastAtLeast(mem: map<nat, Node>, N: nat, R: seq<Ref>, c: nat)
    requires c < |R| && NodeOk(NodeAt(mem, R[c].addr), N, R[c]) && Entries(NodeAt(mem, R[c].addr)) != []
    ensures R[c].lo <= LastKey(Entries(NodeAt(mem, R[c].addr)))
  {
  }

  lemma ReshareNodes(mem: map<nat, Node>, mem': map<nat, Node>, N: nat, R: seq<Ref>, S: seq<Ref>, c: nat,
                     X: seq<Slot>, Y: seq<Slot>, nl: Node, nr: Node)
    requires c + 1 < |R| == |S| && X != [] && Y != [] && Holds(nl, N, X) && Holds(nr, N, Y)
    requires NodeOk(NodeAt(mem, R[c].addr), N, R[c]) && NodeOk(NodeAt(mem, R[c + 1].addr), N, R[c + 1])
    requires X + Y == Entries(NodeAt(mem, R[c].addr)) + Entries(NodeAt(mem, R[c + 1].addr))
    requires R[c + 1].hi == Fin(R[c].lo) && R[c + 1].lo <= R[c].lo && Below(R[c].lo, R[c].hi)
    requires S[c] == R[c].(lo := LastKey(X)) && S[c + 1] == R[c + 1].(hi := Fin(LastKey(X)))
    ensures NodeOk(nl, N, S[c]) && NodeOk(nr, N, S[c + 1]) && Entries(nl) == X && Entries(nr) == Y
    ensures Below(LastKey(X), R[c].hi) && R[c + 1].lo < LastKey(X)
  {
    hide NodeOk, Holds, Entries, Spread;
    NodeSpread(NodeAt(mem, R[c].addr), N, R[c]);
    NodeSpread(NodeAt(mem, R[c + 1].addr), N, R[c + 1]);
    var r := Ref(0, R[c + 1].lo, R[c].hi);
    SpreadJoin(Entries(NodeAt(mem, R[c].addr)), Entries(NodeAt(mem, R[c + 1].addr)), R[c], R[c + 1], r);
    SpreadCut(X, Y, r, S[c], S[c + 1]);
    SpreadNode(nl, N, S[c], X);
    SpreadNode(nr, N, S[c + 1], Y);
  }

  /** Levels above L + 1 did not change, and level L + 1 is in order. */
  lemma ReshareAbove(s: Tree, t: Tree, L: nat)
    requires 1 <= L && L + 1 < |s.rows| && s.From(L) && |t.rows| == |s.rows| && s.N == t.N && s.tag == t.tag
    requires forall m :: L < m < |s.rows| ==> t.rows[m] == s.rows[m]
    requires forall a :: a in s.mem && a in s.tag && s.tag[a] > L + 1 ==> a in t.mem && t.mem[a] == s.mem[a]
    requires t.Ok(L + 1) && t.Link(L)
    ensures t.From(L + 1)
  {
    hide Kids, RowOk;
    forall m {:trigger s.Ok(m)} | L + 2 <= m < |s.rows|
      ensures s.Ok(m)
    {
    }
    Rebuild(s, t, L + 1);
  }

  lemma ReshareRowOk(s: Tree, t: Tree, L: nat, c: nat)
    requires L < |s.rows| == |t.rows| && s.Ok(L) && s.N == t.N && s.tag == t.tag
    requires c + 1 < |s.rows[L]| == |t.rows[L]|
    requires forall j :: 0 <= j < |s.rows[L]| ==> t.rows[L][j].addr == s.rows[L][j].addr
    requires forall j :: 0 <= j < |s.rows[L]| && j != c && j != c + 1 ==> t.rows[L][j] == s.rows[L][j]
    requires forall j :: 0 <= j < |s.rows[L]| ==> s.rows[L][j].addr in t.mem
    requires RestSame(s.mem, t.mem, s.rows[L], c)
    requires NodeOk(NodeAt(t.mem, t.rows[L][c].addr), t.N, t.rows[L][c])
    requires NodeOk(NodeAt(t.mem, t.rows[L][c + 1].addr), t.N, t.rows[L][c + 1])
    ensures t.Ok(L)
  {
    hide NodeOk;
  }

  // ---------- splitting a node

  /** The upper node of a split holds A, the lower one B; both fit the intervals the parent level now gives them. */
  lemma SplitRow(mem: map<nat, Node>, mem': map<nat, Node>, N: nat, R: seq<Ref>, S: seq<Ref>, c: nat,
                 A: seq<Slot>, B: seq<Slot>, new_: nat)
    requires c < |R| && NodeOk(NodeAt(mem, R[c].addr), N, R[c])
    requires A != [] && Entries(NodeAt(mem, R[c].addr)) == A + B && Inserted(R, S, c, LastKey(A), new_)
    requires Holds(NodeAt(mem', new_), N, A) && Holds(NodeAt(mem', R[c].addr), N, B)
    requires OthersSame(mem, mem', R, c)
    ensures NodeOk(NodeAt(mem', S[c].addr), N, S[c]) && NodeOk(NodeAt(mem', S[c + 1].addr), N, S[c + 1])
    ensures Entries(NodeAt(mem', S[c].addr)) == A && Entries(NodeAt(mem', S[c + 1].addr)) == B
    ensures SamePairs(Kids(mem, R), Kids(mem', S))
  {
    hide NodeOk, Kids, KidsOf, Holds, Spread, Entries;
    var r, k := R[c], LastKey(A);
    NodeSpread(NodeAt(mem, r.addr), N, r);
    SpreadLast(A, B, r);
    SpreadCut(A, B, r, S[c], S[c + 1]);
    SpreadNode(NodeAt(mem', new_), N, S[c], A);
    SpreadNode(NodeAt(mem', r.addr), N, S[c + 1], B);
    KidsFocus(mem, R, c);
    PairFocus(mem', S, c);
    KidsWider(mem, mem', R[..c], S[..c]);
    KidsWider(mem, mem', R[c + 1..], S[c + 2..]);
    CutKids(A, B, r.hi, S[c].hi, S[c + 1].hi);
    var M' := KidsOf(A, S[c].hi) + KidsOf(B, S[c + 1].hi);
    SamePairsConcat(Kids(mem, R[..c]), KidsOf(A + B, r.hi), Kids(mem', S[..c]), M');
    SamePairsConcat(Kids(mem, R[..c]) + KidsOf(A + B, r.hi), Kids(mem, R[c + 1..]), Kids(mem', S[..c]) + M',
                    Kids(mem', S[c + 2..]));
  }

  lemma SpreadLast(A: seq<Slot>, B: seq<Slot>, r: Ref)
    requires A != [] && Spread(A + B, r)
    ensures InRange(r, LastKey(A))
  {
    assert (A + B)[|A| - 1] == A[|A| - 1];
  }

  lemma InsertedAddrs(R: seq<Ref>, S: seq<Ref>, c: nat, k: nat, v: nat, j: nat)
    requires Inserted(R, S, c, k, v) && c < |R| && j < |R|
    ensures S[if j < c then j else j + 1].addr == R[j].addr
    ensures j != c ==> Looser(R[j], S[if j < c then j else j + 1])
    ensures S[c].addr == v
  {
    if j < c {
      assert Looser(R[..c][j], S[..c][j]);
    } else if j > c {
      assert Looser(R[c + 1..][j - c - 1], S[c + 2..][j - c - 1]);
    }
  }

  /** split: R is the row of level L before the new node was entered above it, s the tree afterwards. */
  lemma SplitStep(mem: map<nat, Node>, tag: map<nat, nat>, R: seq<Ref>, s: Tree, t: Tree, L: nat, c: nat,
                  A: seq<Slot>, B: seq<Slot>, new_: nat)
    requires 1 <= L && L + 1 < |s.rows| && s.From(L + 1)
    requires c < |R| && RowOk(mem, tag, s.N, R, L)
    requires A != [] && Entries(NodeAt(mem, R[c].addr)) == A + B
    requires Inserted(R, s.rows[L], c, LastKey(A), new_)
    requires new_ in s.mem && new_ in s.tag && s.tag[new_] == L && new_ !in mem
    requires forall a :: a in mem && a in tag && tag[a] == L ==>
      a in s.mem && s.mem[a] == mem[a] && a in s.tag && s.tag[a] == L
    requires t.N == s.N && t.tag == s.tag && t.rows == s.rows[L - 1 := Kids(t.mem, s.rows[L])]
    requires t.mem.Keys == s.mem.Keys
    requires forall a :: a in s.mem && a != new_ && a != R[c].addr ==> t.mem[a] == s.mem[a]
    requires Holds(NodeAt(t.mem, new_), s.N, A) && Holds(NodeAt(t.mem, R[c].addr), s.N, B)
    ensures t.From(L)
    ensures SamePairs(Kids(mem, R), t.rows[L - 1])
    ensures Entries(NodeAt(t.mem, new_)) == A && Entries(NodeAt(t.mem, R[c].addr)) == B
  {
    hide NodeOk, Kids, KidsOf, Holds, Entries, Inserted;
    var S := s.rows[L];
    InsertedAddrs(R, S, c, LastKey(A), new_, c);
    SplitRow(mem, t.mem, s.N, R, S, c, A, B, new_);
    assert t.Ok(L) by { SplitRowOk(mem, tag, R, t, L, c, LastKey(A), new_); }
    assert t.Link(L - 1);
    forall m | L < m < |s.rows|
      ensures Agree(s, t, m)
    {
    }
    Rebuild(s, t, L);
  }

  lemma SplitRowOk(mem: map<nat, Node>, tag: map<nat, nat>, R: seq<Ref>, t: Tree, L: nat, c: nat, k: nat, new_: nat)
    requires L < |t.rows| && c < |R| && RowOk(mem, tag, t.N, R, L) && Inserted(R, t.rows[L], c, k, new_)
    requires new_ in t.mem && new_ in t.tag && t.tag[new_] == L && new_ !in mem
    requires forall a :: a in mem && a in tag && tag[a] == L ==> a in t.mem && a in t.tag && t.tag[a] == L
    requires OthersSame(mem, t.mem, R, c)
    requires NodeOk(NodeAt(t.mem, t.rows[L][c].addr), t.N, t.rows[L][c])
    requires NodeOk(NodeAt(t.mem, t.rows[L][c + 1].addr), t.N, t.rows[L][c + 1])
    ensures t.Ok(L)
  {
    hide NodeOk, Inserted;
    var S := t.rows[L];
    InsertedLength(R, S, c, k, new_);
    InsertedAddrs(R, S, c, k, new_, c);
    forall j | 0 <= j < |R|
      ensures S[if j < c then j else j + 1].addr == R[j].addr
      ensures j != c ==> NodeOk(NodeAt(t.mem, R[j].addr), t.N, S[if j < c then j else j + 1])
    {
      InsertedAddrs(R, S, c, k, new_, j);
      if j != c {
        NodeOkLooser(NodeAt(mem, R[j].addr), t.N, R[j], S[if j < c then j else j + 1]);
      }
    }
    forall q | 0 <= q < |S|
      ensures q != c ==> S[q].addr == R[if q < c then q else q - 1].addr
      ensures S[q].addr in t.mem && S[q].addr in t.tag
      ensures t.tag[S[q].addr] == L && NodeOk(NodeAt(t.mem, S[q].addr), t.N, S[q])
    {
      if q != c {
        var j := if q < c then q else q - 1;
        assert S[if j < c then j else j + 1].addr == R[j].addr;
      }
    }
  }

  lemma InsertedLength(R: seq<Ref>, S: seq<Ref>, c: nat, k: nat, v: nat)
    requires Inserted(R, S, c, k, v)
    ensures |S| == |R| + 1
  {
  }

  // ---------- merging two neighbours

  function Swapped(R: seq<Ref>, c: nat): (Q: seq<Ref>)
    requires c + 1 < |R|
    ensures |Q| == |R|
  {
    R[c := R[c].(addr := R[c + 1].addr)][c + 1 := R[c + 1].(addr := R[c].addr)]
  }

  lemma MergeRow(mem: map<nat, Node>, mem': map<nat, Node>, N: nat, R: seq<Ref>, S: seq<Ref>, c: nat)
    requires c + 1 < |R| && NodeOk(NodeAt(mem, R[c].addr), N, R[c]) && NodeOk(NodeAt(mem, R[c + 1].addr), N, R[c + 1])
    requires R[c + 1].hi == Fin(R[c].lo) && R[c + 1].lo <= R[c].lo && Below(R[c].lo, R[c].hi)
    requires Removed(Swapped(R, c), S, c, false) && Le(R[c].hi, S[c].hi)
    requires Entries(NodeAt(mem, R[c].addr)) != []
    requires Holds(NodeAt(mem', R[c].addr), N, Entries(NodeAt(mem, R[c].addr)) + Entries(NodeAt(mem, R[c + 1].addr)))
    requires RestSame(mem, mem', R, c)
    ensures NodeOk(NodeAt(mem', S[c].addr), N, S[c]) && S[c].addr == R[c].addr
    ensures Entries(NodeAt(mem', S[c].addr)) == Entries(NodeAt(mem, R[c].addr)) + Entries(NodeAt(mem, R[c + 1].addr))
    ensures SamePairs(Kids(mem, R), Kids(mem', S))
  {
    hide NodeOk, Kids, KidsOf, Holds, Spread, Entries;
    var A, B := Entries(NodeAt(mem, R[c].addr)), Entries(NodeAt(mem, R[c + 1].addr));
    var Q := Swapped(R, c);
    assert Looser(Q[c + 1..][0], S[c..][0]);
    assert S[c].addr == R[c].addr && S[c].lo <= R[c + 1].lo;
    NodeSpread(NodeAt(mem, R[c].addr), N, R[c]);
    NodeSpread(NodeAt(mem, R[c + 1].addr), N, R[c + 1]);
    SpreadJoin(A, B, R[c], R[c + 1], S[c]);
    SpreadNode(NodeAt(mem', S[c].addr), N, S[c], A + B);
    PairFocus(mem, R, c);
    KidsFocus(mem', S, c);
    assert R[..c] == Q[..c];
    var X, Y := R[c + 2..], S[c + 1..];
    forall j | 0 <= j < |X|
      ensures Looser(X[j], Y[j])
    {
      assert Looser(Q[c + 1..][j + 1], S[c..][j + 1]);
    }
    KidsWider(mem, mem', R[..c], S[..c]);
    KidsWider(mem, mem', R[c + 2..], S[c + 1..]);
    LastAtLeast(mem, N, R, c);
    JoinKids(A, B, R[c].hi, R[c + 1].hi, S[c].hi);
    var M := KidsOf(A, R[c].hi) + KidsOf(B, R[c + 1].hi);
    SamePairsConcat(Kids(mem, R[..c]), M, Kids(mem', S[..c]), KidsOf(A + B, S[c].hi));
    SamePairsConcat(Kids(mem, R[..c]) + M, Kids(mem, R[c + 2..]), Kids(mem', S[..c]) + KidsOf(A + B, S[c].hi),
                    Kids(mem', S[c + 1..]));
  }

  lemma RemovedAddrs(R: seq<Ref>, S: seq<Ref>, c: nat, q: nat)
    requires c + 1 < |R| && Removed(Swapped(R, c), S, c, false) && q < |S|
    ensures q == c ==> S[q].addr == R[c].addr
    ensures q != c ==> Looser(R[if q < c then q else q + 1], S[q])
  {
    var Q := Swapped(R, c);
    if q < c {
      assert Looser(Q[..c][q], S[..c][q]);
    } else {
      assert Looser(Q[c + 1..][q - c], S[c..][q - c]);
    }
  }

  /** merge: R is the row of level L before, s the tree after the right node's entry was removed above it. */
  lemma MergeStep(mem: map<nat, Node>, tag: map<nat, nat>, R: seq<Ref>, s: Tree, t: Tree, L: nat, c: nat)
    requires 1 <= L < |s.rows| && s.From(L + 1)
    requires L + 1 == |s.rows| ==> |s.rows[L]| == 1 && s.rows[L][0].lo == 0 && s.rows[L][0].hi == Inf
    requires c + 1 < |R| && RowOk(mem, tag, s.N, R, L)
    requires R[c + 1].hi == Fin(R[c].lo) && R[c + 1].lo <= R[c].lo && Below(R[c].lo, R[c].hi)
    requires Removed(Swapped(R, c), s.rows[L], c, false) && Le(R[c].hi, s.rows[L][c].hi)
    requires Entries(NodeAt(mem, R[c].addr)) != []
    requires Holds(NodeAt(s.mem, R[c].addr), s.N, Entries(NodeAt(mem, R[c].addr)) + Entries(NodeAt(mem, R[c + 1].addr)))
    requires forall a :: a in mem && a in tag && tag[a] == L ==>
      a in s.mem && a in s.tag && s.tag[a] == L && (a != R[c].addr && a != R[c + 1].addr ==> s.mem[a] == mem[a])
    requires t == Tree(s.N, s.mem - {R[c + 1].addr}, s.tag - {R[c + 1].addr},
                       s.rows[L - 1 := Kids(s.mem - {R[c + 1].addr}, s.rows[L])])
    ensures t.From(L)
    ensures SamePairs(Kids(mem, R), t.rows[L - 1])
    ensures Entries(NodeAt(t.mem, R[c].addr)) == Entries(NodeAt(mem, R[c].addr)) + Entries(NodeAt(mem, R[c + 1].addr))
  {
    hide NodeOk, Kids, KidsOf, Holds, Entries, Removed, Swapped;
    forall a | a in mem && a in tag && tag[a] == L && a != R[c].addr && a != R[c + 1].addr
      ensures a in t.mem && t.mem[a] == mem[a]
    {
      assert a in s.mem && s.mem[a] == mem[a];
    }
    assert R[c].addr != R[c + 1].addr;
    forall a | a in mem && a in tag && tag[a] == L && a != R[c + 1].addr
      ensures a in t.mem && a in t.tag && t.tag[a] == L
    {
      assert a in s.mem && a in s.tag;
    }
    RestOfMerge(mem, tag, R, t, L, c);
    MergeRow(mem, t.mem, s.N, R, s.rows[L], c);
    RemovedLength(Swapped(R, c), s.rows[L], c);
    assert t.Ok(L) by { MergeRowOk(mem, tag, R, t, L, c); }
    assert t.Link(L - 1);
    forall m | L < m < |s.rows|
      ensures Agree(s, t, m)
    {
    }
    Rebuild(s, t, L);
  }

  lemma RestOfMerge(mem: map<nat, Node>, tag: map<nat, nat>, R: seq<Ref>, t: Tree, L: nat, c: nat)
    requires c + 1 < |R| && RowOk(mem, tag, t.N, R, L)
    requires forall a :: a in mem && a in tag && tag[a] == L && a != R[c].addr && a != R[c + 1].addr ==>
      a in t.mem && t.mem[a] == mem[a]
    ensures RestSame(mem, t.mem, R, c)
  {
    hide NodeOk;
    forall j | 0 <= j < |R| && j != c && j != c + 1
      ensures NodeAt(t.mem, R[j].addr) == NodeAt(mem, R[j].addr)
    {
      assert R[j].addr != R[c].addr && R[j].addr != R[c + 1].addr;
      assert R[j].addr in mem && tag[R[j].addr] == L;
    }
  }

  lemma MergeRowOk(mem: map<nat, Node>, tag: map<nat, nat>, R: seq<Ref>, t: Tree, L: nat, c: nat)
    requires L < |t.rows| && c + 1 < |R| && RowOk(mem, tag, t.N, R, L) && Removed(Swapped(R, c), t.rows[L], c, false)
    requires forall a :: a in mem && a in tag && tag[a] == L && a != R[c + 1].addr ==>
      a in t.mem && a in t.tag && t.tag[a] == L
    requires RestSame(mem, t.mem, R, c)
    requires c < |t.rows[L]| && NodeOk(NodeAt(t.mem, t.rows[L][c].addr), t.N, t.rows[L][c])
    ensures t.Ok(L)
  {
    hide NodeOk, Removed, Swapped;
    var S := t.rows[L];
    RemovedLength(Swapped(R, c), S, c);
    forall q | 0 <= q < |S|
      ensures S[q].addr == R[if q <= c then q else q + 1].addr
      ensures S[q].addr in t.mem && S[q].addr in t.tag
      ensures t.tag[S[q].addr] == L && NodeOk(NodeAt(t.mem, S[q].addr), t.N, S[q])
    {
      RemovedAddrs(R, S, c, q);
      if q != c {
        var j := if q < c then q else q + 1;
        NodeOkLooser(NodeAt(mem, R[j].addr), t.N, R[j], S[q]);
      }
    }
  }

  lemma RemovedLength(R: seq<Ref>, S: seq<Ref>, c: nat)
    requires Removed(R, S, c, false)
    ensures |S| == |R| - 1
  {
  }
}
