/** How full the nodes of a B+tree are, level by level, and what memory an insertion asks for because of it. */
module BtreeShape {
  import opened BtreeLevels
  import opened BtreeSteps
  import opened BtreeProofs

  /** How many pairs each node of a row holds. */
  function Counts(mem: map<nat, Node>, R: seq<Ref>): (C: seq<nat>)
    ensures |C| == |R|
  {
    seq(|R|, i requires 0 <= i < |R| => |Entries(NodeAt(mem, R[i].addr))|)
  }

  lemma CountAt(mem: map<nat, Node>, R: seq<Ref>, i: nat)
    requires i < |R|
    ensures Counts(mem, R)[i] == |Entries(NodeAt(mem, R[i].addr))|
  {
  }

  lemma CountsIs(mem: map<nat, Node>, R: seq<Ref>, C: seq<nat>)
    requires |C| == |R| && forall i :: 0 <= i < |R| ==> C[i] == |Entries(NodeAt(mem, R[i].addr))|
    ensures Counts(mem, R) == C
  {
  }

  /** The same for every level from L to the root. */
  function Fills(s: Tree, L: nat): (F: seq<seq<nat>>)
    decreases |s.rows| - L
  {
    if L >= |s.rows| then [] else [Counts(s.mem, s.rows[L])] + Fills(s, L + 1)
  }

  lemma FillsParts(s: Tree, L: nat)
    ensures L >= |s.rows| ==> Fills(s, L) == []
    ensures L < |s.rows| ==>
      Fills(s, L) != [] && Fills(s, L)[0] == Counts(s.mem, s.rows[L]) && Fills(s, L)[1..] == Fills(s, L + 1)
    ensures L + 1 < |s.rows| ==> |Fills(s, L)| > 1 && Fills(s, L)[1] == Counts(s.mem, s.rows[L + 1])
    ensures L + 1 == |s.rows| ==> |Fills(s, L)| == 1
  {
    hide Counts;
  }

  lemma {:induction false} FillsSame(s: Tree, t: Tree, L: nat)
    requires |s.rows| == |t.rows|
    requires forall l :: L <= l < |s.rows| ==> Counts(s.mem, s.rows[l]) == Counts(t.mem, t.rows[l])
    ensures Fills(s, L) == Fills(t, L)
    decreases |s.rows| - L
  {
    hide Counts;
    if L < |s.rows| { FillsSame(s, t, L + 1); }
  }

  /** Lowering separators moves no pair. */
  lemma LoweredFills(s: Tree, t: Tree, level: nat, L: nat)
    requires Lowered(s, t, level)
    ensures Fills(t, L) == Fills(s, L)
  {
    hide Entries, SameHi, Fills;
    forall l | L <= l < |s.rows|
      ensures Counts(s.mem, s.rows[l]) == Counts(t.mem, t.rows[l])
    {
      assert Wider(s.rows[l], t.rows[l]);
      var R, S := s.rows[l], t.rows[l];
      forall i | 0 <= i < |R|
        ensures |Entries(NodeAt(s.mem, R[i].addr))| == |Entries(NodeAt(t.mem, S[i].addr))|
      {
        assert Looser(R[i], S[i]);
      }
    }
    FillsSame(s, t, L);
  }

  /** A node that no row mentions does not matter. */
  lemma AllocFills(s: Tree, t: Tree, new_: nat, L: nat)
    requires new_ !in s.mem && t == s.(mem := s.mem[new_ := Cleared(s.N)], tag := t.tag)
    ensures Fills(t, L) == Fills(s, L)
  {
    hide Entries, Fills;
    ClearedHolds(s.N);
    assert Entries([]) == [] by { EntriesNone(); }
    FillsSame(s, t, L);
  }

  // ---------- the node above

  /** Which node of a row holding D pairs lists the g-th one of the row below. */
  function Parent(D: seq<nat>, g: nat): nat {
    if D == [] || g < D[0] then 0 else 1 + Parent(D[1..], g - D[0])
  }

  lemma {:induction false} ParentAt(mem: map<nat, Node>, R: seq<Ref>, p: nat, i: nat)
    requires p < |R| && i < |Entries(NodeAt(mem, R[p].addr))|
    ensures Parent(Counts(mem, R), Offset(mem, R, p) + i) == p
  {
    hide Entries, KidsOf;
    if p > 0 {
      var g := Offset(mem, R, p) + i;
      assert Counts(mem, R)[1..] == Counts(mem, R[1..]);
      assert R[..p][0] == R[0] && R[..p][1..] == R[1..][..p - 1];
      assert Offset(mem, R, p) == |Entries(NodeAt(mem, R[0].addr))| + Offset(mem, R[1..], p - 1);
      ParentAt(mem, R[1..], p - 1, i);
    }
  }

  /** h is listed by the node above that lists c exactly when it lies among that node's pairs. */
  lemma SameParent(s: Tree, L: nat, c: nat, p: nat, i: nat, h: nat)
    requires L + 1 < |s.rows| && s.Link(L) && p < |s.rows[L + 1]| && h < |s.rows[L]|
    requires i < |Entries(NodeAt(s.mem, s.rows[L + 1][p].addr))| && c == Offset(s.mem, s.rows[L + 1], p) + i
    ensures var D, o := Counts(s.mem, s.rows[L + 1]), Offset(s.mem, s.rows[L + 1], p);
      && Parent(D, c) == p
      && (Parent(D, h) == p <==> o <= h < o + |Entries(NodeAt(s.mem, s.rows[L + 1][p].addr))|)
  {
    hide Entries, Kids, KidsOf, Offset, Counts, Parent;
    ParentAt(s.mem, s.rows[L + 1], p, i);
    var q, j := Locate(s.mem, s.rows[L + 1], h);
    ParentAt(s.mem, s.rows[L + 1], q, j);
    var o := Offset(s.mem, s.rows[L + 1], p);
    if o <= h < o + |Entries(NodeAt(s.mem, s.rows[L + 1][p].addr))| {
      ParentAt(s.mem, s.rows[L + 1], p, h - o);
    }
  }

  /** Which node of the level above lists node c of level L. */
  function Above(s: Tree, L: nat, c: nat): nat {
    if L + 1 < |s.rows| then Parent(Counts(s.mem, s.rows[L + 1]), c) else 0
  }

  lemma AllocAbove(s: Tree, t: Tree, new_: nat, L: nat, c: nat)
    requires new_ !in s.mem && t == s.(mem := s.mem[new_ := Cleared(s.N)], tag := t.tag)
    ensures Above(t, L, c) == Above(s, L, c)
  {
    hide Fills, Parent, Counts;
    AllocFills(s, t, new_, L + 1);
    FillsParts(s, L + 1);
    FillsParts(t, L + 1);
  }

  lemma FillsUp(s: Tree, t: Tree, L: nat, c: nat)
    requires |s.rows| == |t.rows| && L < |s.rows| && Fills(s, L) == Fills(t, L)
    ensures Fills(s, L + 1) == Fills(t, L + 1) && Above(s, L, c) == Above(t, L, c)
    ensures Counts(s.mem, s.rows[L]) == Counts(t.mem, t.rows[L])
  {
    hide Fills, Parent, Counts;
    FillsParts(s, L);
    FillsParts(t, L);
  }

  /** The new half of a node to be split is there, and nothing else has changed. */
  lemma HalfAdded(s: Tree, t: Tree, L: nat, new_: nat, c: nat)
    requires 1 <= L < |s.rows| && s.From(L) && s.mem.Keys == s.tag.Keys && new_ !in s.mem && Filled(s, L, 0, 0)
    requires t == s.(mem := s.mem[new_ := Cleared(s.N)], tag := s.tag[new_ := L])
    ensures t.From(L + 1) && Filled(t, L + 1, 0, 0)
    ensures Fills(t, L + 1) == Fills(s, L + 1) && Above(t, L, c) == Above(s, L, c)
    ensures |s.rows[|s.rows| - 1]| == 1 && s.rows[|s.rows| - 1][0].addr in s.mem
  {
    hide Fills, Above, RowOk, Kids, Filled, Entries;
    AllocDone(s, t, L, new_);
    AllocFills(s, t, new_, L + 1);
    AllocAbove(s, t, new_, L, c);
    FromUp(s, L, |s.rows| - 1);
    RootIn(s);
  }

  /** Nodes g and h of the lowest row are listed by the same node. */
  predicate Kin(F: seq<seq<nat>>, g: nat, h: nat) {
    |F| > 1 && h < |F[0]| && Parent(F[1], h) == Parent(F[1], g)
  }

  // ---------- where a search ends

  /** The node of a row in which the search for a key ends: the last one that has the key below its bound. */
  function Route(R: seq<Ref>, k: nat): nat {
    if |R| < 2 || !Below(k, R[1].hi) then 0 else 1 + Route(R[1..], k)
  }

  lemma {:induction false} RouteIs(R: seq<Ref>, g: nat, k: nat)
    requires Chain(R) && g < |R| && InRange(R[g], k)
    ensures Route(R, k) == g
  {
    if g > 0 {
      RouteIs(R[1..], g - 1, k);
      assert g > 1 ==> Le(R[g].hi, Fin(R[1].lo));
    } else if |R| > 1 {
      assert Le(R[1].hi, Fin(R[0].lo));
    }
  }

  lemma {:induction false} RouteSame(R: seq<Ref>, S: seq<Ref>, k: nat)
    requires SameHi(R, S)
    ensures Route(R, k) == Route(S, k)
  {
    if |R| >= 2 { RouteSame(R[1..], S[1..], k); }
  }

  /** The node that find_level was led to, told from the tree before. */
  lemma RouteFound(s: Tree, t: Tree, level: nat, l: nat, g: nat, k: nat)
    requires Lowered(s, t, level) && l < |t.rows| && t.From(l + 1) && g < |t.rows[l]| && InRange(t.rows[l][g], k)
    ensures Route(s.rows[l], k) == g == Route(t.rows[l], k)
  {
    hide Wider, Entries, RowOk, Kids, Route, InRange, Chain;
    ChainFrom(t, l);
    RouteIs(t.rows[l], g, k);
    assert SameHi(s.rows[l], t.rows[l]);
    RouteSame(s.rows[l], t.rows[l], k);
  }

  lemma RootRoute(s: Tree, k: nat)
    requires |s.rows| > 1 && s.From(|s.rows| - 1)
    ensures Route(s.rows[|s.rows| - 1], k) == 0
  {
  }

  /** A key of node c leads to the node that lists c. */
  lemma RouteAbove(s: Tree, L: nat, c: nat, k: nat)
    requires L + 1 < |s.rows| && s.From(L + 1) && c < |s.rows[L]| && InRange(s.rows[L][c], k)
    ensures Route(s.rows[L + 1], k) == Above(s, L, c)
  {
    hide Route, Parent, Counts, Offset, Entries, InRange, Chain, RowOk, Kids, KidsOf;
    assert s.Ok(L + 1) && s.Link(L);
    var p, i := RouteUp(s, L, c, k);
    ChainFrom(s, L + 1);
    RouteIs(s.rows[L + 1], p, k);
    ParentAt(s.mem, s.rows[L + 1], p, i);
  }

  // ---------- what an insertion asks for

  /** Neighbour h of a full node g, under the same node, can take a pair and still is not full. */
  predicate Takes(N: nat, F: seq<seq<nat>>, g: nat, h: nat) {
    Kin(F, g, h) && F[0][h] + 2 <= N
  }

  /** How often an insertion into node g of the lowest level calls for memory. */
  function Calls(N: nat, F: seq<seq<nat>>, g: nat): nat {
    if F == [] then 1
    else if g < |F[0]| && F[0][g] < N then 0
    else if (g > 0 && Takes(N, F, g, g - 1)) || Takes(N, F, g, g + 1) then 0
    else 1 + Calls(N, F[1..], if |F| > 1 then Parent(F[1], g) else 0)
  }

  /** Read off the tree: whether the child at position i of its parent has a neighbour with two free slots. */
  lemma TakesHere(s: Tree, L: nat, c: nat, p: nat, i: nat)
    requires L + 1 < |s.rows| && s.Link(L) && p < |s.rows[L + 1]| && c < |s.rows[L]|
    requires i < |Entries(NodeAt(s.mem, s.rows[L + 1][p].addr))| && c == Offset(s.mem, s.rows[L + 1], p) + i
    ensures var F := Fills(s, L);
      && (c > 0 && Takes(s.N, F, c, c - 1) <==>
          i > 0 && |Entries(NodeAt(s.mem, s.rows[L][c - 1].addr))| + 2 <= s.N)
      && (Takes(s.N, F, c, c + 1) <==>
          && i + 1 < |Entries(NodeAt(s.mem, s.rows[L + 1][p].addr))| && c + 1 < |s.rows[L]|
          && |Entries(NodeAt(s.mem, s.rows[L][c + 1].addr))| + 2 <= s.N)
  {
    hide Entries, Kids, KidsOf, Offset, Counts, Parent, Fills;
    FillsParts(s, L);
    SameParent(s, L, c, p, i, c);
    if c > 0 {
      SameParent(s, L, c, p, i, c - 1);
      CountAt(s.mem, s.rows[L], c - 1);
    }
    if c + 1 < |s.rows[L]| {
      SameParent(s, L, c, p, i, c + 1);
      CountAt(s.mem, s.rows[L], c + 1);
    }
  }

  /** A full node calls for its second half and for what the entry above calls for, unless a neighbour takes pairs. */
  lemma CallsFull(s: Tree, L: nat, c: nat)
    requires L < |s.rows| && c < |s.rows[L]| && |Entries(NodeAt(s.mem, s.rows[L][c].addr))| == s.N
    ensures var F := Fills(s, L);
      Calls(s.N, F, c) ==
        if (c > 0 && Takes(s.N, F, c, c - 1)) || Takes(s.N, F, c, c + 1) then 0
        else 1 + Calls(s.N, Fills(s, L + 1), Above(s, L, c))
  {
    hide Entries, Counts, Parent, Fills, Takes;
    FillsParts(s, L);
    CountAt(s.mem, s.rows[L], c);
  }

  lemma CallsRoom(s: Tree, L: nat, c: nat)
    requires L < |s.rows| && c < |s.rows[L]| && |Entries(NodeAt(s.mem, s.rows[L][c].addr))| < s.N
    ensures Calls(s.N, Fills(s, L), c) == 0
  {
    hide Entries, Counts, Fills, Takes;
    FillsParts(s, L);
    CountAt(s.mem, s.rows[L], c);
  }

  lemma CallsNone(s: Tree, L: nat, c: nat)
    requires L >= |s.rows|
    ensures Calls(s.N, Fills(s, L), c) == 1
  {
  }

  /** At most one call for every level, and one more for a new root. */
  lemma {:induction false} CallsBound(s: Tree, L: nat, g: nat)
    requires L <= |s.rows|
    ensures Calls(s.N, Fills(s, L), g) <= |s.rows| - L + 1
    decreases |s.rows| - L
  {
    hide Counts, Parent, Takes;
    if L < |s.rows| { CallsBound(s, L + 1, if L + 1 < |s.rows| then Parent(Fills(s, L)[1], g) else 0); }
  }

  /** The root has no neighbours. */
  lemma RootAlone(s: Tree, L: nat, c: nat)
    requires L + 1 >= |s.rows|
    ensures Fills(s, L + 1) == []
    ensures forall h :: !Takes(s.N, Fills(s, L), c, h)
  {
    hide Counts;
  }

  lemma LinkOf(s: Tree, L: nat)
    requires L + 1 < |s.rows| && s.From(L)
    ensures s.Link(L)
  {
    hide RowOk, Kids;
  }

  /** How full the nodes of the lowest level are once node g of it, if it was full, has been given room. */
  function Eased(N: nat, F: seq<seq<nat>>, g: nat): seq<nat> {
    var C := if F == [] then [] else F[0];
    if g >= |C| || C[g] < N then C
    else if g > 0 && Takes(N, F, g, g - 1) then
      var d := (N - C[g - 1]) / 2;
      C[g - 1 := C[g - 1] + d][g := N - d]
    else if Takes(N, F, g, g + 1) then
      var d := (N - C[g + 1]) / 2;
      C[g := N - d][g + 1 := C[g + 1] + d]
    else Halved(N, C, g)
  }

  /** Node g of a row became two. */
  function Halved(N: nat, C: seq<nat>, g: nat): seq<nat>
    requires g < |C|
  {
    C[..g] + [N / 2, N - N / 2] + C[g + 1..]
  }

  /** D is C with one more pair in node g. */
  predicate Placed(C: seq<nat>, D: seq<nat>, g: nat) {
    g < |C| && D == C[g := C[g] + 1]
  }

  /** The same, read off the tree. */
  lemma EasedFull(s: Tree, L: nat, c: nat)
    requires L < |s.rows| && c < |s.rows[L]| && |Entries(NodeAt(s.mem, s.rows[L][c].addr))| == s.N
    ensures var F, C := Fills(s, L), Counts(s.mem, s.rows[L]);
      Eased(s.N, F, c) ==
        if c > 0 && Takes(s.N, F, c, c - 1) then
          C[c - 1 := C[c - 1] + (s.N - C[c - 1]) / 2][c := s.N - (s.N - C[c - 1]) / 2]
        else if Takes(s.N, F, c, c + 1) then
          C[c := s.N - (s.N - C[c + 1]) / 2][c + 1 := C[c + 1] + (s.N - C[c + 1]) / 2]
        else
          Halved(s.N, C, c)
  {
    hide Entries, Counts, Parent, Fills;
    FillsParts(s, L);
    CountAt(s.mem, s.rows[L], c);
  }

  /** What steal_r is asked for, and what steal_l is asked for. */
  lemma EasedLeft(s: Tree, L: nat, c: nat, p: nat, i: nat)
    requires L + 1 < |s.rows| && s.Link(L) && p < |s.rows[L + 1]| && c < |s.rows[L]|
    requires 0 < i < |Entries(NodeAt(s.mem, s.rows[L + 1][p].addr))| && c == Offset(s.mem, s.rows[L + 1], p) + i
    requires |Entries(NodeAt(s.mem, s.rows[L][c].addr))| == s.N
    requires |Entries(NodeAt(s.mem, s.rows[L][c - 1].addr))| + 2 <= s.N
    ensures var x := |Entries(NodeAt(s.mem, s.rows[L][c - 1].addr))|;
      Eased(s.N, Fills(s, L), c) ==
        Counts(s.mem, s.rows[L])[c - 1 := x + (s.N - x) / 2][c := s.N - (s.N - x) / 2]
  {
    hide Entries, Kids, Offset, Counts, Fills, Takes, Eased;
    TakesHere(s, L, c, p, i);
    EasedFull(s, L, c);
    CountAt(s.mem, s.rows[L], c - 1);
  }

  lemma EasedRight(s: Tree, L: nat, c: nat, p: nat, i: nat)
    requires L + 1 < |s.rows| && s.Link(L) && p < |s.rows[L + 1]| && c + 1 < |s.rows[L]|
    requires i + 1 < |Entries(NodeAt(s.mem, s.rows[L + 1][p].addr))| && c == Offset(s.mem, s.rows[L + 1], p) + i
    requires |Entries(NodeAt(s.mem, s.rows[L][c].addr))| == s.N
    requires i > 0 ==> |Entries(NodeAt(s.mem, s.rows[L][c - 1].addr))| + 2 > s.N
    requires |Entries(NodeAt(s.mem, s.rows[L][c + 1].addr))| + 2 <= s.N
    ensures var x := |Entries(NodeAt(s.mem, s.rows[L][c + 1].addr))|;
      Eased(s.N, Fills(s, L), c) ==
        Counts(s.mem, s.rows[L])[c := s.N - (s.N - x) / 2][c + 1 := x + (s.N - x) / 2]
  {
    hide Entries, Kids, Offset, Counts, Fills, Takes, Eased;
    TakesHere(s, L, c, p, i);
    EasedFull(s, L, c);
    CountAt(s.mem, s.rows[L], c + 1);
  }

  lemma EasedRoom(s: Tree, L: nat, c: nat)
    requires L < |s.rows| && c < |s.rows[L]| && |Entries(NodeAt(s.mem, s.rows[L][c].addr))| < s.N
    ensures Eased(s.N, Fills(s, L), c) == Counts(s.mem, s.rows[L])
  {
    hide Entries, Counts, Fills, Takes;
    FillsParts(s, L);
    CountAt(s.mem, s.rows[L], c);
  }

  /** Two neighbours were dealt the pairs X and Y. */
  lemma DealtCounts(s: Tree, L: nat, p: nat, i: nat, X: seq<Slot>, Y: seq<Slot>, nl: Node, nr: Node)
    requires 1 <= L && L + 1 < |s.rows| && p < |s.rows[L + 1]| && s.Ok(L) && s.Ok(L + 1)
    requires i < |NodeAt(s.mem, s.rows[L + 1][p].addr)|
    requires Offset(s.mem, s.rows[L + 1], p) + i + 1 < |s.rows[L]|
    requires X != [] && Holds(nl, s.N, X) && Holds(nr, s.N, Y)
    ensures var c, t := Offset(s.mem, s.rows[L + 1], p) + i, Reshared(s, L, p, i, LastKey(X), nl, nr);
      Counts(t.mem, t.rows[L]) == Counts(s.mem, s.rows[L])[c := |X|][c + 1 := |Y|]
  {
    hide Kids, NodeOk, KidsOf, Holds, Offset, RowOk, Counts, Entries;
    var R, P, c := s.rows[L], s.rows[L + 1], Offset(s.mem, s.rows[L + 1], p) + i;
    var t := Reshared(s, L, p, i, LastKey(X), nl, nr);
    HoldsEntries(nl, s.N, X);
    HoldsEntries(nr, s.N, Y);
    DistinctLevels(s, L, R, P);
    RowAllOk(s, L);
    var D := Counts(s.mem, R)[c := |X|][c + 1 := |Y|];
    forall j | 0 <= j < |R|
      ensures D[j] == |Entries(NodeAt(t.mem, t.rows[L][j].addr))|
    {
      CountAt(s.mem, R, j);
    }
    CountsIs(t.mem, t.rows[L], D);
  }

  /** A node was split in two halves. */
  lemma SplitCounts(mem: map<nat, Node>, mem': map<nat, Node>, R0: seq<Ref>, R: seq<Ref>, S: seq<Ref>, c: nat, k: nat,
                    new_: nat)
    requires |R0| == |R| && forall j :: 0 <= j < |R| ==> R[j].addr == R0[j].addr
    requires c < |R| && Inserted(R, S, c, k, new_)
    requires forall j :: 0 <= j < |R| && j != c ==> NodeAt(mem', R[j].addr) == NodeAt(mem, R[j].addr)
    ensures Counts(mem', S) == Counts(mem, R0)[..c]
                               + [|Entries(NodeAt(mem', new_))|, |Entries(NodeAt(mem', R[c].addr))|]
                               + Counts(mem, R0)[c + 1..]
  {
    hide Entries, Counts, Inserted;
    InsertedLength(R, S, c, k, new_);
    var C := Counts(mem, R0);
    var D := C[..c] + [|Entries(NodeAt(mem', new_))|, |Entries(NodeAt(mem', R[c].addr))|] + C[c + 1..];
    forall j | 0 <= j < |S|
      ensures D[j] == |Entries(NodeAt(mem', S[j].addr))|
    {
      InsertedAddrs(R, S, c, k, new_, if j <= c then j else j - 1);
      InsertedAddrs(R, S, c, k, new_, c);
      if j < c { CountAt(mem, R0, j); }
      if j > c + 1 { CountAt(mem, R0, j - 1); }
    }
    CountsIs(mem', S, D);
  }

  /** A pair was added to node g, or dropped from it. */
  lemma NodeCounts(s: Tree, t: Tree, L: nat, g: nat)
    requires 1 <= L < |s.rows| && s.Ok(L) && g < |s.rows[L]| && s.rows[L][g].addr in t.mem
    requires t == WithNode(s, L, s.rows[L][g].addr, t.mem[s.rows[L][g].addr])
    ensures t.rows[L] == s.rows[L]
    ensures Counts(t.mem, t.rows[L]) == Counts(s.mem, s.rows[L])[g := |Entries(NodeAt(t.mem, s.rows[L][g].addr))|]
  {
    hide Entries, Counts, NodeOk, Kids;
    var R, a := s.rows[L], s.rows[L][g].addr;
    var D := Counts(s.mem, R)[g := |Entries(NodeAt(t.mem, a))|];
    forall j | 0 <= j < |R|
      ensures D[j] == |Entries(NodeAt(t.mem, R[j].addr))|
    {
      CountAt(s.mem, R, j);
    }
    CountsIs(t.mem, R, D);
  }

  /** How many nodes there are. */
  function Size(tag: map<nat, nat>): nat {
    |tag|
  }

  lemma SizeLess(tag: map<nat, nat>, a: nat)
    requires a in tag
    ensures Size(tag - {a}) + 1 == Size(tag)
  {
    var rest := tag - {a};
    assert tag == rest[a := tag[a]];
  }

  lemma SizeIs(mem: map<nat, Node>, tag: map<nat, nat>)
    requires mem.Keys == tag.Keys
    ensures Size(tag) == |mem|
  {
    assert |mem.Keys| == |mem| && |tag.Keys| == |tag|;
  }

  // ---------- what a removal gives back

  /** Without one pair of node g of the lowest level. */
  function Dropped(F: seq<seq<nat>>, g: nat): seq<seq<nat>> {
    if F == [] || g >= |F[0]| || F[0][g] == 0 then F else F[0 := F[0][g := F[0][g] - 1]]
  }

  /** Node g and its neighbour h, under the same node, fit in one. */
  predicate Joins(N: nat, F: seq<seq<nat>>, g: nat, h: nat) {
    Kin(F, g, h) && g < |F[0]| && F[0][g] + F[0][h] <= N
  }

  /** How many nodes are given back when node g of the lowest level, level L of the tree, has lost a pair. */
  function Frees(N: nat, F: seq<seq<nat>>, L: nat, g: nat): nat
    decreases |F|
  {
    if F == [] || g >= |F[0]| || F[0][g] >= N / 2 then 0
    else if |F| == 1 then (if F[0][g] == 0 || (F[0][g] == 1 && L > 1) then 1 else 0)
    else if (g > 0 && Joins(N, F, g, g - 1)) || Joins(N, F, g, g + 1) then
      1 + Frees(N, Dropped(F[1..], Parent(F[1], g)), L + 1, Parent(F[1], g))
    else 0
  }

  /** How full the nodes of the lowest level are in the end, if the level is still there. */
  function Settled(N: nat, F: seq<seq<nat>>, g: nat): seq<nat> {
    var C := if F == [] then [] else F[0];
    if g >= |C| || C[g] >= N / 2 || |F| == 1 then C
    else if g > 0 && Joins(N, F, g, g - 1) then C[..g - 1] + [C[g - 1] + C[g]] + C[g + 1..]
    else if Joins(N, F, g, g + 1) then C[..g] + [C[g] + C[g + 1]] + C[g + 2..]
    else if C[g] > 1 then C
    else if g > 0 && Kin(F, g, g - 1) then
      var i := (C[g - 1] - C[g]) / 2;
      C[g - 1 := C[g - 1] - i][g := C[g] + i]
    else if Kin(F, g, g + 1) then
      var i := (C[g + 1] - C[g]) / 2;
      C[g := C[g] + i][g + 1 := C[g + 1] - i]
    else C
  }

  /** h can take what a node g is left with after losing a pair. */
  predicate Swallows(N: nat, F: seq<seq<nat>>, g: nat, h: nat) {
    Kin(F, g, h) && g < |F[0]| && F[0][g] + F[0][h] <= N + 1
  }

  /** A node goes after losing a pair exactly when it is left with few of them and a neighbour can take them. */
  lemma FreesLow(N: nat, F: seq<seq<nat>>, L: nat, g: nat)
    requires |F| > 1 && g < |F[0]| && F[0][g] >= 1
    ensures Frees(N, Dropped(F, g), L, g) > 0 <==>
            F[0][g] <= N / 2 && ((g > 0 && Swallows(N, F, g, g - 1)) || Swallows(N, F, g, g + 1))
  {
    hide Parent;
  }

  /** Read off the tree: whether the child at position i of its parent, left with f pairs, fits into a neighbour. */
  lemma JoinsHere(s: Tree, L: nat, c: nat, p: nat, i: nat)
    requires L + 1 < |s.rows| && s.Link(L) && p < |s.rows[L + 1]| && c < |s.rows[L]|
    requires i < |Entries(NodeAt(s.mem, s.rows[L + 1][p].addr))| && c == Offset(s.mem, s.rows[L + 1], p) + i
    ensures var F, f := Fills(s, L), |Entries(NodeAt(s.mem, s.rows[L][c].addr))|;
      && |F| > 1 && F[0] == Counts(s.mem, s.rows[L]) && F[0][c] == f && Parent(F[1], c) == p
      && (c > 0 && Kin(F, c, c - 1) <==> i > 0)
      && (Kin(F, c, c + 1) <==> i + 1 < |Entries(NodeAt(s.mem, s.rows[L + 1][p].addr))| && c + 1 < |s.rows[L]|)
      && (c > 0 && Joins(s.N, F, c, c - 1) <==> i > 0 && f + |Entries(NodeAt(s.mem, s.rows[L][c - 1].addr))| <= s.N)
      && (Joins(s.N, F, c, c + 1) <==>
          && i + 1 < |Entries(NodeAt(s.mem, s.rows[L + 1][p].addr))| && c + 1 < |s.rows[L]|
          && f + |Entries(NodeAt(s.mem, s.rows[L][c + 1].addr))| <= s.N)
  {
    hide Entries, Kids, KidsOf, Offset, Counts, Parent, Fills;
    FillsParts(s, L);
    SameParent(s, L, c, p, i, c);
    CountAt(s.mem, s.rows[L], c);
    if c > 0 {
      SameParent(s, L, c, p, i, c - 1);
      CountAt(s.mem, s.rows[L], c - 1);
    }
    if c + 1 < |s.rows[L]| {
      SameParent(s, L, c, p, i, c + 1);
      CountAt(s.mem, s.rows[L], c + 1);
    }
  }

  /** The child at position i of its parent fits into its left neighbour; into its right one. */
  predicate FitsLeft(s: Tree, L: nat, c: nat, i: nat)
    requires L < |s.rows| && c < |s.rows[L]|
  {
    && i > 0 && c > 0
    && |Entries(NodeAt(s.mem, s.rows[L][c].addr))| + |Entries(NodeAt(s.mem, s.rows[L][c - 1].addr))| <= s.N
  }

  predicate FitsRight(s: Tree, L: nat, c: nat, p: nat, i: nat)
    requires L + 1 < |s.rows| && c < |s.rows[L]| && p < |s.rows[L + 1]|
  {
    && i + 1 < |Entries(NodeAt(s.mem, s.rows[L + 1][p].addr))| && c + 1 < |s.rows[L]|
    && |Entries(NodeAt(s.mem, s.rows[L][c].addr))| + |Entries(NodeAt(s.mem, s.rows[L][c + 1].addr))| <= s.N
  }

  lemma Fits(s: Tree, L: nat, c: nat, p: nat, i: nat)
    requires L + 1 < |s.rows| && s.Link(L) && p < |s.rows[L + 1]| && c < |s.rows[L]|
    requires i < |Entries(NodeAt(s.mem, s.rows[L + 1][p].addr))| && c == Offset(s.mem, s.rows[L + 1], p) + i
    ensures FitsLeft(s, L, c, i) <==> c > 0 && Joins(s.N, Fills(s, L), c, c - 1)
    ensures FitsRight(s, L, c, p, i) <==> Joins(s.N, Fills(s, L), c, c + 1)
  {
    hide Entries, Kids, Offset, Counts, Parent, Fills, Joins, Kin;
    JoinsHere(s, L, c, p, i);
  }

  /** A node with few pairs that fits into a neighbour, read off the tree. */
  lemma FewJoined(s: Tree, L: nat, c: nat, p: nat, i: nat)
    requires L + 1 < |s.rows| && s.Link(L) && p < |s.rows[L + 1]| && c < |s.rows[L]|
    requires i < |Entries(NodeAt(s.mem, s.rows[L + 1][p].addr))| && c == Offset(s.mem, s.rows[L + 1], p) + i
    requires |Entries(NodeAt(s.mem, s.rows[L][c].addr))| < s.N / 2
    requires FitsLeft(s, L, c, i) || FitsRight(s, L, c, p, i)
    ensures Frees(s.N, Fills(s, L), L, c) == 1 + Frees(s.N, Dropped(Fills(s, L + 1), p), L + 1, p)
    ensures var C := Counts(s.mem, s.rows[L]);
      Settled(s.N, Fills(s, L), c) ==
        if FitsLeft(s, L, c, i) then C[..c - 1] + [C[c - 1] + C[c]] + C[c + 1..]
        else C[..c] + [C[c] + C[c + 1]] + C[c + 2..]
  {
    hide Entries, Kids, Offset, Counts, Parent, Fills, Joins, Kin, Dropped, FitsLeft, FitsRight;
    JoinsHere(s, L, c, p, i);
    Fits(s, L, c, p, i);
    FillsParts(s, L);
  }

  /** One that does not, but has more than one pair. */
  lemma FewKept(s: Tree, L: nat, c: nat, p: nat, i: nat)
    requires L + 1 < |s.rows| && s.Link(L) && p < |s.rows[L + 1]| && c < |s.rows[L]|
    requires i < |Entries(NodeAt(s.mem, s.rows[L + 1][p].addr))| && c == Offset(s.mem, s.rows[L + 1], p) + i
    requires |Entries(NodeAt(s.mem, s.rows[L][c].addr))| < s.N / 2
    requires !FitsLeft(s, L, c, i) && !FitsRight(s, L, c, p, i) && |Entries(NodeAt(s.mem, s.rows[L][c].addr))| > 1
    ensures Frees(s.N, Fills(s, L), L, c) == 0 && Settled(s.N, Fills(s, L), c) == Counts(s.mem, s.rows[L])
  {
    hide Entries, Kids, Offset, Counts, Parent, Fills, Joins, Kin, Dropped, FitsLeft, FitsRight;
    JoinsHere(s, L, c, p, i);
    Fits(s, L, c, p, i);
    FillsParts(s, L);
  }

  /** One down to its last pair. */
  lemma FewDealt(s: Tree, L: nat, c: nat, p: nat, i: nat)
    requires L + 1 < |s.rows| && s.Link(L) && p < |s.rows[L + 1]| && c < |s.rows[L]|
    requires i < |Entries(NodeAt(s.mem, s.rows[L + 1][p].addr))| && c == Offset(s.mem, s.rows[L + 1], p) + i
    requires |Entries(NodeAt(s.mem, s.rows[L][c].addr))| < s.N / 2
    requires !FitsLeft(s, L, c, i) && !FitsRight(s, L, c, p, i) && |Entries(NodeAt(s.mem, s.rows[L][c].addr))| <= 1
    ensures Frees(s.N, Fills(s, L), L, c) == 0
    ensures var C, f := Counts(s.mem, s.rows[L]), |Entries(NodeAt(s.mem, s.rows[L][c].addr))|;
      Settled(s.N, Fills(s, L), c) ==
        if i > 0 && c > 0 then
          var x := |Entries(NodeAt(s.mem, s.rows[L][c - 1].addr))|;
          C[c - 1 := x - (x - f) / 2][c := f + (x - f) / 2]
        else if i + 1 < |Entries(NodeAt(s.mem, s.rows[L + 1][p].addr))| && c + 1 < |s.rows[L]| then
          var y := |Entries(NodeAt(s.mem, s.rows[L][c + 1].addr))|;
          C[c := f + (y - f) / 2][c + 1 := y - (y - f) / 2]
        else C
  {
    hide Entries, Kids, Offset, Counts, Parent, Fills, Joins, Kin, Dropped, FitsLeft, FitsRight;
    JoinsHere(s, L, c, p, i);
    Fits(s, L, c, p, i);
    FillsParts(s, L);
    if c > 0 { CountAt(s.mem, s.rows[L], c - 1); }
    if c + 1 < |s.rows[L]| { CountAt(s.mem, s.rows[L], c + 1); }
  }

  /** A node with enough pairs, and a root, are left alone. */
  lemma EnoughPairs(s: Tree, L: nat, c: nat)
    requires L < |s.rows| && c < |s.rows[L]|
    requires |Entries(NodeAt(s.mem, s.rows[L][c].addr))| >= s.N / 2 || L + 1 == |s.rows|
    ensures var F, f := Fills(s, L), |Entries(NodeAt(s.mem, s.rows[L][c].addr))|;
      && Settled(s.N, F, c) == Counts(s.mem, s.rows[L])
      && Frees(s.N, F, L, c) == if f < s.N / 2 && (f == 0 || (f == 1 && L > 1)) then 1 else 0
  {
    hide Entries, Counts, Fills, Joins, Kin;
    FillsParts(s, L);
    CountAt(s.mem, s.rows[L], c);
  }

  /** Two neighbours were joined in the left one. */
  lemma JoinedCounts(mem: map<nat, Node>, mem': map<nat, Node>, R: seq<Ref>, S: seq<Ref>, c: nat)
    requires c + 1 < |R| && Removed(Swapped(R, c), S, c, false) && RestSame(mem, mem', R, c)
    requires |Entries(NodeAt(mem', R[c].addr))| ==
             |Entries(NodeAt(mem, R[c].addr))| + |Entries(NodeAt(mem, R[c + 1].addr))|
    ensures var C := Counts(mem, R); Counts(mem', S) == C[..c] + [C[c] + C[c + 1]] + C[c + 2..]
  {
    hide Entries, Counts, Removed, Swapped;
    RemovedLength(Swapped(R, c), S, c);
    var C := Counts(mem, R);
    var D := C[..c] + [C[c] + C[c + 1]] + C[c + 2..];
    CountAt(mem, R, c);
    CountAt(mem, R, c + 1);
    forall j | 0 <= j < |S|
      ensures D[j] == |Entries(NodeAt(mem', S[j].addr))|
    {
      RemovedAddrs(R, S, c, j);
      if j < c { CountAt(mem, R, j); }
      if j > c { CountAt(mem, R, j + 1); }
    }
    CountsIs(mem', S, D);
  }

  /** The same at the end of a merge. */
  lemma MergeCounts(s0: Tree, s1: Tree, s2: Tree, L: nat, c: nat, l: nat, r: nat, pa: nat, exact: bool,
                    A: seq<Slot>, B: seq<Slot>)
    requires L + 1 < |s0.rows| && s0.Ok(L) && s0.mem.Keys == s0.tag.Keys && c + 1 < |s0.rows[L]| && L < |s2.rows|
    requires l == s0.rows[L][c].addr && r == s0.rows[L][c + 1].addr && pa in s0.tag && s0.tag[pa] == L + 1
    requires A == Entries(NodeAt(s0.mem, l)) && B == Entries(NodeAt(s0.mem, r))
    requires s1.tag == s0.tag && s1.mem.Keys == s0.mem.Keys
    requires forall x :: x in s0.mem && x != l && x != pa ==> s1.mem[x] == s0.mem[x]
    requires l in s1.mem && Holds(s1.mem[l], s0.N, A + B)
    requires Removed(Swapped(s0.rows[L], c), s2.rows[L], c, exact) && Framed(s1, s2, L + 1)
    ensures r in s2.mem && r in s2.tag
    ensures var C := Counts(s0.mem, s0.rows[L]);
      Counts(s2.mem - {r}, s2.rows[L]) == C[..c] + [C[c] + C[c + 1]] + C[c + 2..]
  {
    hide Entries, Counts, Removed, Swapped, Holds, NodeOk, Framed;
    var R := s0.rows[L];
    MergeNodes(s0, s1, s2, L, l, r, pa);
    RowAt(s0, L, c);
    RowAt(s0, L, c + 1);
    RemovedLoose(Swapped(R, c), s2.rows[L], c, exact);
    HoldsEntries(s1.mem[l], s0.N, A + B);
    forall j | 0 <= j < |R|
      ensures j != c && j != c + 1 ==> NodeAt(s2.mem - {r}, R[j].addr) == NodeAt(s0.mem, R[j].addr)
    {
      RowAt(s0, L, j);
      RowMember(s0.mem, s0.tag, s0.N, R, L, j, c);
      RowMember(s0.mem, s0.tag, s0.N, R, L, j, c + 1);
    }
    JoinedCounts(s0.mem, s2.mem - {r}, R, s2.rows[L], c);
  }

  /** Exchanging two children of a node, and filling one of them, changes no fill above them. */
  lemma SwapFills(s: Tree, t: Tree, L: nat, pa: nat, l: nat)
    requires 1 <= L && |t.rows| == |s.rows| && s.From(L) && l in s.tag && s.tag[l] < L
    requires forall m :: L <= m < |s.rows| ==> t.rows[m] == s.rows[m]
    requires forall x :: x != pa && x != l ==> NodeAt(t.mem, x) == NodeAt(s.mem, x)
    requires |Entries(NodeAt(t.mem, pa))| == |Entries(NodeAt(s.mem, pa))|
    ensures Fills(t, L) == Fills(s, L)
  {
    hide Entries, NodeOk, Kids, Counts, Fills;
    forall m | L <= m < |t.rows|
      ensures Counts(s.mem, s.rows[m]) == Counts(t.mem, t.rows[m])
    {
      assert s.Ok(m);
      var R := s.rows[m];
      forall i | 0 <= i < |R|
        ensures Counts(s.mem, R)[i] == |Entries(NodeAt(t.mem, R[i].addr))|
      {
        assert R[i].addr != l;
        CountAt(s.mem, R, i);
      }
      CountsIs(t.mem, R, Counts(s.mem, R));
    }
    FillsSame(s, t, L);
  }

  /** What changes when a pair leaves node g of level L. */
  lemma DroppedFills(s: Tree, t: Tree, L: nat, g: nat)
    requires 1 <= L < |s.rows| && s.From(L) && g < |s.rows[L]| && s.rows[L][g].addr in t.mem
    requires t == WithNode(s, L, s.rows[L][g].addr, t.mem[s.rows[L][g].addr])
    requires |Entries(t.mem[s.rows[L][g].addr])| + 1 == |Entries(NodeAt(s.mem, s.rows[L][g].addr))|
    ensures Fills(t, L) == Dropped(Fills(s, L), g)
  {
    hide Entries, NodeOk, Kids, Counts, Fills;
    assert s.Ok(L);
    NodeCounts(s, t, L, g);
    CountAt(s.mem, s.rows[L], g);
    FillsParts(s, L);
    FillsParts(t, L);
    forall m | L + 1 <= m < |t.rows|
      ensures Counts(s.mem, s.rows[m]) == Counts(t.mem, t.rows[m])
    {
      assert s.Ok(m);
      var R := s.rows[m];
      RowAt(s, L, g);
      forall i | 0 <= i < |R|
        ensures Counts(s.mem, R)[i] == |Entries(NodeAt(t.mem, R[i].addr))|
      {
        RowAt(s, m, i);
        CountAt(s.mem, R, i);
      }
      CountsIs(t.mem, R, Counts(s.mem, R));
    }
    FillsSame(s, t, L + 1);
  }
}
