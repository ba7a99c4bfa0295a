/**
The proofs that carry the B+tree model: searching by key, re-finding a parent, what splits, steals and merges
leave behind, and the map a tree stands for.
*/
module BtreeProofs {
  import opened BtreeLevels
  import opened BtreeSteps
  import opened BtreeWords

  /** A key argument: a value of the caller, or a pointer to the key in a slot of a node. */
  datatype KeyRef = Own(key: nat) | At(addr: nat, pos: nat)

  function Read(mem: map<nat, Node>, key: KeyRef): nat {
    match key
    case Own(k) => k
    case At(a, p) => if a in mem && p < |mem[a]| then mem[a][p].key else 0
  }

  /** The key argument does not point above level. */
  ghost predicate KeyBelow(s: Tree, key: KeyRef, level: nat) {
    key.At? ==> key.addr in s.mem && key.addr in s.tag && s.tag[key.addr] <= level
  }

  /** t is s after some separators above level were lowered. */
  ghost predicate Lowered(s: Tree, t: Tree, level: nat) {
    && t.N == s.N && t.tag == s.tag && t.mem.Keys == s.mem.Keys && |t.rows| == |s.rows|
    && (forall x :: x in s.mem && x in s.tag && s.tag[x] <= level ==> t.mem[x] == s.mem[x])
    && (forall x :: |Entries(NodeAt(t.mem, x))| == |Entries(NodeAt(s.mem, x))|)
    && (forall l :: 0 <= l < level && l < |s.rows| ==> t.rows[l] == s.rows[l])
    && (forall l :: 0 <= l < |s.rows| ==> Wider(s.rows[l], t.rows[l]))
    && (forall l :: 0 <= l < |s.rows| ==> SameHi(s.rows[l], t.rows[l]))
  }

  ghost predicate SameHi(R: seq<Ref>, S: seq<Ref>) {
    |R| == |S| && forall i :: 0 <= i < |R| ==> R[i].hi == S[i].hi
  }

  lemma SameHiTrans(A: seq<Ref>, B: seq<Ref>, C: seq<Ref>)
    requires SameHi(A, B) && SameHi(B, C)
    ensures SameHi(A, C)
  {
  }

  lemma LoweredRefl(s: Tree, level: nat)
    ensures Lowered(s, s, level)
  {
    forall l | 0 <= l < |s.rows|
      ensures Wider(s.rows[l], s.rows[l])
    {
      WiderRefl(s.rows[l]);
    }
  }

  lemma LoweredTrans(s: Tree, t: Tree, u: Tree, level: nat)
    requires Lowered(s, t, level) && Lowered(t, u, level)
    ensures Lowered(s, u, level)
  {
    hide Wider, SameHi, Entries;
    forall l | 0 <= l < |s.rows|
      ensures Wider(s.rows[l], u.rows[l]) && SameHi(s.rows[l], u.rows[l])
    {
      WiderTrans(s.rows[l], t.rows[l], u.rows[l]);
      SameHiTrans(s.rows[l], t.rows[l], u.rows[l]);
    }
  }

  lemma LoweredKey(s: Tree, t: Tree, level: nat, key: KeyRef)
    requires Lowered(s, t, level) && KeyBelow(s, key, level)
    ensures KeyBelow(t, key, level) && Read(t.mem, key) == Read(s.mem, key)
  {
  }

  lemma LoweredFilled(s: Tree, t: Tree, level: nat, L: nat, exc: nat, me: nat)
    requires Lowered(s, t, level) && Filled(s, L, exc, me)
    ensures Filled(t, L, exc, me)
  {
    hide Wider, Entries;
    FilledSame(s, t, L, exc, me);
  }

  lemma PosInNode(n: Node, N: nat, r: Ref, k: nat, i: nat)
    requires NodeOk(n, N, r) && i <= N
    requires forall j :: 0 <= j < i ==> n[j].key > k
    requires i < N ==> n[i].key <= k
    ensures IsPos(Entries(n), k, i)
    ensures i == N ==> |Entries(n)| == N
    ensures i < N ==> (n[i].val == 0 <==> i == |Entries(n)|)
  {
    if |Entries(n)| < N {
      assert n[|Entries(n)|] == EMPTY;
    }
  }

  lemma EntryAt(n: Node, N: nat, r: Ref, i: nat)
    requires NodeOk(n, N, r) && i < |Entries(n)|
    ensures i < N == |n| && n[i] == Entries(n)[i] && n[i].val != 0
  {
  }

  lemma FilledSame(s: Tree, t: Tree, L: nat, exc: nat, me: nat)
    requires Filled(s, L, exc, me) && |t.rows| == |s.rows|
    requires forall l :: L <= l < |s.rows| ==> Wider(s.rows[l], t.rows[l])
    requires forall a :: |Entries(NodeAt(t.mem, a))| == |Entries(NodeAt(s.mem, a))|
    ensures Filled(t, L, exc, me)
  {
    hide Entries;
    forall l | L <= l < |t.rows|
      ensures FilledAt(t, l, exc, me)
    {
      assert FilledAt(s, l, exc, me);
      assert Wider(s.rows[l], t.rows[l]);
      var R, S := s.rows[l], t.rows[l];
      forall i | 0 <= i < |S|
        ensures |Entries(NodeAt(t.mem, S[i].addr))| >= if S[i].addr == exc then me else MinFill(t.rows)
      {
        assert Looser(R[i], S[i]);
      }
    }
  }

  lemma WiderUpdate(R: seq<Ref>, o: nat, k: nat)
    requires o < |R| && k <= R[o].lo
    ensures Wider(R, R[o := R[o].(lo := k)])
  {
  }

  lemma WiderTrans(A: seq<Ref>, B: seq<Ref>, C: seq<Ref>)
    requires Wider(A, B) && Wider(B, C)
    ensures Wider(A, C)
  {
  }

  lemma WiderRefl(A: seq<Ref>)
    ensures Wider(A, A)
  {
  }

  lemma RowAt(s: Tree, l: nat, g: nat)
    requires l < |s.rows| && s.Ok(l) && g < |s.rows[l]|
    ensures s.rows[l][g].addr in s.mem && s.rows[l][g].addr in s.tag && s.tag[s.rows[l][g].addr] == l
    ensures NodeOk(NodeAt(s.mem, s.rows[l][g].addr), s.N, s.rows[l][g])
    ensures |s.mem[s.rows[l][g].addr]| == s.N
  {
  }

  lemma LoweredNode(n: Node, N: nat, r: Ref, k: nat, i: nat)
    requires NodeOk(n, N, r) && InRange(r, k) && i + 1 == |Entries(n)| && IsPos(Entries(n), k, i + 1)
    ensures i < |n| && Fill(n, 0) == i + 1 && k < Entries(n)[i].key && LowerLast(n, k) == n[i := n[i].(key := k)]
    ensures |Entries(LowerLast(n, k))| == i + 1 && IsPos(Entries(LowerLast(n, k)), k, i)
    ensures LowerLast(n, k)[i].val == Entries(LowerLast(n, k))[i].val
  {
    LowerLastOk(n, N, r, k);
  }

  /** find_level rewrites the last separator of node g of level h to k. */
  lemma LowerTree(s: Tree, t: Tree, level: nat, h: nat, g: nat, k: nat, i: nat, o: nat)
    requires 1 <= level < h < |s.rows| && s.From(level) && Filled(s, level + 1, 0, 0)
    requires g < |s.rows[h]| && InRange(s.rows[h][g], k) && s.rows[h][g].addr in s.mem
    requires var n := s.mem[s.rows[h][g].addr]; i < |n| && i + 1 == |Entries(n)| && IsPos(Entries(n), k, i + 1)
    requires o == Offset(s.mem, s.rows[h], g) + i < |s.rows[h - 1]|
    requires var n := s.mem[s.rows[h][g].addr];
      t == s.(mem := s.mem[s.rows[h][g].addr := n[i := n[i].(key := k)]],
              rows := s.rows[h - 1 := s.rows[h - 1][o := s.rows[h - 1][o].(lo := k)]])
    ensures t.From(level) && Lowered(s, t, level)
    ensures var n := NodeAt(t.mem, s.rows[h][g].addr);
      i < |n| && i < |Entries(n)| && IsPos(Entries(n), k, i) && n[i].val == Entries(n)[i].val
  {
    hide NodeOk, Kids, KidsOf, Entries, RowOk, LowerLast, InRange, IsPos, Fill, Offset;
    var R, n := s.rows[h], s.mem[s.rows[h][g].addr];
    assert s.Ok(h) && s.Link(h - 1);
    RowAt(s, h, g);
    LoweredNode(n, s.N, R[g], k, i);
    assert AllOk(s.mem, s.N, R) by { RowAllOk(s, h); }
    assert forall j :: 0 <= j < |R| && j != g ==> R[j].addr != R[g].addr by { RowAllOk(s, h); }
    LowerKids(s.mem, s.N, R, g, k, t.mem, o);
    LowerSeparator(s, t, level, h, g, k, o);
    forall l | 0 <= l < |t.rows|
      ensures Wider(s.rows[l], t.rows[l])
    {
      WiderRefl(s.rows[l]);
      WiderUpdate(s.rows[h - 1], o, k);
    }
  }

  lemma DealtRight(A: seq<Slot>, B: seq<Slot>, count: nat)
    requires 1 <= count <= |B|
    ensures (A + B[..count]) + B[count..] == A + B && LastKey(A + B[..count]) == B[count - 1].key
  {
  }

  lemma DealtLeft(A: seq<Slot>, B: seq<Slot>, count: nat)
    requires count < |A|
    ensures A[..|A| - count] + (A[|A| - count..] + B) == A + B
    ensures LastKey(A[..|A| - count]) == A[|A| - count - 1].key
  {
  }

  lemma RootIn(s: Tree)
    requires |s.rows| > 1 && s.From(|s.rows| - 1)
    ensures s.rows[|s.rows| - 1][0].addr in s.mem
  {
    assert s.Ok(|s.rows| - 1);
  }

  lemma RootRange(s: Tree, k: nat)
    requires |s.rows| > 1 && s.From(|s.rows| - 1)
    ensures InRange(s.rows[|s.rows| - 1][0], k)
  {
  }

  lemma FromOk(s: Tree, L: nat, l: nat)
    requires 1 <= L <= l < |s.rows| && s.From(L)
    ensures s.Ok(l) && s.Link(l - 1)
  {
  }

  lemma SiblingFits(s: Tree, l: nat, g: nat)
    requires l < |s.rows| && s.Ok(l) && g < |s.rows[l]|
    ensures |Entries(NodeAt(s.mem, s.rows[l][g].addr))| <= s.N
  {
    RowAt(s, l, g);
    NodeHolds(NodeAt(s.mem, s.rows[l][g].addr), s.N, s.rows[l][g]);
  }

  lemma OtherChild(s: Tree, l: nat, i: nat, j: nat)
    requires l < |s.rows| && s.Ok(l) && i < |s.rows[l]| && j < |s.rows[l]| && i != j
    ensures s.rows[l][i].addr != s.rows[l][j].addr
  {
    RowAllOk(s, l);
  }

  lemma RowAllOk(s: Tree, l: nat)
    requires l < |s.rows| && s.Ok(l)
    ensures AllOk(s.mem, s.N, s.rows[l])
    ensures var R := s.rows[l]; forall i, j :: 0 <= i < |R| && 0 <= j < |R| && i != j ==> R[i].addr != R[j].addr
  {
    hide NodeOk;
  }

  lemma Reorder(m: map<nat, Node>, l: nat, r: nat, p: nat, nl: Node, nr: Node, np: Node)
    requires l != r && l != p && r != p
    ensures m[r := nr][p := np][l := nl] == m[l := nl][r := nr][p := np]
    ensures m[l := nl][p := np][r := nr] == m[l := nl][r := nr][p := np]
  {
  }

  /** The keys of two siblings stay theirs when pairs move between them. */
  lemma ReshareRange(s: Tree, L: nat, p: nat, i: nat, x: nat, k: nat)
    requires 1 <= L && L + 1 < |s.rows| && s.Ok(L + 1) && s.Link(L) && p < |s.rows[L + 1]|
    requires i + 1 < |Entries(NodeAt(s.mem, s.rows[L + 1][p].addr))|
    requires i < |NodeAt(s.mem, s.rows[L + 1][p].addr)|
    requires Offset(s.mem, s.rows[L + 1], p) + i + 1 < |s.rows[L]|
    requires var c := Offset(s.mem, s.rows[L + 1], p) + i; InRange(s.rows[L][c], k) || InRange(s.rows[L][c + 1], k)
    ensures var c, R := Offset(s.mem, s.rows[L + 1], p) + i, s.rows[L];
      InRange(R[c].(lo := x), k) || InRange(R[c + 1].(hi := Fin(x)), k)
  {
    hide Kids, NodeOk, KidsOf;
    Siblings(s, L, p, i);
  }

  lemma {:induction false} FillSetKey(n: Node, i: nat, x: nat, start: nat)
    requires i < |n| && start <= |n|
    ensures Fill(n[i := n[i].(key := x)], start) == Fill(n, start)
    decreases |n| - start
  {
    if start < |n| && n[start].val != 0 {
      FillSetKey(n, i, x, start + 1);
    }
  }

  /** Only nodes l and r hold a different number of pairs than before, and they hold enough. */
  lemma FilledRaise(s: Tree, t: Tree, L: nat, exc: nat, me: nat, l: nat, r: nat)
    requires Filled(s, L, exc, me) && |t.rows| == |s.rows| && (exc == 0 || exc == l || exc == r)
    requires forall m :: L <= m < |s.rows| ==> SameAddrs(s.rows[m], t.rows[m])
    requires forall a :: a != l && a != r ==> |Entries(NodeAt(t.mem, a))| == |Entries(NodeAt(s.mem, a))|
    requires |Entries(NodeAt(t.mem, l))| >= MinFill(t.rows) && |Entries(NodeAt(t.mem, r))| >= MinFill(t.rows)
    ensures Filled(t, L, 0, 0)
  {
    hide Entries;
    forall m | L <= m < |t.rows|
      ensures FilledAt(t, m, 0, 0)
    {
      assert FilledAt(s, m, exc, me);
      assert SameAddrs(s.rows[m], t.rows[m]);
      var R, S := s.rows[m], t.rows[m];
      forall i | 0 <= i < |S|
        ensures |Entries(NodeAt(t.mem, S[i].addr))| >= if S[i].addr == 0 then 0 else MinFill(t.rows)
      {
        assert R[i].addr == S[i].addr;
      }
    }
  }

  ghost predicate SameAddrs(R: seq<Ref>, S: seq<Ref>) {
    |R| == |S| && forall i :: 0 <= i < |R| ==> R[i].addr == S[i].addr
  }

  lemma ReshareFilled(s: Tree, L: nat, p: nat, i: nat, X: seq<Slot>, Y: seq<Slot>, nl: Node, nr: Node, exc: nat,
                      me: nat)
    requires 1 <= L && L + 1 < |s.rows| && p < |s.rows[L + 1]| && s.Ok(L) && s.Ok(L + 1)
    requires i < |NodeAt(s.mem, s.rows[L + 1][p].addr)|
    requires Offset(s.mem, s.rows[L + 1], p) + i + 1 < |s.rows[L]|
    requires |X| >= 2 && |Y| >= 2 && Holds(nl, s.N, X) && Holds(nr, s.N, Y) && Filled(s, L, exc, me)
    requires var c := Offset(s.mem, s.rows[L + 1], p) + i;
      exc == 0 || exc == s.rows[L][c].addr || exc == s.rows[L][c + 1].addr
    ensures Filled(Reshared(s, L, p, i, LastKey(X), nl, nr), L, 0, 0)
    ensures var c, t := Offset(s.mem, s.rows[L + 1], p) + i, Reshared(s, L, p, i, LastKey(X), nl, nr);
      Entries(NodeAt(t.mem, s.rows[L][c].addr)) == X && Entries(NodeAt(t.mem, s.rows[L][c + 1].addr)) == Y
  {
    hide Kids, NodeOk, KidsOf, Holds, Offset, Filled, RowOk;
    var x := LastKey(X);
    var t := Reshared(s, L, p, i, x, nl, nr);
    var R, P, c := s.rows[L], s.rows[L + 1], Offset(s.mem, s.rows[L + 1], p) + i;
    HoldsEntries(nl, s.N, X);
    HoldsEntries(nr, s.N, Y);
    DistinctLevels(s, L, R, P);
    RowAllOk(s, L);
    FillSetKey(NodeAt(s.mem, P[p].addr), i, x, 0);
    FilledRaise(s, t, L, exc, me, R[c].addr, R[c + 1].addr);
  }

  /** Where the key lies after a split: in one of the two halves. */
  lemma SplitReach(R: seq<Ref>, S: seq<Ref>, c: nat, k0: nat, v: nat, k: nat)
    requires c < |R| && Inserted(R, S, c, k0, v) && InRange(R[c], k0)
    requires Below(k, R[c].hi) && (R[c].lo <= k || |R| == 1)
    ensures Reaches(S, c, k) || Reaches(S, c + 1, k)
  {
  }

  lemma InsertedBefore(R: seq<Ref>, S: seq<Ref>, p: nat, k: nat, v: nat, c: nat)
    requires Inserted(R, S, p, k, v) && c < p
    ensures S[c].addr == R[c].addr && S[c].lo == R[c].lo
  {
    assert S[..p][c].lo == R[..p][c].lo && S[..p][c].addr == R[..p][c].addr;
  }

  /** A key inside the c-th interval that was inserted went in right before the c-th pair. */
  lemma InsertedAt(R: seq<Ref>, S: seq<Ref>, p: nat, c: nat, k: nat, v: nat)
    requires Inserted(R, S, p, k, v) && Chain(S) && Chain(R) && c < |R| && InRange(R[c], k) && R[c].lo != k
    ensures p == c
  {
    if p > c {
      InsertedBefore(R, S, p, k, v, c);
    }
  }

  lemma InsertedFrom(E: seq<Ref>, F: seq<Ref>, G: seq<Ref>, p: nat, k: nat, v: nat)
    requires SamePairs(E, F) && Inserted(F, G, p, k, v)
    ensures Inserted(E, G, p, k, v)
  {
    SamePairsTrans(E[..p], F[..p], G[..p]);
    if p < |E| {
      SamePairsTrans(E[p + 1..], F[p + 1..], G[p + 2..]);
    }
  }

  lemma RemovedFrom(E: seq<Ref>, F: seq<Ref>, G: seq<Ref>, p: nat)
    requires Removed(E, F, p, true) && SamePairs(F, G)
    ensures Removed(E, G, p, true)
  {
    SamePairsTrans(E[..p], F[..p], G[..p]);
    SamePairsTrans(E[p + 1..], F[p..], G[p..]);
  }

  /** Below level L nothing changed, and every node made since belongs to level L or above. */
  ghost predicate Framed(s: Tree, t: Tree, L: nat) {
    && t.N == s.N && L <= |s.rows| && L <= |t.rows|
    && (forall a :: a in s.mem && a in s.tag && s.tag[a] < L ==>
          a in t.mem && t.mem[a] == s.mem[a] && a in t.tag && t.tag[a] == s.tag[a])
    && (forall a :: a in t.mem && a in t.tag && t.tag[a] < L ==> a in s.mem && a in s.tag && s.tag[a] == t.tag[a])
    && (forall l :: 0 <= l < L - 1 ==> t.rows[l] == s.rows[l])
  }

  lemma FramedTrans(s: Tree, t: Tree, u: Tree, L: nat)
    requires Framed(s, t, L) && Framed(t, u, L)
    ensures Framed(s, u, L)
  {
  }

  lemma LoweredFramed(s: Tree, t: Tree, L: nat)
    requires Lowered(s, t, L) && 1 <= L < |s.rows| && s.mem.Keys == s.tag.Keys
    ensures Framed(s, t, L) && (L < |s.rows| ==> t.rows[L - 1] == s.rows[L - 1])
  {
  }

  /** All that holds after steal_l or steal_r, and the two nodes that now share the pairs. */
  lemma StealDone(s: Tree, t: Tree, L: nat, p: nat, i: nat, X: seq<Slot>, Y: seq<Slot>, nl: Node, nr: Node,
                  exc: nat, me: nat, k: nat) returns (g: nat)
    requires 1 <= L && L + 1 < |s.rows| && s.From(L) && p < |s.rows[L + 1]| && s.mem.Keys == s.tag.Keys
    requires i + 1 < |Entries(NodeAt(s.mem, s.rows[L + 1][p].addr))|
    requires i < |NodeAt(s.mem, s.rows[L + 1][p].addr)|
    requires Offset(s.mem, s.rows[L + 1], p) + i + 1 < |s.rows[L]|
    requires var c := Offset(s.mem, s.rows[L + 1], p) + i;
      && X + Y == Entries(NodeAt(s.mem, s.rows[L][c].addr)) + Entries(NodeAt(s.mem, s.rows[L][c + 1].addr))
      && Entries(NodeAt(s.mem, s.rows[L][c].addr)) != []
      && (exc == 0 || exc == s.rows[L][c].addr || exc == s.rows[L][c + 1].addr)
      && (InRange(s.rows[L][c], k) || InRange(s.rows[L][c + 1], k))
    requires |X| >= 2 && |Y| >= 2 && Holds(nl, s.N, X) && Holds(nr, s.N, Y) && Filled(s, L, exc, me)
    requires t == Reshared(s, L, p, i, LastKey(X), nl, nr)
    ensures t.From(L) && SamePairs(s.rows[L - 1], t.rows[L - 1]) && Filled(t, L, 0, 0) && Framed(s, t, L)
    ensures t.mem.Keys == s.mem.Keys && |t.rows| == |s.rows| && t.tag == s.tag
    ensures (forall m :: L < m < |s.rows| ==> t.rows[m] == s.rows[m])
    ensures g < |t.rows[L]| && InRange(t.rows[L][g], k)
    ensures Entries(NodeAt(t.mem, t.rows[L][g].addr)) == X || Entries(NodeAt(t.mem, t.rows[L][g].addr)) == Y
  {
    hide Kids, NodeOk, KidsOf, Holds, Offset, Filled, Entries, SamePairs, RowOk, InRange;
    assert s.Ok(L) && s.Ok(L + 1) && s.Link(L);
    var R, c := s.rows[L], Offset(s.mem, s.rows[L + 1], p) + i;
    RowAt(s, L, c);
    RowAt(s, L, c + 1);
    RowAt(s, L + 1, p);
    ReshareStep(s, L, p, i, X, Y, nl, nr);
    ReshareFilled(s, L, p, i, X, Y, nl, nr, exc, me);
    ReshareRange(s, L, p, i, LastKey(X), k);
    g := if InRange(t.rows[L][c], k) then c else c + 1;
  }

  lemma FreshAddress(m: map<nat, Node>) returns (a: nat)
    ensures a != 0 && a !in m
  {
    a := 1;
    var rest := m.Keys;
    while rest != {}
      invariant a != 0 && forall x :: x in m && x !in rest ==> x < a
      decreases rest
    {
      var x :| x in rest;
      rest := rest - {x};
      if a <= x { a := x + 1; }
    }
  }

  lemma HoldsSize(n: Node, N: nat, A: seq<Slot>)
    requires Holds(n, N, A)
    ensures |n| == N >= |A|
  {
  }

  /** A slot opened at pos, the pairs from there on one further up, and the new pair in the gap. */
  lemma ShiftInHolds(n: Node, N: nat, A: seq<Slot>, pos: nat, p: Slot, n': Node)
    requires Holds(n, N, A) && |A| < N == |n'| && pos <= |A| && p.val != 0 && n'[pos] == p
    requires forall j :: 0 <= j < N && (j < pos || |A| + 1 <= j) ==> n'[j] == n[j]
    requires forall j :: pos + 1 <= j < |A| + 1 ==> n'[j] == n[j - 1]
    ensures Holds(n', N, A[..pos] + [p] + A[pos..])
  {
  }

  function Cleared(N: nat): (n: Node)
    ensures |n| == N && forall i :: 0 <= i < N ==> n[i] == EMPTY
  {
    seq(N, _ => EMPTY)
  }

  lemma ClearedHolds(N: nat)
    ensures Holds(Cleared(N), N, []) && Entries(Cleared(N)) == []
  {
    HoldsEntries(Cleared(N), N, []);
  }

  /** The pairs listed at level - 1, or the one pair a new root at that level would start with. */
  ghost function Before(s: Tree, node: nat, level: nat): seq<Ref>
    requires 1 <= level <= |s.rows|
  {
    if level < |s.rows| then s.rows[level - 1]
    else if level == 1 then []
    else
      var es := Entries(NodeAt(s.mem, node));
      [Ref(node, if es == [] then 0 else LastKey(es), Inf)]
  }

  function Slots(E: seq<Ref>): seq<Slot> {
    seq(|E|, i requires 0 <= i < |E| => Slot(E[i].lo, E[i].addr))
  }

  const ENOMEM := 12

  function GrownRoot(s: Tree, node: nat): Node
    requires s.N > 0
  {
    if node == 0 then Cleared(s.N)
    else
      var es := Entries(NodeAt(s.mem, node));
      Cleared(s.N)[0 := Slot(if es == [] then 0 else LastKey(es), node)]
  }

  lemma RootKey(s: Tree, node: nat)
    requires node in s.mem && Entries(s.mem[node]) != []
    ensures 0 < Fill(s.mem[node], 0) <= |s.mem[node]|
    ensures s.mem[node][Fill(s.mem[node], 0) - 1].key == LastKey(Entries(NodeAt(s.mem, node)))
  {
  }

  lemma GrownRootIs(s: Tree, node: nat, n: Node)
    requires s.N > 0
    requires node == 0 ==> n == Cleared(s.N)
    requires node != 0 ==> Entries(NodeAt(s.mem, node)) != []
    requires node != 0 ==> n == Cleared(s.N)[0 := EMPTY.(key := LastKey(Entries(NodeAt(s.mem, node))))]
                                            [0 := EMPTY.(key := LastKey(Entries(NodeAt(s.mem, node)))).(val := node)]
    ensures n == GrownRoot(s, node)
  {
  }

  /** The tree with a new root a on top, holding what Before lists. */
  lemma GrowDone(s: Tree, node: nat, a: nat, t: Tree)
    requires |s.rows| >= 1 && s.From(|s.rows|) && a !in s.mem && s.N > 0 && s.mem.Keys == s.tag.Keys
    requires node == 0 <==> |s.rows| == 1
    requires node != 0 ==> Entries(NodeAt(s.mem, node)) != []
    requires t == Tree(s.N, s.mem[a := GrownRoot(s, node)], s.tag[a := |s.rows|],
                       s.rows[|s.rows| - 1 := Before(s, node, |s.rows|)] + [[Ref(a, 0, Inf)]])
    ensures t.From(|s.rows|) && Framed(s, t, |s.rows|)
    ensures Entries(NodeAt(t.mem, a)) == Slots(Before(s, node, |s.rows|))
  {
    hide Kids, KidsOf, Entries, NodeOk, GrownRoot, Before;
    var h := |s.rows|;
    GrownNode(s, node, a);
    KidsOne(t.mem, Ref(a, 0, Inf));
    assert t.rows[h] == [Ref(a, 0, Inf)];
    assert t.Link(h - 1);
    assert t.Ok(h);
  }

  /** A new root holds what Before lists, and hands exactly that down. */
  lemma GrownNode(s: Tree, node: nat, a: nat)
    requires |s.rows| >= 1 && s.N > 0
    requires node == 0 <==> |s.rows| == 1
    requires node != 0 ==> Entries(NodeAt(s.mem, node)) != []
    ensures NodeOk(GrownRoot(s, node), s.N, Ref(a, 0, Inf))
    ensures Entries(GrownRoot(s, node)) == Slots(Before(s, node, |s.rows|))
    ensures KidsOf(Slots(Before(s, node, |s.rows|)), Inf) == Before(s, node, |s.rows|)
  {
    var below := Before(s, node, |s.rows|);
    HoldsEntries(GrownRoot(s, node), s.N, Slots(below));
  }

  /** Lowering separators above level L keeps level L itself in order. */
  lemma LoweredFrom(s: Tree, t: Tree, L: nat)
    requires 1 <= L && L + 1 < |s.rows| && s.From(L) && Lowered(s, t, L + 1) && t.From(L + 1)
    ensures t.From(L)
  {
    hide NodeOk, Kids, Wider, RowOk, Entries;
    assert s.Ok(L) && s.Link(L - 1);
    assert Agree(s, t, L);
    Keep(s, t, L);
    Extend(t, L);
  }

  /** The parent of child c of level L was found again by key. */
  lemma FoundParent(s: Tree, L: nat, c: nat, p: nat, k: nat, i: nat)
    requires 1 <= L && L + 1 < |s.rows| && s.From(L) && c < |s.rows[L]| && InRange(s.rows[L][c], k)
    requires p < |s.rows[L + 1]| && InRange(s.rows[L + 1][p], k)
    requires var n := NodeAt(s.mem, s.rows[L + 1][p].addr);
      && i <= s.N && |n| == s.N && (forall j :: 0 <= j < i ==> n[j].key > k) && (i < s.N ==> n[i].key <= k)
    ensures var n := NodeAt(s.mem, s.rows[L + 1][p].addr);
      && i < |Entries(n)| <= |n| && c == Offset(s.mem, s.rows[L + 1], p) + i && n[i].val == s.rows[L][c].addr
  {
    hide Kids, NodeOk, KidsOf, InRange, Entries, RowOk, IsPos, Offset;
    assert s.Ok(L + 1);
    RowAt(s, L + 1, p);
    var n := NodeAt(s.mem, s.rows[L + 1][p].addr);
    PosInNode(n, s.N, s.rows[L + 1][p], k, i);
    ParentOf(s, L, c, p, k, i);
    DescendingOf(n, s.N, s.rows[L + 1][p]);
    KidsOfAt(Entries(n), s.rows[L + 1][p].hi, i);
    EntryAt(n, s.N, s.rows[L + 1][p], i);
  }

  /** The neighbour of a child, read from its parent's slots. */
  lemma Neighbour(s: Tree, L: nat, p: nat, i: nat)
    requires 1 <= L && L + 1 < |s.rows| && s.From(L) && p < |s.rows[L + 1]|
    requires i + 1 < |Entries(NodeAt(s.mem, s.rows[L + 1][p].addr))|
    ensures var n, c := NodeAt(s.mem, s.rows[L + 1][p].addr), Offset(s.mem, s.rows[L + 1], p) + i;
      && i + 1 < |n| && c + 1 < |s.rows[L]|
      && s.rows[L][c].addr == n[i].val && s.rows[L][c + 1].addr == n[i + 1].val
      && s.rows[L][c].addr in s.mem && s.rows[L][c + 1].addr in s.mem && s.rows[L + 1][p].addr in s.mem
      && s.rows[L][c].addr != s.rows[L][c + 1].addr
      && s.rows[L][c].addr != s.rows[L + 1][p].addr && s.rows[L][c + 1].addr != s.rows[L + 1][p].addr
      && Exact(s.mem[s.rows[L][c].addr], s.N) && Exact(s.mem[s.rows[L][c + 1].addr], s.N)
  {
    hide Kids, KidsOf, InRange, Entries, RowOk, Offset, NodeOk, Holds;
    assert s.Ok(L) && s.Ok(L + 1) && s.Link(L);
    Siblings(s, L, p, i);
    var c := Offset(s.mem, s.rows[L + 1], p) + i;
    RowAt(s, L + 1, p);
    RowAt(s, L, c);
    RowAt(s, L, c + 1);
    RowAllOk(s, L);
    var n := NodeAt(s.mem, s.rows[L + 1][p].addr);
    EntryAt(n, s.N, s.rows[L + 1][p], i);
    EntryAt(n, s.N, s.rows[L + 1][p], i + 1);
    NodeHolds(NodeAt(s.mem, s.rows[L][c].addr), s.N, s.rows[L][c]);
    NodeHolds(NodeAt(s.mem, s.rows[L][c + 1].addr), s.N, s.rows[L][c + 1]);
  }

  /** A node of N slots whose used slots come first and whose others are cleared. */
  ghost predicate Exact(n: Node, N: nat) {
    |n| == N && Fill(n, 0) == |Entries(n)| <= N && Holds(n, N, Entries(n))
  }

  lemma ExactAt(n: Node, N: nat, i: nat)
    requires Exact(n, N) && i < |Entries(n)|
    ensures i < |n| && n[i] == Entries(n)[i]
  {
  }

  lemma ExactHolds(n: Node, N: nat)
    requires Exact(n, N)
    ensures |n| == N && Fill(n, 0) == |Entries(n)| <= N && Holds(n, N, Entries(n))
  {
  }

  /** Counting from a used slot, or from the first free one, gives the same fill. */
  lemma FillFrom(n: Node, i: nat)
    requires i <= |Entries(n)|
    ensures Fill(n, i) == |Entries(n)|
  {
    var f, f' := Fill(n, 0), Fill(n, i);
    if f < |n| { assert n[f].val == 0; }
    if f' < |n| { assert n[f'].val == 0; }
  }

  lemma FilledNode(s: Tree, l: nat, exc: nat, me: nat, i: nat)
    requires l < |s.rows| && Filled(s, l, exc, me) && i < |s.rows[l]|
    ensures |Entries(NodeAt(s.mem, s.rows[l][i].addr))| >= if s.rows[l][i].addr == exc then me else MinFill(s.rows)
  {
    hide Entries;
    assert FilledAt(s, l, exc, me);
    var R := s.rows[l];
    assert R[i] == s.rows[l][i];
  }

  lemma NodeHolds(n: Node, N: nat, r: Ref)
    requires NodeOk(n, N, r)
    ensures Exact(n, N)
  {
  }

  lemma FilledUp(s: Tree, L: nat, M: nat, exc: nat, me: nat)
    requires L < M && Filled(s, L, exc, me) && (exc == 0 || FilledAbove(s, L, exc))
    ensures Filled(s, M, 0, 0)
  {
    hide Entries;
    forall l | M <= l < |s.rows|
      ensures FilledAt(s, l, 0, 0)
    {
      assert FilledAt(s, l, exc, me);
      var R := s.rows[l];
      forall i | 0 <= i < |R|
        ensures |Entries(NodeAt(s.mem, R[i].addr))| >= if R[i].addr == 0 then 0 else MinFill(s.rows)
      {
      }
    }
  }

  /** exc is not a node above level L. */
  ghost predicate FilledAbove(s: Tree, L: nat, exc: nat) {
    forall l :: L < l < |s.rows| ==> AddrFree(s.rows[l], exc)
  }

  ghost predicate AddrFree(R: seq<Ref>, a: nat) {
    forall i :: 0 <= i < |R| ==> R[i].addr != a
  }

  lemma LoweredNear(s: Tree, t: Tree, L: nat)
    requires Lowered(s, t, L + 1) && 1 <= L && L + 1 < |s.rows| && s.mem.Keys == s.tag.Keys
    ensures Framed(s, t, L) && t.rows[L - 1] == s.rows[L - 1] && t.rows[L] == s.rows[L] && t.tag == s.tag
    ensures forall a :: a in s.mem && s.tag[a] <= L + 1 ==> a in t.mem && t.mem[a] == s.mem[a]
  {
  }

  lemma FramedRefl(s: Tree, L: nat)
    requires L <= |s.rows|
    ensures Framed(s, s, L)
  {
  }

  lemma FramedKey(s: Tree, t: Tree, L: nat, key: KeyRef)
    requires 1 <= L && Framed(s, t, L) && KeyBelow(s, key, L - 1)
    ensures KeyBelow(t, key, L - 1) && Read(t.mem, key) == Read(s.mem, key)
  {
  }

  lemma BeforeIs(s: Tree, node: nat, level: nat)
    requires 1 <= level < |s.rows|
    ensures Before(s, node, level) == s.rows[level - 1]
  {
  }

  lemma GrownFilled(t: Tree, E: seq<Ref>)
    requires |t.rows| > 1 && |t.rows[|t.rows| - 1]| == 1
    requires Entries(NodeAt(t.mem, t.rows[|t.rows| - 1][0].addr)) == Slots(E)
    ensures Filled(t, |t.rows| - 1, t.rows[|t.rows| - 1][0].addr, |E|)
  {
    hide Entries;
  }

  /** The search for k ends in node c of the row: it covers k, or is the last one and k lies below it. */
  ghost predicate Reaches(R: seq<Ref>, c: nat, k: nat) {
    c < |R| && Below(k, R[c].hi) && (R[c].lo <= k || c == |R| - 1)
  }

  /** The search for k ends in node c, which is not full. */
  ghost predicate HasRoom(s: Tree, level: nat, c: nat, k: nat)
    requires level < |s.rows|
  {
    Reaches(s.rows[level], c, k) && |Entries(NodeAt(s.mem, s.rows[level][c].addr))| < s.N
  }

  lemma RoomIs(s: Tree, level: nat, c: nat, k: nat)
    requires level < |s.rows| && c < |s.rows[level]| && InRange(s.rows[level][c], k)
    requires |Entries(NodeAt(s.mem, s.rows[level][c].addr))| < s.N
    ensures HasRoom(s, level, c, k)
  {
  }

  lemma RootHasRoom(t: Tree, k: nat)
    requires |t.rows| > 1 && t.From(|t.rows| - 1)
    requires |Entries(NodeAt(t.mem, t.rows[|t.rows| - 1][0].addr))| < t.N
    ensures HasRoom(t, |t.rows| - 1, 0, k)
  {
    hide Entries;
  }

  /** The search after a rebalance finds the node that was given room. */
  lemma RoomKept(s: Tree, t: Tree, level: nat, c: nat, g: nat, k: nat)
    requires 1 <= level < |s.rows| && HasRoom(s, level, c, k) && Lowered(s, t, level) && t.From(level)
    requires g < |t.rows[level]| && InRange(t.rows[level][g], k)
    ensures |Entries(NodeAt(t.mem, t.rows[level][g].addr))| < t.N
  {
    hide Entries, RowOk, Kids;
    ChainFrom(t, level);
    assert Wider(s.rows[level], t.rows[level]);
    assert Looser(s.rows[level][c], t.rows[level][c]);
    var R := t.rows[level];
    assert g < c ==> Le(R[c].hi, Fin(R[g].lo));
    assert c < g ==> Le(R[g].hi, Fin(R[c].lo));
  }

  lemma PosBound(es: seq<Slot>, k: nat, i: nat)
    requires IsPos(es, k, i)
    ensures i <= |es|
  {
  }

  lemma KeyAbsent(s: Tree, L: nat, g: nat, i: nat, E: seq<Ref>, k: nat)
    requires 1 <= L < |s.rows| && s.Ok(L) && s.Link(L - 1) && g < |s.rows[L]|
    requires i < |Entries(NodeAt(s.mem, s.rows[L][g].addr))|
    requires SamePairs(E, s.rows[L - 1]) && forall r :: r in E ==> r.lo != k
    ensures i < |NodeAt(s.mem, s.rows[L][g].addr)| && NodeAt(s.mem, s.rows[L][g].addr)[i].key != k
    ensures Entries(NodeAt(s.mem, s.rows[L][g].addr))[i].key != k
  {
    hide NodeOk, Kids, KidsOf, Entries;
    var n := NodeAt(s.mem, s.rows[L][g].addr);
    assert NodeOk(n, s.N, s.rows[L][g]);
    EntryAt(n, s.N, s.rows[L][g], i);
    KidAt(s.mem, s.rows[L], g, i);
    KidsOfAt(Entries(n), s.rows[L][g].hi, i);
    var o := Offset(s.mem, s.rows[L], g) + i;
    assert E[o] in E && E[o].lo == s.rows[L - 1][o].lo;
  }

  lemma WithNodeFramed(s: Tree, t: Tree, L: nat, a: nat)
    requires 1 <= L < |s.rows| && a in s.mem && a in s.tag && s.tag[a] == L && a in t.mem
    requires t == WithNode(s, L, a, t.mem[a])
    ensures Framed(s, t, L)
  {
    hide Kids;
  }

  lemma LoweredNodes(s: Tree, t: Tree, L: nat)
    requires Lowered(s, t, L) && s.mem.Keys == s.tag.Keys
    ensures t.tag == s.tag
    ensures forall a :: a in s.mem && s.tag[a] <= L ==> a in t.mem && t.mem[a] == s.mem[a]
  {
  }

  lemma BeforeShort(s: Tree, level: nat)
    requires level == |s.rows| >= 1
    ensures forall node :: |Before(s, node, level)| <= 1
    ensures forall node :: level > 1 ==> |Before(s, node, level)| == 1
  {
  }

  lemma RootAbove(s: Tree, a: nat)
    requires |s.rows| >= 1
    ensures FilledAbove(s, |s.rows| - 1, a)
  {
  }

  lemma WithNodeFilled(s: Tree, t: Tree, L: nat, a: nat, exc: nat, me: nat)
    requires 1 <= L < |s.rows| && a in t.mem && t == WithNode(s, L, a, t.mem[a])
    requires Filled(s, L, exc, me) && (exc == 0 || exc == a)
    requires |Entries(t.mem[a])| >= MinFill(s.rows)
    ensures Filled(t, L, 0, 0)
  {
    hide Kids, Entries, Filled;
    FilledRaise(s, t, L, exc, me, a, a);
  }

  /** A node that no row mentions was allocated. */
  lemma AllocDone(s: Tree, t: Tree, L: nat, new_: nat)
    requires 1 <= L < |s.rows| && s.From(L) && s.mem.Keys == s.tag.Keys && new_ !in s.mem
    requires t == s.(mem := s.mem[new_ := Cleared(s.N)], tag := s.tag[new_ := L])
    requires Filled(s, L, 0, 0)
    ensures t.From(L) && t.From(L + 1) && Filled(t, L, 0, 0) && Filled(t, L + 1, 0, 0) && Framed(s, t, L)
  {
    hide Entries, NodeOk, Kids, RowOk, Filled;
    forall m | L <= m < |t.rows|
      ensures t.Ok(m) && (m >= 1 ==> t.Link(m - 1))
    {
      assert s.Ok(m) && s.Link(m - 1);
      Keep(s, t, m);
    }
    assert t.From(L) by {
      forall m | 0 <= m && L <= m + 1 && m + 1 < |t.rows|
        ensures t.Link(m)
      {
        assert t.Ok(m + 1);
      }
    }
    ClearedHolds(s.N);
    assert Entries([]) == [] by { EntriesNone(); }
    forall m | 0 <= m < |s.rows|
      ensures Wider(s.rows[m], t.rows[m])
    {
      WiderRefl(s.rows[m]);
    }
    FilledSame(s, t, L, 0, 0);
    FilledUp(t, L, L + 1, 0, 0);
  }

  lemma AllocBefore(s: Tree, t: Tree, L: nat, new_: nat, node: nat)
    requires 1 <= L < |s.rows| && node in s.mem && new_ !in s.mem
    requires t == s.(mem := s.mem[new_ := Cleared(s.N)], tag := s.tag[new_ := L])
    ensures Before(t, node, L + 1) == Before(s, node, L + 1)
  {
  }

  lemma EntriesNone()
    ensures Entries([]) == []
  {
  }

  /** The key a full node is split at is a new separator for the level above, and belongs to the node. */
  lemma SplitKey(s: Tree, node: nat, L: nat, c: nat, i: nat)
    requires 1 <= L < |s.rows| && s.From(L) && c < |s.rows[L]|
    requires i + 1 < |Entries(NodeAt(s.mem, s.rows[L][c].addr))|
    requires L == |s.rows| - 1 ==> node == s.rows[L][0].addr
    ensures var es, R := Entries(NodeAt(s.mem, s.rows[L][c].addr)), Before(s, node, L + 1);
      && (forall r :: r in R ==> r.lo != es[i].key)
      && |R| == |s.rows[L]| && Chain(R) && RowOk(s.mem, s.tag, s.N, R, L)
      && (forall j :: 0 <= j < |R| ==> R[j].addr == s.rows[L][j].addr && R[j].hi == s.rows[L][j].hi)
      && InRange(R[c], es[i].key) && (L < |s.rows| - 1 ==> R == s.rows[L])
  {
    hide Entries, NodeOk, Kids, RowOk;
    assert s.Ok(L);
    ChainFrom(s, L);
    RowAt(s, L, c);
    var n := NodeAt(s.mem, s.rows[L][c].addr);
    SplitKeyIn(n, s.N, s.rows[L][c], i);
    if L < |s.rows| - 1 {
      var R, x := s.rows[L], Entries(n)[i].key;
      forall j | 0 <= j < |R|
        ensures R[j].lo != x
      {
        assert Below(R[j].lo, R[j].hi);
        if j < c { assert Le(R[c].hi, Fin(R[j].lo)); }
        if j > c { assert Le(R[j].hi, Fin(R[c].lo)); }
      }
    } else {
      SplitRoot(s, L, n);
      var R := Before(s, node, L + 1);
      assert c == 0 && R[0] == Ref(node, LastKey(Entries(n)), Inf);
    }
  }

  lemma SplitKeyIn(n: Node, N: nat, r: Ref, i: nat)
    requires NodeOk(n, N, r) && i + 1 < |Entries(n)|
    ensures InRange(r, Entries(n)[i].key) && r.lo < Entries(n)[i].key && LastKey(Entries(n)) < Entries(n)[i].key
  {
    var es := Entries(n);
    assert InRange(r, es[|es| - 1].key);
  }

  lemma SplitRoot(s: Tree, L: nat, n: Node)
    requires L < |s.rows| && s.Ok(L) && |s.rows[L]| == 1 && n == NodeAt(s.mem, s.rows[L][0].addr) && Entries(n) != []
    ensures var r := s.rows[L][0].(lo := LastKey(Entries(n))); RowOk(s.mem, s.tag, s.N, [r], L)
  {
  }

  lemma KidsSame(mem: map<nat, Node>, R: seq<Ref>, S: seq<Ref>)
    requires |R| == |S| && forall j :: 0 <= j < |R| ==> R[j].addr == S[j].addr && R[j].hi == S[j].hi
    ensures Kids(mem, R) == Kids(mem, S)
  {
    KidsFrame(mem, mem, R, S);
  }

  lemma SamePairsWider(R: seq<Ref>, S: seq<Ref>)
    requires SamePairs(R, S)
    ensures Wider(R, S)
  {
  }

  /** The entry for the new node could not be made: it is freed and level L is as before. */
  lemma SplitFailed(s0: Tree, s1: Tree, s2: Tree, t: Tree, L: nat, new_: nat)
    requires 1 <= L < |s0.rows| && s0.From(L) && s0.mem.Keys == s0.tag.Keys && new_ !in s0.mem && Filled(s0, L, 0, 0)
    requires s1 == s0.(mem := s0.mem[new_ := Cleared(s0.N)], tag := s0.tag[new_ := L])
    requires s2.From(L + 1) && Framed(s1, s2, L + 1) && |s2.rows| == |s0.rows| && Filled(s2, L + 1, 0, 0)
    requires L == |s0.rows| - 1 ==> s2 == s1
    requires L < |s0.rows| - 1 ==> SamePairs(s0.rows[L], s2.rows[L])
    requires s2.mem.Keys == s2.tag.Keys
    requires t == Tree(s2.N, s2.mem - {new_}, s2.tag - {new_}, s2.rows[L - 1 := Kids(s2.mem - {new_}, s2.rows[L])])
    ensures t.From(L) && Filled(t, L, 0, 0) && SamePairs(s0.rows[L - 1], t.rows[L - 1])
  {
    hide Entries, NodeOk, Kids, RowOk, Filled, SamePairs;
    assert s0.Ok(L) && s0.Link(L - 1);
    var R, S := s0.rows[L], s2.rows[L];
    if L == |s0.rows| - 1 { SamePairsRefl(R); }
    SamePairsWider(R, S);
    forall j | 0 <= j < |R|
      ensures NodeAt(s0.mem, R[j].addr) == NodeAt(t.mem, R[j].addr) && R[j].addr in t.mem
    {
      RowAt(s0, L, j);
    }
    KidsWider(s0.mem, t.mem, R, S);
    assert t.Ok(L) by { SplitFailedRow(s0, t, L); }
    assert t.Link(L - 1);
    forall m | L < m < |s2.rows|
      ensures Agree(s2, t, m)
    {
    }
    Rebuild(s2, t, L);
    SplitFailedFilled(s0, s2, t, L, new_);
  }

  lemma SplitFailedFramed(s0: Tree, s1: Tree, s2: Tree, t: Tree, L: nat, new_: nat)
    requires 1 <= L < |s0.rows| && new_ !in s0.mem
    requires s1 == s0.(mem := s0.mem[new_ := Cleared(s0.N)], tag := s0.tag[new_ := L])
    requires Framed(s1, s2, L + 1) && |s2.rows| == |s0.rows| && s2.mem.Keys == s2.tag.Keys
    requires t.N == s2.N && t.mem == s2.mem - {new_} && t.tag == s2.tag - {new_} && |t.rows| == |s2.rows|
    requires forall l :: 0 <= l < L - 1 ==> t.rows[l] == s2.rows[l]
    ensures Framed(s0, t, L)
  {
  }

  lemma SplitFailedRow(s0: Tree, t: Tree, L: nat)
    requires L < |s0.rows| == |t.rows| && s0.N == t.N && s0.Ok(L) && Wider(s0.rows[L], t.rows[L])
    requires forall a :: a in s0.mem && a in s0.tag && s0.tag[a] == L ==>
      a in t.mem && t.mem[a] == s0.mem[a] && a in t.tag && t.tag[a] == L
    ensures t.Ok(L)
  {
    hide NodeOk;
    var u := s0.rows[L];
    RowOkWider(s0.mem, s0.tag, s0.N, s0.rows[L], t.rows[L], L);
    var S := t.rows[L];
    assert forall j :: 0 <= j < |S| ==> S[j].addr in s0.mem;
  }

  lemma SplitFailedFilled(s0: Tree, s2: Tree, t: Tree, L: nat, new_: nat)
    requires 1 <= L < |s0.rows| == |s2.rows| == |t.rows| && s0.Ok(L) && Filled(s0, L, 0, 0) && Filled(s2, L + 1, 0, 0)
    requires Wider(s0.rows[L], t.rows[L])
    requires forall m :: L <= m < |s2.rows| ==> t.rows[m] == s2.rows[m]
    requires t.mem == s2.mem - {new_} && s2.From(L + 1) && (new_ in s2.mem ==> new_ in s2.tag && s2.tag[new_] <= L)
    requires forall a :: a in s0.mem && a in s0.tag && s0.tag[a] == L ==> a in t.mem && t.mem[a] == s0.mem[a]
    ensures Filled(t, L, 0, 0)
  {
    hide Entries, NodeOk, Kids;
    forall m | L <= m < |t.rows|
      ensures FilledAt(t, m, 0, 0)
    {
      var S := t.rows[m];
      if m == L {
        var R := s0.rows[L];
        assert FilledAt(s0, L, 0, 0);
        forall i | 0 <= i < |S|
          ensures |Entries(NodeAt(t.mem, S[i].addr))| >= if S[i].addr == 0 then 0 else MinFill(t.rows)
        {
          assert Looser(R[i], S[i]);
        }
      } else {
        assert FilledAt(s2, m, 0, 0) && s2.Ok(m);
        forall i | 0 <= i < |S|
          ensures |Entries(NodeAt(t.mem, S[i].addr))| >= if S[i].addr == 0 then 0 else MinFill(t.rows)
        {
          assert S[i].addr != new_;
        }
      }
    }
  }

  /** The upper half of a full node c was moved to the new node entered above it. */
  lemma SplitDone(s0: Tree, s1: Tree, s2: Tree, t: Tree, R: seq<Ref>, L: nat, c: nat, es: seq<Slot>, new_: nat, k: nat)
    returns (g: nat)
    requires 1 <= L < |s0.rows| && s0.From(L) && s0.mem.Keys == s0.tag.Keys && new_ !in s0.mem && 4 <= s0.N
    requires c < |s0.rows[L]| && es == Entries(NodeAt(s0.mem, s0.rows[L][c].addr)) && |es| == s0.N
    requires InRange(s0.rows[L][c], k) && Filled(s0, L, 0, 0)
    requires s1 == s0.(mem := s0.mem[new_ := Cleared(s0.N)], tag := s0.tag[new_ := L])
    requires L + 1 < |s2.rows| && s2.From(L + 1)
    requires Framed(s1, s2, L + 1) && |s2.rows| >= |s0.rows| && Filled(s2, L + 1, 0, 0)
    requires RowOk(s0.mem, s0.tag, s0.N, R, L) && |R| == |s0.rows[L]|
    requires forall j :: 0 <= j < |R| ==> R[j].addr == s0.rows[L][j].addr && R[j].hi == s0.rows[L][j].hi
    requires (R == s0.rows[L] || |R| == 1) && InRange(R[c], es[s0.N / 2 - 1].key)
    requires Inserted(R, s2.rows[L], c, es[s0.N / 2 - 1].key, new_)
    requires t.N == s2.N && t.tag == s2.tag && t.rows == s2.rows[L - 1 := Kids(t.mem, s2.rows[L])]
    requires t.mem.Keys == s2.mem.Keys
    requires forall x :: x in s2.mem && x != new_ && x != R[c].addr ==> t.mem[x] == s2.mem[x]
    requires Holds(NodeAt(t.mem, new_), s2.N, es[..s0.N / 2]) && Holds(NodeAt(t.mem, R[c].addr), s2.N, es[s0.N / 2..])
    ensures t.From(L) && Filled(t, L, 0, 0) && SamePairs(s0.rows[L - 1], t.rows[L - 1]) && Framed(s0, t, L)
    ensures HasRoom(t, L, g, k)
  {
    hide Entries, NodeOk, Kids, RowOk, Filled, SamePairs, Inserted, Holds, InRange, Framed, Reaches;
    var A, B := es[..s0.N / 2], es[s0.N / 2..];
    assert A + B == es && LastKey(A) == es[s0.N / 2 - 1].key;
    assert s0.Link(L - 1);
    KidsSame(s0.mem, R, s0.rows[L]);
    assert new_ in s1.mem && s1.tag[new_] == L;
    SplitKept(s0, s1, s2, L, new_);
    SplitStep(s0.mem, s0.tag, R, s2, t, L, c, A, B, new_);
    InsertedAddrs(R, s2.rows[L], c, LastKey(A), new_, c);
    SplitDoneReach(R, s0.rows[L][c], s2.rows[L], c, LastKey(A), new_, k);
    g := if Reaches(t.rows[L], c, k) then c else c + 1;
    SplitOthers(s0, s1, s2, t, R, L, c, new_);
    FramedNode(s1, s2, L + 1, new_);
    RowMember(s0.mem, s0.tag, s0.N, R, L, c, c);
    SplitFramed(s0, s1, s2, t, L, new_, R[c].addr);
    assert |s0.rows| == 2 ==> |R| == 1;
    SplitFilled(s0, s2, t, R, L, c, LastKey(A), new_);
  }

  /** Entering the new node above it leaves its level alone. */
  lemma SplitKept(s0: Tree, s1: Tree, s2: Tree, L: nat, new_: nat)
    requires 1 <= L && new_ !in s0.mem
    requires s1 == s0.(mem := s0.mem[new_ := Cleared(s0.N)], tag := s0.tag[new_ := L]) && Framed(s1, s2, L + 1)
    ensures s2.N == s0.N && new_ in s2.mem && new_ in s2.tag && s2.tag[new_] == L
    ensures forall a :: a in s0.mem && a in s0.tag && s0.tag[a] == L ==>
      a in s2.mem && s2.mem[a] == s0.mem[a] && a in s2.tag && s2.tag[a] == L
  {
    assert new_ in s1.mem && s1.tag[new_] == L;
    forall a | a in s0.mem && a in s0.tag && s0.tag[a] == L
      ensures a in s2.mem && s2.mem[a] == s0.mem[a] && a in s2.tag && s2.tag[a] == L
    {
      assert a in s1.mem && s1.mem[a] == s0.mem[a] && s1.tag[a] == L;
    }
  }

  /** The other nodes of the row are as they were. */
  lemma SplitOthers(s0: Tree, s1: Tree, s2: Tree, t: Tree, R: seq<Ref>, L: nat, c: nat, new_: nat)
    requires 1 <= L && c < |R| && RowOk(s0.mem, s0.tag, s0.N, R, L) && new_ !in s0.mem
    requires s1 == s0.(mem := s0.mem[new_ := Cleared(s0.N)], tag := s0.tag[new_ := L]) && Framed(s1, s2, L + 1)
    requires t.mem.Keys == s2.mem.Keys && forall x :: x in s2.mem && x != new_ && x != R[c].addr ==>
      t.mem[x] == s2.mem[x]
    ensures forall j :: 0 <= j < |R| ==> R[j].addr in s2.tag && s2.tag[R[j].addr] == L
    ensures forall j :: 0 <= j < |R| && j != c ==> NodeAt(t.mem, R[j].addr) == NodeAt(s0.mem, R[j].addr)
  {
    hide Framed, RowOk;
    forall j | 0 <= j < |R|
      ensures R[j].addr in s2.tag && s2.tag[R[j].addr] == L
      ensures j != c ==> NodeAt(t.mem, R[j].addr) == NodeAt(s0.mem, R[j].addr)
    {
      RowMember(s0.mem, s0.tag, s0.N, R, L, j, c);
      FramedNode(s1, s2, L + 1, R[j].addr);
    }
  }

  lemma RowMember(mem: map<nat, Node>, tag: map<nat, nat>, N: nat, R: seq<Ref>, L: nat, j: nat, c: nat)
    requires RowOk(mem, tag, N, R, L) && j < |R| && c < |R|
    ensures R[j].addr in mem && R[j].addr in tag && tag[R[j].addr] == L && (j != c ==> R[j].addr != R[c].addr)
  {
    hide NodeOk;
  }

  lemma FramedNode(s: Tree, t: Tree, L: nat, a: nat)
    requires Framed(s, t, L) && a in s.mem && a in s.tag && s.tag[a] < L
    ensures a in t.mem && t.mem[a] == s.mem[a] && a in t.tag && t.tag[a] == s.tag[a]
  {
  }

  lemma SplitDoneReach(R: seq<Ref>, r: Ref, S: seq<Ref>, c: nat, k0: nat, v: nat, k: nat)
    requires c < |R| && Inserted(R, S, c, k0, v) && InRange(R[c], k0) && R[c].hi == r.hi && InRange(r, k)
    requires R[c] == r || |R| == 1
    ensures Reaches(S, c, k) || Reaches(S, c + 1, k)
  {
    SplitReach(R, S, c, k0, v, k);
  }

  lemma SplitFilled(s0: Tree, s2: Tree, t: Tree, R: seq<Ref>, L: nat, c: nat, k0: nat, new_: nat)
    requires 1 <= L < |s0.rows| && L + 1 < |s2.rows| && Filled(s0, L, 0, 0) && Filled(s2, L + 1, 0, 0) && s2.From(L + 1)
    requires |s2.rows| >= |s0.rows| && (|s0.rows| == 2 ==> |R| == 1)
    requires c < |R| == |s0.rows[L]| && forall j :: 0 <= j < |R| ==> R[j].addr == s0.rows[L][j].addr
    requires Inserted(R, s2.rows[L], c, k0, new_)
    requires |t.rows| == |s2.rows| && t.rows == s2.rows[L - 1 := t.rows[L - 1]] && t.mem.Keys == s2.mem.Keys
    requires forall x :: x in s2.mem && x != new_ && x != R[c].addr ==> t.mem[x] == s2.mem[x]
    requires new_ in s2.tag && s2.tag[new_] == L && R[c].addr in s2.tag && s2.tag[R[c].addr] == L
    requires forall j :: 0 <= j < |R| && j != c ==> NodeAt(t.mem, R[j].addr) == NodeAt(s0.mem, R[j].addr)
    requires |Entries(NodeAt(t.mem, new_))| >= 2 && |Entries(NodeAt(t.mem, R[c].addr))| >= 2
    ensures Filled(t, L, 0, 0)
  {
    hide Entries, NodeOk, Kids, Inserted;
    forall m | L <= m < |t.rows|
      ensures FilledAt(t, m, 0, 0)
    {
      var S := t.rows[m];
      if m == L {
        assert FilledAt(s0, L, 0, 0);
        var Q := s0.rows[L];
        InsertedLength(R, S, c, k0, new_);
        forall i | 0 <= i < |S|
          ensures |Entries(NodeAt(t.mem, S[i].addr))| >= if S[i].addr == 0 then 0 else MinFill(t.rows)
        {
          InsertedAddrs(R, S, c, k0, new_, if i <= c then i else i - 1);
          assert Q[if i <= c then i else i - 1].addr == R[if i <= c then i else i - 1].addr;
        }
      } else {
        assert FilledAt(s2, m, 0, 0) && s2.Ok(m);
        forall i | 0 <= i < |S|
          ensures |Entries(NodeAt(t.mem, S[i].addr))| >= if S[i].addr == 0 then 0 else MinFill(t.rows)
        {
          assert S[i].addr in s2.mem && S[i].addr != new_ && S[i].addr != R[c].addr;
        }
      }
    }
  }

  lemma SplitFramed(s0: Tree, s1: Tree, s2: Tree, t: Tree, L: nat, new_: nat, a: nat)
    requires 1 <= L < |s0.rows| && new_ !in s0.mem && a in s0.mem && a in s0.tag && s0.tag[a] == L
    requires s1 == s0.(mem := s0.mem[new_ := Cleared(s0.N)], tag := s0.tag[new_ := L])
    requires Framed(s1, s2, L + 1) && |t.rows| == |s2.rows|
    requires t.tag == s2.tag && t.mem.Keys == s2.mem.Keys && t.N == s2.N
    requires forall x :: x in s2.mem && x != new_ && x != a ==> t.mem[x] == s2.mem[x]
    requires forall l :: 0 <= l < L - 1 ==> t.rows[l] == s2.rows[l]
    ensures Framed(s0, t, L)
  {
  }

  // ---------- removal

  lemma IsPosUnique(es: seq<Slot>, k: nat, i: nat, j: nat)
    requires IsPos(es, k, i) && IsPos(es, k, j)
    ensures i == j
  {
  }

  /** A key listed at level L - 1 is found in the node and at the position the search for it ends at. */
  lemma PresentAt(s: Tree, L: nat, g: nat, k: nat, pos: nat, x: nat)
    requires 1 <= L < |s.rows| && s.From(L) && g < |s.rows[L]| && InRange(s.rows[L][g], k)
    requires IsPos(Entries(NodeAt(s.mem, s.rows[L][g].addr)), k, pos)
    requires x < |s.rows[L - 1]| && s.rows[L - 1][x].lo == k
    ensures var n := NodeAt(s.mem, s.rows[L][g].addr);
      && pos < |Entries(n)| <= |n| && x == Offset(s.mem, s.rows[L], g) + pos
      && Entries(n)[pos] == n[pos] == Slot(k, s.rows[L - 1][x].addr)
  {
    hide Kids, NodeOk, KidsOf, Entries, RowOk, IsPos, Offset;
    assert s.Ok(L) && s.Link(L - 1);
    ChainFrom(s, L - 1);
    ChainFrom(s, L);
    var q, i := RouteUp(s, L - 1, x, k);
    ChainUnique(s.rows[L], q, g, k);
    var n := NodeAt(s.mem, s.rows[L][g].addr);
    IsPosUnique(Entries(n), k, i, pos);
    KidsOfAt(Entries(n), s.rows[L][g].hi, i);
    RowAt(s, L, g);
    DescendingOf(n, s.N, s.rows[L][g]);
    EntryAt(n, s.N, s.rows[L][g], i);
  }

  /** The pair at position q of node g of level L, as listed in the row below. */
  lemma PairListed(s: Tree, L: nat, g: nat, q: nat)
    requires 1 <= L < |s.rows| && s.Ok(L) && s.Link(L - 1) && g < |s.rows[L]|
    requires q < |Entries(NodeAt(s.mem, s.rows[L][g].addr))|
    ensures var n, x := NodeAt(s.mem, s.rows[L][g].addr), Offset(s.mem, s.rows[L], g) + q;
      && x < |s.rows[L - 1]| && q < |n| == s.N &&
          n[q] == Entries(n)[q] == Slot(s.rows[L - 1][x].lo, s.rows[L - 1][x].addr)
      && InRange(s.rows[L][g], n[q].key)
  {
    hide Kids, KidsOf, Entries, Offset;
    var n := NodeAt(s.mem, s.rows[L][g].addr);
    RowAt(s, L, g);
    KidAt(s.mem, s.rows[L], g, q);
    KidsOfAt(Entries(n), s.rows[L][g].hi, q);
    EntryAt(n, s.N, s.rows[L][g], q);
  }

  lemma FilledShrunk(s: Tree, t: Tree, L: nat, a: nat)
    requires 1 <= L < |s.rows| && a in t.mem && t == WithNode(s, L, a, t.mem[a]) && Filled(s, L, 0, 0) && a != 0
    requires s.From(L) && 0 !in s.mem
    ensures Filled(t, L, a, |Entries(t.mem[a])|)
  {
    hide Kids, Entries, NodeOk;
    forall m | L <= m < |t.rows|
      ensures FilledAt(t, m, a, |Entries(t.mem[a])|)
    {
      assert FilledAt(s, m, 0, 0) && s.Ok(m);
      var R := t.rows[m];
      assert R == s.rows[m];
      forall i | 0 <= i < |R|
        ensures |Entries(NodeAt(t.mem, R[i].addr))| >= if R[i].addr == a then |Entries(t.mem[a])| else MinFill(t.rows)
      {
        assert R[i].addr in s.mem;
      }
    }
  }

  lemma FilledBack(t: Tree, L: nat, a: nat, me: nat)
    requires Filled(t, L, a, me) && me >= MinFill(t.rows)
    ensures Filled(t, L, 0, 0)
  {
    hide Entries;
    forall m | L <= m < |t.rows|
      ensures FilledAt(t, m, 0, 0)
    {
      assert FilledAt(t, m, a, me);
    }
  }

  lemma AboveFree(s: Tree, L: nat, a: nat)
    requires L < |s.rows| && s.From(L) && a in s.tag && s.tag[a] == L
    ensures FilledAbove(s, L, a)
  {
    hide NodeOk, Kids;
    forall l | L < l < |s.rows|
      ensures AddrFree(s.rows[l], a)
    {
      assert s.Ok(l);
    }
  }

  /** The row of a root that became the whole top level: its lower bound no longer matters. */
  function Topped(R: seq<Ref>): seq<Ref> {
    seq(|R|, i requires 0 <= i < |R| => R[i].(lo := 0))
  }

  lemma ShrinkRow(s: Tree, a: nat)
    requires |s.rows| > 1 && s.From(|s.rows| - 1) && s.rows[|s.rows| - 1][0].addr == a && s.N >= 1
    requires var f := |Entries(NodeAt(s.mem, a))|; f <= 1 && (f == 0 ==> |s.rows| == 2)
    ensures a in s.mem && |s.mem[a]| >= 1 && a in s.tag && s.tag[a] == |s.rows| - 1
    ensures var f := |Entries(NodeAt(s.mem, a))|;
      && (f == 0 ==> s.mem[a][0].val == 0 && s.rows[|s.rows| - 2] == [])
      && (f == 1 ==> s.mem[a][0].val != 0 && Topped(s.rows[|s.rows| - 2]) == [Ref(s.mem[a][0].val, 0, Inf)])
  {
    var h := |s.rows| - 1;
    assert s.Ok(h) && s.Link(h - 1);
    assert s.rows[h] == [s.rows[h][0]];
    KidsFocus(s.mem, s.rows[h], 0);
    KidsNone(s.mem);
    assert s.rows[h - 1] == KidsOf(Entries(s.mem[a]), Inf);
  }

  lemma ShrinkFramed(s: Tree, t: Tree, a: nat)
    requires |s.rows| > 1 && a in s.tag && s.tag[a] == |s.rows| - 1
    requires t.N == s.N && t.mem == s.mem - {a} && t.tag == s.tag - {a} && |t.rows| == |s.rows| - 1
    requires forall l :: 0 <= l < |s.rows| - 2 ==> t.rows[l] == s.rows[l]
    ensures Framed(s, t, |s.rows| - 1)
  {
  }

  function SwapVals(es: seq<Slot>, i: nat): (r: seq<Slot>)
    requires i + 1 < |es|
    ensures |r| == |es|
  {
    es[i := es[i].(val := es[i + 1].val)][i + 1 := es[i + 1].(val := es[i].val)]
  }

  lemma SwapValsIs(n: Node, i: nat, r: nat, l: nat)
    requires i + 1 < |n| && n[i].val == l && n[i + 1].val == r
    ensures n[i := n[i].(val := r)][i + 1 := n[i + 1].(val := l)] == SwapVals(n, i)
  {
  }

  lemma SwapValsOk(n: Node, N: nat, r: Ref, i: nat)
    requires NodeOk(n, N, r) && i + 1 < |Entries(n)|
    ensures i + 1 < |n| && NodeOk(SwapVals(n, i), N, r) && Entries(SwapVals(n, i)) == SwapVals(Entries(n), i)
  {
    HoldsEntries(SwapVals(n, i), N, SwapVals(Entries(n), i));
  }

  lemma KidsSwapVals(es: seq<Slot>, hi: Bound, i: nat)
    requires i + 1 < |es|
    ensures KidsOf(SwapVals(es, i), hi) == Swapped(KidsOf(es, hi), i)
  {
  }

  lemma SplicePair<T>(A: seq<T>, B: seq<T>, C: seq<T>, i: nat, x: T, y: T)
    requires i + 1 < |B|
    ensures (A + B + C)[|A| + i := x][|A| + i + 1 := y] == A + B[i := x][i + 1 := y] + C
  {
  }

  /** The row of a parent whose children i and i + 1 changed places. */
  lemma SwappedRow(mem: map<nat, Node>, mem': map<nat, Node>, P: seq<Ref>, p: nat, i: nat)
    requires p < |P| && OthersSame(mem, mem', P, p) && i + 1 < |Entries(NodeAt(mem, P[p].addr))|
    requires Entries(NodeAt(mem', P[p].addr)) == SwapVals(Entries(NodeAt(mem, P[p].addr)), i)
    ensures Offset(mem', P, p) == Offset(mem, P, p)
    ensures var c := Offset(mem, P, p) + i; c + 1 < |Kids(mem, P)| && Kids(mem', P) == Swapped(Kids(mem, P), c)
  {
    hide Kids, KidsOf, Entries;
    var es := Entries(NodeAt(mem, P[p].addr));
    var A, B, C := Kids(mem, P[..p]), KidsOf(es, P[p].hi), Kids(mem, P[p + 1..]);
    KidsFocus(mem, P, p);
    KidsFocus(mem', P, p);
    KidsFrame(mem, mem', P[..p], P[..p]);
    KidsFrame(mem, mem', P[p + 1..], P[p + 1..]);
    hide Swapped;
    KidsSwapVals(es, P[p].hi, i);
    SwapInside(A, B, C, i);
  }

  lemma SwapInside(A: seq<Ref>, B: seq<Ref>, C: seq<Ref>, i: nat)
    requires i + 1 < |B|
    ensures Swapped(A + B + C, |A| + i) == A + Swapped(B, i) + C
  {
    var K := A + B + C;
    assert K[|A| + i] == B[i] && K[|A| + i + 1] == B[i + 1];
    SplicePair(A, B, C, i, B[i].(addr := B[i + 1].addr), B[i + 1].(addr := B[i].addr));
  }

  /** merge, up to the recursive call: the left node holds both nodes' pairs, the children have changed places. */
  lemma SwapDone(s: Tree, t: Tree, L: nat, p: nat, i: nat)
    requires 1 <= L && L + 1 < |s.rows| && s.From(L) && p < |s.rows[L + 1]| && s.mem.Keys == s.tag.Keys
    requires i + 1 < |Entries(NodeAt(s.mem, s.rows[L + 1][p].addr))|
    requires i + 1 < |NodeAt(s.mem, s.rows[L + 1][p].addr)|
    requires Offset(s.mem, s.rows[L + 1], p) + i + 1 < |s.rows[L]|
    requires Filled(s, L + 1, 0, 0)
    requires var l, pa := s.rows[L][Offset(s.mem, s.rows[L + 1], p) + i].addr, s.rows[L + 1][p].addr;
      && l in t.mem
      && t == Tree(s.N, s.mem[l := t.mem[l]][pa := SwapVals(NodeAt(s.mem, pa), i)], s.tag,
                   s.rows[L := Swapped(s.rows[L], Offset(s.mem, s.rows[L + 1], p) + i)])
    ensures t.From(L + 1) && Filled(t, L + 1, 0, 0) && Framed(s, t, L)
    ensures Offset(t.mem, t.rows[L + 1], p) == Offset(s.mem, s.rows[L + 1], p)
    ensures var pa := s.rows[L + 1][p].addr;
      pa in t.mem && Entries(t.mem[pa]) == SwapVals(Entries(NodeAt(s.mem, pa)), i)
  {
    hide Kids, KidsOf, NodeOk, Entries, RowOk, Offset, Filled, Swapped, SwapVals;
    assert s.Ok(L) && s.Ok(L + 1) && s.Link(L);
    var R, P, c := s.rows[L], s.rows[L + 1], Offset(s.mem, s.rows[L + 1], p) + i;
    RowAt(s, L, c);
    RowAt(s, L + 1, p);
    RowAllOk(s, L + 1);
    DistinctLevels(s, L, R, P);
    SwapValsOk(NodeAt(s.mem, P[p].addr), s.N, P[p], i);
    SwappedRow(s.mem, t.mem, P, p, i);
    assert t.Ok(L + 1) by { SwapRowOk(s, t, L + 1, p); }
    assert t.Link(L);
    ReshareAbove(s, t, L);
    SwapFilled(s, t, L + 1, P[p].addr, R[c].addr);
  }

  lemma SwapRowOk(s: Tree, t: Tree, l: nat, p: nat)
    requires l < |s.rows| == |t.rows| && s.Ok(l) && s.N == t.N
    requires s.tag == t.tag && s.rows[l] == t.rows[l] && p < |s.rows[l]|
    requires t.mem.Keys >= s.mem.Keys && OthersSame(s.mem, t.mem, s.rows[l], p)
    requires NodeOk(NodeAt(t.mem, s.rows[l][p].addr), t.N, s.rows[l][p])
    ensures t.Ok(l)
  {
    hide NodeOk;
  }

  lemma SwapFilled(s: Tree, t: Tree, L: nat, pa: nat, l: nat)
    requires Filled(s, L, 0, 0) && |t.rows| == |s.rows| && s.From(L) && l in s.tag && s.tag[l] < L
    requires forall m :: L <= m < |s.rows| ==> t.rows[m] == s.rows[m]
    requires forall x :: x != pa && x != l ==> NodeAt(t.mem, x) == NodeAt(s.mem, x)
    requires |Entries(NodeAt(t.mem, pa))| == |Entries(NodeAt(s.mem, pa))|
    ensures Filled(t, L, 0, 0)
  {
    hide Entries, NodeOk, Kids;
    forall m | L <= m < |t.rows|
      ensures FilledAt(t, m, 0, 0)
    {
      assert FilledAt(s, m, 0, 0) && s.Ok(m);
      var R := s.rows[m];
      assert t.rows[m] == R;
      forall i | 0 <= i < |R|
        ensures |Entries(NodeAt(t.mem, R[i].addr))| >= if R[i].addr == 0 then 0 else MinFill(t.rows)
      {
        assert R[i].addr != l;
      }
    }
  }

  /** merge, after the recursive call: the emptied node is freed and level L is in order again. */
  lemma MergeDone(s0: Tree, s1: Tree, s2: Tree, t: Tree, L: nat, p: nat, i: nat, exc: nat, me: nat, exact: bool,
                  R: seq<Ref>, c: nat, l: nat, r: nat, pa: nat, A: seq<Slot>, B: seq<Slot>)
    requires 1 <= L && L + 1 < |s0.rows| && s0.From(L) && Filled(s0, L, exc, me) && p < |s0.rows[L + 1]|
    requires s0.mem.Keys == s0.tag.Keys && i + 1 < |Entries(NodeAt(s0.mem, s0.rows[L + 1][p].addr))|
    requires R == s0.rows[L] && c == Offset(s0.mem, s0.rows[L + 1], p) + i && c + 1 < |R|
    requires l == R[c].addr && r == R[c + 1].addr && pa == s0.rows[L + 1][p].addr
    requires A == Entries(NodeAt(s0.mem, l)) && B == Entries(NodeAt(s0.mem, r)) && A != [] && |A| + |B| >= 2
    requires exc == l || exc == r
    requires s1.N == s0.N && s1.tag == s0.tag && s1.rows == s0.rows[L := Swapped(R, c)]
    requires s1.mem.Keys == s0.mem.Keys && (forall x :: x in s0.mem && x != l && x != pa ==> s1.mem[x] == s0.mem[x])
    requires l in s1.mem && Holds(s1.mem[l], s0.N, A + B)
    requires L < |s2.rows| && Removed(Swapped(R, c), s2.rows[L], c, exact)
    requires c < |s2.rows[L]| && Le(Swapped(R, c)[c].hi, s2.rows[L][c].hi)
    requires t == Tree(s2.N, s2.mem - {r}, s2.tag - {r}, s2.rows[L - 1 := Kids(s2.mem - {r}, s2.rows[L])])
    requires s2.From(L + 1) && Framed(s1, s2, L + 1) && Filled(s2, L + 1, 0, 0) && s2.mem.Keys == s2.tag.Keys
    ensures t.From(L) && Filled(t, L, 0, 0) && Framed(s0, t, L) && SamePairs(s0.rows[L - 1], t.rows[L - 1])
  {
    hide Tree.From, Kids, KidsOf, NodeOk, Entries, Offset, Filled, Holds, SamePairs, RowOk, Removed, Swapped;
    FromOk(s0, L, L);
    FromOk(s0, L, L + 1);
    Siblings(s0, L, p, i);
    RowAt(s0, L + 1, p);
    RowAt(s0, L, c);
    RowAt(s0, L, c + 1);
    MergeNodes(s0, s1, s2, L, l, r, pa);
    if L + 1 == |s2.rows| { TopRow(s2, L); }
    RemovedLoose(Swapped(R, c), s2.rows[L], c, exact);
    SwappedHi(R, c);
    MergeStep(s0.mem, s0.tag, R, s2, t, L, c);
    MergeFramed(s0, s1, s2, t, L, l, r, pa);
    MergeFilled(s0, s2, t, R, L, c, exc, me);
  }

  /** Apart from the two merged ones, the nodes of level L come through the recursive call as they were. */
  lemma MergeNodes(s0: Tree, s1: Tree, s2: Tree, L: nat, l: nat, r: nat, pa: nat)
    requires s1.tag == s0.tag && Framed(s1, s2, L + 1) && pa in s0.tag && s0.tag[pa] == L + 1
    requires s1.mem.Keys == s0.mem.Keys && (forall x :: x in s0.mem && x != l && x != pa ==> s1.mem[x] == s0.mem[x])
    ensures forall a :: a in s0.mem && a in s0.tag && s0.tag[a] == L ==>
      a in s2.mem && a in s2.tag && s2.tag[a] == L && s2.mem[a] == s1.mem[a]
      && (a != l && a != r ==> s2.mem[a] == s0.mem[a])
  {
  }

  lemma TopRow(s: Tree, L: nat)
    requires 1 <= L && L + 1 == |s.rows| && s.From(L + 1)
    ensures |s.rows[L]| == 1 && s.rows[L][0].lo == 0 && s.rows[L][0].hi == Inf
  {
  }

  lemma RemovedLoose(R: seq<Ref>, S: seq<Ref>, c: nat, exact: bool)
    requires Removed(R, S, c, exact)
    ensures Removed(R, S, c, false)
  {
  }

  lemma SwappedHi(R: seq<Ref>, c: nat)
    requires c + 1 < |R|
    ensures Swapped(R, c)[c].hi == R[c].hi
  {
  }

  lemma MergeFramed(s0: Tree, s1: Tree, s2: Tree, t: Tree, L: nat, l: nat, r: nat, pa: nat)
    requires 1 <= L && L + 1 < |s0.rows| && |s1.rows| == |s0.rows|
    requires s1.N == s0.N && s1.tag == s0.tag && s1.mem.Keys == s0.mem.Keys
    requires forall m :: 0 <= m < L - 1 ==> s1.rows[m] == s0.rows[m]
    requires l in s0.mem && l in s0.tag && s0.tag[l] == L
    requires r in s0.tag && s0.tag[r] == L && pa in s0.tag && s0.tag[pa] == L + 1
    requires r in s2.tag && s2.tag[r] == L
    requires forall x :: x in s0.mem && x != l && x != pa ==> s1.mem[x] == s0.mem[x]
    requires Framed(s1, s2, L + 1) && t.N == s2.N && t.mem == s2.mem - {r} && t.tag == s2.tag - {r}
    requires |t.rows| == |s2.rows| && forall m :: 0 <= m < L - 1 ==> t.rows[m] == s2.rows[m]
    ensures Framed(s0, t, L)
  {
  }

  lemma MergeFilled(s0: Tree, s2: Tree, t: Tree, R: seq<Ref>, L: nat, c: nat, exc: nat, me: nat)
    requires 1 <= L && L + 1 < |s0.rows| && Filled(s0, L, exc, me) && s0.Ok(L) && R == s0.rows[L] && c + 1 < |R|
    requires exc == R[c].addr || exc == R[c + 1].addr
    requires L < |s2.rows| == |t.rows| && s2.From(L + 1) && Filled(s2, L + 1, 0, 0)
    requires forall m :: L <= m < |s2.rows| ==> t.rows[m] == s2.rows[m]
    requires Removed(Swapped(R, c), s2.rows[L], c, false)
    requires t.mem == s2.mem - {R[c + 1].addr} && R[c + 1].addr in s2.tag && s2.tag[R[c + 1].addr] == L
    requires forall a :: a in s0.mem && a in s0.tag && s0.tag[a] == L ==>
      a in s2.mem && (a != R[c].addr && a != R[c + 1].addr ==> s2.mem[a] == s0.mem[a])
    requires |Entries(NodeAt(t.mem, R[c].addr))| >= 2
    ensures Filled(t, L, 0, 0)
  {
    hide Kids, KidsOf, NodeOk, Entries, Removed, Swapped;
    forall m | L <= m < |t.rows|
      ensures FilledAt(t, m, 0, 0)
    {
      var S := t.rows[m];
      if m == L {
        assert FilledAt(s0, L, exc, me);
        RemovedLength(Swapped(R, c), S, c);
        forall q | 0 <= q < |S|
          ensures |Entries(NodeAt(t.mem, S[q].addr))| >= if S[q].addr == 0 then 0 else MinFill(t.rows)
        {
          RemovedAddrs(R, S, c, q);
          if q != c {
            var j := if q < c then q else q + 1;
            RowMember(s0.mem, s0.tag, s0.N, R, L, j, c);
            RowMember(s0.mem, s0.tag, s0.N, R, L, j, c + 1);
          }
        }
      } else {
        assert FilledAt(s2, m, 0, 0) && s2.Ok(m);
        forall q | 0 <= q < |S|
          ensures |Entries(NodeAt(t.mem, S[q].addr))| >= if S[q].addr == 0 then 0 else MinFill(t.rows)
        {
          assert S[q].addr != R[c + 1].addr;
        }
      }
    }
  }

  lemma FilledNone(t: Tree, L: nat)
    requires L >= |t.rows|
    ensures Filled(t, L, 0, 0)
  {
  }

  /** The number the first count value words of a node form, read as one key. */
  function Overlay(n: Node, count: nat): nat {
    if count > |n| then 0 else Number(seq(count, i requires 0 <= i < count => n[i].val))
  }

  /** What bkey finds at position i: the keys are followed by the values, so one past the last key come values. */
  function KeySlot(n: Node, keylen: nat, i: nat): nat {
    if i < |n| then n[i].key else Overlay(n, keylen)
  }

  /** The search for k ends in leaf g, which is full of greater keys and whose first values read as k. */
  ghost predicate OverrunAt(s: Tree, keylen: nat, k: nat, g: nat)
    requires |s.rows| > 1
  {
    var R := s.rows[1];
    && g < |R| && (g + 1 < |R| ==> !Below(k, R[g + 1].hi))
    && var n := NodeAt(s.mem, R[g].addr);
    |Entries(n)| == s.N && IsPos(Entries(n), k, s.N) && Overlay(n, keylen) == k
  }

  ghost predicate Overrun(s: Tree, keylen: nat, k: nat)
    requires |s.rows| > 1
  {
    exists g :: OverrunAt(s, keylen, k, g)
  }

  /** btree_remove takes k for a key of the tree although no pair has it. */
  ghost predicate Misread(s: Tree, keylen: nat, k: nat) {
    |s.rows| > 1 && !Listed(s.rows[0], k) && ((k == 0 && LastLeafHasRoom(s)) || Overrun(s, keylen, k))
  }

  /** Of all leaves only the one the search ends in can be overrun. */
  lemma OverrunHere(s: Tree, keylen: nat, k: nat, g: nat)
    requires |s.rows| > 1 && s.From(1) && s.N > 0 && g < |s.rows[1]| && InRange(s.rows[1][g], k)
    ensures Overrun(s, keylen, k) <==> OverrunAt(s, keylen, k, g)
  {
    hide RowOk, Kids, Entries, IsPos, Overlay;
    var R := s.rows[1];
    ChainFrom(s, 1);
    forall h: nat | OverrunAt(s, keylen, k, h)
      ensures h == g
    {
      FullAbove(s, h, k);
      OnlyThere(R, g, h, k);
    }
  }

  lemma HighsFall(R: seq<Ref>)
    requires Chain(R)
    ensures forall i, j :: 0 <= i <= j < |R| ==> Le(R[j].hi, R[i].hi)
  {
  }

  /** A key lies in one interval only, even when its lower end is not looked at. */
  lemma OnlyThere(R: seq<Ref>, g: nat, h: nat, k: nat)
    requires Chain(R) && g < |R| && h < |R| && InRange(R[g], k)
    requires Below(k, R[h].hi) && (h + 1 < |R| ==> !Below(k, R[h + 1].hi))
    ensures h == g
  {
    HighsFall(R);
  }

  /** The last key of a full leaf lies in the leaf's interval. */
  lemma FullAbove(s: Tree, g: nat, k: nat)
    requires |s.rows| > 1 && s.From(1) && s.N > 0 && g < |s.rows[1]|
    requires var n := NodeAt(s.mem, s.rows[1][g].addr); |Entries(n)| == s.N && IsPos(Entries(n), k, s.N)
    ensures Below(k, s.rows[1][g].hi)
  {
    hide Kids, KidsOf, Entries, RowOk;
    assert s.Ok(1) && s.Link(0);
    PairListed(s, 1, g, 0);
  }

  /** Lowering separators of the inner nodes changes nothing a search for a leaf key depends on. */
  lemma OverrunKept(s: Tree, t: Tree, keylen: nat, k: nat)
    requires |s.rows| > 1 && s.Ok(1) && Lowered(s, t, 1)
    ensures Overrun(t, keylen, k) <==> Overrun(s, keylen, k)
    ensures LastLeafHasRoom(t) <==> LastLeafHasRoom(s)
  {
    hide RowOk, Entries, Overlay, IsPos;
    var R, S := s.rows[1], t.rows[1];
    assert Wider(R, S) && SameHi(R, S);
    forall i | 0 <= i < |S|
      ensures NodeAt(t.mem, S[i].addr) == NodeAt(s.mem, R[i].addr)
    {
      assert Looser(R[i], S[i]);
      RowAt(s, 1, i);
    }
    forall g: nat
      ensures OverrunAt(s, keylen, k, g) <==> OverrunAt(t, keylen, k, g)
    {
    }
  }

  /** The slot a key argument points to is the one the search for that key ends at. */
  lemma HeldAt(s0: Tree, s: Tree, L: nat, p: nat, b: nat, q: nat, g: nat, k: nat, pos: nat)
    requires 1 <= L < |s.rows| == |s0.rows| && s0.From(L)
    requires s.From(L) && Lowered(s0, s, L) && s0.rows[L - 1] == s.rows[L - 1]
    requires p < |s0.rows[L]| && s0.rows[L][p].addr == b && b in s0.mem && q < |Entries(s0.mem[b])|
    requires k == Read(s0.mem, At(b, q))
    requires g < |s.rows[L]| && InRange(s.rows[L][g], k) && IsPos(Entries(NodeAt(s.mem, s.rows[L][g].addr)), k, pos)
    ensures p == g && pos == q && s.rows[L][g].addr == b && s.mem[b] == s0.mem[b]
    ensures Offset(s.mem, s.rows[L], g) == Offset(s0.mem, s0.rows[L], p)
  {
    hide Kids, NodeOk, KidsOf, Entries, RowOk, IsPos, Offset, InRange, Chain;
    assert s0.Ok(L) && s0.Link(L - 1) && s.Ok(L);
    PairListed(s0, L, p, q);
    var x := Offset(s0.mem, s0.rows[L], p) + q;
    PresentAt(s, L, g, k, pos, x);
    assert Wider(s0.rows[L], s.rows[L]);
    InRangeLooser(s0.rows[L][p], s.rows[L][p], k);
    ChainFrom(s, L);
    ChainUnique(s.rows[L], p, g, k);
    RowAt(s0, L, p);
    LoweredOffset(s0, s, L, p);
  }

  lemma LoweredOffset(s0: Tree, s: Tree, L: nat, p: nat)
    requires L < |s.rows| == |s0.rows| && s0.Ok(L) && Lowered(s0, s, L) && p < |s0.rows[L]| == |s.rows[L]|
    ensures Offset(s.mem, s.rows[L], p) == Offset(s0.mem, s0.rows[L], p)
  {
    hide Kids, NodeOk, Entries;
    var R, S := s0.rows[L][..p], s.rows[L][..p];
    assert Wider(s0.rows[L], s.rows[L]);
    forall i | 0 <= i < |R|
      ensures NodeAt(s0.mem, R[i].addr) == NodeAt(s.mem, R[i].addr)
    {
      RowAt(s0, L, i);
    }
    KidsWider(s0.mem, s.mem, R, S);
  }

  lemma InRangeLooser(r: Ref, s: Ref, k: nat)
    requires InRange(r, k) && Looser(r, s)
    ensures InRange(s, k) && s.addr == r.addr
  {
  }

  ghost predicate Listed(E: seq<Ref>, k: nat) {
    exists i :: 0 <= i < |E| && E[i].lo == k
  }

  /** A search for an unlisted key mistakes a cleared slot for key 0, or the values of a full leaf for the key. */
  lemma MissingKey(s: Tree, keylen: nat, g: nat, k: nat, pos: nat)
    requires |s.rows| > 1 && s.From(1) && g < |s.rows[1]| && InRange(s.rows[1][g], k) && !Listed(s.rows[0], k)
    requires 1 <= keylen <= s.N
    requires var n := NodeAt(s.mem, s.rows[1][g].addr); IsPos(Entries(n), k, pos)
    ensures var n := NodeAt(s.mem, s.rows[1][g].addr);
      && pos <= |Entries(n)| <= |n| == s.N
      && (KeySlot(n, keylen, pos) == k <==> Misread(s, keylen, k))
      && (KeySlot(n, keylen, pos) == k ==>
          pos == |Entries(n)| && (pos < s.N ==> n[pos] == EMPTY) && (pos == s.N <==> Overrun(s, keylen, k)))
  {
    hide Kids, KidsOf, RowOk, Offset, Overlay, Overrun;
    assert s.Ok(1) && s.Link(0);
    RowAt(s, 1, g);
    var n := NodeAt(s.mem, s.rows[1][g].addr);
    ChainFrom(s, 1);
    if pos < |Entries(n)| { PairListed(s, 1, g, pos); }
    OverrunHere(s, keylen, k, g);
    NextInterval(s.rows[1], g, k);
    if k == 0 {
      LastOfChain(s.rows[1], g);
      if pos == s.N { OverlayPositive(n, keylen); }
    }
  }

  /** The interval after the one k lies in ends at k or before. */
  lemma NextInterval(R: seq<Ref>, g: nat, k: nat)
    requires Chain(R) && g < |R| && InRange(R[g], k)
    ensures g + 1 < |R| ==> !Below(k, R[g + 1].hi)
  {
    if g + 1 < |R| { ChainPair(R, g, g + 1); }
  }

  /** The last pair of the leaf a search for an unlisted key ends in is the next one above the key. */
  lemma NextAbove(s: Tree, g: nat, k: nat)
    requires |s.rows| > 1 && s.From(1) && g < |s.rows[1]| && InRange(s.rows[1][g], k) && !Listed(s.rows[0], k)
    requires var n := NodeAt(s.mem, s.rows[1][g].addr);
      n != [] && Entries(n) != [] && IsPos(Entries(n), k, |Entries(n)|)
    ensures var x, E := Offset(s.mem, s.rows[1], g) + |Entries(NodeAt(s.mem, s.rows[1][g].addr))| - 1, s.rows[0];
      IsNext(E, x, k)
  {
    hide Kids, KidsOf, RowOk, Offset, InRange, NodeOk, Entries;
    assert s.Ok(1) && s.Link(0);
    var n, E := NodeAt(s.mem, s.rows[1][g].addr), s.rows[0];
    var f := |Entries(n)|;
    var x := Offset(s.mem, s.rows[1], g) + f - 1;
    PairListed(s, 1, g, f - 1);
    RowAt(s, 1, g);
    ChainFrom(s, 0);
    forall y | x < y < |E|
      ensures E[y].lo < k
    {
      ChainPair(E, x, y);
      if k <= E[y].lo {
        InRangeBetween(s.rows[1][g], k, E[x].lo, E[y].lo);
        var i := SomePos(Entries(n), E[y].lo) by { NodeDescends(n, s.N, s.rows[1][g]); }
        PresentAt(s, 1, g, E[y].lo, i, y);
      }
    }
  }

  lemma NodeDescends(n: Node, N: nat, r: Ref)
    requires NodeOk(n, N, r)
    ensures Descending(Entries(n))
  {
  }

  lemma InRangeBetween(r: Ref, a: nat, b: nat, x: nat)
    requires InRange(r, a) && InRange(r, b) && a <= x <= b
    ensures InRange(r, x)
  {
  }

  lemma LastOfChain(R: seq<Ref>, g: nat)
    requires Chain(R) && g < |R| && InRange(R[g], 0)
    ensures g == |R| - 1
  {
    if g + 1 < |R| {
      ChainPair(R, g, g + 1);
    }
  }

  lemma ChainPair(R: seq<Ref>, i: nat, j: nat)
    requires Chain(R) && i < j < |R|
    ensures Le(R[j].hi, Fin(R[i].lo)) && Below(R[j].lo, R[j].hi)
  {
  }

  lemma LastOffset(s: Tree, g: nat)
    requires |s.rows| > 1 && s.Link(0) && g == |s.rows[1]| - 1
    ensures Offset(s.mem, s.rows[1], g) + |Entries(NodeAt(s.mem, s.rows[1][g].addr))| == |s.rows[0]|
  {
    KidsFocus(s.mem, s.rows[1], g);
    assert s.rows[1][..g + 1] == s.rows[1];
  }

  lemma OverlayPositive(n: Node, count: nat)
    requires 1 <= count <= |n| && forall i :: 0 <= i < count ==> n[i].val > 0
    ensures Overlay(n, count) > 0
  {
  }

  lemma RemovedTopped(E: seq<Ref>, F: seq<Ref>, x: nat)
    requires Removed(E, F, x, true)
    ensures Removed(E, Topped(F), x, false)
    ensures x < |F| ==> Topped(F)[x].hi == F[x].hi
  {
    var G := Topped(F);
    forall i | 0 <= i < x
      ensures Looser(E[..x][i], G[..x][i])
    {
      assert Looser(E[..x][i], F[..x][i]);
    }
    var A, B := E[x + 1..], G[x..];
    forall i | 0 <= i < |A|
      ensures Looser(A[i], B[i])
    {
      assert Looser(E[x + 1..][i], F[x..][i]);
    }
  }

  /** The last leaf, the one with the least keys, has an unused slot. */
  ghost predicate LastLeafHasRoom(s: Tree) {
    |s.rows| > 1 && s.rows[1] != [] && |Entries(NodeAt(s.mem, s.rows[1][|s.rows[1]| - 1].addr))| < s.N
  }

  /** What the search for a caller's key in the leaves finds. */
  lemma OwnKey(s0: Tree, s: Tree, keylen: nat, g: nat, k: nat, pos: nat)
    requires |s0.rows| == |s.rows| > 1 && s0.From(1) && s.From(1) && Lowered(s0, s, 1) && s.rows[0] == s0.rows[0]
    requires g < |s.rows[1]| && InRange(s.rows[1][g], k) && 1 <= keylen <= s.N
    requires var n := NodeAt(s.mem, s.rows[1][g].addr); IsPos(Entries(n), k, pos) && |Entries(n)| >= 1
    ensures var n, E := NodeAt(s.mem, s.rows[1][g].addr), s0.rows[0];
      var x := Offset(s.mem, s.rows[1], g) + pos;
      && pos <= |n| == s.N
      && (KeySlot(n, keylen, pos) == k <==> Listed(E, k) || Misread(s0, keylen, k))
      && (Listed(E, k) ==>
            pos < |Entries(n)| && x < |E| && pos < |n| && E[x].lo == k && n[pos].val == E[x].addr)
      && (Misread(s0, keylen, k) ==> 1 <= pos == |Entries(n)| && IsNext(E, x - 1, k))
      && (Misread(s0, keylen, k) ==> (pos < |n| ==> n[pos].val == 0) && (pos == |n| <==> Overrun(s0, keylen, k)))
  {
    hide Kids, KidsOf, RowOk, Offset, Overlay, NodeOk, InRange, Entries, IsPos, Overrun, LastLeafHasRoom;
    assert s0.Ok(1) && s.Ok(1) && s.Link(0);
    RowAt(s, 1, g);
    if Listed(s0.rows[0], k) {
      var i :| 0 <= i < |s0.rows[0]| && s0.rows[0][i].lo == k;
      PresentAt(s, 1, g, k, pos, i);
    } else {
      OverrunKept(s0, s, keylen, k);
      MissingKey(s, keylen, g, k, pos);
      if Misread(s, keylen, k) { NextAbove(s, g, k); }
    }
  }

  ghost predicate IsPair(E: seq<Ref>, x: nat, k: nat, v: nat) {
    x < |E| && E[x].lo == k && E[x].addr == v
  }

  /** Position x holds the least key of the row above k. */
  ghost predicate IsNext(E: seq<Ref>, x: nat, k: nat) {
    x < |E| && k < E[x].lo && forall y :: x < y < |E| ==> E[y].lo < k
  }

  /** After the shift the key pointer of merge reads the next separator, which its node still answers for. */
  lemma ShiftedKey(s: Tree, mem: map<nat, Node>, L: nat, g: nat, q: nat)
    requires 1 <= L < |s.rows| && s.From(L) && g < |s.rows[L]|
    requires q + 1 < |Entries(NodeAt(s.mem, s.rows[L][g].addr))|
    requires var a := s.rows[L][g].addr;
      && a in s.mem && a in mem && Exact(mem[a], s.N)
      && Entries(mem[a]) == Entries(s.mem[a])[..q] + Entries(s.mem[a])[q + 1..]
    ensures InRange(s.rows[L][g], Read(mem, At(s.rows[L][g].addr, q)))
  {
    hide Kids, KidsOf, RowOk, NodeOk, InRange, Entries;
    assert s.Ok(L) && s.Link(L - 1);
    PairListed(s, L, g, q + 1);
    var a := s.rows[L][g].addr;
    assert mem[a][q] == Entries(mem[a])[q] == Entries(s.mem[a])[q + 1];
  }

  lemma RemovedSettled(E: seq<Ref>, F: seq<Ref>, G: seq<Ref>, x: nat, same: bool)
    requires Removed(E, F, x, true) && (if same then SamePairs(F, G) else G == Topped(F))
    ensures Removed(E, G, x, same) && x < |E| && |G| == |F|
    ensures x < |F| ==> Le(F[x].hi, G[x].hi)
  {
    if same {
      RemovedFrom(E, F, G, x);
    } else {
      RemovedTopped(E, F, x);
    }
  }

  // ---------- the map a tree stands for

  /** The key/value pairs listed by a row. */
  ghost function PairsOf(E: seq<Ref>): map<nat, nat> {
    if E == [] then map[] else PairsOf(E[..|E| - 1])[E[|E| - 1].lo := E[|E| - 1].addr]
  }

  lemma {:induction false} PairsHas(E: seq<Ref>, k: nat)
    ensures k in PairsOf(E) <==> Listed(E, k)
  {
    if E != [] {
      var F := E[..|E| - 1];
      PairsHas(F, k);
      if Listed(F, k) {
        var i :| 0 <= i < |F| && F[i].lo == k;
        assert E[i].lo == k;
      }
      if Listed(E, k) && E[|E| - 1].lo != k {
        var i :| 0 <= i < |E| && E[i].lo == k;
        assert F[i].lo == k;
      }
    }
  }

  lemma {:induction false} PairsAt(E: seq<Ref>, i: nat)
    requires Chain(E) && i < |E|
    ensures E[i].lo in PairsOf(E) && PairsOf(E)[E[i].lo] == E[i].addr
  {
    if i < |E| - 1 {
      var F := E[..|E| - 1];
      PairsAt(F, i);
      ChainPair(E, i, |E| - 1);
    }
  }

  lemma {:induction false} PairsSize(E: seq<Ref>)
    requires Chain(E)
    ensures |PairsOf(E)| == |E|
  {
    if E != [] {
      var F, k := E[..|E| - 1], E[|E| - 1].lo;
      PairsSize(F);
      PairsHas(F, k);
      LastUnlisted(E);
    }
  }

  /** The last key of a chain is none of the earlier ones. */
  lemma LastUnlisted(E: seq<Ref>)
    requires Chain(E) && E != []
    ensures !Listed(E[..|E| - 1], E[|E| - 1].lo)
  {
    forall i | 0 <= i < |E| - 1
      ensures E[i].lo != E[|E| - 1].lo
    {
      ChainPair(E, i, |E| - 1);
    }
  }

  lemma ChainDistinct(E: seq<Ref>, i: nat, j: nat)
    requires Chain(E) && i < |E| && j < |E| && E[i].lo == E[j].lo
    ensures i == j
  {
    if i < j { ChainPair(E, i, j); }
    if j < i { ChainPair(E, j, i); }
  }

  lemma PairsSame(E: seq<Ref>, F: seq<Ref>)
    requires SamePairs(E, F)
    ensures PairsOf(E) == PairsOf(F)
  {
    if E != [] {
      PairsSame(E[..|E| - 1], F[..|F| - 1]);
    }
  }

  lemma PairsInserted(E: seq<Ref>, F: seq<Ref>, p: nat, k: nat, v: nat)
    requires Chain(E) && Chain(F) && Inserted(E, F, p, k, v)
    ensures PairsOf(F) == PairsOf(E)[k := v]
  {
    hide Chain, Inserted;
    InsertedLength(E, F, p, k, v);
    InsertedNew(E, F, p, k, v);
    forall x | x in PairsOf(F)
      ensures x in PairsOf(E)[k := v] && PairsOf(F)[x] == PairsOf(E)[k := v][x]
    {
      PairsHas(F, x);
      var i :| 0 <= i < |F| && F[i].lo == x;
      PairsAt(F, i);
      if i != p {
        var j := if i < p then i else i - 1;
        InsertedOld(E, F, p, k, v, j);
        PairsAt(E, j);
        if x == k { ChainDistinct(F, i, p); }
      }
    }
    forall x | x in PairsOf(E)[k := v]
      ensures x in PairsOf(F)
    {
      if x == k {
        PairsAt(F, p);
      } else {
        PairsHas(E, x);
        var j :| 0 <= j < |E| && E[j].lo == x;
        InsertedOld(E, F, p, k, v, j);
        PairsAt(F, if j < p then j else j + 1);
      }
    }
  }

  lemma Unlisted(E: seq<Ref>, k: nat)
    requires !Listed(E, k)
    ensures forall r :: r in E ==> r.lo != k
  {
  }

  lemma TreeInserted(s: Tree, t: Tree, p: nat, k: nat, v: nat)
    requires |s.rows| > 0 && |t.rows| > 0 && s.From(1) && t.From(1)
    requires Inserted(s.rows[0], t.rows[0], p, k, v)
    ensures PairsOf(t.rows[0]) == PairsOf(s.rows[0])[k := v]
  {
    hide RowOk, Kids, PairsOf, Inserted, Chain;
    ChainFrom(s, 0);
    ChainFrom(t, 0);
    PairsInserted(s.rows[0], t.rows[0], p, k, v);
  }

  lemma InsertedNew(E: seq<Ref>, F: seq<Ref>, p: nat, k: nat, v: nat)
    requires Inserted(E, F, p, k, v)
    ensures p < |F| == |E| + 1 && F[p].lo == k && F[p].addr == v
  {
  }

  lemma InsertedOld(E: seq<Ref>, F: seq<Ref>, p: nat, k: nat, v: nat, j: nat)
    requires Inserted(E, F, p, k, v) && j < |E|
    ensures |F| == |E| + 1
    ensures var i := if j < p then j else j + 1; F[i].lo == E[j].lo && F[i].addr == E[j].addr
  {
    if j < p {
      assert SameRef(E[..p], F[..p], j);
    } else if j > p {
      assert SameRef(E[p + 1..], F[p + 2..], j - p - 1);
    }
  }

  ghost predicate SameRef(E: seq<Ref>, F: seq<Ref>, i: nat) {
    i < |E| && i < |F| && E[i].lo == F[i].lo && E[i].addr == F[i].addr
  }

  lemma RemovedOld(E: seq<Ref>, F: seq<Ref>, p: nat, j: nat)
    requires Removed(E, F, p, true) && j < |F|
    ensures |E| == |F| + 1
    ensures var i := if j < p then j else j + 1; F[j].lo == E[i].lo && F[j].addr == E[i].addr
  {
    if j < p {
      assert SameRef(E[..p], F[..p], j);
    } else {
      assert SameRef(E[p + 1..], F[p..], j - p);
    }
  }

  lemma RemovedSize(E: seq<Ref>, F: seq<Ref>, p: nat)
    requires Removed(E, F, p, true)
    ensures p < |E| == |F| + 1
  {
  }

  /** The last pair of all was removed. */
  lemma RemovedLast(E: seq<Ref>, F: seq<Ref>, p: nat, same: bool)
    requires Removed(E, F, p, same) && (!same ==> F == [])
    ensures Removed(E, F, p, true)
  {
  }

  lemma PairsRemoved(E: seq<Ref>, F: seq<Ref>, p: nat)
    requires Chain(E) && Chain(F) && Removed(E, F, p, true)
    ensures p < |E| && PairsOf(F) == PairsOf(E) - {E[p].lo}
  {
    hide Chain, Removed;
    RemovedSize(E, F, p);
    forall x | x in PairsOf(F)
      ensures x in PairsOf(E) - {E[p].lo} && PairsOf(F)[x] == PairsOf(E)[x]
    {
      PairsHas(F, x);
      var j :| 0 <= j < |F| && F[j].lo == x;
      RemovedOld(E, F, p, j);
      var i := if j < p then j else j + 1;
      PairsAt(F, j);
      PairsAt(E, i);
      if x == E[p].lo { ChainDistinct(E, i, p); }
    }
    forall x | x in PairsOf(E) - {E[p].lo}
      ensures x in PairsOf(F)
    {
      PairsHas(E, x);
      var i :| 0 <= i < |E| && E[i].lo == x;
      var j := if i < p then i else i - 1;
      RemovedOld(E, F, p, j);
      PairsAt(F, j);
    }
  }

  /** The last pair of a row has the least key, the first one the greatest. */
  lemma PairsEnds(E: seq<Ref>, k: nat)
    requires Chain(E) && k in PairsOf(E)
    ensures E != [] && E[|E| - 1].lo <= k <= E[0].lo
  {
    PairsHas(E, k);
    var i :| 0 <= i < |E| && E[i].lo == k;
    if i + 1 < |E| { ChainPair(E, i, |E| - 1); }
    if 0 < i { ChainPair(E, 0, i); }
  }

  /** A listed key is inside the interval of some node of every level above it. */
  lemma {:induction false} Ancestor(s: Tree, l: nat, k: nat) returns (g: nat)
    requires l < |s.rows| && s.From(1) && Listed(s.rows[0], k)
    ensures g < |s.rows[l]| && InRange(s.rows[l][g], k)
  {
    hide NodeOk, Kids;
    if l == 0 {
      g :| 0 <= g < |s.rows[0]| && s.rows[0][g].lo == k;
      ChainFrom(s, 0);
    } else {
      var c := Ancestor(s, l - 1, k);
      assert s.Ok(l) && s.Link(l - 1);
      var i;
      g, i := RouteUp(s, l - 1, c, k);
    }
  }

  /** The search for a listed key does not run off the end of a node. */
  lemma ListedBelow(s: Tree, l: nat, g: nat, k: nat, i: nat)
    requires 1 <= l < |s.rows| && s.From(1) && Listed(s.rows[0], k)
    requires g < |s.rows[l]| && InRange(s.rows[l][g], k) && IsPos(Entries(NodeAt(s.mem, s.rows[l][g].addr)), k, i)
    ensures i < |Entries(NodeAt(s.mem, s.rows[l][g].addr))|
  {
    hide NodeOk, Kids, Entries, IsPos, InRange, Listed, RowOk;
    var c := Ancestor(s, l - 1, k);
    FromUp(s, 1, l);
    ParentOf(s, l - 1, c, g, k, i);
  }

  lemma FromUp(s: Tree, L: nat, M: nat)
    requires s.From(L) && L <= M
    ensures s.From(M)
  {
    hide RowOk, Kids;
  }

  lemma HeadPair(s: Tree, l: nat)
    requires 1 <= l < |s.rows| && s.Ok(l) && s.Link(l - 1) && s.rows[l] != []
    requires Entries(NodeAt(s.mem, s.rows[l][0].addr)) != []
    ensures s.rows[l - 1] != [] && |NodeAt(s.mem, s.rows[l][0].addr)| > 0
    ensures var n := NodeAt(s.mem, s.rows[l][0].addr);
      s.rows[l - 1][0].addr == n[0].val && s.rows[l - 1][0].lo == n[0].key
  {
    hide Kids, KidsOf, Entries;
    PairListed(s, l, 0, 0);
    KidsNone(s.mem);
    assert s.rows[l][..0] == [];
  }

  lemma FilledSub(s: Tree, L: nat, M: nat)
    requires Filled(s, L, 0, 0) && L <= M
    ensures Filled(s, M, 0, 0)
  {
  }

  lemma {:induction false} SomePos(es: seq<Slot>, k: nat) returns (i: nat)
    requires Descending(es)
    ensures IsPos(es, k, i)
  {
    i := 0;
    while i < |es| && es[i].key > k
      invariant i <= |es| && forall j :: 0 <= j < i ==> es[j].key > k
    {
      i := i + 1;
    }
  }

  /** The first slot of the leaf with the key sought tells its value. */
  lemma LeafSlot(s: Tree, g: nat, k: nat, i: nat)
    requires |s.rows| > 1 && s.From(1) && g < |s.rows[1]| && InRange(s.rows[1][g], k)
    requires var n := NodeAt(s.mem, s.rows[1][g].addr);
      i < s.N == |n| && n[i].key == k && (forall j :: 0 <= j < i ==> n[j].key != k)
    ensures var v, E := NodeAt(s.mem, s.rows[1][g].addr)[i].val, PairsOf(s.rows[0]);
      v == if k in E then E[k] else 0
  {
    hide Kids, KidsOf, RowOk, Offset, InRange, PairsOf, IsPos, Chain;
    assert s.Ok(1) && s.Link(0);
    RowAt(s, 1, g);
    var n := NodeAt(s.mem, s.rows[1][g].addr);
    ChainFrom(s, 0);
    PairsHas(s.rows[0], k);
    if i < |Entries(n)| {
      PairListed(s, 1, g, i);
      PairsAt(s.rows[0], Offset(s.mem, s.rows[1], g) + i);
    } else {
      assert n[i] == EMPTY;
      if Listed(s.rows[0], k) {
        var x :| 0 <= x < |s.rows[0]| && s.rows[0][x].lo == k;
        var pos := SomePos(Entries(n), k);
        PresentAt(s, 1, g, k, pos, x);
      }
    }
  }

  lemma LeafMiss(s: Tree, g: nat, k: nat)
    requires |s.rows| > 1 && s.From(1) && g < |s.rows[1]| && InRange(s.rows[1][g], k)
    requires var n := NodeAt(s.mem, s.rows[1][g].addr); |n| == s.N && forall j :: 0 <= j < s.N ==> n[j].key != k
    ensures k !in PairsOf(s.rows[0])
  {
    hide Kids, KidsOf, RowOk, Offset, InRange, PairsOf, IsPos;
    assert s.Ok(1);
    RowAt(s, 1, g);
    PairsHas(s.rows[0], k);
    var n := NodeAt(s.mem, s.rows[1][g].addr);
    if Listed(s.rows[0], k) {
      var x :| 0 <= x < |s.rows[0]| && s.rows[0][x].lo == k;
      var pos := SomePos(Entries(n), k);
      PresentAt(s, 1, g, k, pos, x);
    }
  }

  lemma BeforeLeaves(s: Tree, node: nat)
    requires |s.rows| >= 1 && (|s.rows| == 1 ==> s.rows[0] == [])
    ensures Before(s, node, 1) == s.rows[0]
  {
  }

  /** A root that is a leaf holds every pair. */
  lemma SoleLeaf(s: Tree)
    requires |s.rows| == 2 && s.From(1)
    ensures |Entries(NodeAt(s.mem, s.rows[1][0].addr))| == |s.rows[0]| == |PairsOf(s.rows[0])|
  {
    hide RowOk, Kids, Entries, PairsOf;
    assert s.Link(0);
    ChainFrom(s, 0);
    PairsSize(s.rows[0]);
    KidsNone(s.mem);
    assert s.rows[1][..0] == [];
    LastOffset(s, 0);
  }

  /** The n keys after k, each with value 1. */
  ghost predicate Ones(m: map<nat, nat>, k: nat, n: nat) {
    |m| == n && (forall j :: j in m <==> k < j <= k + n) && forall j :: j in m ==> m[j] == 1
  }

  lemma NoOnes(k: nat)
    ensures Ones(map[], k, 0)
  {
  }

  lemma OnesCount(m: map<nat, nat>, k: nat, n: nat)
    requires Ones(m, k, n)
    ensures |m| == n
  {
  }

  lemma OnesNext(m: map<nat, nat>, k: nat, n: nat)
    requires Ones(m, k, n)
    ensures k + n + 1 !in m && Ones(m[k + n + 1 := 1], k, n + 1)
  {
  }

  /** A full leaf of keys above k, each with value 1, is overrun by k when k is what two such values spell. */
  lemma OnesOverrun(s: Tree, k: nat)
    requires |s.rows| == 2 && s.From(1) && s.N >= 2 && k == 0x1_0000_0000_0000_0001 && Ones(PairsOf(s.rows[0]), k, s.N)
    ensures Misread(s, 2, k)
  {
    hide RowOk, Kids, Entries, PairsOf, KidsOf;
    assert s.Ok(1) && s.Link(0);
    var n := NodeAt(s.mem, s.rows[1][0].addr);
    SoleLeaf(s);
    RowAt(s, 1, 0);
    ChainFrom(s, 0);
    PairsHas(s.rows[0], k);
    forall q | 0 <= q < s.N
      ensures q < |n| && q < |Entries(n)| && n[q] == Entries(n)[q] && k < n[q].key && n[q].val == 1
    {
      PairListed(s, 1, 0, q);
      PairsAt(s.rows[0], Offset(s.mem, s.rows[1], 0) + q);
    }
    var ws := seq(2, i requires 0 <= i < 2 => n[i].val);
    assert ws[..1] == [1] && [1][..0] == [];
    assert Number(ws) == Number([1]) * BASE + 1;
    assert OverrunAt(s, 2, k, 0);
  }

  lemma NextPair(E: seq<Ref>, x: nat, k: nat)
    requires Chain(E) && IsNext(E, x, k)
    ensures E[x].lo in PairsOf(E) && k < E[x].lo && forall j :: j in PairsOf(E) ==> j < k || E[x].lo <= j
  {
    PairsAt(E, x);
    forall j | j in PairsOf(E)
      ensures j < k || E[x].lo <= j
    {
      PairsHas(E, j);
      var i :| 0 <= i < |E| && E[i].lo == j;
      if i < x { ChainPair(E, i, x); }
    }
  }

  /** The pair of k has gone, with the value v, or, when k has none, the pair of the least key next above k. */
  ghost predicate Took(m: map<nat, nat>, m': map<nat, nat>, k: nat, next: nat, v: nat) {
    if k in m then m[k] == v && m' == m - {k}
    else next in m && k < next && m' == m - {next} && forall j :: j in m ==> j < k || next <= j
  }

  /** The map without the pair at position x, which is the key's own or the one next above. */
  lemma PairGone(E: seq<Ref>, F: seq<Ref>, x: nat, same: bool, k: nat, v: nat) returns (next: nat)
    requires Chain(E) && Chain(F) && Removed(E, F, x, same) && (!same ==> F == [])
    requires if k in PairsOf(E) then IsPair(E, x, k, v) else IsNext(E, x, k)
    ensures Took(PairsOf(E), PairsOf(F), k, next, v)
  {
    hide Chain, Removed, PairsOf, IsNext;
    RemovedLast(E, F, x, same);
    PairsRemoved(E, F, x);
    PairsAt(E, x);
    next := E[x].lo;
    if k !in PairsOf(E) { NextPair(E, x, k); }
  }

  lemma MovePairToMap(m: map<nat, nat>, v: map<nat, nat>, k: nat)
    requires m.Keys !! v.Keys && k in v
    ensures m[k := v[k]] + (v - {k}) == m + v
    ensures m[k := v[k]].Keys !! (v - {k}).Keys && (v - {k}).Keys == v.Keys - {k}
  {
  }
}
