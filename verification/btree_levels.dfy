/**
The value-level theory behind the B+tree model: what the slots of a node hold, which interval of keys a
child is responsible for, and how the children of a row of nodes form the next row down.
*/
module BtreeLevels {

  /** One key/value pair of a node; a value of 0 marks an unused slot. */
  datatype Slot = Slot(key: nat, val: nat)

  type Node = seq<Slot>

  const EMPTY := Slot(0, 0)

  /** An exclusive upper bound on keys. */
  datatype Bound = Inf | Fin(k: nat)

  /** A value word found in a row, with the half-open interval of keys routed to it. */
  datatype Ref = Ref(addr: nat, lo: nat, hi: Bound)

  predicate Below(x: nat, b: Bound) {
    b.Inf? || x < b.k
  }

  predicate Le(b: Bound, c: Bound) {
    c.Inf? || (b.Fin? && b.k <= c.k)
  }

  predicate InRange(r: Ref, x: nat) {
    r.lo <= x && Below(x, r.hi)
  }

  /** s answers for at least the keys r answers for. */
  predicate Looser(r: Ref, s: Ref) {
    s.addr == r.addr && s.lo <= r.lo && Le(r.hi, s.hi)
  }

  ghost predicate Wider(R: seq<Ref>, S: seq<Ref>) {
    |R| == |S| && forall i :: 0 <= i < |R| ==> Looser(R[i], S[i])
  }

  /** Wider, with every key kept: the rows list the same pairs. */
  ghost predicate SamePairs(R: seq<Ref>, S: seq<Ref>) {
    |R| == |S| && forall i :: 0 <= i < |R| ==> Looser(R[i], S[i]) && R[i].lo == S[i].lo
  }

  // ---------- one node

  /** The number of used slots from start on, counted as the first free slot. */
  function Fill(n: Node, start: nat): (f: nat)
    requires start <= |n|
    ensures start <= f <= |n|
    ensures forall i :: start <= i < f ==> n[i].val != 0
    ensures f < |n| ==> n[f].val == 0
    decreases |n| - start
  {
    if start == |n| || n[start].val == 0 then start else Fill(n, start + 1)
  }

  function Entries(n: Node): seq<Slot> {
    n[..Fill(n, 0)]
  }

  ghost predicate Descending(es: seq<Slot>) {
    forall i, j :: 0 <= i < j < |es| ==> es[i].key > es[j].key
  }

  /** n is a node of N slots that holds exactly es, followed by cleared slots. */
  ghost predicate Holds(n: Node, N: nat, es: seq<Slot>) {
    && |es| <= N == |n|
    && (forall i :: 0 <= i < |es| ==> n[i] == es[i] && es[i].val != 0)
    && (forall i :: |es| <= i < N ==> n[i] == EMPTY)
  }

  lemma HoldsEntries(n: Node, N: nat, es: seq<Slot>)
    requires Holds(n, N, es)
    ensures Fill(n, 0) == |es| && Entries(n) == es
  {
    var f := Fill(n, 0);
    if |es| < |n| {
      assert n[|es|] == EMPTY;
    }
    assert n[..|es|] == es;
  }

  ghost predicate NodeOk(n: Node, N: nat, r: Ref) {
    && Holds(n, N, Entries(n))
    && Descending(Entries(n))
    && forall i :: 0 <= i < |Entries(n)| ==> InRange(r, Entries(n)[i].key)
  }

  // ---------- the row below a row of nodes

  /** The references a node with entries es and upper bound hi hands down. */
  function KidsOf(es: seq<Slot>, hi: Bound): (ks: seq<Ref>)
    ensures |ks| == |es|
  {
    seq(|es|, i requires 0 <= i < |es| => Ref(es[i].val, es[i].key, if i == 0 then hi else Fin(es[i - 1].key)))
  }

  lemma KidsOfAt(es: seq<Slot>, hi: Bound, i: nat)
    requires i < |es|
    ensures KidsOf(es, hi)[i] == Ref(es[i].val, es[i].key, if i == 0 then hi else Fin(es[i - 1].key))
  {
  }

  function NodeAt(mem: map<nat, Node>, a: nat): Node {
    if a in mem then mem[a] else []
  }

  function Kids(mem: map<nat, Node>, refs: seq<Ref>): seq<Ref> {
    if refs == [] then []
    else KidsOf(Entries(NodeAt(mem, refs[0].addr)), refs[0].hi) + Kids(mem, refs[1..])
  }

  lemma {:induction false} KidsConcat(mem: map<nat, Node>, R: seq<Ref>, S: seq<Ref>)
    ensures Kids(mem, R + S) == Kids(mem, R) + Kids(mem, S)
  {
    if R == [] {
      assert R + S == S;
    } else {
      assert (R + S)[1..] == R[1..] + S;
      KidsConcat(mem, R[1..], S);
    }
  }

  /** Where the children of the j-th node of a row start in the row below. */
  function Offset(mem: map<nat, Node>, refs: seq<Ref>, j: nat): nat
    requires j <= |refs|
  {
    |Kids(mem, refs[..j])|
  }

  lemma KidsOne(mem: map<nat, Node>, r: Ref)
    ensures Kids(mem, [r]) == KidsOf(Entries(NodeAt(mem, r.addr)), r.hi)
  {
    assert [r][1..] == [];
  }

  lemma KidsFocus(mem: map<nat, Node>, refs: seq<Ref>, j: nat)
    requires j < |refs|
    ensures Kids(mem, refs) ==
            Kids(mem, refs[..j]) + KidsOf(Entries(NodeAt(mem, refs[j].addr)), refs[j].hi) + Kids(mem, refs[j + 1..])
    ensures Offset(mem, refs, j + 1) == Offset(mem, refs, j) + |Entries(NodeAt(mem, refs[j].addr))| <= |Kids(mem, refs)|
  {
    hide Kids, KidsOf, Entries;
    KidsOne(mem, refs[j]);
    assert refs[..j + 1] == refs[..j] + [refs[j]];
    KidsConcat(mem, refs[..j], [refs[j]]);
    assert refs == refs[..j + 1] + refs[j + 1..];
    KidsConcat(mem, refs[..j + 1], refs[j + 1..]);
  }

  lemma {:induction false} KidsFrame(mem: map<nat, Node>, mem': map<nat, Node>, R: seq<Ref>, S: seq<Ref>)
    requires |R| == |S|
    requires forall i :: 0 <= i < |R| ==> R[i].addr == S[i].addr && R[i].hi == S[i].hi
    requires forall i :: 0 <= i < |R| ==> NodeAt(mem, R[i].addr) == NodeAt(mem', R[i].addr)
    ensures Kids(mem, R) == Kids(mem', S)
  {
    if R != [] {
      KidsFrame(mem, mem', R[1..], S[1..]);
    }
  }

  /** Every child of a row belongs to one node of it. */
  lemma {:induction false} Locate(mem: map<nat, Node>, refs: seq<Ref>, g: nat) returns (p: nat, i: nat)
    requires g < |Kids(mem, refs)|
    ensures p < |refs| && i < |Entries(NodeAt(mem, refs[p].addr))|
    ensures g == Offset(mem, refs, p) + i
    ensures Kids(mem, refs)[g] == KidsOf(Entries(NodeAt(mem, refs[p].addr)), refs[p].hi)[i]
  {
    var es := Entries(NodeAt(mem, refs[0].addr));
    if g < |es| {
      p, i := 0, g;
    } else {
      p, i := Locate(mem, refs[1..], g - |es|);
      p := p + 1;
      assert refs[..p][1..] == refs[1..][..p - 1];
    }
  }

  lemma KidAt(mem: map<nat, Node>, refs: seq<Ref>, p: nat, i: nat)
    requires p < |refs| && i < |Entries(NodeAt(mem, refs[p].addr))|
    ensures Offset(mem, refs, p) + i < |Kids(mem, refs)|
    ensures Kids(mem, refs)[Offset(mem, refs, p) + i] == KidsOf(Entries(NodeAt(mem, refs[p].addr)), refs[p].hi)[i]
  {
    hide KidsOf, Entries;
    KidsFocus(mem, refs, p);
  }

  lemma KidsOfConcat(A: seq<Slot>, B: seq<Slot>, hi: Bound)
    requires A != []
    ensures KidsOf(A + B, hi) == KidsOf(A, hi) + KidsOf(B, Fin(A[|A| - 1].key))
  {
    var K, L := KidsOf(A, hi), KidsOf(B, Fin(A[|A| - 1].key));
    forall i | 0 <= i < |A + B|
      ensures KidsOf(A + B, hi)[i] == if i < |A| then K[i] else L[i - |A|]
    {
    }
  }

  // ---------- ordering of a row

  /** Consecutive intervals of a row do not overlap and descend. */
  ghost predicate Chain(refs: seq<Ref>) {
    && (forall i :: 0 <= i < |refs| ==> Below(refs[i].lo, refs[i].hi))
    && (forall i, j :: 0 <= i < j < |refs| ==> Le(refs[j].hi, Fin(refs[i].lo)))
  }

  lemma ChainUnique(refs: seq<Ref>, i: nat, j: nat, x: nat)
    requires Chain(refs) && i < |refs| && j < |refs|
    requires InRange(refs[i], x) && InRange(refs[j], x)
    ensures i == j
  {
  }

  ghost predicate AllOk(mem: map<nat, Node>, N: nat, refs: seq<Ref>) {
    forall i :: 0 <= i < |refs| ==> NodeOk(NodeAt(mem, refs[i].addr), N, refs[i])
  }

  /** A child answers only for keys its node answers for. */
  lemma KidWithin(n: Node, N: nat, r: Ref, i: nat)
    requires NodeOk(n, N, r) && i < |Entries(n)|
    ensures r.lo <= KidsOf(Entries(n), r.hi)[i].lo
    ensures Le(KidsOf(Entries(n), r.hi)[i].hi, r.hi)
    ensures Below(KidsOf(Entries(n), r.hi)[i].lo, KidsOf(Entries(n), r.hi)[i].hi)
  {
  }

  lemma ChainKidsAt(mem: map<nat, Node>, N: nat, refs: seq<Ref>, g: nat, h: nat)
    requires Chain(refs) && AllOk(mem, N, refs)
    requires g <= h < |Kids(mem, refs)|
    ensures Below(Kids(mem, refs)[g].lo, Kids(mem, refs)[g].hi)
    ensures g < h ==> Le(Kids(mem, refs)[h].hi, Fin(Kids(mem, refs)[g].lo))
  {
    var p, i := Locate(mem, refs, g);
    var q, j := Locate(mem, refs, h);
    assert NodeOk(NodeAt(mem, refs[p].addr), N, refs[p]);
    assert NodeOk(NodeAt(mem, refs[q].addr), N, refs[q]);
    hide NodeOk, Entries, AllOk, KidsOf, Offset;
    KidWithin(NodeAt(mem, refs[p].addr), N, refs[p], i);
    KidWithin(NodeAt(mem, refs[q].addr), N, refs[q], j);
    if p > q {
      OffsetMonotone(mem, refs, q, j, p);
    } else if p == q {
      if g < h { KidsDescend(NodeAt(mem, refs[p].addr), N, refs[p], i, j); }
    } else {
      assert Le(refs[q].hi, Fin(refs[p].lo));
    }
  }

  /** The children of one node descend. */
  lemma KidsDescend(n: Node, N: nat, r: Ref, i: nat, j: nat)
    requires NodeOk(n, N, r) && i < j < |Entries(n)|
    ensures Le(KidsOf(Entries(n), r.hi)[j].hi, Fin(KidsOf(Entries(n), r.hi)[i].lo))
  {
    hide Entries, KidsOf;
    KidsOfDescend(Entries(n), r.hi, i, j);
  }

  lemma KidsOfDescend(es: seq<Slot>, hi: Bound, i: nat, j: nat)
    requires Descending(es) && i < j < |es|
    ensures Le(KidsOf(es, hi)[j].hi, Fin(KidsOf(es, hi)[i].lo))
  {
    hide KidsOf;
    KidsOfAt(es, hi, i);
    KidsOfAt(es, hi, j);
    assert j - 1 == i || es[i].key > es[j - 1].key;
  }

  lemma ChainKids(mem: map<nat, Node>, N: nat, refs: seq<Ref>)
    requires Chain(refs) && AllOk(mem, N, refs)
    ensures Chain(Kids(mem, refs))
  {
    var ks := Kids(mem, refs);
    forall g, h | 0 <= g <= h < |ks|
      ensures Below(ks[g].lo, ks[g].hi)
      ensures g < h ==> Le(ks[h].hi, Fin(ks[g].lo))
    {
      ChainKidsAt(mem, N, refs, g, h);
    }
  }

  lemma OffsetMonotone(mem: map<nat, Node>, refs: seq<Ref>, q: nat, j: nat, p: nat)
    requires q < p <= |refs| && j < |Entries(NodeAt(mem, refs[q].addr))|
    ensures Offset(mem, refs, q) + j < Offset(mem, refs, p)
  {
    KidsFocus(mem, refs[..p], q);
    assert refs[..p][..q] == refs[..q];
    assert refs[..p][..q + 1] == refs[..q + 1];
  }

  // ---------- the rows of a whole tree

  /** A row of distinct, well-formed nodes of level l; tag records the level each node was made for. */
  ghost predicate RowOk(mem: map<nat, Node>, tag: map<nat, nat>, N: nat, refs: seq<Ref>, l: nat) {
    && (forall i, j :: 0 <= i < j < |refs| ==> refs[i].addr != refs[j].addr)
    && (forall i :: 0 <= i < |refs| ==>
          && refs[i].addr in mem && refs[i].addr in tag && tag[refs[i].addr] == l
          && NodeOk(NodeAt(mem, refs[i].addr), N, refs[i]))
  }

  /**
   A tree as nodes in memory and the rows they form: the last row is the root, row 0 lists the pairs stored in
   the leaves, and each row is what the nodes of the row above refer to.
   */
  datatype Tree = Tree(N: nat, mem: map<nat, Node>, tag: map<nat, nat>, rows: seq<seq<Ref>>) {

    ghost predicate Ok(l: nat)
      requires l < |rows|
    {
      RowOk(mem, tag, N, rows[l], l)
    }

    ghost predicate Link(l: nat)
      requires l + 1 < |rows|
    {
      rows[l] == Kids(mem, rows[l + 1])
    }

    /** Everything from level L up is in order. */
    ghost predicate From(L: nat) {
      && |rows| >= 1
      && (|rows| == 1 ==> rows[0] == [])
      && (|rows| > 1 ==> |rows[|rows| - 1]| == 1 && rows[|rows| - 1][0].lo == 0 && rows[|rows| - 1][0].hi == Inf)
      && (forall l {:trigger Ok(l)} :: L <= l < |rows| ==> Ok(l))
      && (forall l {:trigger Link(l)} :: 0 <= l && L <= l + 1 && l + 1 < |rows| ==> Link(l))
    }
  }

  /** The fewest pairs a node of a tree with this many rows may hold. */
  function MinFill(rows: seq<seq<Ref>>): nat {
    if |rows| == 2 then 1 else 2
  }

  /** Every node of level l holds at least MinFill pairs; node exc is only asked to hold me. */
  ghost predicate FilledAt(s: Tree, l: nat, exc: nat, me: nat)
    requires l < |s.rows|
  {
    var R := s.rows[l];
    forall i :: 0 <= i < |R| ==>
      |Entries(NodeAt(s.mem, R[i].addr))| >= if R[i].addr == exc then me else MinFill(s.rows)
  }

  ghost predicate Filled(s: Tree, L: nat, exc: nat, me: nat) {
    forall l {:trigger FilledAt(s, l, exc, me)} :: L <= l < |s.rows| ==> FilledAt(s, l, exc, me)
  }

  /** The nodes of level l are the same in both trees. */
  ghost predicate Agree(s: Tree, t: Tree, l: nat) {
    forall a :: a in s.mem && a in s.tag && s.tag[a] == l ==>
      a in t.mem && t.mem[a] == s.mem[a] && a in t.tag && t.tag[a] == l
  }

  lemma Keep(s: Tree, t: Tree, l: nat)
    requires s.N == t.N && l < |s.rows| && l < |t.rows| && s.rows[l] == t.rows[l]
    requires s.Ok(l) && Agree(s, t, l)
    ensures t.Ok(l)
    ensures Kids(t.mem, t.rows[l]) == Kids(s.mem, s.rows[l])
  {
    KidsFrame(s.mem, t.mem, s.rows[l], t.rows[l]);
  }

  lemma {:induction false} ChainFrom(s: Tree, l: nat)
    requires l < |s.rows| && s.From(l + 1)
    ensures Chain(s.rows[l])
    decreases |s.rows| - l
  {
    if l + 1 < |s.rows| {
      ChainFrom(s, l + 1);
      assert s.Link(l) && s.Ok(l + 1);
      ChainKids(s.mem, s.N, s.rows[l + 1]);
    }
  }

  /** What find_level does when every separator of a node exceeds the key: lower the last one to it. */
  function LowerLast(n: Node, k: nat): Node
    requires 0 < Fill(n, 0)
  {
    n[Fill(n, 0) - 1 := n[Fill(n, 0) - 1].(key := k)]
  }

  lemma LowerLastOk(n: Node, N: nat, r: Ref, k: nat)
    requires NodeOk(n, N, r) && Entries(n) != [] && InRange(r, k)
    requires k < Entries(n)[|Entries(n)| - 1].key
    ensures NodeOk(LowerLast(n, k), N, r)
    ensures Entries(LowerLast(n, k)) == Entries(n)[|Entries(n)| - 1 := Entries(n)[|Entries(n)| - 1].(key := k)]
  {
    var f := Fill(n, 0);
    HoldsEntries(LowerLast(n, k), N, Entries(n)[f - 1 := Entries(n)[f - 1].(key := k)]);
  }

  lemma KidsOfLower(es: seq<Slot>, hi: Bound, k: nat)
    requires es != []
    ensures KidsOf(es[|es| - 1 := es[|es| - 1].(key := k)], hi) ==
            KidsOf(es, hi)[|es| - 1 := KidsOf(es, hi)[|es| - 1].(lo := k)]
  {
  }

  lemma Splice<T>(A: seq<T>, B: seq<T>, C: seq<T>, i: nat, x: T)
    requires i < |B|
    ensures (A + B + C)[|A| + i := x] == A + B[i := x] + C
  {
  }

  lemma NodeOkLooser(n: Node, N: nat, r: Ref, s: Ref)
    requires NodeOk(n, N, r) && Looser(r, s)
    ensures NodeOk(n, N, s)
  {
  }

  lemma RowOkWider(mem: map<nat, Node>, tag: map<nat, nat>, N: nat, R: seq<Ref>, S: seq<Ref>, l: nat)
    requires RowOk(mem, tag, N, R, l) && Wider(R, S)
    ensures RowOk(mem, tag, N, S, l)
  {
    hide NodeOk;
    forall i | 0 <= i < |S|
      ensures NodeOk(NodeAt(mem, S[i].addr), N, S[i])
    {
      NodeOkLooser(NodeAt(mem, S[i].addr), N, R[i], S[i]);
    }
  }

  /** The row below a node whose last separator is lowered: one interval grows downwards. */
  lemma LowerKids(mem: map<nat, Node>, N: nat, refs: seq<Ref>, g: nat, k: nat, mem': map<nat, Node>, o: nat)
    requires g < |refs| && AllOk(mem, N, refs) && refs[g].addr in mem && InRange(refs[g], k)
    requires forall i :: 0 <= i < |refs| && i != g ==> refs[i].addr != refs[g].addr
    requires var es := Entries(mem[refs[g].addr]); es != [] && k < es[|es| - 1].key
    requires mem' == mem[refs[g].addr := LowerLast(mem[refs[g].addr], k)]
    requires o == Offset(mem, refs, g) + |Entries(mem[refs[g].addr])| - 1
    ensures AllOk(mem', N, refs)
    ensures o < |Kids(mem, refs)| && k < Kids(mem, refs)[o].lo
    ensures Kids(mem', refs) == Kids(mem, refs)[o := Kids(mem, refs)[o].(lo := k)]
  {
    hide NodeOk, KidsOf, LowerLast, InRange, Kids, Entries;
    var n := mem[refs[g].addr];
    var es := Entries(n);
    assert NodeOk(NodeAt(mem, refs[g].addr), N, refs[g]);
    LowerLastOk(n, N, refs[g], k);
    KidsOfLower(es, refs[g].hi, k);
    KidAt(mem, refs, g, |es| - 1);
    KidsOfAt(es, refs[g].hi, |es| - 1);
    var A, B, C := Kids(mem, refs[..g]), KidsOf(es, refs[g].hi), Kids(mem, refs[g + 1..]);
    assert Kids(mem, refs) == A + B + C by {
      KidsFocus(mem, refs, g);
    }
    assert Kids(mem', refs) == A + B[|es| - 1 := B[|es| - 1].(lo := k)] + C by {
      KidsFocus(mem', refs, g);
      KidsFrame(mem, mem', refs[..g], refs[..g]);
      KidsFrame(mem, mem', refs[g + 1..], refs[g + 1..]);
    }
    Splice(A, B, C, |es| - 1, B[|es| - 1].(lo := k));
  }

  /** Lowering a separator at level l leaves everything from level L up in order, and the row below L alone. */
  lemma LowerSeparator(s: Tree, t: Tree, L: nat, l: nat, g: nat, k: nat, o: nat)
    requires 1 <= L < l < |s.rows| && s.From(L)
    requires g < |s.rows[l]| && InRange(s.rows[l][g], k) && s.rows[l][g].addr in s.mem
    requires var es := Entries(s.mem[s.rows[l][g].addr]);
      es != [] && k < es[|es| - 1].key && o == Offset(s.mem, s.rows[l], g) + |es| - 1 < |s.rows[l - 1]|
    requires t == s.(mem := s.mem[s.rows[l][g].addr := LowerLast(s.mem[s.rows[l][g].addr], k)],
                     rows := s.rows[l - 1 := s.rows[l - 1][o := s.rows[l - 1][o].(lo := k)]])
    ensures t.From(L)
  {
    hide NodeOk, Kids, KidsOf, LowerLast, InRange, Offset, Entries;
    assert s.Ok(l) && s.Link(l - 1);
    LowerKids(s.mem, s.N, s.rows[l], g, k, t.mem, o);
    forall m | L <= m < |t.rows|
      ensures t.Ok(m)
    {
      assert s.Ok(m);
      if m == l - 1 {
        RowOkWider(s.mem, s.tag, s.N, s.rows[m], t.rows[m], m);
      }
    }
    forall m | 0 <= m && L <= m + 1 && m + 1 < |t.rows|
      ensures t.Link(m)
    {
      assert s.Link(m) && s.Ok(m + 1);
      if m != l - 1 {
        KidsFrame(s.mem, t.mem, s.rows[m + 1], t.rows[m + 1]);
      }
    }
  }

  // ---------- routing

  /** The position getpos stops at: the first entry whose key does not exceed k. */
  ghost predicate IsPos(es: seq<Slot>, k: nat, i: nat) {
    && i <= |es|
    && (forall j :: 0 <= j < i ==> es[j].key > k)
    && (i < |es| ==> es[i].key <= k)
  }

  lemma RouteDown(s: Tree, l: nat, g: nat, k: nat, i: nat)
    requires 1 <= l < |s.rows| && s.Ok(l) && s.Link(l - 1)
    requires g < |s.rows[l]| && InRange(s.rows[l][g], k)
    requires i < |Entries(NodeAt(s.mem, s.rows[l][g].addr))| && IsPos(Entries(NodeAt(s.mem, s.rows[l][g].addr)), k, i)
    ensures Offset(s.mem, s.rows[l], g) + i < |s.rows[l - 1]|
    ensures InRange(s.rows[l - 1][Offset(s.mem, s.rows[l], g) + i], k)
    ensures s.rows[l - 1][Offset(s.mem, s.rows[l], g) + i].addr == Entries(NodeAt(s.mem, s.rows[l][g].addr))[i].val
  {
    hide NodeOk, Kids, KidsOf;
    KidAt(s.mem, s.rows[l], g, i);
    KidsOfAt(Entries(NodeAt(s.mem, s.rows[l][g].addr)), s.rows[l][g].hi, i);
  }

  /** A key inside a child's interval is inside the interval of the node the child belongs to. */
  lemma RouteUp(s: Tree, l: nat, c: nat, k: nat) returns (p: nat, i: nat)
    requires l + 1 < |s.rows| && s.Ok(l + 1) && s.Link(l)
    requires c < |s.rows[l]| && InRange(s.rows[l][c], k)
    ensures p < |s.rows[l + 1]| && InRange(s.rows[l + 1][p], k)
    ensures i < |Entries(NodeAt(s.mem, s.rows[l + 1][p].addr))| && c == Offset(s.mem, s.rows[l + 1], p) + i
    ensures IsPos(Entries(NodeAt(s.mem, s.rows[l + 1][p].addr)), k, i)
    ensures s.rows[l][c] == KidsOf(Entries(NodeAt(s.mem, s.rows[l + 1][p].addr)), s.rows[l + 1][p].hi)[i]
  {
    hide Kids, KidsOf, NodeOk;
    p, i := Locate(s.mem, s.rows[l + 1], c);
    var n := NodeAt(s.mem, s.rows[l + 1][p].addr);
    assert NodeOk(n, s.N, s.rows[l + 1][p]);
    KidWithin(n, s.N, s.rows[l + 1][p], i);
    KidsOfAt(Entries(n), s.rows[l + 1][p].hi, i);
    DescendingOf(n, s.N, s.rows[l + 1][p]);
  }

  lemma DescendingOf(n: Node, N: nat, r: Ref)
    requires NodeOk(n, N, r)
    ensures Descending(Entries(n)) && |Entries(n)| <= N == |n|
  {
  }

  /** Re-finding by key: the parent found for k holds the child found for k, at the position getpos gives. */
  lemma ParentOf(s: Tree, L: nat, c: nat, p: nat, k: nat, i: nat)
    requires L + 1 < |s.rows| && s.From(L + 1)
    requires c < |s.rows[L]| && InRange(s.rows[L][c], k)
    requires p < |s.rows[L + 1]| && InRange(s.rows[L + 1][p], k)
    requires IsPos(Entries(NodeAt(s.mem, s.rows[L + 1][p].addr)), k, i)
    ensures i < |Entries(NodeAt(s.mem, s.rows[L + 1][p].addr))| && c == Offset(s.mem, s.rows[L + 1], p) + i
    ensures s.rows[L][c] == KidsOf(Entries(NodeAt(s.mem, s.rows[L + 1][p].addr)), s.rows[L + 1][p].hi)[i]
  {
    hide RowOk, Kids, KidsOf, InRange, Offset, Entries, Chain;
    assert s.Ok(L + 1) && s.Link(L);
    var q, j := RouteUp(s, L, c, k);
    ChainFrom(s, L + 1);
    ChainUnique(s.rows[L + 1], p, q, k);
  }

  // ---------- rebuilding a tree from level L up

  lemma Extend(t: Tree, L: nat)
    requires 1 <= L < |t.rows| && t.From(L + 1) && t.Ok(L) && t.Link(L - 1)
    ensures t.From(L)
  {
    hide RowOk, Kids;
    forall m | L <= m < |t.rows|
      ensures t.Ok(m)
    {
    }
    forall m | 0 <= m && L <= m + 1 && m + 1 < |t.rows|
      ensures t.Link(m)
    {
    }
  }

  /** Only level L (its nodes and the row they list) differs. */
  lemma Rebuild(s: Tree, t: Tree, L: nat)
    requires 1 <= L < |s.rows| && s.From(L + 1) && |t.rows| == |s.rows| && s.N == t.N
    requires forall m :: L <= m < |s.rows| ==> t.rows[m] == s.rows[m]
    requires forall m :: L < m < |s.rows| ==> Agree(s, t, m)
    requires t.Ok(L) && t.Link(L - 1)
    ensures t.From(L)
  {
    hide RowOk, Kids, Agree;
    forall m | L < m < |t.rows|
      ensures t.Ok(m)
    {
      assert s.Ok(m);
      Keep(s, t, m);
    }
    forall m | L <= m && m + 1 < |t.rows|
      ensures t.Link(m)
    {
      assert s.Ok(m + 1) && s.Link(m);
      Keep(s, t, m + 1);
      assert t.rows[m] == s.rows[m];
    }
    assert t.rows[|t.rows| - 1] == s.rows[|s.rows| - 1];
    assert t.From(L + 1);
    Extend(t, L);
  }

  // ---------- rows that list the same pairs

  lemma SamePairsConcat(A: seq<Ref>, B: seq<Ref>, A': seq<Ref>, B': seq<Ref>)
    requires SamePairs(A, A') && SamePairs(B, B')
    ensures SamePairs(A + B, A' + B')
  {
  }

  lemma SamePairsTrans(A: seq<Ref>, B: seq<Ref>, C: seq<Ref>)
    requires SamePairs(A, B) && SamePairs(B, C)
    ensures SamePairs(A, C)
  {
  }

  lemma KidsOfWider(es: seq<Slot>, hi: Bound, hi': Bound)
    requires Le(hi, hi')
    ensures SamePairs(KidsOf(es, hi), KidsOf(es, hi'))
  {
  }

  lemma {:induction false} KidsWider(mem: map<nat, Node>, mem': map<nat, Node>, R: seq<Ref>, S: seq<Ref>)
    requires Wider(R, S)
    requires forall i :: 0 <= i < |R| ==> NodeAt(mem, R[i].addr) == NodeAt(mem', R[i].addr)
    ensures SamePairs(Kids(mem, R), Kids(mem', S))
  {
    hide KidsOf;
    if R != [] {
      KidsWider(mem, mem', R[1..], S[1..]);
      var es := Entries(NodeAt(mem, R[0].addr));
      KidsOfWider(es, R[0].hi, S[0].hi);
      SamePairsConcat(KidsOf(es, R[0].hi), Kids(mem, R[1..]), KidsOf(es, S[0].hi), Kids(mem', S[1..]));
    }
  }

  /** Two neighbours handing down A and B list what one node holding A + B lists. */
  lemma JoinKids(A: seq<Slot>, B: seq<Slot>, hi: Bound, hiB: Bound, hi': Bound)
    requires A != [] && Le(hiB, Fin(A[|A| - 1].key)) && Le(hi, hi')
    ensures SamePairs(KidsOf(A, hi) + KidsOf(B, hiB), KidsOf(A + B, hi'))
  {
    hide KidsOf;
    KidsOfConcat(A, B, hi');
    KidsOfWider(A, hi, hi');
    KidsOfWider(B, hiB, Fin(A[|A| - 1].key));
    SamePairsConcat(KidsOf(A, hi), KidsOf(B, hiB), KidsOf(A, hi'), KidsOf(B, Fin(A[|A| - 1].key)));
  }

  lemma CutKids(A: seq<Slot>, B: seq<Slot>, hi: Bound, hi': Bound, hiB: Bound)
    requires A != [] && Le(Fin(A[|A| - 1].key), hiB) && Le(hi, hi')
    ensures SamePairs(KidsOf(A + B, hi), KidsOf(A, hi') + KidsOf(B, hiB))
  {
    hide KidsOf;
    KidsOfConcat(A, B, hi);
    KidsOfWider(A, hi, hi');
    KidsOfWider(B, Fin(A[|A| - 1].key), hiB);
    SamePairsConcat(KidsOf(A, hi), KidsOf(B, Fin(A[|A| - 1].key)), KidsOf(A, hi'), KidsOf(B, hiB));
  }

  lemma KidsNone(mem: map<nat, Node>)
    ensures Kids(mem, []) == []
  {
  }

  lemma PairFocus(mem: map<nat, Node>, refs: seq<Ref>, c: nat)
    requires c + 1 < |refs|
    ensures Kids(mem, refs) == Kids(mem, refs[..c])
                             + (KidsOf(Entries(NodeAt(mem, refs[c].addr)), refs[c].hi)
                                + KidsOf(Entries(NodeAt(mem, refs[c + 1].addr)), refs[c + 1].hi))
                             + Kids(mem, refs[c + 2..])
  {
    hide Kids, KidsOf;
    var rest := refs[c + 1..];
    assert rest[0] == refs[c + 1] && rest[..0] == [] && rest[1..] == refs[c + 2..];
    assert Kids(mem, rest) == KidsOf(Entries(NodeAt(mem, rest[0].addr)), rest[0].hi) + Kids(mem, rest[1..]) by {
      KidsFocus(mem, rest, 0);
      KidsNone(mem);
    }
    KidsFocus(mem, refs, c);
  }
}
