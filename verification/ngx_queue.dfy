/**
The circular doubly linked list of struct_data/ngx_queue: a head that is only a pair of pointers, and the nodes in
order. A comparison is a function of two nodes, as the callback of the program is.
*/
module Queues {

  class Link {
    var prev: Link?
    var next: Link?
  }

  /** The node at index i of the ring; the head stands before the first node and after the last. */
  ghost function At(ns: seq<Link>, head: Link, i: int): Link {
    if 0 <= i < |ns| then ns[i] else head
  }

  ghost predicate Joined(ns: seq<Link>, head: Link, i: int)
    reads ns, head
  {
    At(ns, head, i).next == At(ns, head, i + 1) && At(ns, head, i + 1).prev == At(ns, head, i)
  }

  // ---------- sorting

  predicate Le(cmp: (Link, Link) -> int, a: Link, b: Link) {
    cmp(a, b) <= 0
  }

  /** What a comparison has to be: any two nodes of u compare, and consistently. */
  ghost predicate Preorder(cmp: (Link, Link) -> int, u: seq<Link>) {
    && (forall a, b :: a in u && b in u ==> Le(cmp, a, b) || Le(cmp, b, a))
    && (forall a, b, c :: a in u && b in u && c in u && Le(cmp, a, b) && Le(cmp, b, c) ==> Le(cmp, a, c))
  }

  ghost predicate Within(s: seq<Link>, u: seq<Link>) {
    forall x :: x in s ==> x in u
  }

  ghost predicate Sorted(cmp: (Link, Link) -> int, s: seq<Link>) {
    forall i, j :: 0 <= i < j < |s| ==> Le(cmp, s[i], s[j])
  }

  ghost predicate Alike(cmp: (Link, Link) -> int, a: Link, b: Link) {
    Le(cmp, a, b) && Le(cmp, b, a)
  }

  /** The nodes of s that compare equal to a, in order. */
  ghost function Class(cmp: (Link, Link) -> int, s: seq<Link>, a: Link): seq<Link> {
    if s == [] then []
    else Class(cmp, s[..|s| - 1], a) + if Alike(cmp, s[|s| - 1], a) then [s[|s| - 1]] else []
  }

  /** t is s with its nodes reordered, but never two that compare equal. */
  ghost predicate Stable(cmp: (Link, Link) -> int, u: seq<Link>, s: seq<Link>, t: seq<Link>) {
    multiset(s) == multiset(t) && forall a :: a in u ==> Class(cmp, s, a) == Class(cmp, t, a)
  }

  lemma {:induction false} ClassConcat(cmp: (Link, Link) -> int, s: seq<Link>, t: seq<Link>, a: Link)
    ensures Class(cmp, s + t, a) == Class(cmp, s, a) + Class(cmp, t, a)
  {
    if t == [] {
      assert s + t == s;
    } else {
      var m := |t| - 1;
      assert (s + t)[..|s + t| - 1] == s + t[..m];
      ClassConcat(cmp, s, t[..m], a);
    }
  }

  lemma {:induction false} ClassNone(cmp: (Link, Link) -> int, s: seq<Link>, a: Link)
    requires forall i :: 0 <= i < |s| ==> !Alike(cmp, s[i], a)
    ensures Class(cmp, s, a) == []
  {
    if s != [] { ClassNone(cmp, s[..|s| - 1], a); }
  }

  /** x taken from behind s to index p of it: only nodes greater than x are passed. */
  lemma Insertion(cmp: (Link, Link) -> int, u: seq<Link>, s: seq<Link>, x: Link, p: nat)
    requires Preorder(cmp, u) && Within(s, u) && x in u && Sorted(cmp, s) && p <= |s|
    requires forall i :: p <= i < |s| ==> !Le(cmp, s[i], x)
    requires p > 0 ==> Le(cmp, s[p - 1], x)
    ensures Sorted(cmp, s[..p] + [x] + s[p..]) && Stable(cmp, u, s + [x], s[..p] + [x] + s[p..])
  {
    hide Preorder, Sorted, Class;
    InsertionSorted(cmp, u, s, x, p);
    var a, b := s[..p], s[p..];
    assert a + [x] + b == a + ([x] + b) && s + [x] == a + (b + [x]);
    forall c | c in u
      ensures Class(cmp, s + [x], c) == Class(cmp, a + [x] + b, c)
    {
      Passed(cmp, u, b, x, c);
      ClassConcat(cmp, a, [x] + b, c);
      ClassConcat(cmp, a, b + [x], c);
    }
  }

  /** x goes before nodes greater than it: no class sees it. */
  lemma Passed(cmp: (Link, Link) -> int, u: seq<Link>, b: seq<Link>, x: Link, c: Link)
    requires Preorder(cmp, u) && Within(b, u) && x in u && c in u && forall i :: 0 <= i < |b| ==> !Le(cmp, b[i], x)
    ensures Class(cmp, b + [x], c) == Class(cmp, [x] + b, c)
  {
    ClassConcat(cmp, [x], b, c);
    ClassConcat(cmp, b, [x], c);
    if Alike(cmp, x, c) {
      forall i | 0 <= i < |b|
        ensures !Alike(cmp, b[i], c)
      {
        assert b[i] in u;
        if Alike(cmp, b[i], c) { Through(cmp, u, b[i], c, x); }
      }
      ClassNone(cmp, b, c);
    } else {
      ClassNone(cmp, [x], c);
    }
  }

  lemma Through(cmp: (Link, Link) -> int, u: seq<Link>, a: Link, b: Link, c: Link)
    requires Preorder(cmp, u) && a in u && b in u && c in u && Le(cmp, a, b) && Le(cmp, b, c)
    ensures Le(cmp, a, c)
  {
  }

  lemma InsertionSorted(cmp: (Link, Link) -> int, u: seq<Link>, s: seq<Link>, x: Link, p: nat)
    requires Preorder(cmp, u) && Within(s, u) && x in u && Sorted(cmp, s) && p <= |s|
    requires forall i :: p <= i < |s| ==> !Le(cmp, s[i], x)
    requires p > 0 ==> Le(cmp, s[p - 1], x)
    ensures Sorted(cmp, s[..p] + [x] + s[p..])
  {
    forall i | 0 <= i < p
      ensures Le(cmp, s[i], x)
    {
      if i < p - 1 { assert Le(cmp, s[i], s[p - 1]) && Le(cmp, s[p - 1], x); }
    }
    forall i | p <= i < |s|
      ensures Le(cmp, x, s[i])
    {
      assert !Le(cmp, s[i], x);
    }
  }

  /** Reordering the front of a sequence. */
  lemma StableConcat(cmp: (Link, Link) -> int, u: seq<Link>, s: seq<Link>, t: seq<Link>, rest: seq<Link>)
    requires Stable(cmp, u, s, t)
    ensures Stable(cmp, u, s + rest, t + rest)
  {
    forall a | a in u
      ensures Class(cmp, s + rest, a) == Class(cmp, t + rest, a)
    {
      ClassConcat(cmp, s, rest, a);
      ClassConcat(cmp, t, rest, a);
    }
  }

  /** A sorted, stable reordering is determined: there is only one. */
  lemma {:induction false} OnlyOne(cmp: (Link, Link) -> int, u: seq<Link>, s: seq<Link>, t: seq<Link>)
    requires Preorder(cmp, u) && Within(s, u) && Sorted(cmp, s) && Sorted(cmp, t) && Stable(cmp, u, s, t)
    ensures s == t
  {
    if s == [] {
      assert |multiset(t)| == |t|;
    } else {
      hide Class, Stable, Preorder;
      SameLast(cmp, u, s, t);
      FrontStable(cmp, u, s, t);
      FrontWithin(s, |s| - 1, u);
      OnlyOne(cmp, u, s[..|s| - 1], t[..|t| - 1]);
      assert s == s[..|s| - 1] + [s[|s| - 1]] && t == t[..|t| - 1] + [t[|t| - 1]];
    }
  }

  lemma FrontStable(cmp: (Link, Link) -> int, u: seq<Link>, s: seq<Link>, t: seq<Link>)
    requires Stable(cmp, u, s, t) && s != [] && t != [] && s[|s| - 1] == t[|t| - 1]
    ensures Stable(cmp, u, s[..|s| - 1], t[..|t| - 1])
  {
    hide Class;
    Front(s);
    Front(t);
    forall a | a in u
      ensures Class(cmp, s[..|s| - 1], a) == Class(cmp, t[..|t| - 1], a)
    {
      assert Class(cmp, s, a) == Class(cmp, t, a);
      ClassLast(cmp, s, a);
      ClassLast(cmp, t, a);
    }
  }

  lemma Front(s: seq<Link>)
    requires s != []
    ensures multiset(s[..|s| - 1]) == multiset(s) - multiset{s[|s| - 1]}
  {
    assert s == s[..|s| - 1] + [s[|s| - 1]];
  }

  lemma FrontWithin(s: seq<Link>, j: nat, u: seq<Link>)
    requires Within(s, u) && j <= |s|
    ensures Within(s[..j], u)
  {
  }

  lemma SameLast(cmp: (Link, Link) -> int, u: seq<Link>, s: seq<Link>, t: seq<Link>)
    requires Preorder(cmp, u) && Within(s, u) && Sorted(cmp, s) && Sorted(cmp, t) && Stable(cmp, u, s, t) && s != []
    ensures t != [] && s[|s| - 1] == t[|t| - 1]
  {
    var x := s[|s| - 1];
    assert x in multiset(t);
    assert t[|t| - 1] in multiset(s);
    LastAlike(cmp, u, s, t);
    hide Preorder, Sorted;
    assert Class(cmp, s, x)[|Class(cmp, s, x)| - 1] == x;
    assert Class(cmp, t, x)[|Class(cmp, t, x)| - 1] == t[|t| - 1];
    assert Class(cmp, s, x) == Class(cmp, t, x);
  }

  lemma ClassLast(cmp: (Link, Link) -> int, s: seq<Link>, a: Link)
    requires s != []
    ensures var m, c := |s| - 1, Class(cmp, s, a);
      if Alike(cmp, s[m], a) then c != [] && Class(cmp, s[..m], a) == c[..|c| - 1] else Class(cmp, s[..m], a) == c
  {
  }

  lemma LastAlike(cmp: (Link, Link) -> int, u: seq<Link>, s: seq<Link>, t: seq<Link>)
    requires Preorder(cmp, u) && Within(s, u) && Sorted(cmp, s) && Sorted(cmp, t) && s != [] && t != []
    requires s[|s| - 1] in t && t[|t| - 1] in s
    ensures Alike(cmp, s[|s| - 1], t[|t| - 1]) && Alike(cmp, s[|s| - 1], s[|s| - 1])
    ensures Alike(cmp, t[|t| - 1], t[|t| - 1])
    ensures Alike(cmp, t[|t| - 1], s[|s| - 1])
  {
    var i :| 0 <= i < |t| && t[i] == s[|s| - 1];
    var j :| 0 <= j < |s| && s[j] == t[|t| - 1];
    assert Le(cmp, t[i], t[|t| - 1]) && Le(cmp, s[j], s[|s| - 1]);
  }

  class Queue {
    const head: Link
    ghost var ns: seq<Link>

    ghost predicate Valid()
      reads this, head, ns
    {
      && head !in ns && (forall i, j :: 0 <= i < j < |ns| ==> ns[i] != ns[j])
      && forall i {:trigger Joined(ns, head, i)} :: -1 <= i < |ns| ==> Joined(ns, head, i)
    }

    /** ngx_queue_init */
    constructor (h: Link)
      modifies h
      ensures Valid() && head == h && ns == []
    {
      head := h;
      new;
      h.prev := h;
      h.next := h;
      ns := [];
    }

    /** ngx_queue_empty */
    predicate Empty()
      requires Valid()
      reads this, head, ns
      ensures Empty() <==> ns == []
    {
      assert Joined(ns, head, |ns| - 1);
      head == head.prev
    }

    /** ngx_queue_insert_head when k is -1, and ngx_queue_insert_after in general. */
    method InsertAfter(h: Link, x: Link, ghost k: int)
      requires Valid() && -1 <= k < |ns| && h == At(ns, head, k) && x !in ns && x != head
      modifies this`ns, head, ns, x
      ensures Valid() && ns == old(ns)[..k + 1] + [x] + old(ns)[k + 1..]
    {
      assert Joined(ns, head, k);
      x.next := h.next;
      x.next.prev := x;
      x.prev := h;
      h.next := x;
      ghost var was := ns;
      ns := ns[..k + 1] + [x] + ns[k + 1..];
      forall i | -1 <= i < |ns|
        ensures Joined(ns, head, i)
      {
        assert old(Joined(was, head, if i <= k then i else i - 1));
      }
    }

    /** ngx_queue_insert_tail */
    method InsertTail(x: Link)
      requires Valid() && x !in ns && x != head
      modifies this`ns, head, ns, x
      ensures Valid() && ns == old(ns) + [x]
    {
      ghost var k := |ns| - 1;
      assert Joined(ns, head, k);
      x.prev := head.prev;
      x.prev.next := x;
      x.next := head;
      head.prev := x;
      ghost var was := ns;
      ns := ns + [x];
      forall i | -1 <= i < |ns|
        ensures Joined(ns, head, i)
      {
        assert i <= k ==> old(Joined(was, head, i));
      }
    }

    /** ngx_queue_remove, as compiled without NGX_DEBUG. */
    method Remove(x: Link, ghost k: nat)
      requires Valid() && k < |ns| && x == ns[k]
      modifies this`ns, head, ns
      ensures Valid() && ns == old(ns)[..k] + old(ns)[k + 1..]
      ensures x.prev == old(x.prev) && x.next == old(x.next) && x !in ns
    {
      assert Joined(ns, head, k) && Joined(ns, head, k - 1);
      x.next.prev := x.prev;
      x.prev.next := x.next;
      ghost var was := ns;
      ns := ns[..k] + ns[k + 1..];
      forall i | -1 <= i < |ns|
        ensures Joined(ns, head, i)
      {
        assert old(Joined(was, head, if i < k then i else i + 1));
      }
    }

    /** ngx_queue_split: the nodes from q on move to the list whose head is n. */
    method Split(q: Link, n: Link, ghost k: nat) returns (tail: Queue)
      requires Valid() && k < |ns| && q == ns[k] && n !in ns && n != head
      modifies this`ns, head, ns, n
      ensures Valid() && ns == old(ns)[..k]
      ensures fresh(tail) && tail.Valid() && tail.head == n && tail.ns == old(ns)[k..]
    {
      ghost var was := ns;
      tail := new Queue(n);
      assert old(Joined(was, head, k - 1)) && old(Joined(was, head, |was| - 1));
      n.prev := head.prev;
      n.prev.next := n;
      n.next := q;
      head.prev := q.prev;
      head.prev.next := head;
      q.prev := n;
      ns := was[..k];
      tail.ns := was[k..];
      forall i | -1 <= i < |ns|
        ensures Joined(ns, head, i)
      {
        assert old(Joined(was, head, i));
      }
      forall i | -1 <= i < |tail.ns|
        ensures Joined(tail.ns, n, i)
      {
        assert old(Joined(was, head, k + i));
      }
    }

    /** ngx_queue_add: the nodes of n go behind the nodes of this list; the head of n is left as it is. */
    method Add(n: Queue)
      requires Valid() && n.Valid() && head != n.head && head !in n.ns && n.head !in ns
      requires forall x :: x in ns ==> x !in n.ns
      modifies this`ns, head, ns, n.head, n.ns
      ensures Valid() && ns == old(ns) + old(n.ns)
    {
      ghost var a, b := ns, n.ns;
      assert Joined(a, head, |a| - 1) && Joined(b, n.head, -1) && Joined(b, n.head, |b| - 1);
      head.prev.next := n.head.next;
      n.head.next.prev := head.prev;
      head.prev := n.head.prev;
      head.prev.next := head;
      ns := a + b;
      assert forall i :: 0 <= i < |a| ==> a[i] in a && a[i] !in b;
      forall i | -1 <= i < |ns|
        ensures Joined(ns, head, i)
      {
        assert i < |a| ==> old(Joined(a, head, i));
        assert i >= |a| ==> old(Joined(b, n.head, i - |a|));
      }
    }

    /** ngx_queue_middle: two cursors, one going twice as fast; on an empty list the head itself. */
    method Middle() returns (middle: Link)
      requires Valid()
      ensures middle == At(ns, head, |ns| / 2)
    {
      assert Joined(ns, head, -1) && Joined(ns, head, |ns| - 1);
      middle := head.next;
      if middle == head.prev {
        return;
      }
      var next: Link := head.next;
      ghost var i, j := 0, 0;
      while true
        invariant 0 <= i && j == 2 * i < |ns| - 1 && middle == ns[i] && next == ns[j]
        decreases |ns| - j
      {
        assert Joined(ns, head, i) && Joined(ns, head, j) && Joined(ns, head, j + 1);
        middle := middle.next;
        next := next.next;
        i, j := i + 1, j + 1;
        if next == head.prev {
          return;
        }
        next := next.next;
        j := j + 1;
        if next == head.prev {
          return;
        }
      }
    }

    /** From prev backwards to the last node not greater than q, or to the head. */
    method LastNotGreater(cmp: (Link, Link) -> int, from: Link, q: Link, ghost j: nat)
      returns (prev: Link, ghost p: int)
      requires Valid() && 0 < j <= |ns| && from == ns[j - 1]
      ensures -1 <= p < j && prev == At(ns, head, p) && (p >= 0 ==> Le(cmp, ns[p], q))
      ensures forall i :: p < i < j ==> !Le(cmp, ns[i], q)
    {
      prev, p := from, j - 1;
      while true
        invariant 0 <= p < j && prev == ns[p]
        invariant forall i :: p < i < j ==> !Le(cmp, ns[i], q)
        decreases p
      {
        if cmp(prev, q) <= 0 {
          return;
        }
        assert !Le(cmp, ns[p], q);
        assert Joined(ns, head, p - 1);
        prev := prev.prev;
        p := p - 1;
        if prev == head {
          return;
        }
      }
    }

    /** One round of the sort: node j of the list goes to its place among the sorted ones before it. */
    method Place(cmp: (Link, Link) -> int, q: Link, ghost j: nat, ghost u: seq<Link>)
      requires Valid() && 0 < j < |ns| && q == ns[j] && Preorder(cmp, u) && Within(ns, u) && Sorted(cmp, ns[..j])
      modifies this`ns, head, ns
      ensures Valid() && multiset(ns) == multiset(old(ns)) && |ns| == |old(ns)|
      ensures Sorted(cmp, ns[..j + 1]) && Stable(cmp, u, old(ns)[..j + 1], ns[..j + 1])
      ensures ns[j + 1..] == old(ns)[j + 1..]
    {
      ghost var was := ns;
      assert Joined(ns, head, j - 1);
      var prev := q.prev;
      Remove(q, j);
      hide Preorder, Sorted, Stable, Within, Valid;
      ghost var p, s;
      assert ns[j - 1] == was[j - 1];
      prev, p := LastNotGreater(cmp, prev, q, j);
      s := ns;
      assert forall i :: 0 <= i < j ==> was[i] == s[i];
      InsertAfter(prev, q, p);
      Placed(cmp, u, was, j, p + 1, ns);
    }

    static lemma Placed(cmp: (Link, Link) -> int, u: seq<Link>, was: seq<Link>, j: nat, p: nat, r: seq<Link>)
      requires p <= j < |was| && Preorder(cmp, u) && Within(was, u) && Sorted(cmp, was[..j])
      requires var s := was[..j] + was[j + 1..]; r == s[..p] + [was[j]] + s[p..]
      requires (p > 0 ==> Le(cmp, was[p - 1], was[j])) && forall i :: p <= i < j ==> !Le(cmp, was[i], was[j])
      ensures multiset(r) == multiset(was) && |r| == |was| && r[j + 1..] == was[j + 1..]
      ensures Sorted(cmp, r[..j + 1]) && Stable(cmp, u, was[..j + 1], r[..j + 1])
    {
      var s, rest, q := was[..j], was[j + 1..], was[j];
      assert was == s + [q] + rest && was[..j + 1] == s + [q] && q in was;
      FrontWithin(was, j, u);
      Insertion(cmp, u, s, q, p);
      Inside(s, rest, q, p);
    }

    static lemma Inside(s: seq<Link>, rest: seq<Link>, q: Link, p: nat)
      requires p <= |s|
      ensures var t, r := s[..p] + [q] + s[p..], (s + rest)[..p] + [q] + (s + rest)[p..];
        r == t + rest && r[..|s| + 1] == t && r[|s| + 1..] == rest && multiset(r) == multiset(s + [q] + rest)
    {
      var t := s[..p] + [q] + s[p..];
      assert (s + rest)[..p] + [q] + (s + rest)[p..] == t + rest;
      assert s == s[..p] + s[p..];
    }

    static lemma NextRound(cmp: (Link, Link) -> int, was: seq<Link>, m: seq<Link>, r: seq<Link>, j: nat)
      requires j <= |m| == |r| && Stable(cmp, was, was, m) && Stable(cmp, was, m[..j], r[..j]) && m[j..] == r[j..]
      ensures Stable(cmp, was, was, r) && Within(r, was)
    {
      StableConcat(cmp, was, m[..j], r[..j], m[j..]);
      assert m == m[..j] + m[j..] && r == r[..j] + r[j..];
      assert forall x :: x in r ==> x in multiset(was);
    }

    /** ngx_queue_sort */
    method Sort(cmp: (Link, Link) -> int)
      requires Valid() && Preorder(cmp, ns)
      modifies this`ns, head, ns
      ensures Valid() && Sorted(cmp, ns) && Stable(cmp, old(ns), old(ns), ns)
    {
      assert Joined(ns, head, -1) && Joined(ns, head, |ns| - 1);
      var q: Link := head.next;
      if q == head.prev {
        return;
      }
      assert Joined(ns, head, 0);
      q := q.next;
      ghost var j := 1;
      ghost var was := ns;
      while q != head
        invariant Valid() && 1 <= j <= |ns| && q == At(ns, head, j) && Within(ns, was)
        invariant Sorted(cmp, ns[..j]) && Stable(cmp, was, was, ns)
        decreases |ns| - j
      {
        assert Joined(ns, head, j);
        var next: Link := q.next;
        ghost var m := ns;
        assert forall i :: 0 <= i < |ns| ==> ns[i] in was;
        hide Preorder, Sorted, Stable, Valid;
        Place(cmp, q, j, was);
        NextRound(cmp, was, m, ns, j + 1);
        j := j + 1;
        q := next;
      }
      assert ns[..j] == ns;
    }
  }
}
