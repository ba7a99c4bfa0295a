/**
What the slot copies of the file B-tree do to the edges that leave a block.
*/
module FileBlocks {
  import opened FileRows

  /** keycpy: slots j..j + n of s, with the child behind the last key, go to slots i..i + n of d. */
  function CopySlots(d: seq<Slot>, i: nat, s: seq<Slot>, j: nat, n: nat): (r: seq<Slot>)
    requires i + n < |d| && j + n < |s|
    ensures |r| == |d|
    ensures forall k :: 0 <= k < |d| ==> r[k] == if i <= k <= i + n then s[j + k - i] else d[k]
  {
    d[..i] + s[j..j + n + 1] + d[i + n + 1..]
  }

  function SetChild(d: seq<Slot>, i: nat, child: nat): seq<Slot>
    requires i < |d|
  {
    d[i := d[i].(child := child)]
  }

  /** The key and its value, not the child beside them. */
  function SetKey(d: seq<Slot>, i: nat, from: Slot): seq<Slot>
    requires i < |d|
  {
    d[i := d[i].(key := from.key, value := from.value)]
  }

  function PairOf(s: Slot): Sep {
    Pair(s.key, s.value)
  }

  /** ceil(M) of the program: every node but the root keeps almost this many keys. */
  function Half(M: nat): nat
    requires M > 0
  {
    (M - 1) / 2
  }

  ghost predicate Sized(b: Block, M: nat) {
    |b.slots| == M + 1 && b.num <= M
  }

  // ---------- splitting

  function SplitOff(x: Block, y: Block, n: nat): Block
    requires n < x.num < |x.slots| && x.num - n <= |y.slots|
  {
    y.(slots := CopySlots(y.slots, 0, x.slots, n + 1, x.num - n - 1), num := x.num - n - 1)
  }

  function SplitUp(p: Block, pos: nat, x: Block, y: Block, n: nat): Block
    requires pos <= p.num < |p.slots| - 1 && n < |x.slots|
  {
    var moved := CopySlots(p.slots, pos + 1, p.slots, pos, p.num - pos);
    var placed := moved[pos := x.slots[n]];
    p.(slots := SetChild(SetChild(placed, pos, x.self), pos + 1, y.self), num := p.num + 1)
  }

  lemma SplitHalves(x: Block, y: Block, n: nat, M: nat, sep: Sep)
    requires Sized(x, M) && Sized(y, M) && n < x.num
    ensures var m := PairOf(x.slots[n]); var y' := SplitOff(x, y, n); var x' := x.(num := n);
      Sized(x', M) && Sized(y', M) && KidsOf(x', m) + KidsOf(y', sep) == KidsOf(x, sep)
  {
  }

  lemma SplitParent(p: Block, pos: nat, x: Block, y: Block, n: nat, M: nat, sep: Sep)
    requires Sized(p, M) && p.num < M && pos <= p.num && n < |x.slots|
    ensures var K, p' := KidsOf(p, sep), SplitUp(p, pos, x, y, n);
      && Sized(p', M)
      && KidsOf(p', sep) == K[..pos] + [Edge(x.self, PairOf(x.slots[n])), Edge(y.self, K[pos].sep)] + K[pos + 1..]
  {
    hide CopySlots;
    var K, K' := KidsOf(p, sep), KidsOf(SplitUp(p, pos, x, y, n), sep);
    var W := K[..pos] + [Edge(x.self, PairOf(x.slots[n])), Edge(y.self, K[pos].sep)] + K[pos + 1..];
    forall i | 0 <= i < |K'|
      ensures K'[i] == W[i]
    {
    }
  }

  // ---------- merging

  function MergeInto(p: Block, pos: nat, x: Block, y: Block): Block
    requires pos < |p.slots| && x.num + 1 + y.num < |x.slots| && y.num < |y.slots|
  {
    var keyed := SetKey(x.slots, x.num, p.slots[pos]);
    x.(slots := CopySlots(keyed, x.num + 1, y.slots, 0, y.num), num := x.num + 1 + y.num)
  }

  function MergeOut(p: Block, pos: nat, x: Block): Block
    requires pos < p.num < |p.slots|
  {
    var moved := CopySlots(p.slots, pos, p.slots, pos + 1, p.num - pos - 1);
    p.(slots := SetChild(moved, pos, x.self), num := p.num - 1)
  }

  lemma MergeHalves(p: Block, pos: nat, x: Block, y: Block, M: nat, sep: Sep)
    requires Sized(x, M) && Sized(y, M) && pos < |p.slots| && x.num + 1 + y.num <= M
    ensures var x' := MergeInto(p, pos, x, y);
      Sized(x', M) && KidsOf(x', sep) == KidsOf(x, PairOf(p.slots[pos])) + KidsOf(y, sep)
  {
  }

  lemma MergeParent(p: Block, pos: nat, x: Block, M: nat, sep: Sep)
    requires Sized(p, M) && pos < p.num
    ensures var K, p' := KidsOf(p, sep), MergeOut(p, pos, x);
      Sized(p', M) && KidsOf(p', sep) == K[..pos] + [Edge(x.self, K[pos + 1].sep)] + K[pos + 2..]
  {
    hide CopySlots;
    var K, K' := KidsOf(p, sep), KidsOf(MergeOut(p, pos, x), sep);
    var W := K[..pos] + [Edge(x.self, K[pos + 1].sep)] + K[pos + 2..];
    forall i | 0 <= i < |K'|
      ensures K'[i] == W[i]
    {
    }
  }

  // ---------- borrowing

  /** x takes the parent's key i and the first child of its right neighbour y. */
  function TakeRight(p: Block, i: nat, x: Block, y: Block): Block
    requires i < |p.slots| && x.num + 1 < |x.slots| && |y.slots| > 0
  {
    var keyed := SetKey(x.slots, x.num, p.slots[i]);
    x.(slots := SetChild(keyed, x.num + 1, y.slots[0].child), num := x.num + 1)
  }

  function GiveRight(y: Block): Block
    requires 0 < y.num < |y.slots|
  {
    y.(slots := CopySlots(y.slots, 0, y.slots, 1, y.num - 1), num := y.num - 1)
  }

  function ReKey(p: Block, i: nat, from: Slot): Block
    requires i < |p.slots|
  {
    p.(slots := SetKey(p.slots, i, from))
  }

  lemma BorrowRightHalves(p: Block, i: nat, x: Block, y: Block, M: nat, sep: Sep)
    requires Sized(x, M) && Sized(y, M) && i < |p.slots| && x.num < M && y.num > 0
    ensures var x', y' := TakeRight(p, i, x, y), GiveRight(y);
      && Sized(x', M) && Sized(y', M)
      && KidsOf(x', PairOf(y.slots[0])) + KidsOf(y', sep) == KidsOf(x, PairOf(p.slots[i])) + KidsOf(y, sep)
  {
  }

  lemma ReKeyed(p: Block, i: nat, from: Slot, M: nat, sep: Sep)
    requires Sized(p, M) && i < p.num
    ensures Sized(ReKey(p, i, from), M)
    ensures KidsOf(ReKey(p, i, from), sep) == KidsOf(p, sep)[i := Edge(p.slots[i].child, PairOf(from))]
  {
  }

  /** x takes the parent's key i and the last child of its left neighbour w, in front. */
  function TakeLeft(p: Block, i: nat, w: Block, x: Block): Block
    requires i < |p.slots| && x.num + 1 < |x.slots| && w.num < |w.slots|
  {
    var moved := CopySlots(x.slots, 1, x.slots, 0, x.num);
    x.(slots := SetChild(SetKey(moved, 0, p.slots[i]), 0, w.slots[w.num].child), num := x.num + 1)
  }

  lemma TakenLeft(p: Block, i: nat, w: Block, x: Block, M: nat, sep: Sep)
    requires Sized(w, M) && Sized(x, M) && i < |p.slots| && x.num < M
    ensures Sized(TakeLeft(p, i, w, x), M)
    ensures KidsOf(TakeLeft(p, i, w, x), sep) == [KidsOf(w, PairOf(p.slots[i]))[w.num]] + KidsOf(x, sep)
  {
    hide CopySlots;
    var B, B' := KidsOf(x, sep), KidsOf(TakeLeft(p, i, w, x), sep);
    forall j | 0 < j < |B'|
      ensures B'[j] == B[j - 1]
    {
    }
  }

  lemma BorrowLeftHalves(p: Block, i: nat, w: Block, x: Block, M: nat, sep: Sep)
    requires Sized(w, M) && Sized(x, M) && i < |p.slots| && x.num < M && w.num > 0
    ensures var x', w' := TakeLeft(p, i, w, x), w.(num := w.num - 1);
      && Sized(x', M) && Sized(w', M)
      && KidsOf(w', PairOf(w.slots[w.num - 1])) + KidsOf(x', sep) == KidsOf(w, PairOf(p.slots[i])) + KidsOf(x, sep)
  {
    hide CopySlots;
    var A, B := KidsOf(w, PairOf(p.slots[i])), KidsOf(x, sep);
    var A', B' := KidsOf(w.(num := w.num - 1), PairOf(w.slots[w.num - 1])), KidsOf(TakeLeft(p, i, w, x), sep);
    TakenLeft(p, i, w, x, M, sep);
    forall j | 0 <= j < |A'|
      ensures A'[j] == A[j]
    {
    }
    assert A == A' + [A[w.num]] && B' == [A[w.num]] + B;
  }

  // ---------- leaves

  ghost predicate Barren(b: Block) {
    forall i :: 0 <= i < |b.slots| ==> b.slots[i].child == 0
  }

  function LeafAdd(b: Block, i: nat, key: int, value: nat): Block
    requires i <= b.num < |b.slots| - 1
  {
    var moved := CopySlots(b.slots, i + 1, b.slots, i, b.num - i);
    b.(slots := SetKey(moved, i, Slot(key, value, 0)), num := b.num + 1)
  }

  lemma LeafAdded(b: Block, i: nat, key: int, value: nat, M: nat, sep: Sep)
    requires Sized(b, M) && i <= b.num < M && Barren(b)
    ensures var K, b' := KidsOf(b, sep), LeafAdd(b, i, key, value);
      Sized(b', M) && Barren(b') && KidsOf(b', sep) == K[..i] + [Edge(0, Pair(key, value))] + K[i..]
  {
    hide CopySlots;
    var K, b' := KidsOf(b, sep), LeafAdd(b, i, key, value);
    forall j | 0 <= j <= b'.num
      ensures KidsOf(b', sep)[j] == if j < i then K[j] else if j == i then Edge(0, Pair(key, value)) else K[j - 1]
    {
    }
  }

  function LeafDrop(b: Block, i: nat): Block
    requires i < b.num < |b.slots|
  {
    b.(slots := CopySlots(b.slots, i, b.slots, i + 1, b.num - i - 1), num := b.num - 1)
  }

  lemma LeafDropped(b: Block, i: nat, M: nat, sep: Sep)
    requires Sized(b, M) && i < b.num && Barren(b)
    ensures var K, b' := KidsOf(b, sep), LeafDrop(b, i);
      Sized(b', M) && Barren(b') && KidsOf(b', sep) == K[..i] + K[i + 1..]
  {
    hide CopySlots;
    var K, K' := KidsOf(b, sep), KidsOf(LeafDrop(b, i), sep);
    forall j | 0 <= j < |K'|
      ensures K'[j] == (K[..i] + K[i + 1..])[j]
    {
    }
  }

  /** The last key goes when the count is lowered. */
  lemma LeafShortened(b: Block, M: nat, sep: Sep)
    requires Sized(b, M) && 0 < b.num && Barren(b)
    ensures var K, b' := KidsOf(b, sep), b.(num := b.num - 1);
      Sized(b', M) && Barren(b') && KidsOf(b', sep) == K[..b.num - 1] + K[b.num..]
  {
  }
}
