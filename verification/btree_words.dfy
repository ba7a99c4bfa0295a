/**
Keys of several words. The rest of the B+tree model takes a key for the number its words spell, the first word on top;
longcmp of lib_btree/btree.c orders keys exactly as those numbers.
*/
module BtreeWords {

  /** One more than the greatest value of a word. */
  const BASE := 0x1_0000_0000_0000_0000

  function Number(ws: seq<nat>): nat {
    if ws == [] then 0 else Number(ws[..|ws| - 1]) * BASE + ws[|ws| - 1]
  }

  predicate Words(ws: seq<nat>) {
    forall i :: 0 <= i < |ws| ==> ws[i] < BASE
  }

  /** The first words that differ decide. */
  lemma {:induction false} FirstDiffers(a: seq<nat>, b: seq<nat>, i: nat)
    requires |a| == |b| && Words(a) && Words(b) && i < |a| && a[..i] == b[..i] && a[i] < b[i]
    ensures Number(a) < Number(b)
    decreases |a|
  {
    var m := |a| - 1;
    if i < m {
      assert a[..m][..i] == a[..i] && b[..m][..i] == b[..i];
      FirstDiffers(a[..m], b[..m], i);
    }
  }

  /** longcmp */
  method Longcmp(l1: seq<nat>, l2: seq<nat>, n: nat) returns (r: int)
    requires |l1| == |l2| == n && Words(l1) && Words(l2)
    ensures r < 0 <==> Number(l1) < Number(l2)
    ensures r == 0 <==> Number(l1) == Number(l2)
    ensures r == 0 <==> l1 == l2
  {
    var i := 0;
    while i < n
      invariant 0 <= i <= n && l1[..i] == l2[..i]
    {
      if l1[i] < l2[i] {
        FirstDiffers(l1, l2, i);
        return -1;
      }
      if l1[i] > l2[i] {
        FirstDiffers(l2, l1, i);
        return 1;
      }
      i := i + 1;
    }
    assert l1[..n] == l1 && l2[..n] == l2;
    return 0;
  }
}
