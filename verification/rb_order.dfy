/**
The two comparisons a tree can be built with: plain key order, and the timers' order, in which the difference of two
unsigned keys is read as a signed number of the same width so that keys may wrap around.
*/
module RbOrder {

  /** s with x put in at index d. */
  function Added<T>(s: seq<T>, d: int, x: T): (r: seq<T>)
    requires 0 <= d <= |s|
    ensures |r| == |s| + 1 && r[d] == x && forall y {:trigger y in r} :: y in r ==> y in s || y == x
  {
    s[..d] + [x] + s[d..]
  }

  /** s without the element at index d. */
  function Without<T>(s: seq<T>, d: int): (r: seq<T>)
    requires 0 <= d < |s|
    ensures |r| == |s| - 1 && forall y {:trigger y in r} :: y in r ==> y in s
  {
    s[..d] + s[d + 1..]
  }

  /** Keys are less than 2 * half. */
  function Less(timer: bool, half: nat, a: nat, b: nat): bool
    requires half > 0
  {
    if timer then (a - b) % (2 * half) >= half else a < b
  }

  /** How far k lies past base, counting on through the wrap-around. */
  function Offset(half: nat, base: nat, k: nat): int
    requires half > 0
  {
    (k - base) % (2 * half)
  }

  function Rank(timer: bool, half: nat, base: nat, k: nat): int
    requires half > 0
  {
    if timer then Offset(half, base, k) else k
  }

  /** Timer keys lie in a window from base that is shorter than half the range. */
  ghost predicate Fits(timer: bool, half: nat, base: nat, k: nat)
    requires half > 0
  {
    k < 2 * half && base < 2 * half && (timer ==> Offset(half, base, k) < half)
  }

  ghost predicate AllFit(timer: bool, half: nat, base: nat, keys: seq<nat>)
    requires half > 0
  {
    forall i :: 0 <= i < |keys| ==> Fits(timer, half, base, keys[i])
  }

  /** No key is less than one before it. */
  ghost predicate Sorted(timer: bool, half: nat, keys: seq<nat>)
    requires half > 0
  {
    forall i, j :: 0 <= i < j < |keys| ==> !Less(timer, half, keys[j], keys[i])
  }

  lemma Wrap(w: int, x: int)
    requires w > 0 && -w <= x < w
    ensures x % w == if x < 0 then x + w else x
  {
    if x == -w { assert x == (-1) * w; }
    else if x < 0 { assert (x + w) % w == x + w; }
  }

  /** Inside a window the signed difference orders keys by their offsets from its base. */
  lemma LessIsByRank(timer: bool, half: nat, base: nat, a: nat, b: nat)
    requires half > 0 && Fits(timer, half, base, a) && Fits(timer, half, base, b)
    ensures Less(timer, half, a, b) <==> Rank(timer, half, base, a) < Rank(timer, half, base, b)
  {
    Wrap(2 * half, a - b);
    Wrap(2 * half, a - base);
    Wrap(2 * half, b - base);
  }

  /** The ranks of the keys do not decrease. */
  ghost predicate ByRank(timer: bool, half: nat, base: nat, keys: seq<nat>)
    requires half > 0
  {
    forall i, j :: 0 <= i < j < |keys| ==> Rank(timer, half, base, keys[i]) <= Rank(timer, half, base, keys[j])
  }

  /** A sequence is sorted exactly when its ranks do not decrease. */
  lemma SortedIsByRank(timer: bool, half: nat, base: nat, keys: seq<nat>)
    requires half > 0 && AllFit(timer, half, base, keys)
    ensures Sorted(timer, half, keys) <==> ByRank(timer, half, base, keys)
  {
    forall i, j | 0 <= i < j < |keys|
      ensures !Less(timer, half, keys[j], keys[i]) <==>
        Rank(timer, half, base, keys[i]) <= Rank(timer, half, base, keys[j])
    {
      LessIsByRank(timer, half, base, keys[j], keys[i]);
    }
  }

  /** The place of key: after every key not above it, before every key above it. */
  ghost predicate Placed(timer: bool, half: nat, keys: seq<nat>, key: nat, lo: int, hi: int)
    requires half > 0 && 0 <= lo <= hi <= |keys|
  {
    && (forall i :: 0 <= i < lo ==> !Less(timer, half, key, keys[i]))
    && (forall i :: hi <= i < |keys| ==> Less(timer, half, key, keys[i]))
  }

  lemma Narrow(timer: bool, half: nat, base: nat, keys: seq<nat>, key: nat, lo: int, hi: int, k: int)
    requires half > 0 && 0 <= lo <= k < hi <= |keys|
    requires Sorted(timer, half, keys) && Placed(timer, half, keys, key, lo, hi)
    requires AllFit(timer, half, base, keys) && Fits(timer, half, base, key)
    ensures if Less(timer, half, key, keys[k]) then Placed(timer, half, keys, key, lo, k)
            else Placed(timer, half, keys, key, k + 1, hi)
  {
    LessIsByRank(timer, half, base, key, keys[k]);
    hide Less, Rank, Fits;
    forall i | lo <= i < hi
      ensures i > k && Less(timer, half, key, keys[k]) ==> Less(timer, half, key, keys[i])
      ensures i < k && !Less(timer, half, key, keys[k]) ==> !Less(timer, half, key, keys[i])
    {
      LessIsByRank(timer, half, base, key, keys[i]);
      if i > k { LessIsByRank(timer, half, base, keys[i], keys[k]); }
      if i < k { LessIsByRank(timer, half, base, keys[k], keys[i]); }
    }
  }

  lemma Irreflexive(timer: bool, half: nat, base: nat, keys: seq<nat>, key: nat, j: int)
    requires half > 0 && 0 <= j < |keys|
    requires AllFit(timer, half, base, keys) && Fits(timer, half, base, key)
    requires Less(timer, half, key, keys[j])
    ensures !Less(timer, half, keys[j], key)
  {
    LessIsByRank(timer, half, base, key, keys[j]);
    LessIsByRank(timer, half, base, keys[j], key);
  }

  lemma PlacedSorted(timer: bool, half: nat, base: nat, keys: seq<nat>, key: nat, d: int)
    requires half > 0 && 0 <= d <= |keys| && Sorted(timer, half, keys) && Placed(timer, half, keys, key, d, d)
    requires AllFit(timer, half, base, keys) && Fits(timer, half, base, key)
    ensures Sorted(timer, half, Added(keys, d, key))
  {
    var r := Added(keys, d, key);
    hide Less, Fits;
    forall i, j | 0 <= i < j < |r|
      ensures !Less(timer, half, r[j], r[i])
    {
      if i == d { Irreflexive(timer, half, base, keys, key, j - 1); }
    }
  }

  lemma DropSorted(timer: bool, half: nat, keys: seq<nat>, d: int)
    requires half > 0 && 0 <= d < |keys| && Sorted(timer, half, keys)
    ensures Sorted(timer, half, Without(keys, d))
  {
    hide Less;
  }
}
