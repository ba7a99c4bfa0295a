/** What the program is granted when it asks for memory, or for room in a file: a function of the request's number. */
module Grants {

  /** Every request from a to before b was granted. */
  ghost predicate Granted(grants: nat -> bool, a: nat, b: nat) {
    forall i :: a <= i < b ==> grants(i)
  }

  lemma GrantedJoin(grants: nat -> bool, a: nat, b: nat, c: nat)
    requires a <= b <= c
    ensures Granted(grants, a, a)
    ensures Granted(grants, a, c) <==> Granted(grants, a, b) && Granted(grants, b, c)
  {
  }

  /** Refused at the last of some requests, or granted all of them. */
  lemma GrantedUpTo(grants: nat -> bool, a: nat, b: nat, c: nat)
    requires a <= b <= c && (Granted(grants, a, b) ==> b == c)
    ensures Granted(grants, a, b) <==> Granted(grants, a, c)
  {
  }

  /**
   M requests are due from number a on; they were made one by one up to before b, until one was refused. When all
   were granted, M things were made, and there are n of them instead of m.
   */
  ghost predicate Asked(grants: nat -> bool, a: nat, b: nat, m: nat, n: nat, M: nat, ok: bool) {
    && a <= b <= a + M
    && (ok <==> Granted(grants, a, b))
    && (ok ==> b == a + M && n == m + M)
  }

  lemma AskedNone(grants: nat -> bool, a: nat, m: nat)
    ensures Asked(grants, a, a, m, m, 0, true)
  {
  }

  lemma AskedThen(grants: nat -> bool, a: nat, b: nat, c: nat, m: nat, n: nat, o: nat, M: nat, K: nat, ok: bool)
    requires Asked(grants, a, b, m, n, M, true) && Asked(grants, b, c, n, o, K, ok)
    ensures Asked(grants, a, c, m, o, M + K, ok)
  {
  }

  /** What is due after a refusal is not asked for, and what was made is given back. */
  lemma AskedRefused(grants: nat -> bool, a: nat, b: nat, m: nat, n: nat, M: nat, K: nat, o: nat)
    requires Asked(grants, a, b, m, n, M, false)
    ensures Asked(grants, a, b, m, o, M + K, false)
  {
  }

  /** One request and what is due after it; after a refusal the thing made first is given back. */
  lemma AskedBoth(grants: nat -> bool, a: nat, b: nat, c: nat, m: nat, n: nat, o: nat, p: nat, M: nat, K: nat, ok: bool)
    requires Asked(grants, a, b, m, n, M, true) && Asked(grants, b, c, n, o, K, ok)
    ensures Asked(grants, a, c, m, if ok then o else p, M + K, ok)
  {
  }

  lemma AskedAll(grants: nat -> bool, a: nat, b: nat, m: nat, n: nat, M: nat, ok: bool)
    requires Asked(grants, a, b, m, n, M, ok)
    ensures a <= b <= a + M && (ok <==> Granted(grants, a, b)) && (ok <==> Granted(grants, a, a + M))
    ensures ok ==> b == a + M && n == m + M
    ensures M == 0 ==> ok
  {
  }
}
