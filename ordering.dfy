/**
 * Ordering of result rows by their creation timestamp, newest first, as the listing
 * queries ask of the database engine. Rows with equal timestamps may come in any order.
 */
module Ordering {

  /** Every row's key is at least the key of every later row. */
  ghost predicate NonIncreasing<T>(s: seq<T>, key: T -> int) {
    forall i, j :: 0 <= i < j < |s| ==> key(s[i]) >= key(s[j])
  }

  /** No two rows share an identity: the rows list each key column value at most once. */
  ghost predicate Distinct<T, K>(s: seq<T>, ident: T -> K) {
    forall i, j :: 0 <= i < j < |s| ==> ident(s[i]) != ident(s[j])
  }

  /**
   * The place where a row with key `k` goes in the ordered rows `s`:
   * everything before it has a key at least `k`, everything from it on a smaller key.
   */
  function InsertionPoint<T>(s: seq<T>, key: T -> int, k: int): (p: nat)
    requires NonIncreasing(s, key)
    ensures p <= |s|
    ensures forall i :: 0 <= i < p ==> key(s[i]) >= k
    ensures forall i :: p <= i < |s| ==> key(s[i]) < k
  {
    if s == [] || key(s[0]) < k then 0
    else 1 + InsertionPoint(s[1..], key, k)
  }

  /**
   * Putting a row at its insertion point keeps the rows ordered, adds exactly that row,
   * and keeps identities distinct when the new row's identity was not yet listed.
   */
  lemma InsertKeepsOrder<T, K>(s: seq<T>, key: T -> int, ident: T -> K, x: T, p: nat)
    requires NonIncreasing(s, key) && Distinct(s, ident)
    requires p <= |s|
    requires forall i :: 0 <= i < p ==> key(s[i]) >= key(x)
    requires forall i :: p <= i < |s| ==> key(s[i]) <= key(x)
    requires forall i :: 0 <= i < |s| ==> ident(s[i]) != ident(x)
    ensures var r := s[..p] + [x] + s[p..];
      && NonIncreasing(r, key)
      && Distinct(r, ident)
      && (forall y :: y in r <==> y in s || y == x)
  {
  }
}
