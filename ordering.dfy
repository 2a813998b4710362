/**
 * The row order the store produces for `orderBy: { <key>: "asc" }` over rows keyed
 * by id. Rows with equal sort keys come in ascending id order, which fixes the one
 * order the store leaves open.
 */
module Ordering {

  /** Row `a` comes strictly before row `b` when ordered by `key`. */
  predicate Before(key: map<nat, int>, a: nat, b: nat)
  {
    a in key && b in key && (key[a] < key[b] || (key[a] == key[b] && a < b))
  }

  /** Every element of `xs` is a row of `key`, and `xs` is strictly ascending. */
  predicate Ascending(key: map<nat, int>, xs: seq<nat>)
  {
    && (forall i :: 0 <= i < |xs| ==> xs[i] in key)
    && (forall i, j :: 0 <= i < j < |xs| ==> Before(key, xs[i], xs[j]))
  }

  /** Row `m` comes no later than any row of `key`. */
  predicate IsFirst(key: map<nat, int>, m: nat)
  {
    m in key && forall k :: k in key && k != m ==> Before(key, m, k)
  }

  lemma {:induction false} FirstExists(key: map<nat, int>)
    requires key != map[]
    ensures exists m :: IsFirst(key, m)
    decreases key.Keys
  {
    var x :| x in key;
    var rest := key - {x};
    assert forall k :: k in key && k != x ==> k in rest && rest[k] == key[k];
    if rest == map[] {
      assert rest.Keys == {};
      assert IsFirst(key, x);
    } else {
      FirstExists(rest);
      var m :| IsFirst(rest, m);
      assert forall k :: k in rest && k != m ==> Before(key, m, k);
      if Before(key, x, m) {
        assert IsFirst(key, x);
      } else {
        assert IsFirst(key, m);
      }
    }
  }

  /** The first row of `key` in the store's order. */
  function First(key: map<nat, int>): (m: nat)
    requires key != map[]
    ensures IsFirst(key, m)
  {
    FirstExists(key);
    var m :| IsFirst(key, m);
    m
  }

  /** All rows of `key`, each exactly once, in ascending order of their sort key. */
  function OrderBy(key: map<nat, int>): (r: seq<nat>)
    ensures forall k :: k in key <==> k in r
    ensures Ascending(key, r)
    decreases key.Keys
  {
    if key == map[] then []
    else
      var m := First(key);
      [m] + OrderBy(key - {m})
  }

  /** Ascending order means non-decreasing sort keys and no row listed twice. */
  lemma AscendingMeans(key: map<nat, int>, xs: seq<nat>, i: int, j: int)
    requires Ascending(key, xs)
    requires 0 <= i < j < |xs|
    ensures key[xs[i]] <= key[xs[j]]
    ensures xs[i] != xs[j]
  {
  }
}
