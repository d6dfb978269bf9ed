/**
 * `IterExt` of `src/helpers/iter_ext.rs`: collecting an iterator while
 * checking how many items it yields.
 */
module IterExt {
  import opened Wrappers

  /** An iterator over a fixed sequence of items. */
  class Cursor<T> {
    /** The items not yielded yet. */
    var rest: seq<T>

    constructor (items: seq<T>)
      ensures rest == items
    {
      rest := items;
    }

    /** `Iterator::next`. */
    method Next() returns (r: Option<T>)
      modifies this
      ensures old(rest) == [] ==> r.None? && rest == []
      ensures old(rest) != [] ==> r == Some(old(rest)[0]) && rest == old(rest)[1..]
    {
      if rest == [] {
        return None;
      }
      r := Some(rest[0]);
      rest := rest[1..];
    }
  }

  /**
   * `collect_min(n)`: all the items, provided there are at least `n`. A
   * specification function: `ExactlyIsMinAndMax` relates it to the others.
   */
  function CollectMin<T>(items: seq<T>, n: nat): (r: Option<seq<T>>)
    ensures r.Some? <==> n <= |items|
    ensures r.Some? ==> r.value == items
  {
    if |items| >= n then Some(items) else None
  }

  /**
   * Specification of `collect_max(n)` for an iterator yielding `items`; the
   * method `CollectMax` is proved to return it.
   */
  function AtMost<T>(items: seq<T>, n: nat): (r: Option<seq<T>>)
    ensures r.Some? <==> |items| <= n
    ensures r.Some? ==> r.value == items
  {
    if |items| <= n then Some(items) else None
  }

  /**
   * Specification of `collect_exact(n)` for an iterator yielding `items`; the
   * method `CollectExact` is proved to return it.
   */
  function Exactly<T>(items: seq<T>, n: nat): (r: Option<seq<T>>)
    ensures r.Some? <==> |items| == n
    ensures r.Some? ==> r.value == items
  {
    if |items| == n then Some(items) else None
  }

  /** Exactly `n` is at least `n` and at most `n`. */
  lemma ExactlyIsMinAndMax<T>(items: seq<T>, n: nat)
    ensures Exactly(items, n).Some? <==> CollectMin(items, n).Some? && AtMost(items, n).Some?
    ensures Exactly(items, n).Some? ==> Exactly(items, n) == CollectMin(items, n) == AtMost(items, n)
  {
  }

  /**
   * `collect_max(n)`: pulls up to `n` items, then one more to check that the
   * iterator is exhausted; so it pulls at most n + 1 items.
   */
  method CollectMax<T>(it: Cursor<T>, n: nat) returns (r: Option<seq<T>>)
    modifies it
    ensures r == AtMost(old(it.rest), n)
    ensures |old(it.rest)| - |it.rest| == if |old(it.rest)| <= n then |old(it.rest)| else n + 1
    ensures it.rest == old(it.rest)[|old(it.rest)| - |it.rest|..]
  {
    ghost var items0 := it.rest;
    var items: seq<T> := [];
    while |items| < n
      invariant |items| <= n && |items| <= |items0|
      invariant items == items0[..|items|] && it.rest == items0[|items|..]
      decreases n - |items|
    {
      var next := it.Next();
      if next.None? {
        break;
      }
      assert items0[..|items| + 1] == items + [next.value];
      items := items + [next.value];
    }
    var extra := it.Next();
    if extra.Some? {
      return None;
    }
    assert items == items0;
    r := Some(items);
  }

  /** `collect_exact(n)`: `collect_max(n)`, then a check that there were exactly `n`. */
  method CollectExact<T>(it: Cursor<T>, n: nat) returns (r: Option<seq<T>>)
    modifies it
    ensures r == Exactly(old(it.rest), n)
  {
    var items := CollectMax(it, n);
    if items.None? {
      return None;
    }
    r := if |items.value| == n then items else None;
  }
}
