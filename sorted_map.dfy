/**
 * A `BTreeMap` from byte strings to byte strings: its entries in ascending
 * key order, the order its iterator yields them in. Keys are ordered like
 * `Vec<u8>`, lexicographically byte by byte, a proper prefix first.
 */
module SortedMap {
  import opened Wrappers
  import opened Bytes

  /** The lexicographic order of byte strings, strict. */
  predicate Below(a: seq<byte>, b: seq<byte>)
    decreases |a|
  {
    if a == [] then b != []
    else if b == [] then false
    else if a[0] != b[0] then a[0] < b[0]
    else Below(a[1..], b[1..])
  }

  lemma {:induction false} BelowIrreflexive(a: seq<byte>)
    ensures !Below(a, a)
    decreases |a|
  {
    if a != [] {
      BelowIrreflexive(a[1..]);
    }
  }

  lemma {:induction false} BelowTransitive(a: seq<byte>, b: seq<byte>, c: seq<byte>)
    requires Below(a, b) && Below(b, c)
    ensures Below(a, c)
    decreases |a|
  {
    if a != [] && b != [] && c != [] && a[0] == b[0] && b[0] == c[0] {
      BelowTransitive(a[1..], b[1..], c[1..]);
    }
  }

  lemma {:induction false} BelowTotal(a: seq<byte>, b: seq<byte>)
    requires a != b
    ensures Below(a, b) || Below(b, a)
    decreases |a|
  {
    if a != [] && b != [] && a[0] == b[0] {
      assert a == [a[0]] + a[1..] && b == [b[0]] + b[1..];
      BelowTotal(a[1..], b[1..]);
    }
  }

  type Entries = seq<(seq<byte>, seq<byte>)>

  /** Keys strictly ascending, hence distinct. */
  predicate Sorted(e: Entries) {
    forall i, j | 0 <= i < j < |e| :: Below(e[i].0, e[j].0)
  }

  /** `BTreeMap::get` */
  function Get(e: Entries, k: seq<byte>): (r: Option<seq<byte>>)
    ensures r.None? <==> forall i | 0 <= i < |e| :: e[i].0 != k
    ensures r.Some? ==> exists i | 0 <= i < |e| :: e[i] == (k, r.value)
  {
    if e == [] then None
    else if e[0].0 == k then Some(e[0].1)
    else
      var r := Get(e[1..], k);
      assert forall i | 1 <= i < |e| :: e[i] == e[1..][i - 1];
      r
  }

  /** `BTreeMap::insert`: the entry for `k` gets the value `v`, added in key order if new. */
  function Insert(e: Entries, k: seq<byte>, v: seq<byte>): Entries {
    if e == [] then [(k, v)]
    else if e[0].0 == k then [(k, v)] + e[1..]
    else if Below(k, e[0].0) then [(k, v)] + e
    else [e[0]] + Insert(e[1..], k, v)
  }

  /** Inserting keeps the keys ascending, and changes exactly the value of `k`. */
  lemma {:induction false} InsertSpec(e: Entries, k: seq<byte>, v: seq<byte>)
    requires Sorted(e)
    ensures Sorted(Insert(e, k, v))
    ensures Get(Insert(e, k, v), k) == Some(v)
    ensures forall k' | k' != k :: Get(Insert(e, k, v), k') == Get(e, k')
    ensures |Insert(e, k, v)| == if Get(e, k).Some? then |e| else |e| + 1
    decreases |e|
  {
    var r := Insert(e, k, v);
    if e == [] {
    } else if e[0].0 == k {
      forall i, j | 0 <= i < j < |r| ensures Below(r[i].0, r[j].0) {
        assert r[i].0 == e[i].0 && r[j].0 == e[j].0;
      }
      BelowIrreflexive(k);
      assert Get(e, k) == Some(e[0].1);
    } else if Below(k, e[0].0) {
      InsertFrontSorted(e, k, v);
      forall i | 0 <= i < |e| ensures e[i].0 != k {
        if i > 0 {
          BelowTransitive(k, e[0].0, e[i].0);
        }
        BelowIrreflexive(k);
      }
      assert r[1..] == e;
    } else {
      var tail := Insert(e[1..], k, v);
      assert Sorted(e[1..]) by {
        forall i, j | 0 <= i < j < |e[1..]| ensures Below(e[1..][i].0, e[1..][j].0) {
          assert e[1..][i] == e[i + 1] && e[1..][j] == e[j + 1];
        }
      }
      InsertSpec(e[1..], k, v);
      BelowTotal(k, e[0].0);
      InsertAfterHeadSorted(e, k, v);
      assert r == [e[0]] + tail && r[1..] == tail;
    }
  }

  /** A key below every key goes first, and the keys stay ascending. */
  lemma InsertFrontSorted(e: Entries, k: seq<byte>, v: seq<byte>)
    requires Sorted(e) && e != [] && e[0].0 != k && Below(k, e[0].0)
    ensures Sorted(Insert(e, k, v))
  {
    var r := [(k, v)] + e;
    forall i, j | 0 <= i < j < |r| ensures Below(r[i].0, r[j].0) {
      var b := e[j - 1].0;
      if i == 0 {
        if j > 1 {
          assert Below(e[0].0, b);
          BelowTransitive(k, e[0].0, b);
        }
      } else {
        assert Below(e[i - 1].0, b);
      }
    }
    assert Sorted(r);
  }

  /** A key above the first one is inserted into the rest; the first key stays below all of it. */
  lemma InsertAfterHeadSorted(e: Entries, k: seq<byte>, v: seq<byte>)
    requires Sorted(e) && e != [] && e[0].0 != k && !Below(k, e[0].0) && Below(e[0].0, k)
    requires Sorted(Insert(e[1..], k, v))
    ensures Sorted(Insert(e, k, v))
  {
    var r := Insert(e, k, v);
    var tail := Insert(e[1..], k, v);
    assert r == [e[0]] + tail;
    forall i, j | 0 <= i < j < |r| ensures Below(r[i].0, r[j].0) {
      if i == 0 {
        assert r[j] == tail[j - 1];
        InsertedKeys(e[1..], k, v, j - 1);
        if tail[j - 1].0 != k {
          var m :| 0 <= m < |e[1..]| && e[1..][m].0 == tail[j - 1].0;
          assert e[1..][m] == e[m + 1];
        }
      } else {
        assert r[i] == tail[i - 1] && r[j] == tail[j - 1];
      }
    }
  }

  /** A key of the inserted map is `k` or a key of the old one. */
  lemma {:induction false} InsertedKeys(e: Entries, k: seq<byte>, v: seq<byte>, n: nat)
    requires n < |Insert(e, k, v)|
    ensures Insert(e, k, v)[n].0 == k || exists i | 0 <= i < |e| :: e[i].0 == Insert(e, k, v)[n].0
    decreases |e|
  {
    var r := Insert(e, k, v);
    if e != [] && e[0].0 != k && !Below(k, e[0].0) && n > 0 {
      InsertedKeys(e[1..], k, v, n - 1);
      assert r[n] == Insert(e[1..], k, v)[n - 1];
      if r[n].0 != k {
        var i :| 0 <= i < |e[1..]| && e[1..][i].0 == r[n].0;
        assert e[i + 1].0 == r[n].0;
      }
    } else if e != [] && e[0].0 == k && n > 0 {
      assert r[n] == e[n];
    } else if e != [] && e[0].0 != k && Below(k, e[0].0) && n > 0 {
      assert r[n] == e[n - 1];
    }
  }

  /** Adding a key above all present keys appends its entry. */
  lemma {:induction false} InsertAbove(e: Entries, k: seq<byte>, v: seq<byte>)
    requires forall i | 0 <= i < |e| :: Below(e[i].0, k)
    ensures Insert(e, k, v) == e + [(k, v)]
    decreases |e|
  {
    if e != [] {
      BelowIrreflexive(k);
      if Below(k, e[0].0) {
        BelowTransitive(k, e[0].0, k);
      }
      assert forall i | 0 <= i < |e[1..]| :: e[1..][i] == e[i + 1];
      InsertAbove(e[1..], k, v);
      assert [e[0]] + (e[1..] + [(k, v)]) == e + [(k, v)];
    }
  }
}
