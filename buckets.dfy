/**
 * Summing amounts into the buckets of a Python dict, the pattern
 * `d[k] = d.get(k, 0) + x` run over a list of inputs, each of which names its
 * bucket or is skipped. Nothing here depends on what the keys are.
 */
module Buckets {
  import opened Wrappers
  import opened Dicts
  import opened RealSeqs

  /** One input: the bucket it falls in (`None` when it is skipped) and the amount it adds. */
  type Entry<K> = (Option<K>, real)

  /** One step of the loop: `d[k] = d.get(k, 0) + x` for an entry in bucket `k`, nothing for a skipped one. */
  function Add<K(==)>(d: Dict<K, real>, e: Entry<K>): (d': Dict<K, real>)
    requires d.Valid()
    ensures d'.Valid()
  {
    match e.0
    case None => d
    case Some(k) => d.Put(k, d.Get(k, 0.0) + e.1)
  }

  /** The dict after the entries have been added in order. */
  function Grouped<K(==)>(entries: seq<Entry<K>>): (d: Dict<K, real>)
    ensures d.Valid()
  {
    if |entries| == 0 then Empty()
    else Add(Grouped(entries[..|entries| - 1]), entries[|entries| - 1])
  }

  /** Some entry falls in bucket `k`. */
  ghost predicate Seen<K>(entries: seq<Entry<K>>, k: K)
  {
    exists i :: 0 <= i < |entries| && entries[i].0 == Some(k)
  }

  /** The sum of the amounts of the entries that fall in bucket `k`. */
  function Total<K(==)>(entries: seq<Entry<K>>, k: K): real
  {
    if |entries| == 0 then 0.0
    else
      var e := entries[|entries| - 1];
      Total(entries[..|entries| - 1], k) + (if e.0 == Some(k) then e.1 else 0.0)
  }

  /** The sum of the amounts of all entries that are not skipped. */
  function KeptTotal<K>(entries: seq<Entry<K>>): real
  {
    if |entries| == 0 then 0.0
    else
      var e := entries[|entries| - 1];
      KeptTotal(entries[..|entries| - 1]) + (if e.0.Some? then e.1 else 0.0)
  }

  lemma {:induction false} SeenExtend<K>(entries: seq<Entry<K>>, k: K)
    requires |entries| > 0
    ensures Seen(entries, k) <==>
      Seen(entries[..|entries| - 1], k) || entries[|entries| - 1].0 == Some(k)
  {
    var front := entries[..|entries| - 1];
    if Seen(front, k) {
      var i :| 0 <= i < |front| && front[i].0 == Some(k);
      assert entries[i] == front[i];
    }
    if Seen(entries, k) && entries[|entries| - 1].0 != Some(k) {
      var i :| 0 <= i < |entries| && entries[i].0 == Some(k);
      assert front[i] == entries[i];
    }
  }

  /**
   * A bucket exists exactly for the keys some entry falls in, and it holds the
   * sum of those entries' amounts; a key no entry falls in has total zero.
   */
  lemma {:induction false} GroupedTotals<K>(entries: seq<Entry<K>>, k: K)
    ensures k in Grouped(entries).items <==> Seen(entries, k)
    ensures k in Grouped(entries).items ==> Grouped(entries).items[k] == Total(entries, k)
    ensures k !in Grouped(entries).items ==> Total(entries, k) == 0.0
  {
    if |entries| > 0 {
      GroupedTotals(entries[..|entries| - 1], k);
      SeenExtend(entries, k);
    }
  }

  /** Adding to a bucket that exists changes one value of `d.values()` in place. */
  lemma {:induction false} AddToExisting<K>(d: Dict<K, real>, k: K, x: real) returns (t: nat)
    requires d.Valid() && k in d.items
    ensures t < |d.keys| && d.keys[t] == k
    ensures d.Put(k, d.Get(k, 0.0) + x).Values() == d.Values()[t := d.Values()[t] + x]
  {
    t :| 0 <= t < |d.keys| && d.keys[t] == k;
    var after := d.Put(k, d.Get(k, 0.0) + x);
    var vs := d.Values();
    assert after.keys == d.keys;
    forall i | 0 <= i < |vs|
      ensures after.Values()[i] == vs[t := vs[t] + x][i]
    {
      if i != t {
        assert d.keys[i] != k;
      }
    }
  }

  /** Adding a new bucket appends its value to `d.values()`. */
  lemma {:induction false} AddNew<K>(d: Dict<K, real>, k: K, x: real)
    requires d.Valid() && k !in d.items
    ensures d.Put(k, d.Get(k, 0.0) + x).Values() == d.Values() + [x]
  {
    var after := d.Put(k, d.Get(k, 0.0) + x);
    var vs := d.Values();
    assert after.keys == d.keys + [k];
    assert forall i :: 0 <= i < |d.keys| ==> d.keys[i] != k;
    forall i | 0 <= i < |vs|
      ensures after.Values()[i] == vs[i]
    {
      assert after.keys[i] == d.keys[i];
    }
  }

  /** Appending a value adds it to the sum. */
  lemma {:induction false} SumAppend(vs: seq<real>, x: real)
    ensures Sum(vs + [x]) == Sum(vs) + x
  {
    assert (vs + [x])[..|vs|] == vs;
  }

  /** Adding `x` to a bucket, old or new, adds `x` to the sum of the values. */
  lemma {:induction false} PutSum<K>(d: Dict<K, real>, k: K, x: real)
    requires d.Valid()
    ensures Sum(d.Put(k, d.Get(k, 0.0) + x).Values()) == Sum(d.Values()) + x
  {
    var vs := d.Values();
    var after := d.Put(k, d.Get(k, 0.0) + x);
    if k in d.items {
      var t := AddToExisting(d, k, x);
      var updated := vs[t := vs[t] + x];
      assert after.Values() == updated;
      SumUpdate(vs, t, x);
      assert Sum(after.Values()) == Sum(updated);
    } else {
      AddNew(d, k, x);
      assert after.Values() == vs + [x];
      SumAppend(vs, x);
      assert Sum(after.Values()) == Sum(vs + [x]);
    }
  }

  /** One step adds the entry's amount to the sum of the values, or nothing when the entry is skipped. */
  lemma {:induction false} AddSum<K>(d: Dict<K, real>, e: Entry<K>)
    requires d.Valid()
    ensures Sum(Add(d, e).Values()) == Sum(d.Values()) + (if e.0.Some? then e.1 else 0.0)
  {
    if e.0.Some? {
      var k := e.0.value;
      var after := d.Put(k, d.Get(k, 0.0) + e.1);
      assert Add(d, e) == after;
      PutSum(d, k, e.1);
      assert Sum(after.Values()) == Sum(d.Values()) + e.1;
      assert Sum(Add(d, e).Values()) == Sum(d.Values()) + e.1;
    } else {
      assert Add(d, e) == d;
    }
  }

  /** Nothing is lost or counted twice: the buckets add up to the amounts of all entries that are not skipped. */
  lemma {:induction false} GroupedConserves<K>(entries: seq<Entry<K>>)
    ensures Sum(Grouped(entries).Values()) == KeptTotal(entries)
  {
    if |entries| > 0 {
      GroupedConserves(entries[..|entries| - 1]);
      AddSum(Grouped(entries[..|entries| - 1]), entries[|entries| - 1]);
    }
  }

  /** The dict lists its keys in the order of the first entry of each bucket. */
  lemma {:induction false} KeysInOrderOfFirstEntry<K>(entries: seq<Entry<K>>, i: nat, j: nat, q: nat)
    requires i < j < |Grouped(entries).keys|
    requires q < |entries| && entries[q].0 == Some(Grouped(entries).keys[j])
    ensures exists p :: 0 <= p < q && entries[p].0 == Some(Grouped(entries).keys[i])
  {
    var front := entries[..|entries| - 1];
    var before := Grouped(front);
    var keys := Grouped(entries).keys;
    assert keys == before.keys || keys == before.keys + [entries[|entries| - 1].0.value];
    assert keys[i] == before.keys[i];
    if q < |front| {
      assert front[q] == entries[q];
      GroupedTotals(front, keys[j]);
      if j < |before.keys| {
        assert keys[j] == before.keys[j];
        KeysInOrderOfFirstEntry(front, i, j, q);
        var p :| 0 <= p < q && front[p].0 == Some(keys[i]);
        assert entries[p] == front[p];
      } else {
        // keys[j] was added by the last entry, so no earlier entry falls in its bucket
        assert false;
      }
    } else {
      GroupedTotals(front, keys[i]);
      if j < |before.keys| {
        // the last entry fell in an existing bucket, which had an earlier entry
        assert keys[j] == before.keys[j];
        GroupedTotals(front, keys[j]);
        var q' :| 0 <= q' < |front| && front[q'].0 == Some(keys[j]);
        KeysInOrderOfFirstEntry(front, i, j, q');
        var p :| 0 <= p < q' && front[p].0 == Some(keys[i]);
        assert entries[p] == front[p];
      } else {
        var p :| 0 <= p < |front| && front[p].0 == Some(keys[i]);
        assert entries[p] == front[p];
      }
    }
  }
}
