/**
 * The `results_by_description` dictionary the report views and the report
 * utility fill: a key maps to the list of its entries, and the keys keep the
 * order in which they were first inserted (Python dictionaries iterate in
 * insertion order).
 */
module Grouping {

  /** A dictionary of lists: `keys` in insertion order, `lists` the value of each key. */
  datatype Grouped<E> = Grouped(keys: seq<string>, lists: map<string, seq<E>>)

  /** The empty dictionary `{}`. */
  function Empty<E>(): Grouped<E> {
    Grouped([], map[])
  }

  /** No key listed twice, and the listed keys are exactly the dictionary's keys. */
  ghost predicate WellFormed<E>(g: Grouped<E>) {
    && (forall i, j :: 0 <= i < j < |g.keys| ==> g.keys[i] != g.keys[j])
    && (forall k :: k in g.lists <==> k in g.keys)
  }

  /** `if key not in d: d[key] = []` followed by `d[key].append(entry)`. */
  function Insert<E>(g: Grouped<E>, key: string, entry: E): Grouped<E> {
    if key in g.lists then Grouped(g.keys, g.lists[key := g.lists[key] + [entry]])
    else Grouped(g.keys + [key], g.lists[key := [entry]])
  }

  /** The dictionary after inserting every `(key, entry)` pair in order, starting from `{}`. */
  function GroupAll<E>(pairs: seq<(string, E)>): Grouped<E> {
    if pairs == [] then Empty()
    else
      var last := pairs[|pairs| - 1];
      Insert(GroupAll(pairs[..|pairs| - 1]), last.0, last.1)
  }

  /** The entries of the pairs whose key is `key`, in order: an independent reference for one list. */
  function FilterKey<E>(pairs: seq<(string, E)>, key: string): (r: seq<E>)
    ensures |r| <= |pairs|
  {
    if pairs == [] then []
    else
      var last := pairs[|pairs| - 1];
      FilterKey(pairs[..|pairs| - 1], key) + (if last.0 == key then [last.1] else [])
  }

  /** Total number of entries held under the listed keys. */
  function SumLengths<E>(keys: seq<string>, lists: map<string, seq<E>>): nat {
    if keys == [] then 0
    else
      var k := keys[|keys| - 1];
      SumLengths(keys[..|keys| - 1], lists) + (if k in lists then |lists[k]| else 0)
  }

  /** Inserting keeps the dictionary well formed. */
  lemma InsertWellFormed<E>(g: Grouped<E>, key: string, entry: E)
    requires WellFormed(g)
    ensures WellFormed(Insert(g, key, entry))
  {
  }

  /** One more pair for the fold. */
  lemma GroupAllStep<E>(pairs: seq<(string, E)>, i: nat)
    requires i < |pairs|
    ensures GroupAll(pairs[..i + 1]) == Insert(GroupAll(pairs[..i]), pairs[i].0, pairs[i].1)
  {
    assert pairs[..i + 1][..i] == pairs[..i];
  }

  /**
   * The built dictionary has each key once, exactly the keys some pair
   * carries, and under each key exactly the entries with that key, in input
   * order: every entry lands in one list, its own key's.
   */
  lemma {:induction false} GroupAllLists<E>(pairs: seq<(string, E)>)
    ensures WellFormed(GroupAll(pairs))
    ensures forall k :: k in GroupAll(pairs).lists <==> exists i :: 0 <= i < |pairs| && pairs[i].0 == k
    ensures forall k :: k in GroupAll(pairs).lists ==> GroupAll(pairs).lists[k] == FilterKey(pairs, k)
  {
    if pairs != [] {
      var prefix := pairs[..|pairs| - 1];
      var last := pairs[|pairs| - 1];
      GroupAllLists(prefix);
      InsertWellFormed(GroupAll(prefix), last.0, last.1);
      var g := GroupAll(pairs);
      forall k
        ensures k in g.lists <==> exists i :: 0 <= i < |pairs| && pairs[i].0 == k
      {
        if k in g.lists && k != last.0 {
          var i :| 0 <= i < |prefix| && prefix[i].0 == k;
          assert pairs[i] == prefix[i];
        }
        if exists i :: 0 <= i < |pairs| && pairs[i].0 == k {
          var i :| 0 <= i < |pairs| && pairs[i].0 == k;
          if i < |prefix| {
            assert prefix[i] == pairs[i];
          }
        }
      }
      forall k | k in g.lists
        ensures g.lists[k] == FilterKey(pairs, k)
      {
        if k != last.0 {
          assert k in GroupAll(prefix).lists;
        } else if k !in GroupAll(prefix).lists {
          forall i | 0 <= i < |prefix|
            ensures prefix[i].0 != k
          {
          }
          FilterKeyAbsent(prefix, k);
        }
      }
    }
  }

  /** No pair carries the key: nothing is filtered. */
  lemma {:induction false} FilterKeyAbsent<E>(pairs: seq<(string, E)>, key: string)
    requires forall i :: 0 <= i < |pairs| ==> pairs[i].0 != key
    ensures FilterKey(pairs, key) == []
  {
    if pairs != [] {
      var prefix := pairs[..|pairs| - 1];
      forall i | 0 <= i < |prefix|
        ensures prefix[i].0 != key
      {
        assert prefix[i] == pairs[i];
      }
      FilterKeyAbsent(prefix, key);
    }
  }

  /** Filtering distributes over concatenation: entries of the first part come first in each list. */
  lemma {:induction false} FilterKeyAppend<E>(a: seq<(string, E)>, b: seq<(string, E)>, key: string)
    ensures FilterKey(a + b, key) == FilterKey(a, key) + FilterKey(b, key)
  {
    if b == [] {
      assert a + b == a;
    } else {
      assert (a + b)[..|a + b| - 1] == a + b[..|b| - 1];
      FilterKeyAppend(a, b[..|b| - 1], key);
    }
  }

  /** Changing the list of a key that is not listed leaves the sum alone. */
  lemma {:induction false} SumLengthsOther<E>(keys: seq<string>, lists: map<string, seq<E>>, k: string, v: seq<E>)
    requires k !in keys
    ensures SumLengths(keys, lists[k := v]) == SumLengths(keys, lists)
  {
    if keys != [] {
      SumLengthsOther(keys[..|keys| - 1], lists, k, v);
    }
  }

  /** Appending one entry to a listed key's list (the keys being distinct) adds one to the sum. */
  lemma {:induction false} SumLengthsGrow<E>(keys: seq<string>, lists: map<string, seq<E>>, k: string, e: E)
    requires k in lists && k in keys
    requires forall i, j :: 0 <= i < j < |keys| ==> keys[i] != keys[j]
    ensures SumLengths(keys, lists[k := lists[k] + [e]]) == SumLengths(keys, lists) + 1
  {
    var prefix := keys[..|keys| - 1];
    var last := keys[|keys| - 1];
    if last == k {
      assert k !in prefix by {
        forall i | 0 <= i < |prefix|
          ensures prefix[i] != k
        {
          assert prefix[i] == keys[i];
        }
      }
      SumLengthsOther(prefix, lists, k, lists[k] + [e]);
    } else {
      assert k in prefix by {
        var i :| 0 <= i < |keys| && keys[i] == k;
        assert prefix[i] == k;
      }
      SumLengthsGrow(prefix, lists, k, e);
    }
  }

  /** Every pair is counted once across all the lists: the lists hold `|pairs|` entries in total. */
  lemma {:induction false} GroupAllCount<E>(pairs: seq<(string, E)>)
    ensures SumLengths(GroupAll(pairs).keys, GroupAll(pairs).lists) == |pairs|
  {
    if pairs != [] {
      var prefix := pairs[..|pairs| - 1];
      var last := pairs[|pairs| - 1];
      var g := GroupAll(prefix);
      GroupAllCount(prefix);
      GroupAllLists(prefix);
      if last.0 in g.lists {
        SumLengthsGrow(g.keys, g.lists, last.0, last.1);
      } else {
        var keys := g.keys + [last.0];
        assert keys[..|keys| - 1] == g.keys;
        SumLengthsOther(g.keys, g.lists, last.0, [last.1]);
      }
    }
  }

  /**
   * Two loops filling one dictionary, the first part's pairs then the
   * second's: each key once, each list the first part's entries for that key
   * followed by the second part's, and every pair counted exactly once.
   */
  lemma TwoPartLists<E>(a: seq<(string, E)>, b: seq<(string, E)>)
    ensures WellFormed(GroupAll(a + b))
    ensures forall k :: k in GroupAll(a + b).lists ==> GroupAll(a + b).lists[k] == FilterKey(a, k) + FilterKey(b, k)
    ensures forall i :: 0 <= i < |a| ==> a[i].0 in GroupAll(a + b).lists
    ensures forall j :: 0 <= j < |b| ==> b[j].0 in GroupAll(a + b).lists
    ensures SumLengths(GroupAll(a + b).keys, GroupAll(a + b).lists) == |a| + |b|
  {
    var pairs := a + b;
    GroupAllLists(pairs);
    GroupAllCount(pairs);
    forall k | k in GroupAll(pairs).lists
      ensures GroupAll(pairs).lists[k] == FilterKey(a, k) + FilterKey(b, k)
    {
      FilterKeyAppend(a, b, k);
    }
    forall i | 0 <= i < |a|
      ensures a[i].0 in GroupAll(pairs).lists
    {
      assert pairs[i] == a[i];
    }
    forall j | 0 <= j < |b|
      ensures b[j].0 in GroupAll(pairs).lists
    {
      assert pairs[|a| + j] == b[j];
    }
  }
}
