/** A .NET `Dictionary<string, object>` that is only ever added to, modelled as its
    entries in enumeration order: assigning to a new key appends an entry, assigning
    to an existing key replaces that entry's value in place. */
module Dictionaries {
  import opened Outcomes

  datatype Entry<V> = Entry(key: string, value: V)

  type Dictionary<V> = seq<Entry<V>>

  ghost function KeysOf<V>(d: seq<Entry<V>>): set<string>
    decreases |d|
  {
    if |d| == 0 then {} else {d[0].key} + KeysOf(d[1..])
  }

  lemma {:induction false} KeysOfMember<V>(d: seq<Entry<V>>, k: string)
    ensures k in KeysOf(d) <==> exists i :: 0 <= i < |d| && d[i].key == k
    decreases |d|
  {
    if |d| > 0 {
      KeysOfMember(d[1..], k);
      if k in KeysOf(d[1..]) {
        var i :| 0 <= i < |d[1..]| && d[1..][i].key == k;
        assert d[i + 1].key == k;
      }
      if exists i :: 0 <= i < |d| && d[i].key == k {
        var i :| 0 <= i < |d| && d[i].key == k;
        if i > 0 {
          assert d[1..][i - 1].key == k;
        }
      }
    }
  }

  lemma {:induction false} KeysOfAppend<V>(a: seq<Entry<V>>, b: seq<Entry<V>>)
    ensures KeysOf(a + b) == KeysOf(a) + KeysOf(b)
    decreases |a|
  {
    if |a| == 0 {
      assert a + b == b;
    } else {
      assert (a + b)[1..] == a[1..] + b;
      KeysOfAppend(a[1..], b);
    }
  }

  /** No key is held by two entries. */
  predicate DistinctKeys<V>(d: seq<Entry<V>>) {
    forall i, j :: 0 <= i < j < |d| ==> d[i].key != d[j].key
  }

  /** The value the dictionary holds for `k` (the first entry with that key). */
  function Lookup<V>(d: Dictionary<V>, k: string): (r: Option<V>)
    ensures r.None? <==> k !in KeysOf(d)
    decreases |d|
  {
    if |d| == 0 then None
    else if d[0].key == k then Some(d[0].value)
    else (assert d == [d[0]] + d[1..]; Lookup(d[1..], k))
  }

  /** `dict[k] = v`. */
  function Assign<V>(d: Dictionary<V>, k: string, v: V): (r: Dictionary<V>)
    ensures Lookup(r, k) == Some(v)
    ensures forall k' :: k' != k ==> Lookup(r, k') == Lookup(d, k')
    ensures KeysOf(r) == KeysOf(d) + {k}
    ensures DistinctKeys(d) ==> DistinctKeys(r)
    ensures k in KeysOf(d) ==> |r| == |d|
    ensures k !in KeysOf(d) ==> r == d + [Entry(k, v)]
    decreases |d|
  {
    if |d| == 0 then [Entry(k, v)]
    else if d[0].key == k then
      var r := [Entry(k, v)] + d[1..];
      assert r[1..] == d[1..];
      assert DistinctKeys(d) ==> DistinctKeys(r) by {
        if DistinctKeys(d) {
          forall i, j | 0 <= i < j < |r| ensures r[i].key != r[j].key {
            assert r[i].key == d[i].key && r[j].key == d[j].key;
          }
        }
      }
      r
    else
      var rest := Assign(d[1..], k, v);
      var r := [d[0]] + rest;
      assert r[1..] == rest;
      assert DistinctKeys(d) ==> DistinctKeys(r) by {
        if DistinctKeys(d) {
          assert DistinctKeys(d[1..]);
          KeysOfMember(d[1..], d[0].key);
          KeysOfMember(rest, d[0].key);
        }
      }
      assert k !in KeysOf(d) ==> r == d + [Entry(k, v)] by {
        if k !in KeysOf(d) {
          assert d == [d[0]] + d[1..];
        }
      }
      r
  }

  /** Assigning to a key a dictionary already holds replaces that key's entry where it
      stands: every position keeps its entry except the one holding `k`, which now holds `v`. */
  lemma {:induction false} AssignInPlace<V>(d: Dictionary<V>, k: string, v: V)
    requires DistinctKeys(d) && k in KeysOf(d)
    ensures |Assign(d, k, v)| == |d|
    ensures forall i :: 0 <= i < |d| ==> Assign(d, k, v)[i] == if d[i].key == k then Entry(k, v) else d[i]
    decreases |d|
  {
    if d[0].key != k {
      assert DistinctKeys(d[1..]);
      AssignInPlace(d[1..], k, v);
      assert forall i :: 1 <= i < |d| ==> d[1..][i - 1] == d[i];
    }
  }

  /** The value of the last entry of `es` whose key is `k`: an independent reference
      for what a sequence of assignments leaves behind. */
  function LastValue<V>(es: seq<Entry<V>>, k: string): Option<V>
    decreases |es|
  {
    if |es| == 0 then None
    else if es[|es| - 1].key == k then Some(es[|es| - 1].value)
    else LastValue(es[..|es| - 1], k)
  }

  /** Starting from an empty dictionary, assigns every entry of `es` in order. */
  function BuildDictionary<V>(es: seq<Entry<V>>): (r: Dictionary<V>)
    ensures DistinctKeys(r)
    ensures KeysOf(r) == KeysOf(es)
    ensures forall k :: Lookup(r, k) == LastValue(es, k)
    decreases |es|
  {
    if |es| == 0 then []
    else
      var last := es[|es| - 1];
      assert es == es[..|es| - 1] + [last];
      KeysOfAppend(es[..|es| - 1], [last]);
      Assign(BuildDictionary(es[..|es| - 1]), last.key, last.value)
  }

  /** Assigning entries whose keys are already distinct builds exactly those
      entries, in the same order. */
  lemma {:induction false} BuildDistinctIsIdentity<V>(es: seq<Entry<V>>)
    requires DistinctKeys(es)
    ensures BuildDictionary(es) == es
    decreases |es|
  {
    if |es| > 0 {
      var init := es[..|es| - 1];
      var last := es[|es| - 1];
      assert es == init + [last];
      BuildDistinctIsIdentity(init);
      KeysOfMember(init, last.key);
    }
  }
}
