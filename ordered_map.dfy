/**
 * Python's `dict`: a finite map that remembers the order in which its keys
 * were first inserted. Assigning to a key that is already present replaces
 * its value and keeps its position.
 */
module OrderedMaps {
  import opened Wrappers

  datatype OMap<K(==,!new), V> = OMap(keys: seq<K>, m: map<K, V>) {

    /** Keys are listed once each, and exactly the keys of the map are listed. */
    ghost predicate Valid() {
      && (forall i, j :: 0 <= i < j < |keys| ==> keys[i] != keys[j])
      && (forall k :: k in m <==> k in keys)
    }

    /** `d[k] = v`. */
    function Put(k: K, v: V): (r: OMap<K, V>)
      requires Valid()
      ensures r.Valid()
      ensures r.m == m[k := v]
      ensures k in m ==> r.keys == keys
      ensures k !in m ==> r.keys == keys + [k]
    {
      if k in m then OMap(keys, m[k := v]) else OMap(keys + [k], m[k := v])
    }

    /** `d.values()`, in key order. */
    function Values(): (r: seq<V>)
      requires Valid()
      ensures |r| == |keys|
      ensures forall i :: 0 <= i < |keys| ==> r[i] == m[keys[i]]
    {
      seq(|keys|, i requires 0 <= i < |keys| => m[keys[i]])
    }
  }

  /** A value is among `d.values()` exactly when some key maps to it. */
  lemma ValuesMember<K(!new), V>(d: OMap<K, V>, v: V)
    requires d.Valid()
    ensures v in d.Values() <==> exists k :: k in d.m && d.m[k] == v
  {
    var vs := d.Values();
    if v in vs {
      var i :| 0 <= i < |vs| && vs[i] == v;
      assert d.keys[i] in d.m;
    }
    if exists k :: k in d.m && d.m[k] == v {
      var k :| k in d.m && d.m[k] == v;
      var i :| 0 <= i < |d.keys| && d.keys[i] == k;
      assert vs[i] == v;
    }
  }

  function Empty<K(==,!new), V>(): (r: OMap<K, V>)
    ensures r.Valid() && r.keys == [] && r.m == map[]
  {
    OMap([], map[])
  }

  /** `d[k] = d[k] + [v]` on a `defaultdict` of lists: append `v` to the bucket of `k`. */
  function Append<K(==,!new), V>(d: OMap<K, seq<V>>, k: K, v: V): (r: OMap<K, seq<V>>)
    requires d.Valid()
    ensures r.Valid()
  {
    d.Put(k, (if k in d.m then d.m[k] else []) + [v])
  }

  /** The buckets a `defaultdict(list)` holds after appending every (key, value) entry in order. */
  function Group<K(==,!new), V>(entries: seq<(K, V)>): (r: OMap<K, seq<V>>)
    ensures r.Valid()
    decreases |entries|
  {
    if entries == [] then Empty()
    else
      var last := entries[|entries| - 1];
      Append(Group(entries[..|entries| - 1]), last.0, last.1)
  }

  /** The values of the entries whose key is `k`, in order. */
  function ValuesFor<K(==,!new), V>(entries: seq<(K, V)>, k: K): seq<V>
    decreases |entries|
  {
    if entries == [] then []
    else
      var last := entries[|entries| - 1];
      ValuesFor(entries[..|entries| - 1], k) + (if last.0 == k then [last.1] else [])
  }

  /** Grouping: a key has a bucket exactly when some entry has that key, and the bucket
      holds that key's values in entry order, one per entry. */
  lemma {:induction false} GroupSpec<K(!new), V>(entries: seq<(K, V)>, k: K)
    ensures k in Group(entries).m <==> exists i :: 0 <= i < |entries| && entries[i].0 == k
    ensures k in Group(entries).m ==> Group(entries).m[k] == ValuesFor(entries, k)
    ensures k !in Group(entries).m ==> ValuesFor(entries, k) == []
    decreases |entries|
  {
    if entries != [] {
      var init := entries[..|entries| - 1];
      GroupSpec(init, k);
      GroupSpecStep(entries, init, k);
    }
  }

  lemma GroupSpecStep<K(!new), V>(entries: seq<(K, V)>, init: seq<(K, V)>, k: K)
    requires entries != [] && init == entries[..|entries| - 1]
    requires k in Group(init).m <==> exists i :: 0 <= i < |init| && init[i].0 == k
    requires k in Group(init).m ==> Group(init).m[k] == ValuesFor(init, k)
    requires k !in Group(init).m ==> ValuesFor(init, k) == []
    ensures k in Group(entries).m <==> exists i :: 0 <= i < |entries| && entries[i].0 == k
    ensures k in Group(entries).m ==> Group(entries).m[k] == ValuesFor(entries, k)
    ensures k !in Group(entries).m ==> ValuesFor(entries, k) == []
  {
    var last := entries[|entries| - 1];
    assert Group(entries) == Append(Group(init), last.0, last.1);
    assert ValuesFor(entries, k) == ValuesFor(init, k) + (if last.0 == k then [last.1] else []);
    if exists i :: 0 <= i < |init| && init[i].0 == k {
      var i :| 0 <= i < |init| && init[i].0 == k;
      assert entries[i] == init[i];
    }
    if exists i :: 0 <= i < |entries| && entries[i].0 == k {
      var i :| 0 <= i < |entries| && entries[i].0 == k;
      if i < |init| { assert init[i] == entries[i]; }
    }
  }

  /** Appending one more entry appends its value to its key's bucket. */
  lemma GroupSnoc<K(!new), V>(entries: seq<(K, V)>, e: (K, V))
    ensures Group(entries + [e]) == Append(Group(entries), e.0, e.1)
  {
    assert (entries + [e])[..|entries|] == entries;
  }

  /** Selecting a key's values distributes over concatenation of entry lists. */
  lemma {:induction false} ValuesForAppend<K(!new), V>(a: seq<(K, V)>, b: seq<(K, V)>, k: K)
    ensures ValuesFor(a + b, k) == ValuesFor(a, k) + ValuesFor(b, k)
    decreases |b|
  {
    if b == [] {
      assert a + b == a;
    } else {
      var init := b[..|b| - 1];
      assert (a + b)[..|a + b| - 1] == a + init;
      assert (a + b)[|a + b| - 1] == b[|b| - 1];
      ValuesForAppend(a, init, k);
    }
  }

  /** `n` copies of `x`. */
  function Repeat<T>(x: T, n: nat): (r: seq<T>)
    ensures |r| == n && forall i :: 0 <= i < n ==> r[i] == x
  {
    if n == 0 then [] else Repeat(x, n - 1) + [x]
  }

  /** The entries `(k, v)` for each `Some(k)` among `ks`, in order. */
  function Tagged<K, V>(ks: seq<Option<K>>, v: V): seq<(K, V)>
    decreases |ks|
  {
    if ks == [] then []
    else
      Tagged(ks[..|ks| - 1], v) +
      (match ks[|ks| - 1] case Some(k) => [(k, v)] case None => [])
  }

  /** How many of `ks` are `Some(k)`. */
  function CountSome<K(==)>(ks: seq<Option<K>>, k: K): nat
    decreases |ks|
  {
    if ks == [] then 0
    else CountSome(ks[..|ks| - 1], k) + (if ks[|ks| - 1] == Some(k) then 1 else 0)
  }

  lemma {:induction false} ValuesForTagged<K(!new), V>(ks: seq<Option<K>>, v: V, k: K)
    ensures ValuesFor(Tagged(ks, v), k) == Repeat(v, CountSome(ks, k))
    decreases |ks|
  {
    if ks != [] {
      ValuesForTagged(ks[..|ks| - 1], v, k);
      ValuesForTaggedStep(ks, v, k);
    }
  }

  lemma ValuesForTaggedStep<K(!new), V>(ks: seq<Option<K>>, v: V, k: K)
    requires ks != []
    requires ValuesFor(Tagged(ks[..|ks| - 1], v), k) == Repeat(v, CountSome(ks[..|ks| - 1], k))
    ensures ValuesFor(Tagged(ks, v), k) == Repeat(v, CountSome(ks, k))
  {
    var init := ks[..|ks| - 1];
    var tail: seq<(K, V)> := match ks[|ks| - 1] case Some(k') => [(k', v)] case None => [];
    assert Tagged(ks, v) == Tagged(init, v) + tail;
    ValuesForAppend(Tagged(init, v), tail, k);
    if ks[|ks| - 1] == Some(k) {
      assert tail == [(k, v)] && tail[..0] == [];
      assert ValuesFor(tail, k) == [v];
      assert CountSome(ks, k) == CountSome(init, k) + 1;
    } else {
      assert ValuesFor(tail, k) == [] by {
        if tail != [] { assert tail[..0] == []; }
      }
      assert CountSome(ks, k) == CountSome(init, k);
    }
  }

  lemma {:induction false} CountSomeSpec<K>(ks: seq<Option<K>>, k: K)
    ensures CountSome(ks, k) > 0 <==> Some(k) in ks
    decreases |ks|
  {
    if ks != [] {
      CountSomeSpec(ks[..|ks| - 1], k);
      assert ks == ks[..|ks| - 1] + [ks[|ks| - 1]];
    }
  }

  /** A key some entry carries selects at least one value. */
  lemma {:induction false} ValuesForWitness<K(!new), V>(e: seq<(K, V)>, k: K, i: nat)
    requires i < |e| && e[i].0 == k
    ensures ValuesFor(e, k) != []
    decreases |e|
  {
    if i < |e| - 1 {
      assert e[..|e| - 1][i] == e[i];
      ValuesForWitness(e[..|e| - 1], k, i);
    }
  }

  /** Filing one more tagged value: a `Some(k)` appends the value to `k`'s bucket, a `None` changes nothing. */
  lemma GroupTaggedSnoc<K(!new), V>(before: seq<(K, V)>, ks: seq<Option<K>>, x: Option<K>, v: V)
    ensures x.Some? ==> Group(before + Tagged(ks + [x], v)) == Append(Group(before + Tagged(ks, v)), x.value, v)
    ensures x.None? ==> Group(before + Tagged(ks + [x], v)) == Group(before + Tagged(ks, v))
  {
    assert (ks + [x])[..|ks|] == ks;
    if x.Some? {
      assert before + Tagged(ks + [x], v) == (before + Tagged(ks, v)) + [(x.value, v)];
      GroupSnoc(before + Tagged(ks, v), (x.value, v));
    } else {
      assert before + Tagged(ks + [x], v) == before + Tagged(ks, v);
    }
  }
}
