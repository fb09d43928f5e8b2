/** Python's insertion-ordered `dict`, as the core uses it: a map together with
    the order in which its keys were first inserted. Iteration order matters in
    the core (the layout of a join, the order of evaluated columns), so it is
    kept explicitly. */
module Dicts {
  import opened Common

  datatype Dict<K, V> = Dict(keys: seq<K>, items: map<K, V>) {

    /** The keys listed are exactly the keys present, each listed once. */
    predicate Valid() {
      Distinct(keys) && items.Keys == Elements(keys)
    }

    /** `dict.values()`: the values in key order. */
    function Values(): (vs: seq<V>)
      requires Valid()
      ensures |vs| == |keys|
      ensures forall i :: 0 <= i < |keys| ==> keys[i] in items && vs[i] == items[keys[i]]
    {
      seq(|keys|, i requires 0 <= i < |keys| => items[keys[i]])
    }
  }

  function Empty<K, V>(): (d: Dict<K, V>)
    ensures d.Valid() && d.keys == [] && d.items == map[]
  {
    Dict([], map[])
  }

  /** `d[k] = v`: a new key goes to the end of the order, an existing key keeps
      its place and only its value changes. */
  function Put<K, V>(d: Dict<K, V>, k: K, v: V): (r: Dict<K, V>)
    requires d.Valid()
    ensures r.Valid()
    ensures r.items == d.items[k := v]
    ensures k in d.items ==> r.keys == d.keys
    ensures k !in d.items ==> r.keys == d.keys + [k]
  {
    if k in d.items then Dict(d.keys, d.items[k := v])
    else Dict(d.keys + [k], d.items[k := v])
  }

  /** The elements of `s` in order of first occurrence. */
  function Dedup<K(==)>(s: seq<K>): (r: seq<K>)
    ensures Distinct(r) && Elements(r) == Elements(s)
  {
    if s == [] then []
    else
      var p := Dedup(s[..|s| - 1]);
      assert Elements(s) == Elements(s[..|s| - 1]) + {s[|s| - 1]} by {
        assert s == s[..|s| - 1] + [s[|s| - 1]];
      }
      if s[|s| - 1] in p then p else p + [s[|s| - 1]]
  }

  lemma {:induction false} DedupOfDistinct<K>(s: seq<K>)
    requires Distinct(s)
    ensures Dedup(s) == s
  {
    if s != [] {
      var init := s[..|s| - 1];
      assert Distinct(init);
      DedupOfDistinct(init);
      assert s[|s| - 1] !in init;
      assert s == init + [s[|s| - 1]];
    }
  }

  /** Position `i` holds the last occurrence of its key. */
  predicate IsLast<K(==)>(ks: seq<K>, i: nat)
    requires i < |ks|
  {
    forall j :: i < j < |ks| ==> ks[j] != ks[i]
  }

  /** The last position holding the same element as position `a`. */
  function LastWith<K(==)>(ks: seq<K>, a: nat): (i: nat)
    requires a < |ks|
    ensures a <= i < |ks| && ks[i] == ks[a] && IsLast(ks, i)
    decreases |ks| - a
  {
    if IsLast(ks, a) then a
    else
      var j :| a < j < |ks| && ks[j] == ks[a];
      LastWith(ks, j)
  }

  /** `{ks[i]: vs[i] for i in range(len(ks))}`, inserted left to right: keys in
      order of first insertion, each holding the value written last. */
  function FromPairs<K, V>(ks: seq<K>, vs: seq<V>): (r: Dict<K, V>)
    requires |ks| == |vs|
    ensures r.Valid()
    ensures r.keys == Dedup(ks)
  {
    if ks == [] then Empty()
    else
      var n := |ks| - 1;
      var d := FromPairs(ks[..n], vs[..n]);
      var r := Put(d, ks[n], vs[n]);
      assert r.keys == Dedup(ks) by {
        assert ks[..|ks| - 1] == ks[..n];
        assert (ks[n] in d.items) == (ks[n] in d.keys);
      }
      r
  }

  /** Every key holds the value written last under it. */
  lemma {:induction false} FromPairsLast<K, V>(ks: seq<K>, vs: seq<V>, i: nat)
    requires |ks| == |vs| && i < |ks| && IsLast(ks, i)
    ensures ks[i] in FromPairs(ks, vs).items && FromPairs(ks, vs).items[ks[i]] == vs[i]
  {
    var n := |ks| - 1;
    if i < n {
      assert IsLast(ks[..n], i);
      FromPairsLast(ks[..n], vs[..n], i);
      assert ks[..n][i] == ks[i] && vs[..n][i] == vs[i];
    }
  }

  /** Writing one more pair: the loop form of `FromPairs`. */
  lemma FromPairsStep<K, V>(ks: seq<K>, vs: seq<V>, i: nat)
    requires |ks| == |vs| && i < |ks|
    ensures FromPairs(ks[..i + 1], vs[..i + 1]) == Put(FromPairs(ks[..i], vs[..i]), ks[i], vs[i])
  {
    assert ks[..i + 1][..i] == ks[..i] && vs[..i + 1][..i] == vs[..i];
  }

  /** With distinct keys, the order is exactly the given one and every key maps
      to its own value. */
  lemma FromDistinctPairs<K, V>(ks: seq<K>, vs: seq<V>)
    requires |ks| == |vs| && Distinct(ks)
    ensures FromPairs(ks, vs).keys == ks
    ensures forall i :: 0 <= i < |ks| ==> FromPairs(ks, vs).items[ks[i]] == vs[i]
  {
    DedupOfDistinct(ks);
    forall i | 0 <= i < |ks|
      ensures FromPairs(ks, vs).items[ks[i]] == vs[i]
    {
      FromPairsLast(ks, vs, i);
    }
  }

  /** Every key present holds the value of the last pair written under it. */
  lemma FromPairsValues<K, V>(ks: seq<K>, vs: seq<V>, k: K)
    requires |ks| == |vs| && k in FromPairs(ks, vs).items
    ensures exists i :: 0 <= i < |ks| && ks[i] == k && IsLast(ks, i) && FromPairs(ks, vs).items[k] == vs[i]
  {
    assert k in Elements(Dedup(ks));
    var a :| 0 <= a < |ks| && ks[a] == k;
    var i := LastWith(ks, a);
    FromPairsLast(ks, vs, i);
  }

  /** The failure of the first of the first `j` steps that failed, if any. */
  function FirstFailure<V>(ms: seq<Result<V>>, j: nat): (e: Option<Error>)
    requires j <= |ms|
    ensures e.None? <==> forall q :: 0 <= q < j ==> ms[q].Ok?
    ensures e.Some? ==> exists q :: 0 <= q < j && ms[q] == Err(e.value)
  {
    if j == 0 then None
    else if FirstFailure(ms, j - 1).Some? then FirstFailure(ms, j - 1)
    else if ms[j - 1].Err? then Some(ms[j - 1].error)
    else None
  }

  /** Once some step has failed, later steps change nothing. */
  lemma {:induction false} FirstFailureStays<V>(ms: seq<Result<V>>, j: nat, m: nat)
    requires j <= m <= |ms| && FirstFailure(ms, j).Some?
    ensures FirstFailure(ms, m) == FirstFailure(ms, j)
    decreases m
  {
    if m > j {
      FirstFailureStays(ms, j, m - 1);
    }
  }

  /** The dictionary built by the first `j` steps of a loop that stores the
      value of step `q` under `ks[q]`, when none of them failed. */
  function Built<K, V>(ks: seq<K>, ms: seq<Result<V>>, j: nat): (d: Dict<K, V>)
    requires |ks| == |ms| && Distinct(ks) && j <= |ks|
    requires forall q :: 0 <= q < j ==> ms[q].Ok?
    ensures d.Valid() && d.keys == ks[..j]
    ensures forall q :: 0 <= q < j ==> d.items[ks[q]] == ms[q].value
  {
    if j == 0 then Empty()
    else
      var d := Built(ks, ms, j - 1);
      AppendKey(ks, j, d, ms[j - 1].value);
      Put(d, ks[j - 1], ms[j - 1].value)
  }

  /** Storing the value of the next step under its own key appends that key
      and leaves the earlier keys' values alone. */
  lemma AppendKey<K, V>(ks: seq<K>, j: nat, d: Dict<K, V>, v: V)
    requires Distinct(ks) && 0 < j <= |ks| && d.Valid() && d.keys == ks[..j - 1]
    ensures Put(d, ks[j - 1], v).keys == ks[..j]
    ensures forall q :: 0 <= q < j - 1 ==> Put(d, ks[j - 1], v).items[ks[q]] == d.items[ks[q]]
  {
    var k := ks[j - 1];
    assert k !in d.items by {
      assert k !in ks[..j - 1];
    }
    assert ks[..j] == ks[..j - 1] + [k];
    forall q | 0 <= q < j - 1 ensures Put(d, k, v).items[ks[q]] == d.items[ks[q]] {
      assert ks[q] != k;
    }
  }

  /** `{k: m for k, m in zip(ks, ms)}` for the outcomes `ms` of a loop of
      steps, stopping at the first step that failed: it succeeds exactly when
      every step does, and then holds every step's value under its key, in step
      order. */
  function Collect<K, V>(ks: seq<K>, ms: seq<Result<V>>): (r: Result<Dict<K, V>>)
    requires |ks| == |ms| && Distinct(ks)
    ensures r.Ok? <==> forall q :: 0 <= q < |ks| ==> ms[q].Ok?
    ensures r.Ok? ==> r.value.Valid() && r.value.keys == ks
    ensures r.Ok? ==> forall q :: 0 <= q < |ks| ==> r.value.items[ks[q]] == ms[q].value
    ensures r.Err? ==> exists q :: 0 <= q < |ks| && ms[q] == Err(r.error)
  {
    match FirstFailure(ms, |ms|)
    case Some(e) => Err(e)
    case None =>
      assert ks[..|ks|] == ks;
      Ok(Built(ks, ms, |ks|))
  }

  /** Two dictionaries with the same key order and the same value under every
      listed key are equal. */
  lemma SameEntries<K, V>(d: Dict<K, V>, e: Dict<K, V>)
    requires d.Valid() && e.Valid() && d.keys == e.keys
    requires forall j :: 0 <= j < |d.keys| ==> d.items[d.keys[j]] == e.items[e.keys[j]]
    ensures d == e
  {
    forall k | k in d.items ensures d.items[k] == e.items[k] {
      assert k in Elements(d.keys);
    }
  }

  /** A loop whose every step yields the value a dictionary holds under the
      step's key collects exactly that dictionary. */
  lemma CollectedEntries<K, V>(ks: seq<K>, ms: seq<Result<V>>, e: Dict<K, V>)
    requires |ks| == |ms| && Distinct(ks) && e.Valid() && e.keys == ks
    requires forall j :: 0 <= j < |ks| ==> ms[j] == Ok(e.items[ks[j]])
    ensures Collect(ks, ms) == Ok(e)
  {
    SameEntries(Collect(ks, ms).value, e);
  }
}
