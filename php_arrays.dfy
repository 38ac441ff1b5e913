/** PHP values and PHP arrays with string keys, as the option sources use them.
    A PHP array is an insertion-ordered map; here it is a sequence of
    (key, value) pairs whose keys are kept distinct by the code that builds it. */
module PhpArrays {

  datatype Option<+T> = None | Some(value: T)

  /** A PHP value that is null, a bool, an int or a string. Values are
      compared strictly (no type juggling). */
  datatype Value = Null | Bool(b: bool) | Int(i: int) | Str(s: string)

  /** An insertion-ordered PHP array with string keys. */
  type OrderedMap<V> = seq<(string, V)>

  /** array_keys($m), in insertion order. */
  function Keys<V>(m: OrderedMap<V>): seq<string>
  {
    seq(|m|, i requires 0 <= i < |m| => m[i].0)
  }

  ghost predicate Distinct<T>(s: seq<T>)
  {
    forall i, j :: 0 <= i < j < |s| ==> s[i] != s[j]
  }

  /** What every PHP array satisfies: no key occurs twice. */
  ghost predicate DistinctKeys<V>(m: OrderedMap<V>)
  {
    Distinct(Keys(m))
  }

  lemma KeyOfMember<V>(m: OrderedMap<V>, e: (string, V))
    requires e in m
    ensures e.0 in Keys(m)
  {
    var i :| 0 <= i < |m| && m[i] == e;
    assert Keys(m)[i] == e.0;
  }

  /** The key of entry i does not occur among the keys before it. */
  lemma DistinctKeysPrefix<V>(m: OrderedMap<V>, i: nat)
    requires DistinctKeys(m) && i < |m|
    ensures m[i].0 !in Keys(m[..i])
  {
    forall j | 0 <= j < i ensures Keys(m[..i])[j] != m[i].0 {
      assert Keys(m[..i])[j] == Keys(m)[j] && Keys(m)[i] == m[i].0;
      assert Keys(m)[j] != Keys(m)[i];
    }
  }

  lemma DistinctKeysTail<V>(m: OrderedMap<V>)
    requires DistinctKeys(m) && m != []
    ensures DistinctKeys(m[1..]) && m[0].0 !in Keys(m[1..])
  {
    var t := Keys(m[1..]);
    forall a | 0 <= a < |t| ensures t[a] == Keys(m)[a + 1] && t[a] != Keys(m)[0] {
      assert Keys(m)[0] != Keys(m)[a + 1];
    }
    forall a, b | 0 <= a < b < |t| ensures t[a] != t[b] {
      assert Keys(m)[a + 1] != Keys(m)[b + 1];
    }
  }

  /** Reading `$m[$k]`: the value stored under k, or None when k is absent. */
  function Lookup<V>(m: OrderedMap<V>, k: string): (r: Option<V>)
    ensures r.Some? <==> k in Keys(m)
  {
    if m == [] then None
    else
      assert Keys(m) == [m[0].0] + Keys(m[1..]);
      if m[0].0 == k then Some(m[0].1) else Lookup(m[1..], k)
  }

  /** In a PHP array, the value read under the key of entry i is that entry's value. */
  lemma {:induction false} LookupAt<V>(m: OrderedMap<V>, i: nat)
    requires DistinctKeys(m) && i < |m|
    ensures Lookup(m, m[i].0) == Some(m[i].1)
  {
    if i > 0 {
      DistinctKeysTail(m);
      assert Keys(m)[0] != Keys(m)[i];
      LookupAt(m[1..], i - 1);
    }
  }

  lemma KeysCons<V>(x: (string, V), m: OrderedMap<V>)
    ensures Keys([x] + m) == [x.0] + Keys(m)
  {
  }

  /** Writing `$m[$k] = $v`: an existing key keeps its position and gets the
      new value; a new key is appended at the end. */
  function Put<V>(m: OrderedMap<V>, k: string, v: V): (r: OrderedMap<V>)
    ensures k !in Keys(m) ==> r == m + [(k, v)]
  {
    if m == [] then [(k, v)]
    else
      KeysCons(m[0], m[1..]);
      assert [m[0]] + m[1..] == m;
      if m[0].0 == k then [(k, v)] + m[1..] else [m[0]] + Put(m[1..], k, v)
  }

  /** `$m[$k] = $v` adds k to the keys exactly when it was not there. */
  lemma {:induction false} PutKeys<V>(m: OrderedMap<V>, k: string, v: V)
    ensures Keys(Put(m, k, v)) == if k in Keys(m) then Keys(m) else Keys(m) + [k]
  {
    if m != [] {
      KeysCons(m[0], m[1..]);
      assert [m[0]] + m[1..] == m;
      if m[0].0 == k {
        KeysCons((k, v), m[1..]);
      } else {
        PutKeys(m[1..], k, v);
        KeysCons(m[0], Put(m[1..], k, v));
      }
    }
  }

  /** After `$m[$k] = $v` the array still has distinct keys. */
  lemma PutDistinct<V>(m: OrderedMap<V>, k: string, v: V)
    requires DistinctKeys(m)
    ensures DistinctKeys(Put(m, k, v))
  {
    var ks := Keys(Put(m, k, v));
    PutKeys(m, k, v);
    if k !in Keys(m) {
      forall i, j | 0 <= i < j < |ks| ensures ks[i] != ks[j] {
        if j < |m| {
          assert ks[i] == Keys(m)[i] && ks[j] == Keys(m)[j];
        } else {
          assert ks[i] == Keys(m)[i];
        }
      }
    }
  }

  /** After `$m[$k] = $v` the array reads v under k and reads what it read
      before under every other key. */
  lemma {:induction false} PutLookup<V>(m: OrderedMap<V>, k: string, v: V, k': string)
    ensures Lookup(Put(m, k, v), k) == Some(v)
    ensures k' != k ==> Lookup(Put(m, k, v), k') == Lookup(m, k')
  {
    if m != [] && m[0].0 != k {
      PutLookup(m[1..], k, v, k');
      assert Put(m, k, v)[1..] == Put(m[1..], k, v);
    }
  }

  /** array_filter($s, $keep), keys and order preserved. */
  function Filter<T>(s: seq<T>, keep: T -> bool): (r: seq<T>)
    ensures |r| <= |s|
  {
    if s == [] then []
    else Filter(s[..|s| - 1], keep) + (if keep(s[|s| - 1]) then [s[|s| - 1]] else [])
  }

  lemma {:induction false} FilterMembers<T>(s: seq<T>, keep: T -> bool, x: T)
    ensures x in Filter(s, keep) <==> x in s && keep(x)
  {
    if s != [] {
      FilterMembers(s[..|s| - 1], keep, x);
      assert s == s[..|s| - 1] + [s[|s| - 1]];
    }
  }

  /** FilterMembers for every element at once. */
  lemma FilterAll<T>(s: seq<T>, keep: T -> bool)
    ensures forall x :: x in Filter(s, keep) <==> x in s && keep(x)
  {
    forall x {
      FilterMembers(s, keep, x);
    }
  }

  /** Filtering the entries before position i keeps none with the key of
      entry i, since a PHP array has no repeated key. */
  lemma FilterKeyAbsent<V>(m: OrderedMap<V>, keep: ((string, V)) -> bool, i: nat)
    requires DistinctKeys(m) && i < |m|
    ensures m[i].0 !in Keys(Filter(m[..i], keep))
  {
    var f := Filter(m[..i], keep);
    DistinctKeysPrefix(m, i);
    forall j | 0 <= j < |f| ensures Keys(f)[j] != m[i].0 {
      FilterMembers(m[..i], keep, f[j]);
      KeyOfMember(m[..i], f[j]);
    }
  }

  /** idx lists, in increasing order, the positions of s that r is made of. */
  ghost predicate Embeds<T>(idx: seq<nat>, r: seq<T>, s: seq<T>)
  {
    && |idx| == |r|
    && (forall i :: 0 <= i < |idx| ==> idx[i] < |s| && r[i] == s[idx[i]])
    && (forall i, j :: 0 <= i < j < |idx| ==> idx[i] < idx[j])
  }

  /** r is s with some elements deleted: same elements, same relative order. */
  ghost predicate IsSubsequence<T>(r: seq<T>, s: seq<T>)
  {
    exists idx :: Embeds(idx, r, s)
  }

  lemma {:induction false} FilterIsSubsequence<T>(s: seq<T>, keep: T -> bool)
    ensures IsSubsequence(Filter(s, keep), s)
  {
    if s == [] {
      assert Embeds([], Filter(s, keep), s);
    } else {
      var n := |s| - 1;
      FilterIsSubsequence(s[..n], keep);
      var idx :| Embeds(idx, Filter(s[..n], keep), s[..n]);
      if keep(s[n]) {
        assert Embeds(idx + [n], Filter(s, keep), s);
      } else {
        assert Embeds(idx, Filter(s, keep), s);
      }
    }
  }

  /** Filtering a PHP array never produces a repeated key. */
  lemma FilterDistinctKeys<V>(m: OrderedMap<V>, keep: ((string, V)) -> bool)
    requires DistinctKeys(m)
    ensures DistinctKeys(Filter(m, keep))
  {
    var r := Filter(m, keep);
    FilterIsSubsequence(m, keep);
    var idx :| Embeds(idx, r, m);
    forall i, j | 0 <= i < j < |r| ensures Keys(r)[i] != Keys(r)[j] {
      assert Keys(m)[idx[i]] != Keys(m)[idx[j]];
    }
  }

  /** The `isset($m[$k])` test of a filter over plain strings, where ks are
      the keys of $m and no value of $m is null. */
  function In(ks: seq<string>): string -> bool
  {
    k => k in ks
  }

  /** The test of a filter over array entries that keeps the listed keys. */
  function KeyIn<V>(ks: seq<string>): ((string, V)) -> bool
  {
    (e: (string, V)) => e.0 in ks
  }
}
