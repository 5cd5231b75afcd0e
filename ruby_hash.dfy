/**
 The parts of Ruby's core `Hash` that `CastedHash` reaches through `super`:
 an insertion-ordered map whose lookups answer `nil` for a missing key.
 */
module RubyHash {

  /** A Ruby object held in a hash: `nil`, or any other value. */
  datatype Value<T> = Nil | Val(get: T)

  /** A Ruby `Hash`: its keys in insertion order, and the value stored under each. */
  datatype Hash<K, V> = Hash(keys: seq<K>, vals: map<K, Value<V>>)

  predicate Distinct<K(==)>(s: seq<K>) {
    forall i, j :: 0 <= i < j < |s| ==> s[i] != s[j]
  }

  /** A well-formed hash lists every stored key exactly once. */
  ghost predicate Valid<K(!new), V>(h: Hash<K, V>) {
    Distinct(h.keys) && forall k :: k in h.keys <==> k in h.vals
  }

  /** `{}` */
  function Empty<K(==, !new), V>(): (r: Hash<K, V>)
    ensures Valid(r)
    ensures forall k :: k !in r.vals
  {
    Hash([], map[])
  }

  /** `h[k]`: the stored value, or `nil` when `k` is missing (no default value). */
  function Get<K(==, !new), V>(h: Hash<K, V>, k: K): Value<V> {
    if k in h.vals then h.vals[k] else Nil
  }

  /**
   `r` is `s` with some elements left out and the rest in their order in `s`:
   the last element of `s` is either left out or is the last element of `r`.
   */
  ghost predicate Subsequence<K>(r: seq<K>, s: seq<K>)
    decreases |s|
  {
    || r == []
    || (&& s != []
        && (|| Subsequence(r, s[..|s| - 1])
            || (r[|r| - 1] == s[|s| - 1] && Subsequence(r[..|r| - 1], s[..|s| - 1]))))
  }

  /** The elements of `s` that satisfy `f`, in their order in `s` (see `WhereInOrder`). */
  function Where<K(==, !new)>(s: seq<K>, f: K -> bool): (r: seq<K>)
    ensures forall x {:trigger x in r} :: x in r <==> x in s && f(x)
    ensures Distinct(s) ==> Distinct(r)
    ensures |r| <= |s|
  {
    if s == [] then []
    else
      var init, last := s[..|s| - 1], s[|s| - 1];
      assert s == init + [last];
      assert Distinct(s) ==> last !in init && last !in Where(init, f);
      Where(init, f) + (if f(last) then [last] else [])
  }

  /** Filtering keeps the surviving elements in their order: the result is a subsequence. */
  lemma {:induction false} WhereInOrder<K(!new)>(s: seq<K>, f: K -> bool)
    ensures Subsequence(Where(s, f), s)
  {
    if s != [] {
      var init, last := s[..|s| - 1], s[|s| - 1];
      assert s == init + [last];
      var rest := Where(init, f);
      WhereInOrder(init, f);
      if f(last) {
        assert Where(s, f) == rest + [last];
        assert Where(s, f)[..|rest|] == rest;
      } else {
        assert Where(s, f) == rest;
      }
    }
  }

  /** Filtering with a test every element passes keeps the whole sequence. */
  lemma {:induction false} WhereAll<K(!new)>(s: seq<K>, f: K -> bool)
    requires forall x :: x in s ==> f(x)
    ensures Where(s, f) == s
  {
    if s != [] {
      var init := s[..|s| - 1];
      assert s == init + [s[|s| - 1]];
      WhereAll(init, f);
    }
  }

  /** Filtering with a test no element passes leaves nothing. */
  lemma {:induction false} WhereNone<K(!new)>(s: seq<K>, f: K -> bool)
    requires forall x :: x in s ==> !f(x)
    ensures Where(s, f) == []
  {
    if s != [] {
      var init := s[..|s| - 1];
      assert s == init + [s[|s| - 1]];
      WhereNone(init, f);
    }
  }

  /** Two sequences without duplicates and without a common element join into one without duplicates. */
  lemma DistinctAppend<K>(a: seq<K>, b: seq<K>)
    requires Distinct(a) && Distinct(b)
    requires forall x :: x in b ==> x !in a
    ensures Distinct(a + b)
  {
    forall i, j | 0 <= i < j < |a + b| ensures (a + b)[i] != (a + b)[j] {
      if i < |a| <= j {
        assert (a + b)[j] == b[j - |a|] && b[j - |a|] in b;
      }
    }
  }

  /** `h[k] = v` (`Hash#[]=`): an existing key keeps its place, a new key goes last. */
  function Store<K(==, !new), V>(h: Hash<K, V>, k: K, v: Value<V>): (r: Hash<K, V>)
    ensures k in r.vals && Get(r, k) == v
    ensures forall k' :: k' != k ==> (k' in r.vals <==> k' in h.vals) && Get(r, k') == Get(h, k')
    ensures k in h.vals ==> r.keys == h.keys
    ensures k !in h.vals ==> r.keys == h.keys + [k]
    ensures Valid(h) ==> Valid(r)
  {
    Hash(if k in h.vals then h.keys else h.keys + [k], h.vals[k := v])
  }

  /** `h.delete(k)` (`Hash#delete`): removes the entry of `k`, if any; the other keys keep their order. */
  function Delete<K(==, !new), V>(h: Hash<K, V>, k: K): (r: Hash<K, V>)
    ensures k !in r.vals
    ensures forall k' :: k' != k ==> (k' in r.vals <==> k' in h.vals) && Get(r, k') == Get(h, k')
    ensures forall k' :: k' in r.keys <==> k' in h.keys && k' != k
    ensures Subsequence(r.keys, h.keys)
    ensures k !in h.keys ==> r.keys == h.keys
    ensures k !in h.vals ==> r.vals == h.vals
    ensures Valid(h) ==> Valid(r)
  {
    var r := Hash(Where(h.keys, x => x != k), h.vals - {k});
    WhereInOrder(h.keys, x => x != k);
    if k in h.keys then r
    else
      WhereAll(h.keys, x => x != k);
      r
  }

  /**
   `h.merge!(o)` (`Hash#merge!`) without a block: every entry of `o` overrides or joins `h`;
   the keys of `h` keep their places and the new keys follow in the order of `o`.
   */
  function Merge<K(==, !new), V>(h: Hash<K, V>, o: Hash<K, V>): (r: Hash<K, V>)
    ensures forall k :: k in r.vals <==> k in h.vals || k in o.vals
    ensures forall k :: k in o.vals ==> Get(r, k) == Get(o, k)
    ensures forall k :: k !in o.vals ==> Get(r, k) == Get(h, k)
    ensures |h.keys| <= |r.keys| && r.keys[..|h.keys|] == h.keys
    ensures forall k :: k in r.keys[|h.keys|..] <==> k in o.keys && k !in h.vals
    ensures Subsequence(r.keys[|h.keys|..], o.keys)
    ensures Valid(h) && Valid(o) ==> Valid(r)
  {
    var added := Where(o.keys, k => k !in h.vals);
    var r := Hash(h.keys + added, h.vals + o.vals);
    assert r.keys[..|h.keys|] == h.keys;
    assert r.keys[|h.keys|..] == added;
    WhereInOrder(o.keys, k => k !in h.vals);
    assert Valid(h) && Valid(o) ==> Distinct(r.keys) by {
      if Valid(h) && Valid(o) {
        DistinctAppend(h.keys, added);
      }
    }
    r
  }

  /**
   The entries of `h` on which `p` answers `keep`, in their order:
   `keep_if` is `Filter(h, p, true)`, `delete_if` is `Filter(h, p, false)`.
   */
  function Filter<K(==, !new), V>(h: Hash<K, V>, p: (K, Value<V>) -> bool, keep: bool): (r: Hash<K, V>)
    ensures forall k :: k in r.vals <==> k in h.vals && p(k, h.vals[k]) == keep
    ensures forall k :: k in r.vals ==> r.vals[k] == h.vals[k]
    ensures forall k :: k in r.keys ==> k in h.keys
    ensures Subsequence(r.keys, h.keys)
    ensures Valid(h) ==> Valid(r)
  {
    var r := Hash(Where(h.keys, k => p(k, Get(h, k)) == keep),
                  map k | k in h.vals && p(k, h.vals[k]) == keep :: h.vals[k]);
    WhereInOrder(h.keys, k => p(k, Get(h, k)) == keep);
    forall k | Valid(h) ensures k in r.keys <==> k in r.vals {
      assert k in h.vals ==> Get(h, k) == h.vals[k];
    }
    r
  }
}
