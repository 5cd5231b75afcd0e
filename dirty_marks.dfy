/**
 Which keys `CastedHash` passes to the mark-changed hook, operation by operation,
 decided on the hash as it stands before the mutation. Each decision is a cheap
 pre-check (inequality, membership, or the block's answer); the lemmas show that
 the keys marked are exactly the keys whose entry the mutation then changes.
 */
module DirtyMarks {
  import opened RubyHash

  /** The entry of `k` differs between `a` and `b`: present in one only, or holding different values. */
  ghost predicate EntryDiffers<K(!new), V>(a: Hash<K, V>, b: Hash<K, V>, k: K) {
    (k in a.vals) != (k in b.vals) || Get(a, k) != Get(b, k)
  }

  /** `[]=`: the key is marked when the new object differs from `self[key]` (which is nil for a missing key). */
  function AssignMarks<K(==, !new), V(==)>(h: Hash<K, V>, key: K, obj: Value<V>): seq<K> {
    if obj != Get(h, key) then [key] else []
  }

  /** `delete`: the key is marked when the hash includes it. */
  function DeleteMarks<K(==, !new), V>(h: Hash<K, V>, key: K): seq<K> {
    if key in h.vals then [key] else []
  }

  /** The test of `will_change` for one key of the other hash. */
  predicate WillChangeKey<K(==, !new), V(==)>(h: Hash<K, V>, other: Hash<K, V>, k: K) {
    Get(h, k) != Get(other, k) || k !in h.vals
  }

  /** The keys `will_change` marks while it walks `ks`, a prefix of `other.keys`. */
  function WillChangeMarks<K(==, !new), V(==)>(h: Hash<K, V>, other: Hash<K, V>, ks: seq<K>): seq<K> {
    Where(ks, k => WillChangeKey(h, other, k))
  }

  /** `merge!`: the keys of the other hash that are new or hold a different value. */
  function MergeMarks<K(==, !new), V(==)>(h: Hash<K, V>, other: Hash<K, V>): seq<K> {
    WillChangeMarks(h, other, other.keys)
  }

  /** The keys of `ks` (a prefix of the receiver's keys) that `other` does not include. */
  function OldKeyMarks<K(==, !new), V>(other: Hash<K, V>, ks: seq<K>): seq<K> {
    Where(ks, k => k !in other.vals)
  }

  /** `replace`: what `merge!` would mark, then the receiver's keys the other hash lacks. */
  function ReplaceMarks<K(==, !new), V(==)>(h: Hash<K, V>, other: Hash<K, V>): seq<K> {
    MergeMarks(h, other) + OldKeyMarks(other, h.keys)
  }

  /**
   `delete_if` (`hit` true) and `keep_if` (`hit` false): the keys of `ks`, a prefix
   of the receiver's keys, on which the block, given the key and `self[key]`, answers `hit`.
   */
  function YieldMarks<K(==, !new), V>(h: Hash<K, V>, p: (K, Value<V>) -> bool, hit: bool, ks: seq<K>): seq<K> {
    Where(ks, k => p(k, Get(h, k)) == hit)
  }

  function DeleteIfMarks<K(==, !new), V>(h: Hash<K, V>, p: (K, Value<V>) -> bool): seq<K> {
    YieldMarks(h, p, true, h.keys)
  }

  function KeepIfMarks<K(==, !new), V>(h: Hash<K, V>, p: (K, Value<V>) -> bool): seq<K> {
    YieldMarks(h, p, false, h.keys)
  }

  /**
   `[]=` marks `key` exactly when the value read back under it changes. Assigning nil
   to a missing key creates an entry but marks nothing, since `self[key]` was nil already.
   */
  lemma AssignMarksExact<K(!new), V>(h: Hash<K, V>, key: K, obj: Value<V>)
    ensures forall k :: k in AssignMarks(h, key, obj) <==> Get(Store(h, key, obj), k) != Get(h, k)
    ensures AssignMarks(h, key, Get(h, key)) == []
    ensures key !in h.vals ==>
      AssignMarks(h, key, Nil) == [] && EntryDiffers(h, Store(h, key, Nil), key)
  {
  }

  /** `delete` marks `key` exactly when it removes an entry; deleting a missing key marks nothing. */
  lemma DeleteMarksExact<K(!new), V>(h: Hash<K, V>, key: K)
    ensures forall k :: k in DeleteMarks(h, key) <==> EntryDiffers(h, Delete(h, key), k)
    ensures DeleteMarks(h, key) == [] <==> Delete(h, key).vals == h.vals
  {
  }

  /** Two maps on which no key's entry differs are equal. */
  lemma SameEntries<K(!new), V>(a: Hash<K, V>, b: Hash<K, V>)
    requires forall k :: !EntryDiffers(a, b, k)
    ensures a.vals == b.vals
  {
    forall k | k in a.vals ensures k in b.vals && a.vals[k] == b.vals[k] {
      assert !EntryDiffers(a, b, k);
    }
    assert a.vals.Keys == b.vals.Keys by {
      forall k ensures k in a.vals <==> k in b.vals {
        assert !EntryDiffers(a, b, k);
      }
    }
  }

  /**
   `merge!` marks exactly the keys whose entry the merge changes, each once, and marks
   nothing exactly when the merge changes nothing. The marks follow the other hash's
   order, since `MergeMarks` filters its keys (see `RubyHash.WhereInOrder`).
   */
  lemma MergeMarksExact<K(!new), V>(h: Hash<K, V>, other: Hash<K, V>)
    requires Valid(h) && Valid(other)
    ensures forall k :: k in MergeMarks(h, other) <==> EntryDiffers(h, Merge(h, other), k)
    ensures Distinct(MergeMarks(h, other))
    ensures MergeMarks(h, other) == [] <==> Merge(h, other).vals == h.vals
  {
    var marks, r := MergeMarks(h, other), Merge(h, other);
    forall k ensures k in marks <==> EntryDiffers(h, r, k) {
      assert k in marks <==> k in other.keys && WillChangeKey(h, other, k);
    }
    if marks == [] {
      SameEntries(h, r);
    } else {
      assert marks[0] in marks;
      assert EntryDiffers(h, r, marks[0]);
    }
  }

  /** Merging a present key together with the value it already holds marks nothing. */
  lemma MergeOwnEntry<K(!new), V>(h: Hash<K, V>, key: K)
    requires key in h.vals
    ensures MergeMarks(h, Hash([key], map[key := h.vals[key]])) == []
  {
  }

  /**
   `replace` marks exactly the keys whose entry differs between the receiver and the
   replacement, each once, and marks nothing exactly when both hold the same entries.
   */
  lemma ReplaceMarksExact<K(!new), V>(h: Hash<K, V>, other: Hash<K, V>)
    requires Valid(h) && Valid(other)
    ensures forall k :: k in ReplaceMarks(h, other) <==> EntryDiffers(h, other, k)
    ensures Distinct(ReplaceMarks(h, other))
    ensures ReplaceMarks(h, other) == [] <==> other.vals == h.vals
  {
    var merged, old_ := MergeMarks(h, other), OldKeyMarks(other, h.keys);
    var marks := ReplaceMarks(h, other);
    forall k ensures k in marks <==> EntryDiffers(h, other, k) {
      assert k in marks <==> k in merged || k in old_;
      assert k in merged <==> k in other.keys && WillChangeKey(h, other, k);
      assert k in old_ <==> k in h.keys && k !in other.vals;
    }
    forall i, j | 0 <= i < j < |marks| ensures marks[i] != marks[j] {
      if j < |merged| {
        assert marks[i] == merged[i] && marks[j] == merged[j];
      } else if |merged| <= i {
        assert marks[i] == old_[i - |merged|] && marks[j] == old_[j - |merged|];
      } else {
        assert marks[i] == merged[i] && merged[i] in merged;
        assert marks[j] == old_[j - |merged|] && old_[j - |merged|] in old_;
      }
    }
    if marks == [] {
      SameEntries(h, other);
    } else {
      assert marks[0] in marks;
    }
  }

  /** `replace(self)` marks nothing. */
  lemma ReplaceSelf<K(!new), V>(h: Hash<K, V>)
    requires Valid(h)
    ensures ReplaceMarks(h, h) == []
  {
    ReplaceMarksExact(h, h);
  }

  /**
   `clear` marks every key it removes; each key is marked once because a valid hash
   lists each key once. Clearing an empty hash marks nothing.
   */
  lemma ClearMarksExact<K(!new), V>(h: Hash<K, V>)
    requires Valid(h)
    ensures forall k :: k in h.keys <==> EntryDiffers(h, Empty(), k)
    ensures Distinct(h.keys)
    ensures h.keys == [] <==> h.vals == map[]
  {
    if h.keys != [] {
      assert h.keys[0] in h.vals;
    }
  }

  /**
   `delete_if` marks exactly the entries on which the block answers true, which are
   exactly the entries it removes; `keep_if` marks exactly those on which it answers
   false, again exactly the ones it removes. Each key is marked once.
   */
  lemma YieldMarksExact<K(!new), V>(h: Hash<K, V>, p: (K, Value<V>) -> bool, hit: bool)
    requires Valid(h)
    ensures forall k :: k in YieldMarks(h, p, hit, h.keys) <==> k in h.vals && p(k, h.vals[k]) == hit
    ensures forall k :: k in YieldMarks(h, p, hit, h.keys) <==> EntryDiffers(h, Filter(h, p, !hit), k)
    ensures Distinct(YieldMarks(h, p, hit, h.keys))
    ensures YieldMarks(h, p, hit, h.keys) == [] <==> Filter(h, p, !hit).vals == h.vals
  {
    var marks, r := YieldMarks(h, p, hit, h.keys), Filter(h, p, !hit);
    forall k ensures (k in marks <==> k in h.vals && p(k, h.vals[k]) == hit)
                  && (k in marks <==> EntryDiffers(h, r, k)) {
      assert k in h.vals ==> Get(h, k) == h.vals[k];
    }
    if marks == [] {
      SameEntries(h, r);
    } else {
      assert marks[0] in marks;
    }
  }

  /** A filter on which every entry gives the wanted answer leaves the hash as it was. */
  lemma FilterAll<K(!new), V>(h: Hash<K, V>, p: (K, Value<V>) -> bool, keep: bool)
    requires Valid(h)
    requires forall k :: k in h.vals ==> p(k, h.vals[k]) == keep
    ensures Filter(h, p, keep) == h
  {
    forall k | k in h.keys ensures p(k, Get(h, k)) == keep {
      assert k in h.vals;
    }
    WhereAll(h.keys, k => p(k, Get(h, k)) == keep);
    var r := Filter(h, p, keep);
    assert r.keys == h.keys;
    assert r.vals == h.vals by {
      assert forall k :: k in r.vals <==> k in h.vals;
    }
  }

  /** `delete_if { false }` and `keep_if { true }` mark nothing and leave the hash as it was. */
  lemma FilterNothing<K(!new), V>(h: Hash<K, V>, keep: bool)
    requires Valid(h)
    ensures YieldMarks(h, (k, v) => keep, !keep, h.keys) == []
    ensures Filter(h, (k, v) => keep, keep) == h
  {
    var p: (K, Value<V>) -> bool := (k, v) => keep;
    WhereNone(h.keys, k => p(k, Get(h, k)) == !keep);
    FilterAll(h, p, keep);
  }
}
