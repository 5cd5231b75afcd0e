/**
 `CouchRest::Model::CastedHash`: a Ruby `Hash` held in a model attribute, whose
 mutating operations first decide which keys are about to change and call the
 mark-changed hook for each (only while dirty tracking is in use), and then do the
 ordinary `Hash` mutation.
 */
module CastedHashes {
  import opened RubyHash
  import opened DirtyMarks

  /**
   The container. `keys`/`vals` are the hash itself (Ruby hashes keep insertion order);
   `useDirty` is the answer of `use_dirty?`; `marked` logs, in order, every key passed to
   `couchrest_attribute_will_change!`. `Prop` is the declaring property, `Owner` the parent.
   */
  class CastedHash<K(==, !new), V(==), Prop, Owner> {
    var keys: seq<K>
    var vals: map<K, Value<V>>
    var castedByProperty: Prop
    var castedBy: Value<Owner>
    var useDirty: bool
    var marked: seq<K>

    ghost predicate Valid()
      reads this
    {
      RubyHash.Valid(Contents())
    }

    /** The hash as a value. */
    function Contents(): Hash<K, V>
      reads this
    {
      Hash(keys, vals)
    }

    /**
     `CastedHash[hash, property, parent]`: a copy of `hash` that records its property,
     and its parent only when one is given (`casted_by` otherwise stays nil).
     Copying goes through `Hash.[]`, not `[]=`, so nothing is marked.
     */
    constructor (hash: Hash<K, V>, property: Prop, parent: Value<Owner>, useDirty: bool)
      requires RubyHash.Valid(hash)
      ensures Valid() && Contents() == hash
      ensures castedByProperty == property
      ensures castedBy == parent
      ensures this.useDirty == useDirty && marked == []
    {
      keys, vals := hash.keys, hash.vals;
      castedByProperty := property;
      castedBy := Nil;
      this.useDirty := useDirty;
      marked := [];
      if parent.Val? {
        castedBy := parent;
      }
    }

    /** `attributes`: the container itself, which is what dirty tracking reads. */
    method Attributes() returns (r: CastedHash<K, V, Prop, Owner>)
      ensures r == this
    {
      r := this;
    }

    /**
     `couchrest_attribute_will_change!(key)`. Its body lives in the dirty-tracking
     module; here it only records the key and never touches the entries.
     */
    method AttributeWillChange(key: K)
      modifies this`marked
      ensures marked == old(marked) + [key]
    {
      marked := marked + [key];
    }

    /** `self[key] = obj` */
    method Assign(key: K, obj: Value<V>)
      requires Valid()
      modifies this`keys, this`vals, this`marked
      ensures Valid()
      ensures Contents() == Store(old(Contents()), key, obj)
      ensures marked == old(marked) + (if useDirty then AssignMarks(old(Contents()), key, obj) else [])
    {
      if useDirty && obj != Get(Contents(), key) {
        AttributeWillChange(key);
      }
      var h := Store(Contents(), key, obj);
      keys, vals := h.keys, h.vals;
    }

    /** `delete(key)`: answers the removed value, nil when the key was missing. */
    method Delete(key: K) returns (deleted: Value<V>)
      requires Valid()
      modifies this`keys, this`vals, this`marked
      ensures Valid()
      ensures deleted == Get(old(Contents()), key)
      ensures Contents() == RubyHash.Delete(old(Contents()), key)
      ensures marked == old(marked) + (if useDirty then DeleteMarks(old(Contents()), key) else [])
    {
      if useDirty && key in vals {
        AttributeWillChange(key);
      }
      deleted := Get(Contents(), key);
      var h := RubyHash.Delete(Contents(), key);
      keys, vals := h.keys, h.vals;
    }

    /** The private `will_change(other_hash)`: walks the other hash's keys, marking new and changed ones. */
    method WillChange(other: Hash<K, V>)
      modifies this`marked
      ensures marked == old(marked) + MergeMarks(Contents(), other)
    {
      var ks := other.keys;
      var i := 0;
      while i < |ks|
        invariant 0 <= i <= |ks|
        invariant marked == old(marked) + WillChangeMarks(Contents(), other, ks[..i])
      {
        var key := ks[i];
        if Get(Contents(), key) != Get(other, key) || key !in vals {
          AttributeWillChange(key);
        }
        assert ks[..i + 1][..i] == ks[..i];
        i := i + 1;
      }
      assert ks[..i] == ks;
    }

    /** `merge!(other_hash)` */
    method Merge(other: Hash<K, V>)
      requires Valid() && RubyHash.Valid(other)
      modifies this`keys, this`vals, this`marked
      ensures Valid()
      ensures Contents() == RubyHash.Merge(old(Contents()), other)
      ensures marked == old(marked) + (if useDirty then MergeMarks(old(Contents()), other) else [])
    {
      if useDirty {
        WillChange(other);
      }
      var h := RubyHash.Merge(Contents(), other);
      keys, vals := h.keys, h.vals;
    }

    /** `replace(other_hash)`: marks as `merge!` would, then every old key the other hash lacks. */
    method Replace(other: Hash<K, V>)
      requires Valid() && RubyHash.Valid(other)
      modifies this`keys, this`vals, this`marked
      ensures Valid() && Contents() == other
      ensures marked == old(marked) + (if useDirty then ReplaceMarks(old(Contents()), other) else [])
    {
      if useDirty {
        ghost var h0 := Contents();
        WillChange(other);
        ghost var afterNew := marked;
        assert afterNew == old(marked) + MergeMarks(h0, other);
        var oldKeys := OldKeyMarks(other, keys);
        var i := 0;
        while i < |oldKeys|
          invariant 0 <= i <= |oldKeys|
          invariant keys == h0.keys && vals == h0.vals
          invariant marked == afterNew + oldKeys[..i]
        {
          AttributeWillChange(oldKeys[i]);
          assert oldKeys[..i + 1] == oldKeys[..i] + [oldKeys[i]];
          i := i + 1;
        }
        assert oldKeys[..i] == oldKeys;
        assert marked == old(marked) + ReplaceMarks(h0, other);
      }
      keys, vals := other.keys, other.vals;
    }

    /** `clear`: marks every present key, in order, then empties the hash. */
    method Clear()
      requires Valid()
      modifies this`keys, this`vals, this`marked
      ensures Valid() && Contents() == Empty()
      ensures marked == old(marked) + (if useDirty then old(keys) else [])
    {
      if useDirty {
        var ks := keys;
        var i := 0;
        while i < |ks|
          invariant 0 <= i <= |ks|
          invariant keys == ks
          invariant marked == old(marked) + ks[..i]
        {
          AttributeWillChange(ks[i]);
          assert ks[..i + 1] == ks[..i] + [ks[i]];
          i := i + 1;
        }
        assert ks[..i] == ks;
      }
      keys, vals := [], map[];
    }

    /** `delete_if { |key, value| ... }`: marks, then removes, the entries the block accepts. */
    method DeleteIf(p: (K, Value<V>) -> bool)
      requires Valid()
      modifies this`keys, this`vals, this`marked
      ensures Valid()
      ensures Contents() == Filter(old(Contents()), p, false)
      ensures marked == old(marked) + (if useDirty then DeleteIfMarks(old(Contents()), p) else [])
    {
      if useDirty {
        var ks := keys;
        var i := 0;
        while i < |ks|
          invariant 0 <= i <= |ks|
          invariant Contents() == old(Contents())
          invariant marked == old(marked) + YieldMarks(Contents(), p, true, ks[..i])
        {
          var key := ks[i];
          if p(key, Get(Contents(), key)) {
            AttributeWillChange(key);
          }
          assert ks[..i + 1][..i] == ks[..i];
          i := i + 1;
        }
        assert ks[..i] == ks;
      }
      var h := Filter(Contents(), p, false);
      keys, vals := h.keys, h.vals;
    }

    /** `keep_if { |key, value| ... }`: marks, then removes, the entries the block rejects. */
    method KeepIf(p: (K, Value<V>) -> bool)
      requires Valid()
      modifies this`keys, this`vals, this`marked
      ensures Valid()
      ensures Contents() == Filter(old(Contents()), p, true)
      ensures marked == old(marked) + (if useDirty then KeepIfMarks(old(Contents()), p) else [])
    {
      if useDirty {
        var ks := keys;
        var i := 0;
        while i < |ks|
          invariant 0 <= i <= |ks|
          invariant Contents() == old(Contents())
          invariant marked == old(marked) + YieldMarks(Contents(), p, false, ks[..i])
        {
          var key := ks[i];
          if !p(key, Get(Contents(), key)) {
            AttributeWillChange(key);
          }
          assert ks[..i + 1][..i] == ks[..i];
          i := i + 1;
        }
        assert ks[..i] == ks;
      }
      var h := Filter(Contents(), p, true);
      keys, vals := h.keys, h.vals;
    }
  }
}
