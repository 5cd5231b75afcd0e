# CastedHash dirty tracking, in Dafny

A model of `CouchRest::Model::CastedHash`, the `Hash` subclass that couchrest_model
stores in an untyped (`Object`) property. Each mutating operation first decides, on the
hash as it stands, which keys are about to change. It calls the mark-changed hook
`couchrest_attribute_will_change!` for each of them, but only while `use_dirty?` holds.
Then it performs the ordinary `Hash` mutation through `super`.

The project has four modules:

- `RubyHash` (`ruby_hash.dfy`) gives the Ruby core `Hash` semantics that the `super`
  calls stand for. A hash is a datatype `Hash(keys, vals)`: the keys in insertion order,
  and a map from key to `Value`. `Value` is `Nil` for Ruby `nil` and `Val(x)` otherwise.
  `Get` is `self[key]`, which answers nil for a missing key. `Valid` says each stored
  key is listed exactly once. `Store`, `Delete`, `Merge`, `Filter` and `Empty` are
  `[]=`, `delete`, `merge!`, `keep_if`/`delete_if` and `clear`. Each states the entries
  it produces and that it keeps `Valid`. Each also states the key order it produces:
  - `Store` gives the key list exactly: a new key goes last, an old key keeps its place.
  - `Delete` and `Filter` give a `Subsequence` of the old keys, the survivors in their
    old order. `Delete` of a key that is not listed leaves the list as it was.
  - `Merge` keeps the old keys as a prefix. After them come exactly the new keys of the
    other hash, as a `Subsequence` of its key list.
- `DirtyMarks` (`dirty_marks.dfy`) gives, as pure functions, the keys each operation
  marks: `AssignMarks`, `DeleteMarks`, `MergeMarks`, `ReplaceMarks`, `DeleteIfMarks`
  and `KeepIfMarks`. All are computed on the pre-mutation hash. The lemmas relate each
  of them to the mutation it precedes. Apart from `[]=`, every operation marks exactly
  the keys whose entry the mutation changes, each key once. It marks nothing exactly
  when the entries stay the same. `[]=` marks exactly when the value read back under
  the key changes.
- `CastedHashes` (`casted_hash.dfy`) holds the class `CastedHash`. Its fields are the
  hash (`keys`, `vals`), `castedByProperty`, `castedBy`, `useDirty` (the answer of
  `use_dirty?`), and `marked`, which logs in order every key passed to the hook. The
  loops of `clear`, `replace`, `delete_if`, `keep_if` and the private `will_change` are
  `while` loops that call the hook, `AttributeWillChange`, once per key. Each method's
  `ensures` gives the new hash as a `RubyHash` function of the old one. It gives the
  new log as the old log plus the `DirtyMarks` function when tracking is on, and plus
  nothing when it is off. So the mutation is the same whether tracking is on or off.
- `DirtyScenarios` (`dirty_scenarios.dfy`) restates the casted-hash cases of
  spec/unit/dirty_spec.rb on a hash `{ 'color' => 'blue' }` as client methods. Each one
  asserts what the contracts alone imply about `marked`.

Inputs that come from code outside this file are variables here. The hook's body and
`use_dirty?` belong to the `Dirty` module, and `casted_by=` belongs to the `CastedBy`
module; neither is part of this model. The hook is a method that only appends to
`marked`. `use_dirty?` is the field `useDirty`, fixed when the hash is built. The
blocks of `delete_if`/`keep_if` are pure functions `(K, Value<V>) -> bool`.

The test in `[]=` is weaker than the one in `will_change`. `[]=` tests only
`obj != self[key]` (lib/couchrest/model/casted_hash.rb:23), and `self[key]` is nil for a
missing key. `will_change` also tests `!include?(key)` (line 78). So assigning nil to a
missing key adds an entry but marks nothing, while merging `{ key => nil }` into a hash
without `key` marks it. The third `ensures` of `DirtyMarks.AssignMarksExact` states the
first half of this.

## Model

| member | source | states |
|---|---|---|
| `CastedHashes.CastedHash.constructor` | lib/couchrest/model/casted_hash.rb:10-15 | the new container holds a copy of `hash`, marks nothing, always records the property, and records the parent exactly as given (nil stays nil) |
| `CastedHashes.CastedHash.Attributes` | lib/couchrest/model/casted_hash.rb:18-20 | `attributes` answers the container itself |
| `CastedHashes.CastedHash.AttributeWillChange` | lib/couchrest/model/casted_hash.rb:6-7 | the hook appends its key to the log and changes nothing else |
| `CastedHashes.CastedHash.Assign` | lib/couchrest/model/casted_hash.rb:22-25 | `[]=` leaves the hash as `Store`, the log extended by `AssignMarks` when tracking is on and unchanged when off; `Valid` is kept |
| `CastedHashes.CastedHash.Delete` | lib/couchrest/model/casted_hash.rb:27-30 | `delete` answers the old value (nil if missing), leaves the hash as `RubyHash.Delete` and extends the log by `DeleteMarks` only when tracking is on |
| `CastedHashes.CastedHash.WillChange` | lib/couchrest/model/casted_hash.rb:76-82 | walking the other hash's keys in order, the loop logs exactly `MergeMarks`: the keys that are new or hold a different value |
| `CastedHashes.CastedHash.Merge` | lib/couchrest/model/casted_hash.rb:32-37 | `merge!` leaves the hash as `RubyHash.Merge` (override-union) and extends the log by `MergeMarks` only when tracking is on |
| `CastedHashes.CastedHash.Replace` | lib/couchrest/model/casted_hash.rb:39-49 | `replace` leaves exactly the other hash, and logs `MergeMarks` followed by the old keys the other hash lacks, only when tracking is on |
| `CastedHashes.CastedHash.Clear` | lib/couchrest/model/casted_hash.rb:51-54 | `clear` empties the hash and logs every key it held, in order, only when tracking is on |
| `CastedHashes.CastedHash.DeleteIf` | lib/couchrest/model/casted_hash.rb:56-63 | `delete_if` leaves the entries the block rejects and logs the keys it accepts, in order, only when tracking is on |
| `CastedHashes.CastedHash.KeepIf` | lib/couchrest/model/casted_hash.rb:66-73 | `keep_if` leaves the entries the block accepts and logs the keys it rejects, in order, only when tracking is on |
| `RubyHash.Where` | lib/couchrest/model/casted_hash.rb:44 | `reject`/`select` on a key list: the result holds exactly the elements passing the test, is no longer than the input, and has no duplicates when the input has none |
| `RubyHash.WhereInOrder` | lib/couchrest/model/casted_hash.rb:44 | `reject`/`select` keep the surviving elements in their order: the result is a `Subsequence` of the input |
| `RubyHash.Store` | lib/couchrest/model/casted_hash.rb:24 | `super(key, obj)`: the key then holds `obj`, every other entry is unchanged, an old key keeps its place and a new one goes last; `Valid` is kept |
| `RubyHash.Delete` | lib/couchrest/model/casted_hash.rb:29 | `super(key)`: the key is absent afterwards and every other entry is unchanged; the remaining keys are the old ones but `key`, as a `Subsequence` of the old list; a key that is not listed leaves the list unchanged, and a key without an entry leaves the entries unchanged; `Valid` is kept |
| `RubyHash.Merge` | lib/couchrest/model/casted_hash.rb:36 | `super(other_hash)`: the keys are the union; keys of the other hash hold its values, the rest keep theirs; old keys keep their order in front, followed by exactly the keys of the other hash that were missing, as a `Subsequence` of its key list; `Valid` is kept |
| `RubyHash.Filter` | lib/couchrest/model/casted_hash.rb:62 | `super` of `delete_if`/`keep_if`: exactly the entries on which the block gives the wanted answer remain, with their old values, and their keys are a `Subsequence` of the old list; `Valid` is kept |
| `RubyHash.Empty` | lib/couchrest/model/casted_hash.rb:53 | `super` of `clear`: no key remains, and the empty hash is valid |
| `DirtyMarks.AssignMarksExact` | lib/couchrest/model/casted_hash.rb:22-25 | `[]=` marks a key exactly when the value read under it changes; assigning the current value marks nothing; assigning nil to a missing key adds an entry but marks nothing |
| `DirtyMarks.DeleteMarksExact` | lib/couchrest/model/casted_hash.rb:27-30 | `delete` marks exactly the entry it removes; it marks nothing exactly when the entries are unchanged, as for a missing key |
| `DirtyMarks.MergeMarksExact` | lib/couchrest/model/casted_hash.rb:32-37 | `merge!` marks exactly the keys whose entry the merge changes, each once; it marks nothing exactly when the merge leaves the entries as they were |
| `DirtyMarks.MergeOwnEntry` | spec/unit/dirty_spec.rb:438-442 | merging `{ k => self[k] }` for a present `k` marks nothing |
| `DirtyMarks.ReplaceMarksExact` | lib/couchrest/model/casted_hash.rb:39-49 | `replace` marks exactly the keys whose entry differs between the old hash and the replacement (new, changed or dropped), each once; nothing exactly when both hold the same entries |
| `DirtyMarks.ReplaceSelf` | spec/unit/dirty_spec.rb:450-454 | `replace(self)` marks nothing |
| `DirtyMarks.ClearMarksExact` | lib/couchrest/model/casted_hash.rb:51-54 | `clear` marks exactly the keys whose entry it removes, each once; it marks nothing exactly when the hash was empty |
| `DirtyMarks.YieldMarksExact` | lib/couchrest/model/casted_hash.rb:56-73 | `delete_if`/`keep_if` mark exactly the entries on which the block answers true/false, which are exactly the entries they remove, each once; nothing exactly when no entry is removed |
| `DirtyMarks.FilterAll` | lib/couchrest/model/casted_hash.rb:62 | a `delete_if`/`keep_if` on which every entry gives the keeping answer leaves the hash exactly as it was, key order included |
| `DirtyMarks.FilterNothing` | spec/unit/dirty_spec.rb:462-480 | `delete_if { false }` and `keep_if { true }` mark nothing and leave the hash exactly as it was |

## Left out

- The bodies of `couchrest_attribute_will_change!` and `use_dirty?`, and the setter `casted_by=`. They live in the `Dirty` and `CastedBy` modules, which are not part of this model. The hook is modelled as a pure log append, `use_dirty?` as a field, and the setter as plain field assignment.
- The marked keys' effect on the owning document (the change ledger, `changed?`, `changes`). That logic is in the `Dirty` module. Here the owner is taken to become dirty when a key is logged.
- `merge!` and `replace` with an argument that is nil or not a `Hash` (the `kind_of?(Hash)` guard), and `delete_if`/`keep_if` without a block (they answer an enumerator). These follow Ruby core coercion rules, which are not modelled. Every argument here is a well-formed hash value and every block is a total pure function.
- CastedHashes.CastedHash.Delete: `delete` with a block is not modelled. `super(key)` passes the caller's block on (lib/couchrest/model/casted_hash.rb:29), and Ruby's `Hash#delete` then answers the block's value for a missing key instead of nil. The model answers nil.
- CastedHashes.CastedHash.Merge: `merge!` with a block is not modelled. `super(other_hash)` passes the block on (line 36), and Ruby then stores the block's result for a key present in both hashes. `will_change` (line 78) decides before the block runs. So a block that keeps the old value leaves that entry as it was, yet the key is still marked whenever the two values differ. With a block, `MergeMarksExact`'s "marks exactly the changed keys" therefore does not hold for the Ruby code.
- CastedHashes.CastedHash.constructor: `super(hash)` (line 11) passes `Hash.[]` exactly one argument. Besides a hash, that one argument may be an array of key-value pairs, or an object that answers `to_hash` or `to_ary`. Any other argument raises `ArgumentError`. The constructor takes only a hash value, so it models neither those other forms nor the error.
- Aliasing. The argument of `merge!` and `replace` is a hash value, a snapshot. `replace(self)` is therefore `Replace(Contents())`, which gives the same entries and marks as the Ruby call.
- Return values that are the receiver itself (`merge!`, `replace`, `clear`, `delete_if`, `keep_if`) and the value of `[]=`. They carry nothing beyond the new state.
- Ruby equality is modelled as Dafny value equality on `Value`. A user-defined `==` that is inconsistent with it is not modelled. Default values and default procs of a `Hash` are not modelled either, so `self[key]` on a missing key is nil.
- `CastedArray`, casting of values, and the document's other attributes. They are in files this model does not cover.
