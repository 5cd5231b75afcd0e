/**
 The casted-hash cases of spec/unit/dirty_spec.rb as client methods whose assertions
 follow from the contracts alone:
 a freshly loaded `DirtyModel` holds `details == { 'color' => 'blue' }`, and its owner
 reports `changed?` exactly when the hash called the mark-changed hook.
 */
module DirtyScenarios {
  import opened RubyHash
  import opened DirtyMarks
  import opened CastedHashes

  type Details = CastedHash<string, string, string, string>

  function Blue(): (h: Hash<string, string>)
    ensures Valid(h)
  {
    Hash(["color"], map["color" := Val("blue")])
  }

  method LoadDetails() returns (d: Details)
    ensures fresh(d) && d.Valid() && d.Contents() == Blue()
    ensures d.useDirty && d.marked == []
  {
    d := new CastedHash(Blue(), "details", Val("DirtyModel"), true);
  }

  method AssignOrange() {
    var d := LoadDetails();
    d.Assign("color", Val("orange"));
    assert d.marked == ["color"];
  }

  method AssignSameColor() {
    var d := LoadDetails();
    d.Assign("color", Get(d.Contents(), "color"));
    assert d.marked == [];
  }

  method DeleteColor() {
    var d := LoadDetails();
    var gone := d.Delete("color");
    assert gone == Val("blue") && d.marked == ["color"];
  }

  method DeleteMissingKey() {
    var d := LoadDetails();
    var gone := d.Delete("non-existent-key");
    assert gone == Nil && d.marked == [];
  }

  method ClearDetails() {
    var d := LoadDetails();
    d.Clear();
    assert d.marked == ["color"];
  }

  method MergeNewKey() {
    var d := LoadDetails();
    var other := Hash(["foo"], map["foo" := Val("bar")]);
    assert other.keys[..0] == [];
    d.Merge(other);
    assert d.marked == ["foo"];
  }

  method MergeSameColor() {
    var d := LoadDetails();
    var other := Hash(["color"], map["color" := Get(d.Contents(), "color")]);
    MergeOwnEntry(d.Contents(), "color");
    d.Merge(other);
    assert d.marked == [];
  }

  method ReplaceContent() {
    var d := LoadDetails();
    var other := Hash(["foo"], map["foo" := Val("bar")]);
    ReplaceMarksExact(d.Contents(), other);
    d.Replace(other);
    assert "foo" in d.marked && "color" in d.marked;
  }

  method ReplaceWithItself() {
    var d := LoadDetails();
    ReplaceSelf(d.Contents());
    d.Replace(d.Contents());
    assert d.marked == [];
  }

  method DeleteIfTrue() {
    var d := LoadDetails();
    var always: (string, Value<string>) -> bool := (k, v) => true;
    YieldMarksExact(d.Contents(), always, true);
    d.DeleteIf(always);
    assert "color" in d.marked;
  }

  method DeleteIfFalse() {
    var d := LoadDetails();
    FilterNothing(d.Contents(), false);
    d.DeleteIf((k, v) => false);
    assert d.marked == [] && d.Contents() == Blue();
  }

  method KeepIfFalse() {
    var d := LoadDetails();
    var never: (string, Value<string>) -> bool := (k, v) => false;
    YieldMarksExact(d.Contents(), never, false);
    d.KeepIf(never);
    assert "color" in d.marked;
  }

  method KeepIfTrue() {
    var d := LoadDetails();
    FilterNothing(d.Contents(), true);
    d.KeepIf((k, v) => true);
    assert d.marked == [] && d.Contents() == Blue();
  }

  /** Without dirty tracking the same mutation happens and nothing is marked. */
  method UntrackedClear() {
    var d: Details := new CastedHash(Blue(), "details", Nil, false);
    d.Clear();
    assert d.marked == [] && d.Contents() == Empty();
    assert d.castedBy == Nil;
  }
}
