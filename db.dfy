/**
 * Field change detection on model instances (`utils/db.py`): the field-by-field comparison
 * against a stored instance, the comparison normaliser, and the old values kept from a diff.
 */
module Db {
  import opened Wrappers
  import opened Strings
  import Calendar

  /** A model field's value as Python holds it. */
  datatype Value = VNone | VStr(s: string) | VInt(i: int) | VBool(b: bool) | VDate(d: Calendar.Date)

  /** Python truthiness: `None`, `""`, `0` and `False` are falsy; a date is always truthy. */
  predicate Falsy(v: Value) {
    v.VNone? || v == VStr("") || v == VInt(0) || v == VBool(false)
  }

  /** A nullable text field as a model value. */
  function AsValue(s: Option<string>): (v: Value)
    ensures s.None? ==> v.VNone?
    ensures s.Some? ==> v == VStr(s.value)
  {
    if s.Some? then VStr(s.value) else VNone
  }

  /** A model instance, field name to value; each model names its fields with its own type. */
  type Instance<F> = map<F, Value>

  /** The `Diff(old, new)` named tuple. */
  datatype Diff = Diff(oldValue: Value, newValue: Value)

  /** One entry of the `fields_have_changed` result: `False`, or the `Diff`. */
  datatype Change = Unchanged | Changed(diff: Diff)

  /**
   * `normalize_for_comparison`: falsy values become `""`, strings are stripped and freed of
   * carriage returns, anything else is left alone.
   */
  function Normalize(v: Value): (r: Value)
    ensures Falsy(v) ==> r == VStr("")
    ensures v.VStr? ==> r == VStr(Normalised(v.s))
    ensures !Falsy(v) && !v.VStr? ==> r == v
  {
    if Falsy(v) then VStr("")
    else if v.VStr? then VStr(Normalised(v.s))
    else v
  }

  /** Normalising twice is normalising once. */
  lemma NormalizeIdempotent(v: Value)
    ensures Normalize(Normalize(v)) == Normalize(v)
  {
    if v.VStr? {
      NormalisedIdempotent(v.s);
    }
  }

  /** `None` and the empty string compare equal, and so do strings equal up to outer whitespace. */
  lemma NormalizeEquatesBlankAndNone(a: string, b: string)
    requires Strip(a) == Strip(b)
    ensures Normalize(VNone) == Normalize(VStr(""))
    ensures Normalize(VStr(a)) == Normalize(VStr(b))
  {
    NormalisedOfStrip(a, b);
  }

  /** The old value of `field`: `getattr(old_instance, field) if old_instance else None`. */
  function OldValue<F>(oldInstance: Option<Instance<F>>, field: F): (r: Value)
    requires oldInstance.Some? ==> field in oldInstance.value
    ensures oldInstance.None? ==> r == VNone
  {
    if oldInstance.Some? then oldInstance.value[field] else VNone
  }

  /**
   * `fields_have_changed` with the old instance given (`None` for a new instance): an entry for
   * every requested field, `False` exactly when the normalised old and new values agree and there
   * is an old instance, otherwise the `Diff` of old and new.
   */
  method FieldsHaveChanged<F>(
    instance: Instance<F>, fields: seq<F>, normalize: Value -> Value, oldInstance: Option<Instance<F>>)
    returns (result: map<F, Change>)
    requires forall f | f in fields :: f in instance
    requires oldInstance.Some? ==> forall f | f in fields :: f in oldInstance.value
    ensures result.Keys == set f | f in fields
    ensures forall f | f in result ::
      result[f].Unchanged? <==>
        oldInstance.Some? && normalize(OldValue(oldInstance, f)) == normalize(instance[f])
    ensures forall f | f in result && result[f].Changed? ::
      result[f].diff == Diff(OldValue(oldInstance, f), instance[f])
    ensures oldInstance.None? ==> forall f | f in result :: result[f] == Changed(Diff(VNone, instance[f]))
  {
    result := map[];
    var i := 0;
    while i < |fields|
      invariant 0 <= i <= |fields|
      invariant result.Keys == set f | f in fields[..i]
      invariant forall f | f in result ::
        result[f].Unchanged? <==>
          oldInstance.Some? && normalize(OldValue(oldInstance, f)) == normalize(instance[f])
      invariant forall f | f in result && result[f].Changed? ::
        result[f].diff == Diff(OldValue(oldInstance, f), instance[f])
    {
      var field := fields[i];
      var newValue := instance[field];
      var oldValue := if oldInstance.Some? then oldInstance.value[field] else VNone;
      var valuesEqual := normalize(oldValue) == normalize(newValue);
      if oldInstance.None? || !valuesEqual {
        result := result[field := Changed(Diff(oldValue, newValue))];
      } else {
        result := result[field := Unchanged];
      }
      assert fields[..i + 1] == fields[..i] + [field];
      i := i + 1;
    }
    assert fields[..i] == fields;
  }

  /** `field_has_changed`: the single entry `fields_have_changed` gives for `field`. */
  method FieldHasChanged<F>(instance: Instance<F>, field: F, normalize: Value -> Value, oldInstance: Option<Instance<F>>)
    returns (r: Change)
    requires field in instance
    requires oldInstance.Some? ==> field in oldInstance.value
    ensures r.Unchanged? <==>
      oldInstance.Some? && normalize(OldValue(oldInstance, field)) == normalize(instance[field])
    ensures r.Changed? ==> r.diff == Diff(OldValue(oldInstance, field), instance[field])
  {
    var changes := FieldsHaveChanged(instance, [field], normalize, oldInstance);
    assert field in [field];
    r := changes[field];
  }

  /** `old_values_from_diffs`: the changed fields only, each mapped to its old value. */
  function OldValuesFromDiffs<F(!new)>(diffs: map<F, Change>): (r: map<F, Value>)
    ensures forall f :: f in r <==> f in diffs && diffs[f].Changed?
    ensures forall f | f in r :: r[f] == diffs[f].diff.oldValue
  {
    map f | f in diffs && diffs[f].Changed? :: diffs[f].diff.oldValue
  }

  /** The old values of an all-unchanged diff are empty; one changed field is enough to keep one. */
  lemma OldValuesEmptyIffUnchanged<F(!new)>(diffs: map<F, Change>)
    ensures OldValuesFromDiffs(diffs) == map[] <==> forall f | f in diffs :: diffs[f].Unchanged?
  {
  }
}
