/**
 * `create_projected_outcome_change_events` (`services/breakthrough/event_creation.py`): the
 * `Redefined` and `Rescheduled` events a projected-outcome save produces. The stored row that
 * `get_object_or_none` fetches is a parameter.
 */
module BreakthroughEvents {
  import opened Wrappers
  import opened Db
  import Calendar
  import Strings

  /** A projected outcome's compared fields; `pk` is `None` before the first save. */
  datatype ProjectedOutcome = ProjectedOutcome(pk: Option<nat>, name: string, description: string,
                                               successCriteria: Option<string>, resolvedBy: Calendar.Date)

  /** The compared fields of a projected outcome. */
  datatype OutcomeField = Name | Description | SuccessCriteria | ResolvedBy

  /** The two change events, each built from the saved instance. */
  datatype OutcomeEvent =
    | Redefined(outcome: ProjectedOutcome, oldValues: map<OutcomeField, Value>)
    | Rescheduled(outcome: ProjectedOutcome, oldResolvedBy: Value)

  /** The fields whose change redefines the outcome. */
  const REDEFINING_FIELDS: seq<OutcomeField> := [Name, Description, SuccessCriteria]

  /** The value of field `f` of an outcome. */
  function Field(o: ProjectedOutcome, f: OutcomeField): Value {
    match f
    case Name => VStr(o.name)
    case Description => VStr(o.description)
    case SuccessCriteria => AsValue(o.successCriteria)
    case ResolvedBy => VDate(o.resolvedBy)
  }

  /** The instance as a field map. */
  function Fields(o: ProjectedOutcome): (i: Instance<OutcomeField>)
    ensures forall f | f in REDEFINING_FIELDS :: f in i && i[f] == Field(o, f)
    ensures ResolvedBy in i && i[ResolvedBy] == Field(o, ResolvedBy)
  {
    map f | f in {Name, Description, SuccessCriteria, ResolvedBy} :: Field(o, f)
  }

  /** The default `normalize_func` of `field_has_changed`: values compare as they are. */
  function Identity(v: Value): Value {
    v
  }

  /** Text field `f` counts as changed: there is no stored row, or the normalised values differ. */
  predicate TextChanged(stored: Option<ProjectedOutcome>, instance: ProjectedOutcome, f: OutcomeField) {
    stored.None? || Normalize(Field(stored.value, f)) != Normalize(Field(instance, f))
  }

  /** The old value of a field: the stored row's, or `None` when there is no stored row. */
  function Before(stored: Option<ProjectedOutcome>, f: OutcomeField): Value {
    if stored.Some? then Field(stored.value, f) else VNone
  }

  /** The stored row as the `old_instance` argument of `fields_have_changed`. */
  function OldInstance(stored: Option<ProjectedOutcome>): (r: Option<Instance<OutcomeField>>)
    ensures r.Some? ==> forall f | f in REDEFINING_FIELDS :: f in r.value
    ensures r.Some? ==> ResolvedBy in r.value
  {
    if stored.Some? then Some(Fields(stored.value)) else None
  }

  /** `old_values_from_diffs(fields_have_changed(...))` over the redefining fields. */
  method RedefinedFields(instance: ProjectedOutcome, stored: Option<ProjectedOutcome>)
    returns (r: map<OutcomeField, Value>)
    ensures forall f :: f in r <==> f in REDEFINING_FIELDS && TextChanged(stored, instance, f)
    ensures forall f | f in r :: r[f] == Before(stored, f)
  {
    var changes := FieldsHaveChanged(Fields(instance), REDEFINING_FIELDS, Normalize, OldInstance(stored));
    r := OldValuesFromDiffs(changes);
  }

  /** `field_has_changed(instance, "resolved_by", old_instance=...)`, compared as is. */
  method ResolvedByChange(instance: ProjectedOutcome, stored: Option<ProjectedOutcome>) returns (r: Change)
    ensures r.Changed? <==> Reschedules(stored, instance)
    ensures r.Changed? ==> r.diff.oldValue == Before(stored, ResolvedBy)
  {
    r := FieldHasChanged(Fields(instance), ResolvedBy, Identity, OldInstance(stored));
  }

  /** Some redefining field changed. */
  predicate Redefines(stored: Option<ProjectedOutcome>, instance: ProjectedOutcome) {
    TextChanged(stored, instance, Name) || TextChanged(stored, instance, Description)
    || TextChanged(stored, instance, SuccessCriteria)
  }

  /** The resolution date changed: there is no stored row, or its date differs. */
  predicate Reschedules(stored: Option<ProjectedOutcome>, instance: ProjectedOutcome) {
    stored.None? || stored.value.resolvedBy != instance.resolvedBy
  }

  /**
   * `e` is the `Redefined` event of the save: it carries the old value of exactly the redefining
   * fields that changed.
   */
  ghost predicate RedefinitionOf(e: OutcomeEvent, stored: Option<ProjectedOutcome>, instance: ProjectedOutcome) {
    e.Redefined? && e.outcome == instance
    && (forall f :: f in e.oldValues <==> f in REDEFINING_FIELDS && TextChanged(stored, instance, f))
    && (forall f | f in e.oldValues :: e.oldValues[f] == Before(stored, f))
  }

  /** The conditional `Redefined` event: present exactly when some redefining field changed. */
  method RedefinedEvent(instance: ProjectedOutcome, stored: Option<ProjectedOutcome>)
    returns (events: seq<OutcomeEvent>)
    ensures |events| == if Redefines(stored, instance) then 1 else 0
    ensures events != [] ==> RedefinitionOf(events[0], stored, instance)
  {
    var redefinedFields := RedefinedFields(instance, stored);
    if redefinedFields != map[] {
      var f :| f in redefinedFields;

      events := [Redefined(instance, redefinedFields)];
    } else {
      assert Name !in redefinedFields && Description !in redefinedFields
        && SuccessCriteria !in redefinedFields;
      events := [];
    }
  }

  /** The conditional `Rescheduled` event: present exactly when the date changed. */
  method RescheduledEvent(instance: ProjectedOutcome, stored: Option<ProjectedOutcome>)
    returns (events: seq<OutcomeEvent>)
    ensures |events| == if Reschedules(stored, instance) then 1 else 0
    ensures events != [] ==> events[0] == Rescheduled(instance, Before(stored, ResolvedBy))
  {
    var resolvedByChanged := ResolvedByChange(instance, stored);
    events := [];
    if resolvedByChanged.Changed? {
      events := [Rescheduled(instance, resolvedByChanged.diff.oldValue)];
    }
  }

  /**
   * An unsaved instance yields nothing. Otherwise one `Redefined` event, carrying the old value of
   * exactly the changed redefining fields, when one of them changed after normalisation, then one
   * `Rescheduled` event carrying the old date when the date changed: at most two, in that order.
   */
  method CreateProjectedOutcomeChangeEvents(instance: ProjectedOutcome, stored: Option<ProjectedOutcome>)
    returns (events: seq<OutcomeEvent>)
    ensures instance.pk.None? ==> events == []
    ensures instance.pk.Some? ==>
      |events| == (if Redefines(stored, instance) then 1 else 0) + (if Reschedules(stored, instance) then 1 else 0)
    ensures instance.pk.Some? && Redefines(stored, instance) ==> RedefinitionOf(events[0], stored, instance)
    ensures instance.pk.Some? && Reschedules(stored, instance) ==>
      events[|events| - 1] == Rescheduled(instance, Before(stored, ResolvedBy))
  {
    if instance.pk.None? {
      return [];
    }
    var redefined := RedefinedEvent(instance, stored);
    var rescheduled := RescheduledEvent(instance, stored);
    events := redefined + rescheduled;
  }

  /** With no stored row every field counts as changed, so both events are produced. */
  lemma NoStoredRowRedefinesAndReschedules(instance: ProjectedOutcome)
    ensures Redefines(None, instance) && Reschedules(None, instance)
  {
  }

  /** Normalised text values that agree: the field is unchanged. */
  lemma SameText(before: ProjectedOutcome, after: ProjectedOutcome, f: OutcomeField, x: string, y: string)
    requires Field(before, f) == VStr(x) && Field(after, f) == VStr(y)
    requires Strings.Strip(x) == Strings.Strip(y)
    ensures !TextChanged(Some(before), after, f)
  {
    NormalizeEquatesBlankAndNone(x, y);
  }

  /** `None` and `""` agree once normalised: the optional field is unchanged. */
  lemma BlankCriteria(before: ProjectedOutcome, after: ProjectedOutcome)
    requires before.successCriteria.GetOr("") == "" && after.successCriteria.GetOr("") == ""
    ensures !TextChanged(Some(before), after, SuccessCriteria)
  {
  }

  /** Edits of blanks and outer whitespace alone, with the same date, produce no event. */
  lemma CosmeticEditsProduceNothing(before: ProjectedOutcome, after: ProjectedOutcome)
    requires Strings.Strip(before.name) == Strings.Strip(after.name)
    requires Strings.Strip(before.description) == Strings.Strip(after.description)
    requires before.successCriteria.GetOr("") == "" && after.successCriteria.GetOr("") == ""
    requires before.resolvedBy == after.resolvedBy
    ensures !Redefines(Some(before), after) && !Reschedules(Some(before), after)
  {
    SameText(before, after, Name, before.name, after.name);
    SameText(before, after, Description, before.description, after.description);
    BlankCriteria(before, after);
  }

  /** A new date alone reschedules without redefining. */
  lemma NewDateOnlyReschedules(before: ProjectedOutcome, after: ProjectedOutcome)
    requires after == before.(resolvedBy := after.resolvedBy) && after.resolvedBy != before.resolvedBy
    ensures !Redefines(Some(before), after) && Reschedules(Some(before), after)
  {
  }
}
