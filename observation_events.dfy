/**
 * `create_observation_change_events` (`services/observations/event_creation.py`): the events an
 * observation save produces, decided by `fields_have_changed` with `normalize_for_comparison`.
 */
module ObservationEvents {
  import opened Wrappers
  import opened Strings
  import opened Db
  import opened Serializers
  import Tree

  /** The three content fields `create_observation_change_events` compares. */
  datatype ContentField = Situation | Interpretation | Approach

  const CONTENT_FIELDS: seq<ContentField> := [Situation, Interpretation, Approach]

  function Fields(o: Observation): (i: Instance<ContentField>)
    ensures forall f | f in CONTENT_FIELDS :: f in i
  {
    map[Situation := AsValue(o.situation),
        Interpretation := AsValue(o.interpretation),
        Approach := AsValue(o.approach)]
  }

  /** A field's normalised values differ. */
  predicate Differs(before: Option<string>, after: Option<string>) {
    Normalize(AsValue(before)) != Normalize(AsValue(after))
  }

  /** The text a nullable field compares as: `None` reads as the empty string. */
  function Text(s: Option<string>): string {
    s.GetOr("")
  }

  /**
   * A field counts as changed exactly when its texts differ once stripped and freed of carriage
   * returns, `None` counting as empty.
   */
  lemma DiffersIff(before: Option<string>, after: Option<string>)
    ensures Differs(before, after) <==> Normalised(Text(before)) != Normalised(Text(after))
  {
    assert Normalised("") == "" by {
      assert Strip("") == "";
    }
  }

  /** The `fields_have_changed` call over the content fields, read out field by field. */
  method ContentChanges(current: Observation, previous: Observation)
    returns (situation: bool, interpretation: bool, approach: bool)
    ensures situation <==> Differs(previous.situation, current.situation)
    ensures interpretation <==> Differs(previous.interpretation, current.interpretation)
    ensures approach <==> Differs(previous.approach, current.approach)
  {
    var changes := FieldsHaveChanged(Fields(current), CONTENT_FIELDS, Normalize, Some(Fields(previous)));
    assert Situation in CONTENT_FIELDS && Interpretation in CONTENT_FIELDS && Approach in CONTENT_FIELDS;
    situation := changes[Situation].Changed?;
    interpretation := changes[Interpretation].Changed?;
    approach := changes[Approach].Changed?;
  }

  /** The conditional appends of the change events, each carrying the field's previous value. */
  method AppendChangeEvents(situationChanged: bool, interpretationChanged: bool, approachChanged: bool,
                            previous: Observation)
    returns (events: seq<ObservationEvent>)
    ensures events == Appended(situationChanged, interpretationChanged, approachChanged,
      previous.situation, previous.interpretation, previous.approach)
  {
    events := [];
    if situationChanged {
      events := events + [ObservationRecontextualized(previous.situation)];
    }
    assert events == Appended(situationChanged, false, false, previous.situation, None, None);
    if interpretationChanged {
      events := events + [ObservationReinterpreted(previous.interpretation)];
    }
    assert events == Appended(situationChanged, interpretationChanged, false,
      previous.situation, previous.interpretation, None);
    if approachChanged {
      events := events + [ObservationReflectedUpon(previous.approach)];
    }
    assert events == Appended(situationChanged, interpretationChanged, approachChanged,
      previous.situation, previous.interpretation, previous.approach);
  }

  /**
   * A new observation (no stored primary key, the current one set) yields exactly `ObservationMade`;
   * otherwise one event per field whose normalised value changed, in the order situation,
   * interpretation, approach, each carrying that field's previous value.
   */
  method CreateObservationChangeEvents(current: Observation, previous: Observation)
    returns (events: seq<ObservationEvent>)
    ensures previous.pk.None? && current.pk.Some? ==> events == [ObservationMade]
    ensures !(previous.pk.None? && current.pk.Some?) ==>
      |events| <= 3 && ObservationMade !in events && InFieldOrder(events)
      && (ObservationRecontextualized(previous.situation) in events <==>
            Differs(previous.situation, current.situation))
      && (ObservationReinterpreted(previous.interpretation) in events <==>
            Differs(previous.interpretation, current.interpretation))
      && (ObservationReflectedUpon(previous.approach) in events <==>
            Differs(previous.approach, current.approach))
      && (forall e | e in events ::
            e == ObservationRecontextualized(previous.situation)
            || e == ObservationReinterpreted(previous.interpretation)
            || e == ObservationReflectedUpon(previous.approach))
  {
    if previous.pk.None? && current.pk.Some? {
      return [ObservationMade];
    }
    var situationChanged, interpretationChanged, approachChanged := ContentChanges(current, previous);
    events := AppendChangeEvents(situationChanged, interpretationChanged, approachChanged, previous);
    AppendedEvents(situationChanged, interpretationChanged, approachChanged,
      previous.situation, previous.interpretation, previous.approach);
  }

  lemma NormalisedEmpty()
    ensures Normalised("") == ""
  {
    assert Strip("") == "";
  }

  /** `before` is `None` and `after` a non-empty string that normalises to nothing. */
  predicate NoneAgainstBlank(before: Option<string>, after: Option<string>) {
    before.None? && after.Some? && after.value != "" && Normalised(after.value) == ""
  }

  /**
   * `spawn_observation_events` and `create_observation_change_events` agree on whether a field
   * changed, except when one side is `None` and the other a non-empty blank string.
   */
  lemma WasChangedAgreesWithDiffers(before: Option<string>, after: Option<string>)
    requires !NoneAgainstBlank(before, after) && !NoneAgainstBlank(after, before)
    ensures WasChanged(before, after) <==> Differs(before, after)
  {
    NormalisedEmpty();
    match (before, after)
    case (None, None) =>
    case (None, Some(y)) =>
      if y == "" {
        EmptyAgainstNone(y);
      } else {
        VisibleAgainstNone(y);
      }
    case (Some(x), None) =>
      if x == "" {
        EmptyAgainstNone(x);
      } else {
        VisibleAgainstNone(x);
      }
    case (Some(x), Some(y)) =>
      DiffersIff(before, after);
      assert Text(before) == x && Text(after) == y;
      BothPresent(x, y);
  }

  lemma EmptyAgainstNone(y: string)
    requires y == ""
    ensures !WasChanged(None, Some(y)) && !Differs(None, Some(y))
    ensures !WasChanged(Some(y), None) && !Differs(Some(y), None)
  {
    NormalisedEmpty();
  }

  lemma VisibleAgainstNone(y: string)
    requires y != "" && Normalised(y) != ""
    ensures WasChanged(None, Some(y)) && Differs(None, Some(y))
    ensures WasChanged(Some(y), None) && Differs(Some(y), None)
  {
  }

  lemma BothPresent(x: string, y: string)
    requires Normalised("") == ""
    ensures WasChanged(Some(x), Some(y)) <==> Normalised(x) != Normalised(y)
  {
    if x == "" && y == "" {
      assert Normalised(x) == Normalised(y);
    }
  }

  lemma NormalisedBlank()
    ensures Normalised(" ") == ""
  {
    assert IsSpace(' ');
    assert Strip(" ") == "" by {
      StripEmptyIffAllSpace(" ");
    }
  }

  /** `None` against a whitespace-only string: a change for one builder, none for the other. */
  lemma BuildersDisagreeOnNoneVersusBlank()
    ensures WasChanged(None, Some(" ")) && !Differs(None, Some(" "))
  {
    assert |" "| == 1;
    NormalisedBlank();
  }
}
