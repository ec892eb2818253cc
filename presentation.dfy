/**
 * `ProjectedOutcomePresentation` (`presentation.py`): a projected outcome shown from its event
 * stream. The events are sorted by publication time and split by type; the displayed fields come
 * from the active outcome when it still exists, and otherwise from replaying the Made, Redefined,
 * Rescheduled and Closed events.
 */
module Presentation {
  import opened Wrappers
  import Calendar

  /** The four displayed fields of a projected outcome. */
  datatype Outcome = Outcome(name: string, description: string, resolvedBy: Calendar.Date, successCriteria: string)

  /** The events of an outcome's stream; `Other` stands for every other event type in the stream. */
  datatype Event =
    | Made(published: int, eventStreamId: nat, outcome: Outcome)
    | Redefined(published: int, newName: Option<string>, newDescription: Option<string>,
                newSuccessCriteria: Option<string>)
    | Rescheduled(published: int, newResolvedBy: Calendar.Date)
    | Closed(published: int, outcome: Outcome)
    | Other(published: int)

  /** A stored, still active projected outcome; the confidence level is in hundredths of a percent. */
  datatype Active = Active(outcome: Outcome, confidenceLevel: int)

  /** `Decimal('100.00')`, in hundredths. */
  const FULL_CONFIDENCE: int := 10000

  const NO_MADE_EVENT: string := "ProjectedOutcome must have at least one Made event"

  // ---- sorting by publication time ----

  predicate SortedByPublished(es: seq<Event>) {
    forall i, j :: 0 <= i < j < |es| ==> es[i].published <= es[j].published
  }

  /** Puts `e` after every element published no later than it, so equal times keep their order. */
  function InsertByPublished(sorted: seq<Event>, e: Event): seq<Event> {
    if sorted == [] then [e]
    else
      var n := |sorted| - 1;
      if sorted[n].published <= e.published then sorted + [e]
      else InsertByPublished(sorted[..n], e) + [sorted[n]]
  }

  /** Inserting adds exactly `e`. */
  lemma {:induction false} InsertAddsOne(sorted: seq<Event>, e: Event)
    ensures multiset(InsertByPublished(sorted, e)) == multiset(sorted) + multiset{e}
  {
    if sorted != [] {
      var n := |sorted| - 1;
      assert sorted == sorted[..n] + [sorted[n]];
      if sorted[n].published > e.published {
        InsertAddsOne(sorted[..n], e);
      }
    }
  }

  /** Inserting into a sorted sequence keeps it sorted. */
  lemma {:induction false} InsertKeepsSorted(sorted: seq<Event>, e: Event)
    requires SortedByPublished(sorted)
    ensures SortedByPublished(InsertByPublished(sorted, e))
  {
    if sorted != [] {
      var n := |sorted| - 1;
      if sorted[n].published > e.published {
        var front := InsertByPublished(sorted[..n], e);
        InsertKeepsSorted(sorted[..n], e);
        InsertAddsOne(sorted[..n], e);
        forall i | 0 <= i < |front| ensures front[i].published <= sorted[n].published {
          assert front[i] in multiset(front);
          assert front[i] in multiset(sorted[..n]) || front[i] == e;
        }
      }
    }
  }

  /** `sorted(events, key=published)`: a stable insertion sort. */
  function SortByPublished(es: seq<Event>): (r: seq<Event>)
    ensures SortedByPublished(r)
    ensures multiset(r) == multiset(es)
  {
    if es == [] then []
    else
      var n := |es| - 1;
      assert es == es[..n] + [es[n]];
      var front := SortByPublished(es[..n]);
      InsertKeepsSorted(front, es[n]);
      InsertAddsOne(front, es[n]);
      InsertByPublished(front, es[n])
  }

  // ---- splitting by type ----

  datatype Kind = MadeKind | RedefinedKind | RescheduledKind | ClosedKind

  predicate HasKind(e: Event, k: Kind) {
    match k
    case MadeKind => e.Made?
    case RedefinedKind => e.Redefined?
    case RescheduledKind => e.Rescheduled?
    case ClosedKind => e.Closed?
  }

  /** `_decorate_with_events`: the events of one type, in their order. */
  function Select(es: seq<Event>, k: Kind): (r: seq<Event>)
    ensures |r| <= |es|
    ensures forall i :: 0 <= i < |r| ==> HasKind(r[i], k) && r[i] in es
    ensures forall e :: e in es && HasKind(e, k) ==> e in r
  {
    if es == [] then []
    else
      var rest := Select(es[1..], k);
      assert forall e :: e in es[1..] ==> e in es;
      if HasKind(es[0], k) then [es[0]] + rest else rest
  }

  // ---- replay ----

  datatype TextField = NameField | DescriptionField | CriteriaField

  function Text(o: Outcome, f: TextField): string {
    match f
    case NameField => o.name
    case DescriptionField => o.description
    case CriteriaField => o.successCriteria
  }

  /** The new value a Redefined event carries for `f`, `None` when it leaves `f` alone. */
  function NewText(e: Event, f: TextField): Option<string>
    requires e.Redefined?
  {
    match f
    case NameField => e.newName
    case DescriptionField => e.newDescription
    case CriteriaField => e.newSuccessCriteria
  }

  /** One Redefined event: each non-`None` new value overwrites its field. */
  function Redefine(o: Outcome, e: Event): Outcome
    requires e.Redefined?
  {
    Outcome(NewText(e, NameField).GetOr(o.name), NewText(e, DescriptionField).GetOr(o.description),
            o.resolvedBy, NewText(e, CriteriaField).GetOr(o.successCriteria))
  }

  /** The Redefined events applied in order. */
  function ApplyRedefined(o: Outcome, rs: seq<Event>): Outcome
    requires forall i :: 0 <= i < |rs| ==> rs[i].Redefined?
  {
    if rs == [] then o
    else
      var n := |rs| - 1;
      Redefine(ApplyRedefined(o, rs[..n]), rs[n])
  }

  /** The Rescheduled events applied in order. */
  function ApplyRescheduled(o: Outcome, rs: seq<Event>): Outcome
    requires forall i :: 0 <= i < |rs| ==> rs[i].Rescheduled?
  {
    if rs == [] then o
    else
      var n := |rs| - 1;
      ApplyRescheduled(o, rs[..n]).(resolvedBy := rs[n].newResolvedBy)
  }

  /** `_replay_events`: redefinitions, then reschedules, then the last Closed event if there is one. */
  function Replayed(o: Outcome, redefined: seq<Event>, rescheduled: seq<Event>, closed: seq<Event>): Outcome
    requires forall i :: 0 <= i < |redefined| ==> redefined[i].Redefined?
    requires forall i :: 0 <= i < |rescheduled| ==> rescheduled[i].Rescheduled?
    requires forall i :: 0 <= i < |closed| ==> closed[i].Closed?
  {
    if closed != [] then closed[|closed| - 1].outcome
    else ApplyRescheduled(ApplyRedefined(o, redefined), rescheduled)
  }

  /**
   * A redefined field holds the value of the last Redefined event that gives one, and keeps its
   * starting value when none does; a redefinition never touches `resolved_by`.
   */
  lemma {:induction false} RedefinedFieldIsLastGiven(o: Outcome, rs: seq<Event>, f: TextField, i: int)
    requires forall k :: 0 <= k < |rs| ==> rs[k].Redefined?
    ensures ApplyRedefined(o, rs).resolvedBy == o.resolvedBy
    ensures (forall k :: 0 <= k < |rs| ==> NewText(rs[k], f).None?) ==> Text(ApplyRedefined(o, rs), f) == Text(o, f)
    ensures 0 <= i < |rs| && NewText(rs[i], f).Some? && (forall k :: i < k < |rs| ==> NewText(rs[k], f).None?) ==>
      Text(ApplyRedefined(o, rs), f) == NewText(rs[i], f).value
  {
    if rs != [] {
      var n := |rs| - 1;
      RedefinedFieldIsLastGiven(o, rs[..n], f, i);
      assert forall k :: 0 <= k < n ==> rs[..n][k] == rs[k];
    }
  }

  /** After reschedules `resolved_by` is the last rescheduled value; nothing else changes. */
  lemma {:induction false} RescheduledLastWins(o: Outcome, rs: seq<Event>)
    requires forall i :: 0 <= i < |rs| ==> rs[i].Rescheduled?
    ensures rs == [] ==> ApplyRescheduled(o, rs) == o
    ensures rs != [] ==> ApplyRescheduled(o, rs) == o.(resolvedBy := rs[|rs| - 1].newResolvedBy)
  {
    if |rs| > 1 {
      var n := |rs| - 1;
      RescheduledLastWins(o, rs[..n]);
    }
  }

  /** The last Closed event decides all four fields, whatever came before it. */
  lemma ClosedOverrides(o: Outcome, redefined: seq<Event>, rescheduled: seq<Event>, closed: seq<Event>)
    requires forall i :: 0 <= i < |redefined| ==> redefined[i].Redefined?
    requires forall i :: 0 <= i < |rescheduled| ==> rescheduled[i].Rescheduled?
    requires forall i :: 0 <= i < |closed| ==> closed[i].Closed?
    requires closed != []
    ensures Replayed(o, redefined, rescheduled, closed) == closed[|closed| - 1].outcome
  {
  }

  class ProjectedOutcomePresentation {
    var events: seq<Event>
    var activeInstance: Option<Active>
    var madeEvents: seq<Event>
    var redefinedEvents: seq<Event>
    var rescheduledEvents: seq<Event>
    var closedEvents: seq<Event>
    /** The displayed `name`, `description`, `resolved_by` and `success_criteria`. */
    var shown: Outcome
    var published: int
    var eventStreamId: nat
    var confidenceLevel: int

    /** The event lists are the sorted events split by type. */
    predicate Split()
      reads this
    {
      madeEvents == Select(events, MadeKind) && redefinedEvents == Select(events, RedefinedKind)
      && rescheduledEvents == Select(events, RescheduledKind) && closedEvents == Select(events, ClosedKind)
    }

    /** Each replayed list holds events of its own type. */
    predicate Typed()
      reads this
    {
      (forall i :: 0 <= i < |redefinedEvents| ==> redefinedEvents[i].Redefined?)
      && (forall i :: 0 <= i < |rescheduledEvents| ==> rescheduledEvents[i].Rescheduled?)
      && (forall i :: 0 <= i < |closedEvents| ==> closedEvents[i].Closed?)
    }

    /** The state `_build_state` leaves behind when there is a Made event. */
    predicate Built()
      reads this
    {
      Split() && Typed() && madeEvents != [] && madeEvents[0].Made?
      && published == madeEvents[0].published && eventStreamId == madeEvents[0].eventStreamId
      && (activeInstance.Some? ==>
            shown == activeInstance.value.outcome && confidenceLevel == activeInstance.value.confidenceLevel)
      && (activeInstance.None? ==>
            shown == Replayed(madeEvents[0].outcome, redefinedEvents, rescheduledEvents, closedEvents)
            && confidenceLevel == FULL_CONFIDENCE)
    }

    /** `__init__` up to `_build_state`: the events sorted by publication time. */
    constructor(es: seq<Event>, active: Option<Active>)
      ensures events == SortByPublished(es) && activeInstance == active
    {
      events := SortByPublished(es);
      activeInstance := active;
    }

    /** `_build_state`: the error of the `ValueError` raised without a Made event, else `None`. */
    method BuildState() returns (error: Option<string>)
      modifies this
      ensures events == old(events) && activeInstance == old(activeInstance)
      ensures Split()
      ensures error.Some? <==> madeEvents == []
      ensures error.Some? ==> error.value == NO_MADE_EVENT
      ensures error.None? ==> Built()
    {
      SplitEvents();
      if madeEvents == [] {
        return Some(NO_MADE_EVENT);
      }
      ShowOutcome();
      error := None;
    }

    /** The first half of `_build_state`: the sorted events split by type. */
    method SplitEvents()
      modifies this
      ensures events == old(events) && activeInstance == old(activeInstance)
      ensures Split() && Typed() && (madeEvents != [] ==> madeEvents[0].Made?)
    {
      madeEvents := Select(events, MadeKind);
      redefinedEvents := Select(events, RedefinedKind);
      rescheduledEvents := Select(events, RescheduledKind);
      closedEvents := Select(events, ClosedKind);
      if madeEvents != [] {
        assert HasKind(madeEvents[0], MadeKind);
      }
    }

    /**
     * The second half of `_build_state`: the fields of the first Made event, then either the
     * active instance's values or the replay of the other events at full confidence.
     */
    method ShowOutcome()
      requires Split() && Typed() && madeEvents != [] && madeEvents[0].Made?
      modifies this
      ensures events == old(events) && activeInstance == old(activeInstance)
      ensures Built()
    {
      var initial := madeEvents[0];
      shown, published, eventStreamId := initial.outcome, initial.published, initial.eventStreamId;
      if activeInstance.Some? {
        shown, confidenceLevel := activeInstance.value.outcome, activeInstance.value.confidenceLevel;
      } else {
        ReplayEvents();
        confidenceLevel := FULL_CONFIDENCE;
      }
    }

    /** `_replay_events`: the displayed fields become the replay of the split events over them. */
    method ReplayEvents()
      requires Typed()
      modifies this
      ensures events == old(events) && activeInstance == old(activeInstance) && madeEvents == old(madeEvents)
      ensures redefinedEvents == old(redefinedEvents) && rescheduledEvents == old(rescheduledEvents)
      ensures closedEvents == old(closedEvents) && Typed()
      ensures published == old(published) && eventStreamId == old(eventStreamId)
      ensures confidenceLevel == old(confidenceLevel)
      ensures shown == Replayed(old(shown), redefinedEvents, rescheduledEvents, closedEvents)
    {
      var redefined, rescheduled, closed := redefinedEvents, rescheduledEvents, closedEvents;
      var start := shown;
      var o := start;
      for i := 0 to |redefined|
        invariant o == ApplyRedefined(start, redefined[..i])
      {
        var e := redefined[i];
        assert redefined[..i + 1][..i] == redefined[..i];
        if e.newName.Some? {
          o := o.(name := e.newName.value);
        }
        if e.newDescription.Some? {
          o := o.(description := e.newDescription.value);
        }
        if e.newSuccessCriteria.Some? {
          o := o.(successCriteria := e.newSuccessCriteria.value);
        }
      }
      assert redefined[..|redefined|] == redefined;
      ghost var afterRedefined := o;
      for i := 0 to |rescheduled|
        invariant o == ApplyRescheduled(afterRedefined, rescheduled[..i])
      {
        assert rescheduled[..i + 1][..i] == rescheduled[..i];
        o := o.(resolvedBy := rescheduled[i].newResolvedBy);
      }
      assert rescheduled[..|rescheduled|] == rescheduled;
      if closed != [] {
        o := closed[|closed| - 1].outcome;
      }
      shown := o;
    }

    /** `is_active`. */
    predicate IsActive()
      reads this
    {
      activeInstance.Some?
    }

    /** `status`: "Active" exactly when there is an active instance, otherwise "Complete". */
    function Status(): (s: string)
      reads this
      ensures s == "Active" <==> activeInstance.Some?
      ensures s == "Complete" <==> activeInstance.None?
    {
      if IsActive() then "Active" else "Complete"
    }

    /** `final_event`: the last event in publication order, `None` without events. */
    function FinalEvent(): (e: Option<Event>)
      reads this
      ensures e.None? <==> events == []
      ensures e.Some? ==> e.value in events && e.value == events[|events| - 1]
      ensures e.Some? && SortedByPublished(events) ==> forall x :: x in events ==> x.published <= e.value.published
    {
      if events == [] then None else Some(events[|events| - 1])
    }
  }

  /**
   * `__init__` as a whole: the presentation built from the events and the active instance, or
   * the error when no Made event is among them.
   */
  method Present(es: seq<Event>, active: Option<Active>) returns (r: Result<ProjectedOutcomePresentation, string>)
    ensures r.Err? <==> forall e :: e in es ==> !e.Made?
    ensures r.Err? ==> r.error == NO_MADE_EVENT
    ensures r.Ok? ==> (fresh(r.value) && r.value.Built()
                       && r.value.events == SortByPublished(es) && r.value.activeInstance == active)
  {
    var p := new ProjectedOutcomePresentation(es, active);
    var error := p.BuildState();
    if error.Some? {
      forall e | e in es ensures !e.Made? {
        assert e in multiset(es);
        assert e in p.events;
      }
      return Err(error.value);
    }
    assert p.madeEvents[0] in p.events;
    assert p.madeEvents[0] in multiset(es);
    r := Ok(p);
  }
}
