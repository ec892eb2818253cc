/**
 * `discovery_events` (`views_discovery.py`): a list of event slots, each either a locked event
 * id or a request for a random event, filled from the events published in a time range and of
 * the requested type groups. The event table is passed in; `order_by('?')` becomes the order
 * in which the table is given, so "random" means "the first candidates of the given order".
 */
module ViewsDiscovery {
  import opened Wrappers

  datatype EventType =
    | JournalAdded
    | ObservationMade | ObservationClosed | ObservationRecontextualized
    | ObservationReflectedUpon | ObservationReinterpreted | ObservationUpdated
    | HabitTracked | Discovery
    | ProjectedOutcomeMade | ProjectedOutcomeRedefined | ProjectedOutcomeRescheduled | ProjectedOutcomeClosed

  /** An event row: its id, its concrete type and its publication time. */
  datatype Event = Event(id: nat, kind: EventType, published: int)

  /** `journal_event_type_mapping`: the type group a name stands for, `None` for a KeyError. */
  function TypeGroup(name: string): Option<seq<EventType>> {
    if name == "journal" then Some([JournalAdded])
    else if name == "observation" then
      Some([ObservationMade, ObservationClosed, ObservationRecontextualized,
            ObservationReflectedUpon, ObservationReinterpreted, ObservationUpdated])
    else if name == "other" then
      Some([HabitTracked, Discovery, ProjectedOutcomeMade, ProjectedOutcomeRedefined,
            ProjectedOutcomeRescheduled, ProjectedOutcomeClosed])
    else None
  }

  /** The `type` parameter: a list of group names, or something that is not a list. */
  datatype TypesParam = NotAList | AList(names: seq<string>)

  const KEY_ERROR := "KeyError"
  const NEGATIVE_SLICE := "Negative indexing is not supported."
  const NOT_ENOUGH := "Not enough events available."
  const MISSING_LOCKED := "Some requested events do not exist."
  const POP_EMPTY := "pop from empty list"

  predicate AllKnown(names: seq<string>) {
    forall i :: 0 <= i < |names| ==> TypeGroup(names[i]).Some?
  }

  /** The groups of `names` concatenated in order. */
  function Groups(names: seq<string>): seq<EventType>
    requires AllKnown(names)
  {
    if names == [] then [] else Groups(names[..|names| - 1]) + TypeGroup(names[|names| - 1]).value
  }

  /** A type is kept exactly when one of the named groups holds it. */
  lemma {:induction false} GroupsMembership(names: seq<string>, t: EventType)
    requires AllKnown(names)
    ensures t in Groups(names) <==> exists i :: 0 <= i < |names| && t in TypeGroup(names[i]).value
  {
    if names != [] {
      var n := |names| - 1;
      GroupsMembership(names[..n], t);
      GroupsLast(names, t);
      NamedLast(names, names[..n], t);
    }
  }

  /** The groups of a non-empty list are those of its front followed by those of its last name. */
  lemma GroupsLast(names: seq<string>, t: EventType)
    requires AllKnown(names) && names != []
    ensures AllKnown(names[..|names| - 1])
    ensures t in Groups(names) <==>
      t in Groups(names[..|names| - 1]) || t in TypeGroup(names[|names| - 1]).value
  {
    var n := |names| - 1;
    var front := names[..n];
    assert forall i :: 0 <= i < n ==> front[i] == names[i];
  }

  /** A name holding `t` is in the front of the list or is its last name. */
  lemma NamedLast(names: seq<string>, front: seq<string>, t: EventType)
    requires AllKnown(names) && names != [] && front == names[..|names| - 1]
    ensures AllKnown(front)
    ensures (exists i :: 0 <= i < |names| && t in TypeGroup(names[i]).value) <==>
      (exists i :: 0 <= i < |front| && t in TypeGroup(front[i]).value)
      || t in TypeGroup(names[|names| - 1]).value
  {
    var n := |front|;
    assert forall i :: 0 <= i < n ==> front[i] == names[i];
    if exists i :: 0 <= i < |names| && t in TypeGroup(names[i]).value {
      var i :| 0 <= i < |names| && t in TypeGroup(names[i]).value;
      if i < n {
        assert t in TypeGroup(front[i]).value;
      }
    }
  }

  /**
   * `filter_events_by_types`: `Ok(None)` leaves the events unfiltered (not a list, an empty
   * list, or no types at all), `Ok(Some(ts))` keeps the events of types `ts`, and an unknown
   * group name is the KeyError.
   */
  method FilterEventsByTypes(p: TypesParam) returns (r: Result<Option<seq<EventType>>, string>)
    ensures p.NotAList? || p.names == [] ==> r == Ok(None)
    ensures p.AList? && p.names != [] ==> (r.Err? <==> !AllKnown(p.names))
    ensures r.Err? ==> r.error == KEY_ERROR
    ensures p.AList? && p.names != [] && AllKnown(p.names) ==> r == Ok(Some(Groups(p.names)))
    ensures r == TypesFilter(p)
  {
    if p.NotAList? || p.names == [] {
      return Ok(None);
    }
    var typeFilters: seq<EventType> := [];
    for i := 0 to |p.names|
      invariant AllKnown(p.names[..i]) && typeFilters == Groups(p.names[..i])
    {
      var group := TypeGroup(p.names[i]);
      if group.None? {
        return Err(KEY_ERROR);
      }
      assert p.names[..i + 1][..i] == p.names[..i];
      typeFilters := typeFilters + group.value;
    }
    assert p.names[..|p.names|] == p.names;
    if typeFilters == [] {
      return Ok(None);
    }
    r := Ok(Some(typeFilters));
  }

  /** A known non-empty list of names never leaves the events unfiltered. */
  lemma KnownNamesFilter(names: seq<string>)
    requires names != [] && AllKnown(names)
    ensures Groups(names) != []
  {
    assert |TypeGroup(names[|names| - 1]).value| > 0;
  }

  /** The filter result as a value, for the contract of `DiscoveryEvents`. */
  function TypesFilter(p: TypesParam): Result<Option<seq<EventType>>, string> {
    if p.NotAList? || p.names == [] then Ok(None)
    else if !AllKnown(p.names) then Err(KEY_ERROR)
    else if Groups(p.names) == [] then Ok(None)
    else Ok(Some(Groups(p.names)))
  }

  // ---- candidates and locked events ----

  /** `e` is in the time range and of a kept type. */
  predicate Matches(e: Event, from: int, to: int, filter: Option<seq<EventType>>) {
    from <= e.published <= to && (filter.None? || e.kind in filter.value)
  }

  predicate NoDuplicates<T(==)>(s: seq<T>) {
    forall i, j :: 0 <= i < j < |s| ==> s[i] != s[j]
  }

  /** The random candidates in the given order: matching events whose id is not locked. */
  function Candidates(table: seq<Event>, from: int, to: int, filter: Option<seq<EventType>>, locked: seq<nat>)
    : (r: seq<Event>)
    ensures forall e :: e in r ==> e in table && Matches(e, from, to, filter) && e.id !in locked
    ensures NoDuplicates(table) ==> NoDuplicates(r)
  {
    if table == [] then []
    else
      var n := |table| - 1;
      var e := table[n];
      var before := Candidates(table[..n], from, to, filter, locked);
      assert forall x :: x in table[..n] ==> x in table;
      assert NoDuplicates(table) ==> NoDuplicates(table[..n]) && e !in table[..n];
      if Matches(e, from, to, filter) && e.id !in locked then before + [e] else before
  }

  /** `[x for x in events_param if x is not None]`. */
  function LockedIds(slots: seq<Option<nat>>): (r: seq<nat>)
    ensures forall id :: id in r <==> Some(id) in slots
  {
    if slots == [] then []
    else
      assert slots == [slots[0]] + slots[1..];
      (if slots[0].Some? then [slots[0].value] else []) + LockedIds(slots[1..])
  }

  /** The number of random slots. */
  function NoneCount(slots: seq<Option<nat>>): nat {
    if slots == [] then 0 else (if slots[0].None? then 1 else 0) + NoneCount(slots[1..])
  }

  /** Every slot is either random or locked. */
  lemma {:induction false} SlotsSplit(slots: seq<Option<nat>>)
    ensures NoneCount(slots) + |LockedIds(slots)| == |slots|
  {
    if slots != [] {
      SlotsSplit(slots[1..]);
    }
  }

  lemma {:induction false} NoneCountConcat(a: seq<Option<nat>>, b: seq<Option<nat>>)
    ensures NoneCount(a + b) == NoneCount(a) + NoneCount(b)
  {
    if a != [] {
      assert (a + b)[1..] == a[1..] + b;
      NoneCountConcat(a[1..], b);
    } else {
      assert a + b == b;
    }
  }

  /** Some event of the table has this id. */
  predicate HasId(table: seq<Event>, id: nat) {
    exists i :: 0 <= i < |table| && table[i].id == id
  }

  /** `{event.id: event for event in Event.objects.filter(id__in=ids)}`. */
  function LockedMap(table: seq<Event>, ids: set<nat>): (m: map<nat, Event>)
    ensures forall id :: id in m <==> id in ids && HasId(table, id)
    ensures forall id :: id in m ==> m[id] in table && m[id].id == id
  {
    if table == [] then map[]
    else
      var n := |table| - 1;
      var before := LockedMap(table[..n], ids);
      assert forall x :: x in table[..n] ==> x in table;
      assert forall id :: HasId(table, id) <==> HasId(table[..n], id) || table[n].id == id by {
        forall id | HasId(table, id) ensures HasId(table[..n], id) || table[n].id == id {
          var i :| 0 <= i < |table| && table[i].id == id;
          assert i < n ==> table[..n][i].id == id;
        }
        forall id | HasId(table[..n], id) ensures HasId(table, id) {
          var i :| 0 <= i < n && table[..n][i].id == id;
          assert table[i].id == id;
        }
      }
      if table[n].id in ids then before[table[n].id := table[n]] else before
  }

  /** The set of locked ids. */
  function IdSet(ids: seq<nat>): set<nat> {
    set id | id in ids
  }

  /**
   * The existence check as written: the number of found events against the number of locked
   * ids, duplicates included.
   */
  predicate LockedMissingAsWritten(found: map<nat, Event>, locked: seq<nat>) {
    |found| < |locked|
  }

  /** The existence check as intended: the number of found events against the distinct ids. */
  predicate LockedMissing(found: map<nat, Event>, locked: seq<nat>) {
    |found| < |IdSet(locked)|
  }

  /** The intended check fails exactly when some locked id names no event. */
  lemma LockedMissingIff(table: seq<Event>, locked: seq<nat>)
    ensures LockedMissing(LockedMap(table, IdSet(locked)), locked)
      <==> exists id :: id in locked && !HasId(table, id)
  {
    var ids := IdSet(locked);
    var keys := LockedMap(table, ids).Keys;
    assert keys <= ids;
    assert |ids| == |keys| + |ids - keys| by {
      assert ids == keys + (ids - keys);
      assert keys * (ids - keys) == {};
    }
    if exists id :: id in locked && !HasId(table, id) {
      var id :| id in locked && !HasId(table, id);
      assert id in ids - keys;
    } else {
      assert ids - keys == {};
    }
  }

  /** No id is locked twice. */
  predicate NoRepeats(ids: seq<nat>) {
    forall i, j :: 0 <= i < j < |ids| ==> ids[i] != ids[j]
  }

  lemma IdSetCons(ids: seq<nat>)
    requires ids != []
    ensures IdSet(ids) == {ids[0]} + IdSet(ids[1..])
  {
    assert ids == [ids[0]] + ids[1..];
  }

  lemma NoRepeatsCons(ids: seq<nat>)
    requires ids != []
    ensures NoRepeats(ids) <==> ids[0] !in ids[1..] && NoRepeats(ids[1..])
  {
    var rest := ids[1..];
    if ids[0] in rest {
      var k :| 0 <= k < |rest| && rest[k] == ids[0];
      assert ids[0] == ids[k + 1];
    }
    if NoRepeats(ids) {
      forall i, j | 0 <= i < j < |rest| ensures rest[i] != rest[j] {
        assert rest[i] == ids[i + 1] && rest[j] == ids[j + 1];
      }
    }
    if ids[0] !in rest && NoRepeats(rest) {
      forall i, j | 0 <= i < j < |ids| ensures ids[i] != ids[j] {
        if i == 0 {
          assert ids[j] == rest[j - 1];
        } else {
          assert ids[i] == rest[i - 1] && ids[j] == rest[j - 1];
        }
      }
    }
  }

  /** There are at most as many distinct ids as locked slots, and as many exactly when no id
      repeats. */
  lemma {:induction false} IdSetSize(ids: seq<nat>)
    ensures |IdSet(ids)| <= |ids|
    ensures |IdSet(ids)| == |ids| <==> NoRepeats(ids)
  {
    if ids != [] {
      var rest := ids[1..];
      IdSetSize(rest);
      IdSetCons(ids);
      NoRepeatsCons(ids);
      if ids[0] in rest {
        assert ids[0] in IdSet(rest);
        assert IdSet(ids) == IdSet(rest);
      } else {
        assert ids[0] !in IdSet(rest);
        assert |IdSet(ids)| == |IdSet(rest)| + 1;
      }
    }
  }

  /** A subset is no larger, and as large only when it is the whole set. */
  lemma SubsetSize(small: set<nat>, big: set<nat>)
    requires small <= big
    ensures |small| <= |big|
    ensures |small| == |big| ==> small == big
  {
    assert big == small + (big - small);
    assert small * (big - small) == {};
    assert |big| == |small| + |big - small|;
    if |small| == |big| {
      assert |big - small| == 0;
    }
  }

  /** The check as written fails exactly when some locked id names no event or some id is locked
      in two slots. */
  lemma LockedMissingAsWrittenIff(table: seq<Event>, locked: seq<nat>)
    ensures LockedMissingAsWritten(LockedMap(table, IdSet(locked)), locked)
      <==> (exists id :: id in locked && !HasId(table, id)) || !NoRepeats(locked)
  {
    var keys := LockedMap(table, IdSet(locked)).Keys;
    LockedMissingIff(table, locked);
    IdSetSize(locked);
    SubsetSize(keys, IdSet(locked));
  }

  /** As written, a locked id repeated in two slots is reported as missing although it exists. */
  lemma RepeatedLockedIdRejected()
    ensures var table := [Event(5, JournalAdded, 0)];
      var locked := LockedIds([Some(5), Some(5)]);
      LockedMissingAsWritten(LockedMap(table, IdSet(locked)), locked)
      && !LockedMissing(LockedMap(table, IdSet(locked)), locked)
      && forall id :: id in locked ==> HasId(table, id)
  {
    var table := [Event(5, JournalAdded, 0)];
    var locked := LockedIds([Some(5), Some(5)]);
    assert [Some(5), Some(5)][..1] == [Some(5)] && [Some(5)][..0] == [];
    assert locked == [5, 5];
    assert IdSet(locked) == {5};
    assert HasId(table, 5) by { assert table[0].id == 5; }
    var m := LockedMap(table, IdSet(locked));
    assert m.Keys == {5};
  }

  // ---- `discovery_events` ----

  /** The candidates, or nothing when the type filter fails. */
  function Available(table: seq<Event>, from: int, to: int, types: TypesParam, slots: seq<Option<nat>>)
    : seq<Event>
  {
    match TypesFilter(types)
    case Err(_) => []
    case Ok(filter) => Candidates(table, from, to, filter, LockedIds(slots))
  }

  /** The request fails: unknown types, more locked ids than `number`, too few candidates, a
      missing or repeated locked id, or more random slots than random events. */
  predicate Fails(number: int, slots: seq<Option<nat>>, from: int, to: int, types: TypesParam, table: seq<Event>) {
    var randomCount := number - |LockedIds(slots)|;
    TypesFilter(types).Err? || randomCount < 0 || |Available(table, from, to, types, slots)| < randomCount
    || (exists id :: id in LockedIds(slots) && !HasId(table, id)) || !NoRepeats(LockedIds(slots))
    || NoneCount(slots) > randomCount
  }

  /**
   * `discovery_events` after request validation: each locked slot gets its event, each random
   * slot the next candidate in order; the response `count` is the length of the result.
   */
  method DiscoveryEvents(number: int, slots: seq<Option<nat>>, from: int, to: int, types: TypesParam,
                         table: seq<Event>)
    returns (r: Result<seq<Event>, string>)
    ensures r.Err? <==> Fails(number, slots, from, to, types, table)
    ensures r.Ok? ==> |r.value| == |slots|
    ensures r.Ok? ==> forall i :: 0 <= i < |slots| ==>
      SlotHolds(r.value[i], slots[i], NoneCount(slots[..i]), Available(table, from, to, types, slots), table)
  {
    var filter :- FilterEventsByTypes(types);
    var locked := LockedIds(slots);
    var randomCount := number - |locked|;
    if randomCount < 0 {
      return Err(NEGATIVE_SLICE);
    }
    var candidates := Candidates(table, from, to, filter, locked);
    var randomEvents := if |candidates| <= randomCount then candidates else candidates[..randomCount];
    if |randomEvents| < randomCount {
      return Err(NOT_ENOUGH);
    }
    var lockedEvents := LockedMap(table, IdSet(locked));
    LockedMissingAsWrittenIff(table, locked);
    if LockedMissingAsWritten(lockedEvents, locked) {
      return Err(MISSING_LOCKED);
    }
    forall i | 0 <= i < |slots| && slots[i].Some? ensures slots[i].value in lockedEvents {
      assert Some(slots[i].value) in slots;
    }
    r := FillSlots(slots, randomEvents, lockedEvents);
    FillMeaning(slots, randomEvents, lockedEvents, table);
    if r.Ok? {
      forall i | 0 <= i < |slots|
        ensures SlotHolds(r.value[i], slots[i], NoneCount(slots[..i]), candidates, table)
      {
        assert SlotHolds(r.value[i], slots[i], NoneCount(slots[..i]), randomEvents, table);
      }
    }
  }

  /**
   * `e` fills `slot`: a locked slot gets the event with its id, a random slot the `before`-th
   * random event, `before` being the number of random slots ahead of it.
   */
  predicate SlotHolds(e: Event, slot: Option<nat>, before: nat, randomEvents: seq<Event>, table: seq<Event>) {
    (slot.Some? ==> e in table && e.id == slot.value)
    && (slot.None? ==> before < |randomEvents| && e == randomEvents[before])
  }

  predicate LockedFound(slots: seq<Option<nat>>, lockedEvents: map<nat, Event>) {
    forall i :: 0 <= i < |slots| && slots[i].Some? ==> slots[i].value in lockedEvents
  }

  /** The filled slots, `None` when a random slot finds the random events used up. */
  function Fill(slots: seq<Option<nat>>, randomEvents: seq<Event>, lockedEvents: map<nat, Event>)
    : Option<seq<Event>>
    requires LockedFound(slots, lockedEvents)
  {
    if slots == [] then Some([])
    else if slots[0].None? then
      if randomEvents == [] then None
      else Prepend([randomEvents[0]], Fill(slots[1..], randomEvents[1..], lockedEvents))
    else Prepend([lockedEvents[slots[0].value]], Fill(slots[1..], randomEvents, lockedEvents))
  }

  function Prepend(p: seq<Event>, rest: Option<seq<Event>>): Option<seq<Event>> {
    match rest
    case None => None
    case Some(r) => Some(p + r)
  }

  lemma PrependTwice(p: seq<Event>, q: seq<Event>, rest: Option<seq<Event>>)
    ensures Prepend(p, Prepend(q, rest)) == Prepend(p + q, rest)
    ensures Prepend([], rest) == rest
  {
    if rest.Some? {
      assert p + (q + rest.value) == (p + q) + rest.value;
      assert [] + rest.value == rest.value;
    }
  }

  /**
   * Filling succeeds exactly when there are enough random events, and then each slot holds its
   * locked event or the next random event.
   */
  lemma {:induction false} FillMeaning(slots: seq<Option<nat>>, randomEvents: seq<Event>,
                                       lockedEvents: map<nat, Event>, table: seq<Event>)
    requires LockedFound(slots, lockedEvents)
    requires forall id :: id in lockedEvents ==> lockedEvents[id] in table && lockedEvents[id].id == id
    ensures Fill(slots, randomEvents, lockedEvents).Some? <==> NoneCount(slots) <= |randomEvents|
    ensures Fill(slots, randomEvents, lockedEvents).Some? ==>
      var v := Fill(slots, randomEvents, lockedEvents).value;
      |v| == |slots| && forall i :: 0 <= i < |slots| ==>
        SlotHolds(v[i], slots[i], NoneCount(slots[..i]), randomEvents, table)
  {
    if slots != [] {
      var rs := if slots[0].None? && randomEvents != [] then randomEvents[1..] else randomEvents;
      FillMeaning(slots[1..], rs, lockedEvents, table);
      var f := Fill(slots, randomEvents, lockedEvents);
      if f.Some? {
        var v := f.value;
        var rest := Fill(slots[1..], rs, lockedEvents).value;
        assert v == [v[0]] + rest;
        forall i | 0 <= i < |slots| ensures SlotHolds(v[i], slots[i], NoneCount(slots[..i]), randomEvents, table) {
          if i == 0 {
            assert slots[..0] == [];
          } else {
            assert slots[..i] == [slots[0]] + slots[1..][..i - 1];
            NoneCountConcat([slots[0]], slots[1..][..i - 1]);
            assert SlotHolds(rest[i - 1], slots[1..][i - 1], NoneCount(slots[1..][..i - 1]), rs, table);
          }
        }
      }
    }
  }

  /** The slot loop of `discovery_events`: `pop(0)` from the random events, or the locked event. */
  method FillSlots(slots: seq<Option<nat>>, randomEvents: seq<Event>, lockedEvents: map<nat, Event>)
    returns (r: Result<seq<Event>, string>)
    requires LockedFound(slots, lockedEvents)
    ensures r.Ok? <==> Fill(slots, randomEvents, lockedEvents).Some?
    ensures r.Ok? ==> r.value == Fill(slots, randomEvents, lockedEvents).value
    ensures r.Err? ==> r.error == POP_EMPTY
  {
    var result: seq<Event> := [];
    var rest := randomEvents;
    assert slots[0..] == slots;
    PrependTwice([], [], Fill(slots, randomEvents, lockedEvents));
    for i := 0 to |slots|
      invariant LockedFound(slots[i..], lockedEvents)
      invariant Fill(slots, randomEvents, lockedEvents) == Prepend(result, Fill(slots[i..], rest, lockedEvents))
    {
      assert slots[i..][0] == slots[i] && slots[i..][1..] == slots[i + 1..];
      if slots[i].None? {
        if rest == [] {
          return Err(POP_EMPTY);
        }
        PrependTwice(result, [rest[0]], Fill(slots[i + 1..], rest[1..], lockedEvents));
        result := result + [rest[0]];
        rest := rest[1..];
      } else {
        PrependTwice(result, [lockedEvents[slots[i].value]], Fill(slots[i + 1..], rest, lockedEvents));
        result := result + [lockedEvents[slots[i].value]];
      }
    }
    r := Ok(result);
  }

  /** The random slots of a prefix are at most those of the whole. */
  lemma NoneCountGrows(slots: seq<Option<nat>>, i: nat)
    requires i <= |slots|
    ensures NoneCount(slots[..i]) <= NoneCount(slots)
  {
    assert slots == slots[..i] + slots[i..];
    NoneCountConcat(slots[..i], slots[i..]);
  }

  /** Random slots earlier in the list get earlier random events. */
  lemma NoneCountStrictlyGrows(slots: seq<Option<nat>>, i: nat, j: nat)
    requires i < j <= |slots| && slots[i].None?
    ensures NoneCount(slots[..i]) < NoneCount(slots[..j])
  {
    assert slots[..j] == slots[..i] + slots[i..j];
    NoneCountConcat(slots[..i], slots[i..j]);
    assert slots[i..j][0] == slots[i];
  }

  /**
   * In a successful response the random slots hold distinct matching events whose ids are not
   * locked (given a table without repeated rows).
   */
  lemma RandomSlotsDistinct(slots: seq<Option<nat>>, from: int, to: int, types: TypesParam,
                            table: seq<Event>, result: seq<Event>, i: nat, j: nat)
    requires NoDuplicates(table) && TypesFilter(types).Ok?
    requires |result| == |slots| && i < j < |slots| && slots[i].None? && slots[j].None?
    requires forall k :: 0 <= k < |slots| ==>
      SlotHolds(result[k], slots[k], NoneCount(slots[..k]), Available(table, from, to, types, slots), table)
    ensures result[i] != result[j]
    ensures Matches(result[i], from, to, TypesFilter(types).value) && result[i].id !in LockedIds(slots)
  {
    var cands := Available(table, from, to, types, slots);
    assert SlotHolds(result[i], slots[i], NoneCount(slots[..i]), cands, table);
    assert SlotHolds(result[j], slots[j], NoneCount(slots[..j]), cands, table);
    NoneCountStrictlyGrows(slots, i, j);
    assert cands[NoneCount(slots[..i])] in cands;
  }
}
