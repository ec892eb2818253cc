/**
 * `ComplexPresenter` (`presenters.py`): the observations attached to a complex observation are
 * found by replaying its `ObservationAttached` / `ObservationDetached` events in published order,
 * and the result is cached on the presenter. The event table is passed in as the sequence of
 * attach and detach events in published order.
 */
module Presenters {
  import opened Wrappers

  /** An observation's event stream id (a UUID in the source). */
  type StreamId = nat

  datatype EventKind = ObservationAttached | ObservationDetached

  /** An attach or detach event recorded on `eventStreamId` about `otherEventStreamId`. */
  datatype AttachEvent = AttachEvent(kind: EventKind, eventStreamId: StreamId, otherEventStreamId: StreamId)

  /** `e` is an event of `stream` about observation `id`. */
  predicate About(e: AttachEvent, stream: StreamId, id: StreamId) {
    e.eventStreamId == stream && e.otherEventStreamId == id
  }

  /** The attached ids after replaying `events` of `stream` in order: attach adds, detach discards. */
  function Replay(events: seq<AttachEvent>, stream: StreamId): set<StreamId> {
    if events == [] then {}
    else
      var n := |events| - 1;
      var e := events[n];
      var before := Replay(events[..n], stream);
      if e.eventStreamId != stream then before
      else match e.kind
        case ObservationAttached => before + {e.otherEventStreamId}
        case ObservationDetached => before - {e.otherEventStreamId}
  }

  /** The last event of `stream` about `id` sits at `i` and is an attach. */
  predicate LastIsAttach(events: seq<AttachEvent>, stream: StreamId, id: StreamId, i: int) {
    0 <= i < |events| && About(events[i], stream, id) && events[i].kind == ObservationAttached
    && forall j :: i < j < |events| ==> !About(events[j], stream, id)
  }

  /** An id is attached exactly when the last attach or detach event about it is an attach. */
  lemma {:induction false} AttachedIffLastIsAttach(events: seq<AttachEvent>, stream: StreamId, id: StreamId)
    ensures id in Replay(events, stream) <==> exists i :: LastIsAttach(events, stream, id, i)
  {
    if events != [] {
      var n := |events| - 1;
      var init := events[..n];
      var e := events[n];
      AttachedIffLastIsAttach(init, stream, id);
      if About(e, stream, id) {
        if e.kind == ObservationAttached {
          assert LastIsAttach(events, stream, id, n);
        } else {
          forall i | 0 <= i < |events| ensures !LastIsAttach(events, stream, id, i) {
            assert i < n ==> About(events[n], stream, id);
          }
        }
      } else {
        if id in Replay(init, stream) {
          var i :| LastIsAttach(init, stream, id, i);
          assert init[i] == events[i];
          assert LastIsAttach(events, stream, id, i);
        }
        if exists i :: LastIsAttach(events, stream, id, i) {
          var i :| LastIsAttach(events, stream, id, i);
          assert events[i] == init[i];
          assert LastIsAttach(init, stream, id, i);
        }
      }
    }
  }

  /** Events of other streams leave the replay unchanged. */
  lemma OtherStreamIgnored(events: seq<AttachEvent>, stream: StreamId, e: AttachEvent)
    requires e.eventStreamId != stream
    ensures Replay(events + [e], stream) == Replay(events, stream)
  {
    assert (events + [e])[..|events|] == events;
  }

  /** Detaching an id that is not attached changes nothing. */
  lemma DetachOfNonMemberIsNoOp(events: seq<AttachEvent>, stream: StreamId, id: StreamId)
    requires id !in Replay(events, stream)
    ensures Replay(events + [AttachEvent(ObservationDetached, stream, id)], stream) == Replay(events, stream)
  {
    assert (events + [AttachEvent(ObservationDetached, stream, id)])[..|events|] == events;
  }

  class ComplexPresenter {
    var observationEventStreamId: StreamId
    /** `_attached_stream_ids`: `None` until the first replay, then the cached result. */
    var attachedStreamIds: Option<set<StreamId>>

    constructor(streamId: StreamId)
      ensures observationEventStreamId == streamId && attachedStreamIds.None?
    {
      observationEventStreamId := streamId;
      attachedStreamIds := None;
    }

    /** What `_get_attached_stream_ids` returns now: the cache, or a replay of `events`. */
    function Current(events: seq<AttachEvent>): set<StreamId>
      reads this
    {
      if attachedStreamIds.Some? then attachedStreamIds.value else Replay(events, observationEventStreamId)
    }

    /** `_get_attached_stream_ids`: replays on the first call and caches; later calls return the cache. */
    method GetAttachedStreamIds(events: seq<AttachEvent>) returns (ids: set<StreamId>)
      modifies this
      ensures ids == old(Current(events))
      ensures attachedStreamIds == Some(ids) && observationEventStreamId == old(observationEventStreamId)
    {
      if attachedStreamIds.Some? {
        return attachedStreamIds.value;
      }
      var attached: set<StreamId> := {};
      for i := 0 to |events|
        invariant attached == Replay(events[..i], observationEventStreamId)
      {
        var e := events[i];
        assert events[..i + 1][..i] == events[..i];
        if e.eventStreamId == observationEventStreamId {
          if e.kind == ObservationAttached {
            attached := attached + {e.otherEventStreamId};
          } else {
            attached := attached - {e.otherEventStreamId};
          }
        }
      }
      assert events[..|events|] == events;
      attachedStreamIds := Some(attached);
      ids := attached;
    }

    /**
     * `open_observations_count`: how many attached ids belong to an open observation; 0 when
     * nothing is attached. `open` stands for the stream ids of the stored open observations.
     */
    method OpenObservationsCount(events: seq<AttachEvent>, open: set<StreamId>) returns (count: nat)
      modifies this
      ensures count == |old(Current(events)) * open|
      ensures old(Current(events)) == {} ==> count == 0
      ensures attachedStreamIds == Some(old(Current(events))) && observationEventStreamId == old(observationEventStreamId)
    {
      var ids := GetAttachedStreamIds(events);
      if ids == {} {
        return 0;
      }
      count := |ids * open|;
    }

    /** `total_unique_observations_count`: the number of attached ids. */
    method TotalUniqueObservationsCount(events: seq<AttachEvent>) returns (count: nat)
      modifies this
      ensures count == |old(Current(events))|
      ensures attachedStreamIds == Some(old(Current(events))) && observationEventStreamId == old(observationEventStreamId)
    {
      var ids := GetAttachedStreamIds(events);
      count := |ids|;
    }

    /** `is_attached`: membership in the attached ids. */
    method IsAttached(events: seq<AttachEvent>, id: StreamId) returns (attached: bool)
      modifies this
      ensures attached <==> id in old(Current(events))
      ensures attachedStreamIds == Some(old(Current(events))) && observationEventStreamId == old(observationEventStreamId)
    {
      var ids := GetAttachedStreamIds(events);
      attached := id in ids;
    }
  }

  /** An open-observation count never exceeds the total unique count. */
  lemma {:induction false} OpenAtMostTotal(ids: set<StreamId>, open: set<StreamId>)
    ensures |ids * open| <= |ids|
    decreases ids
  {
    if ids != {} {
      var x :| x in ids;
      OpenAtMostTotal(ids - {x}, open);
      assert ids * open == (ids - {x}) * open + (if x in open then {x} else {});
    }
  }

  /** `get_complex_presenter`: no presenter for an observation without an event stream id. */
  method GetComplexPresenter(eventStreamId: Option<StreamId>) returns (p: ComplexPresenter?)
    ensures eventStreamId.None? <==> p == null
    ensures p != null ==> fresh(p) && p.observationEventStreamId == eventStreamId.value && p.attachedStreamIds.None?
  {
    if eventStreamId.None? {
      return null;
    }
    p := new ComplexPresenter(eventStreamId.value);
  }
}
