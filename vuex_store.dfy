/**
 * The Vuex store of `assets/store.js`: the same state and getters as the Pinia store, with the
 * list update as a mutation. Its `findIndex` callback has a block body with no `return`, so the
 * search never matches and the mutation always prepends. The `save` and `close` actions commit
 * that mutation as written; a corrected mutation and a corrected `save` are kept beside them.
 */
module VuexStore {
  import opened Wrappers
  import opened AssetUtils
  import opened BoardStore

  /** The callback `(item) => { item.id === payload.id }`: it returns `undefined`, which is falsy. */
  function NoReturnCallback(payload: Board): Board -> bool {
    (b: Board) => false
  }

  /** The results after the mutation as written. */
  function UpdatedAsWritten(results: seq<Board>, payload: Board): seq<Board> {
    UpsertedBy(results, payload, NoReturnCallback(payload))
  }

  /** As written, the payload is always put in front, whatever its id. */
  lemma AsWrittenAlwaysPrepends(results: seq<Board>, payload: Board)
    ensures UpdatedAsWritten(results, payload) == [payload] + results
  {
    assert forall j :: 0 <= j < |results| ==> !NoReturnCallback(payload)(results[j]);
  }

  /** As written, updating a board already in the list leaves two boards with its id and one entry
      more, where the intended update keeps the length and the ids distinct. */
  lemma AsWrittenDuplicatesKnownId(results: seq<Board>, payload: Board, i: nat)
    requires i < |results| && results[i].id == payload.id && DistinctIds(results)
    ensures |UpdatedAsWritten(results, payload)| == |results| + 1
    ensures !DistinctIds(UpdatedAsWritten(results, payload))
    ensures |Upserted(results, payload)| == |results| && DistinctIds(Upserted(results, payload))
  {
    AsWrittenAlwaysPrepends(results, payload);
    var r := UpdatedAsWritten(results, payload);
    assert r[0].id == r[i + 1].id;
    UpsertKeepsIdsDistinct(results, payload);
    var k := FindIndexWhere(results, SameId(payload));
    assert SameId(payload)(results[i]);
    assert k != -1;
  }

  /** Saving the current board of a one-board list: the optimistic update and the server's answer
      each add an entry, so the list holds the saved board, the merged board and the old one. */
  lemma SaveAsWrittenTriplicates()
    ensures var before := Board(Some(1), None, None, [], None);
      var merged := before.(focus := Some("new focus"));
      UpdatedAsWritten(UpdatedAsWritten([before], merged), merged) == [merged, merged, before]
      && Upserted(Upserted([before], merged), merged) == [merged]
  {
    var before := Board(Some(1), None, None, [], None);
    var merged := before.(focus := Some("new focus"));
    AsWrittenAlwaysPrepends([before], merged);
    AsWrittenAlwaysPrepends([merged, before], merged);
    UpsertReplaces([before], merged, 0);
    UpsertReplaces([merged], merged, 0);
  }

  /** The list response after the mutation as written: the payload in front, counted again. */
  function UpsertAsWritten(list: ListResponse, payload: Board): (r: ListResponse)
    ensures r.results == [payload] + list.results
    ensures r.count == |r.results| == |list.results| + 1
  {
    AsWrittenAlwaysPrepends(list.results, payload);
    var results := UpdatedAsWritten(list.results, payload);
    ListResponse(|results|, results)
  }

  /** What the Vuex `save` leaves in the list, and whether it throws: the steps of the Pinia save,
      each list update being the mutation as written. */
  function SaveOutcomeAsWritten(list: Option<ListResponse>, patch: Patch, response: Result<Board, string>)
    : (r: (Option<ListResponse>, bool))
    ensures r.1 ==> r.0 == list || (list.Some? && response.Err?)
    ensures r.0.Some? <==> list.Some?
  {
    match CurrentBoardOf(list)
    case None => (list, true)
    case Some(current) =>
      if Unchanged(patch, current) then (list, false)
      else if list.None? then (list, true)
      else
        var optimistic := UpsertAsWritten(list.value, Spread(current, patch));
        match response
        case Err(_) => (Some(optimistic), true)
        case Ok(saved) => (Some(UpsertAsWritten(optimistic, saved)), false)
  }

  /** A successful save of a changed board, as written, puts the server's answer and the merged
      board in front of the whole old list, so the list grows by two entries; the corrected save
      of the current board of a list with distinct ids keeps the length. */
  lemma SaveAsWrittenAddsTwo(list: ListResponse, patch: Patch, saved: Board)
    requires list.count != 0 && list.results != [] && !Unchanged(patch, list.results[0])
    ensures SaveOutcomeAsWritten(Some(list), patch, Ok(saved)) ==
      (Some(ListResponse(|list.results| + 2, [saved, Spread(list.results[0], patch)] + list.results)), false)
    ensures DistinctIds(list.results) && saved.id == list.results[0].id ==>
      |SaveOutcome(Some(list), patch, Ok(saved)).0.value.results| == |list.results|
  {
    var merged := Spread(list.results[0], patch);
    assert [saved] + ([merged] + list.results) == [saved, merged] + list.results;
    if DistinctIds(list.results) && saved.id == list.results[0].id {
      SaveShowsServerBoard(list, patch, saved);
    }
  }

  /** Closing the current board, as written, keeps the stale current board behind the server's
      answer, where the corrected update replaces it in place. */
  lemma CloseAsWrittenKeepsStaleBoard(list: ListResponse, closed: Board)
    requires list.results != [] && closed.id == list.results[0].id
    ensures UpsertAsWritten(list, closed).results == [closed] + list.results
    ensures UpsertAsWritten(list, closed).results[1] == list.results[0]
    ensures Upsert(list, closed).results == list.results[0 := closed]
  {
    UpsertReplaces(list.results, closed, 0);
  }

  /** The Vuex store's state with its mutations and the `save` action. */
  class VuexBoardStore {
    var listResponse: Option<ListResponse>
    var threads: Option<ThreadList>
    var currentThreadPtr: ThreadPtr

    /** Nothing loaded; the current thread is the one named "Daily". */
    constructor()
      ensures listResponse.None? && threads.None? && currentThreadPtr == NamePtr(DEFAULT_NAME)
    {
      listResponse := None;
      threads := None;
      currentThreadPtr := NamePtr(DEFAULT_NAME);
    }

    /** `setListResponse`. */
    method SetListResponse(payload: Option<ListResponse>)
      modifies this
      ensures listResponse == payload && threads == old(threads) && currentThreadPtr == old(currentThreadPtr)
    {
      listResponse := payload;
    }

    /** `updateBoardInListResponse` as written: the payload is always prepended and the count is
        the new length, one more than before; throws when no list is loaded. */
    method UpdateBoardInListResponseAsWritten(payload: Board) returns (thrown: bool)
      modifies this
      ensures thrown <==> old(listResponse).None?
      ensures !thrown ==> listResponse == Some(ListResponse(|old(listResponse).value.results| + 1,
                                                            [payload] + old(listResponse).value.results))
      ensures thrown ==> listResponse == old(listResponse)
      ensures threads == old(threads) && currentThreadPtr == old(currentThreadPtr)
    {
      if listResponse.None? {
        return true;
      }
      var results := listResponse.value.results;
      var index := FindIndexWhere(results, NoReturnCallback(payload));
      if index == -1 {
        results := [payload] + results;
      } else {
        // the in-place replacement is unreachable: the callback never matches
        assert false;
      }
      listResponse := Some(ListResponse(|results|, results));
      thrown := false;
    }

    /** `updateBoardInListResponse` with the callback returning the comparison: the same update
        as the Pinia store's. */
    method UpdateBoardInListResponse(payload: Board) returns (thrown: bool)
      modifies this
      ensures thrown <==> old(listResponse).None?
      ensures listResponse == if thrown then old(listResponse) else Some(Upsert(old(listResponse).value, payload))
      ensures threads == old(threads) && currentThreadPtr == old(currentThreadPtr)
    {
      if listResponse.None? {
        return true;
      }
      var results := listResponse.value.results;
      var index := FindIndexWhere(results, SameId(payload));
      if index == -1 {
        results := [payload] + results;
      } else {
        results := results[index := payload];
      }
      listResponse := Some(ListResponse(|results|, results));
      thrown := false;
    }

    /** `setThreads`. */
    method SetThreads(list: Option<ThreadList>)
      modifies this
      ensures threads == list && listResponse == old(listResponse) && currentThreadPtr == old(currentThreadPtr)
    {
      threads := list;
    }

    /** `setCurrentThreadId`. */
    method SetCurrentThreadId(threadId: int)
      modifies this
      ensures currentThreadPtr == IdPtr(threadId) && listResponse == old(listResponse) && threads == old(threads)
    {
      currentThreadPtr := IdPtr(threadId);
    }

    /** `setCurrentThreadName`. */
    method SetCurrentThreadName(threadName: string)
      modifies this
      ensures currentThreadPtr == NamePtr(threadName) && listResponse == old(listResponse) && threads == old(threads)
    {
      currentThreadPtr := NamePtr(threadName);
    }

    /** The `save` action as written: both list updates commit the prepending mutation. */
    method Save(patch: Patch, response: Result<Board, string>) returns (thrown: bool)
      modifies this
      ensures (listResponse, thrown) == SaveOutcomeAsWritten(old(listResponse), patch, response)
      ensures threads == old(threads) && currentThreadPtr == old(currentThreadPtr)
    {
      var current := CurrentBoardOf(listResponse);
      if current.None? {
        return true;
      }
      if patch.state == Some(current.value.state) && patch.focus == current.value.focus {
        return false;
      }
      var newBoard := Spread(current.value, patch);
      thrown := UpdateBoardInListResponseAsWritten(newBoard);
      if thrown {
        return;
      }
      match response {
        case Err(_) =>
          thrown := true;
        case Ok(board) =>
          thrown := UpdateBoardInListResponseAsWritten(board);
      }
    }

    /** The `save` action committing the corrected update: the Pinia store's save. */
    method SaveCorrected(patch: Patch, response: Result<Board, string>) returns (thrown: bool)
      modifies this
      ensures (listResponse, thrown) == SaveOutcome(old(listResponse), patch, response)
      ensures threads == old(threads) && currentThreadPtr == old(currentThreadPtr)
    {
      var current := CurrentBoardOf(listResponse);
      if current.None? {
        return true;
      }
      if patch.state == Some(current.value.state) && patch.focus == current.value.focus {
        return false;
      }
      var newBoard := Spread(current.value, patch);
      thrown := UpdateBoardInListResponse(newBoard);
      if thrown {
        return;
      }
      match response {
        case Err(_) =>
          thrown := true;
        case Ok(board) =>
          thrown := UpdateBoardInListResponse(board);
      }
    }

    /** The `close` action as written: reading the id of an `undefined` current board throws;
        otherwise the server's answer to the commit is prepended by the mutation as written. */
    method Close(response: Result<Board, string>) returns (thrown: bool)
      modifies this
      ensures thrown <==> CurrentBoardOf(old(listResponse)).None? || response.Err? || old(listResponse).None?
      ensures listResponse == if thrown then old(listResponse) else Some(UpsertAsWritten(old(listResponse).value, response.value))
      ensures threads == old(threads) && currentThreadPtr == old(currentThreadPtr)
    {
      var oldBoard := CurrentBoardOf(listResponse);
      if oldBoard.None? || response.Err? {
        return true;
      }
      thrown := UpdateBoardInListResponseAsWritten(response.value);
    }
  }
}
