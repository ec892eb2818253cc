/**
 * The Pinia board store (`assets/stores/boardStore.js`): the loaded page of boards of the current
 * thread, the thread list and the selector of the current thread, the getters the editor reads and
 * the actions that change them. Server responses are parameters: `Ok` carries the decoded body,
 * `Err` a failed request. The getters and the list update are module functions because the Vuex
 * store of `assets/store.js` has the same ones.
 */
module BoardStore {
  import opened Wrappers
  import opened AssetUtils

  /** A `{count, results}` page of the boards API; `count` is the server's total until the
      client rewrites it. */
  datatype ListResponse = ListResponse(count: int, results: seq<Board>)

  datatype Thread = Thread(id: int, name: string)

  datatype ThreadList = ThreadList(count: int, results: seq<Thread>)

  /** How the current thread is chosen: by name or by id. */
  datatype ThreadPtr = NamePtr(name: string) | IdPtr(id: int) {
    /** The selector's `finder`. */
    predicate Finds(t: Thread) {
      match this
      case NamePtr(n) => t.name == n
      case IdPtr(i) => t.id == i
    }
  }

  const DEFAULT_NAME := "Daily"

  /** Reading a property of `undefined` or `null` throws. */
  const NO_PROPERTY := "TypeError: cannot read properties of undefined"

  // Array search

  /** `xs.findIndex(p)`: the first index whose element satisfies `p`, else -1. */
  function FindIndexWhere<T>(xs: seq<T>, p: T -> bool): (r: int)
    ensures -1 <= r < |xs|
    ensures r >= 0 ==> p(xs[r]) && forall j :: 0 <= j < r ==> !p(xs[j])
    ensures r == -1 <==> forall j :: 0 <= j < |xs| ==> !p(xs[j])
  {
    if xs == [] then -1
    else if p(xs[0]) then 0
    else
      var r := FindIndexWhere(xs[1..], p);
      assert forall j :: 1 <= j < |xs| ==> xs[j] == xs[1..][j - 1];
      if r == -1 then -1 else r + 1
  }

  /** `xs.find(p)`: the first element satisfying `p`, else `undefined`. */
  function Find<T>(xs: seq<T>, p: T -> bool): (r: Option<T>)
    ensures r.Some? <==> exists j :: 0 <= j < |xs| && p(xs[j])
    ensures r.Some? ==> var i := FindIndexWhere(xs, p); r.value == xs[i]
  {
    var i := FindIndexWhere(xs, p);
    if i == -1 then None else Some(xs[i])
  }

  /** The callback `item => item.id === payload.id`. */
  function SameId(payload: Board): Board -> bool {
    (b: Board) => b.id == payload.id
  }

  predicate DistinctIds(bs: seq<Board>) {
    forall i, j :: 0 <= i < j < |bs| ==> bs[i].id != bs[j].id
  }

  // The list update

  /** The body of `updateBoardInListResponse` for a given `findIndex` callback: the first board the
      callback accepts is replaced in place, and without one the payload goes in front. */
  function UpsertedBy(results: seq<Board>, payload: Board, matches: Board -> bool): seq<Board>
  {
    var index := FindIndexWhere(results, matches);
    if index == -1 then [payload] + results else results[index := payload]
  }

  /** The results after `updateBoardInListResponse`: the first board with the payload's id is
      replaced in place, and a payload with a new id goes in front. */
  function Upserted(results: seq<Board>, payload: Board): (r: seq<Board>)
  {
    UpsertedBy(results, payload, SameId(payload))
  }

  /** A known id: same length, the payload in the place of the first board with its id, every
      other board unchanged. */
  lemma UpsertReplaces(results: seq<Board>, payload: Board, i: nat)
    requires i < |results| && results[i].id == payload.id
    requires forall j :: 0 <= j < i ==> results[j].id != payload.id
    ensures |Upserted(results, payload)| == |results|
    ensures Upserted(results, payload)[i] == payload
    ensures forall j :: 0 <= j < |results| && j != i ==> Upserted(results, payload)[j] == results[j]
  {
    var index := FindIndexWhere(results, SameId(payload));
    assert SameId(payload)(results[i]);
    assert forall j :: 0 <= j < i ==> !SameId(payload)(results[j]);
    assert index == i;
  }

  /** An unknown id: the payload is inserted at index 0 before the unchanged list. */
  lemma UpsertInsertsFirst(results: seq<Board>, payload: Board)
    requires forall j :: 0 <= j < |results| ==> results[j].id != payload.id
    ensures Upserted(results, payload) == [payload] + results
  {
    var index := FindIndexWhere(results, SameId(payload));
    assert forall j :: 0 <= j < |results| ==> !SameId(payload)(results[j]);
    assert index == -1;
  }

  /** Updating keeps the ids of the list distinct, and afterwards the payload is the board with
      its id. */
  lemma UpsertKeepsIdsDistinct(results: seq<Board>, payload: Board)
    requires DistinctIds(results)
    ensures DistinctIds(Upserted(results, payload))
    ensures payload in Upserted(results, payload)
    ensures forall b :: b in Upserted(results, payload) && b.id == payload.id ==> b == payload
  {
    var index := FindIndexWhere(results, SameId(payload));
    var r := Upserted(results, payload);
    if index == -1 {
      assert forall j :: 0 <= j < |results| ==> !SameId(payload)(results[j]);
      assert r[0] == payload;
      forall i, j | 0 <= i < j < |r| ensures r[i].id != r[j].id {
        if i == 0 {
          assert r[j] == results[j - 1];
          assert !SameId(payload)(results[j - 1]);
        } else {
          assert r[i] == results[i - 1] && r[j] == results[j - 1];
        }
      }
    } else {
      assert SameId(payload)(results[index]);
      assert r[index] == payload;
    }
  }

  /** Updating twice with the same payload is updating once. */
  lemma UpsertIdempotent(results: seq<Board>, payload: Board)
    ensures Upserted(Upserted(results, payload), payload) == Upserted(results, payload)
  {
    var index := FindIndexWhere(results, SameId(payload));
    var once := Upserted(results, payload);
    var again := FindIndexWhere(once, SameId(payload));
    if index == -1 {
      assert SameId(payload)(once[0]);
      assert again == 0;
    } else {
      assert SameId(payload)(once[index]);
      forall j | 0 <= j < index ensures !SameId(payload)(once[j]) {
        assert once[j] == results[j];
      }
      assert again == index;
    }
  }

  /** The list response after the update: the updated results, counted again. */
  function Upsert(list: ListResponse, payload: Board): (r: ListResponse)
    ensures r.count == |r.results| > 0
    ensures r.results == Upserted(list.results, payload)
  {
    var results := Upserted(list.results, payload);
    ListResponse(|results|, results)
  }

  // Getters

  /** `currentBoard`: the first board of a list with a non-zero count, else a blank board; the
      first board of an empty page is `undefined` (`None`). */
  function CurrentBoardOf(list: Option<ListResponse>): (b: Option<Board>)
    ensures list.None? || list.value.count == 0 ==> b == Some(CreateBoard())
    ensures list.Some? && list.value.count != 0 && list.value.results != [] ==> b == Some(list.value.results[0])
    ensures b.None? <==> list.Some? && list.value.count != 0 && list.value.results == []
  {
    if list.None? || list.value.count == 0 then Some(CreateBoard())
    else if list.value.results == [] then None
    else Some(list.value.results[0])
  }

  /** After an update the current board is the first entry of the updated list; a board with a
      new id becomes the current board. */
  lemma CurrentBoardAfterUpsert(list: ListResponse, payload: Board)
    ensures CurrentBoardOf(Some(Upsert(list, payload))) == Some(Upsert(list, payload).results[0])
    ensures (forall j :: 0 <= j < |list.results| ==> list.results[j].id != payload.id) ==>
      CurrentBoardOf(Some(Upsert(list, payload))) == Some(payload)
  {
    if forall j :: 0 <= j < |list.results| ==> list.results[j].id != payload.id {
      UpsertInsertsFirst(list.results, payload);
    }
  }

  /** The thread the selector finds in a loaded, non-empty thread list; `None` stands for both
      the `null` of an unloaded list and the `undefined` of a failed search. */
  function CurrentThreadOf(threads: Option<ThreadList>, ptr: ThreadPtr): (t: Option<Thread>)
    ensures threads.None? || threads.value.count == 0 ==> t.None?
    ensures t.Some? ==> t.value in threads.value.results && ptr.Finds(t.value)
    ensures threads.Some? && threads.value.count != 0 ==>
      (t.Some? <==> exists j :: 0 <= j < |threads.value.results| && ptr.Finds(threads.value.results[j]))
  {
    if threads.None? || threads.value.count == 0 then None
    else Find(threads.value.results, (x: Thread) => ptr.Finds(x))
  }

  /** The first thread is the one found: no earlier thread matches the selector. */
  lemma CurrentThreadIsFirstMatch(threads: ThreadList, ptr: ThreadPtr, j: nat)
    requires threads.count != 0 && j < |threads.results|
    requires CurrentThreadOf(Some(threads), ptr).Some?
    requires threads.results[j] == CurrentThreadOf(Some(threads), ptr).value
    requires forall k :: 0 <= k < j ==> threads.results[k] != threads.results[j]
    ensures forall k :: 0 <= k < j ==> !ptr.Finds(threads.results[k])
  {
    var p := (x: Thread) => ptr.Finds(x);
    var i := FindIndexWhere(threads.results, p);
    assert threads.results[i] == threads.results[j];
    assert p(threads.results[j]);
    assert i <= j;
    assert i == j;
  }

  /** `currentThreadId`: `currentThread?.id`. */
  function CurrentThreadIdOf(threads: Option<ThreadList>, ptr: ThreadPtr): (id: Option<int>)
    ensures id.Some? ==> threads.Some? && exists t :: t in threads.value.results && ptr.Finds(t) && t.id == id.value
    ensures id.None? <==> CurrentThreadOf(threads, ptr).None?
  {
    match CurrentThreadOf(threads, ptr)
    case None => None
    case Some(t) => Some(t.id)
  }

  /** `allThreads`: the loaded threads, or none while the list is missing or empty. */
  function AllThreadsOf(threads: Option<ThreadList>): (ts: seq<Thread>)
    ensures threads.None? || threads.value.count == 0 ==> ts == []
    ensures threads.Some? && threads.value.count != 0 ==> ts == threads.value.results
  {
    if threads.None? || threads.value.count == 0 then [] else threads.value.results
  }

  // Saving

  /** The part of a board `save` receives; `None` is a key the payload leaves out. */
  datatype Patch = Patch(state: Option<seq<TreeItem>>, focus: Option<string>)

  /** `equal(payload.state, currentBoard.state) && payload.focus === currentBoard.focus`. */
  predicate Unchanged(patch: Patch, current: Board) {
    patch.state == Some(current.state) && patch.focus == current.focus
  }

  /** `{...currentBoard, ...payload}`: the keys the payload has win. */
  function Spread(current: Board, patch: Patch): (b: Board)
    ensures b.id == current.id && b.dateStarted == current.dateStarted && b.dateClosed == current.dateClosed
    ensures b.state == (if patch.state.Some? then patch.state.value else current.state)
    ensures b.focus == (if patch.focus.Some? then patch.focus else current.focus)
  {
    current.(state := patch.state.GetOr(current.state), focus := if patch.focus.Some? then patch.focus else current.focus)
  }

  /** What `save` leaves in the list, and whether it throws: nothing happens for an unchanged
      board; otherwise the merged board is put in the list at once and the server's answer
      after it, and a failed request keeps the first update. */
  function SaveOutcome(list: Option<ListResponse>, patch: Patch, response: Result<Board, string>)
    : (r: (Option<ListResponse>, bool))
    ensures r.1 ==> r.0 == list || (list.Some? && response.Err?)
  {
    match CurrentBoardOf(list)
    case None => (list, true)
    case Some(current) =>
      if Unchanged(patch, current) then (list, false)
      else if list.None? then (list, true)
      else
        var optimistic := Upsert(list.value, Spread(current, patch));
        match response
        case Err(_) => (Some(optimistic), true)
        case Ok(saved) => (Some(Upsert(optimistic, saved)), false)
  }

  /** Saving an unchanged board leaves the list as it is and does not throw. */
  lemma UnchangedSaveIsNoOp(list: Option<ListResponse>, patch: Patch, response: Result<Board, string>)
    requires CurrentBoardOf(list).Some? && Unchanged(patch, CurrentBoardOf(list).value)
    ensures SaveOutcome(list, patch, response) == (list, false)
  {
  }

  /** A successful save of the current board of a list with distinct ids makes the server's
      answer for that board the current board, keeps the ids distinct and the length. */
  lemma SaveShowsServerBoard(list: ListResponse, patch: Patch, saved: Board)
    requires list.count != 0 && list.results != [] && DistinctIds(list.results)
    requires !Unchanged(patch, list.results[0]) && saved.id == list.results[0].id
    ensures SaveOutcome(Some(list), patch, Ok(saved)).0 == Some(ListResponse(|list.results|, list.results[0 := saved]))
    ensures DistinctIds(list.results[0 := saved])
  {
    var merged := Spread(list.results[0], patch);
    UpsertReplaces(list.results, merged, 0);
    var optimistic := Upsert(list, merged);
    assert optimistic.results == list.results[0 := merged];
    UpsertReplaces(optimistic.results, saved, 0);
    assert optimistic.results[0 := saved] == list.results[0 := saved];
    UpsertKeepsIdsDistinct(list.results, saved);
    UpsertReplaces(list.results, saved, 0);
  }

  /** The Pinia store. */
  class PiniaBoardStore {
    var listResponse: Option<ListResponse>
    var threads: Option<ThreadList>
    var currentThreadPtr: ThreadPtr

    /** Nothing loaded; the current thread is the one named "Daily". */
    constructor()
      ensures listResponse.None? && threads.None? && currentThreadPtr == NamePtr(DEFAULT_NAME)
    {
      listResponse := None;
      threads := None;
      currentThreadPtr := NamePtr(DEFAULT_NAME);
    }

    /** `updateBoardInListResponse`; throws when no list is loaded. */
    method UpdateBoardInListResponse(payload: Board) returns (thrown: bool)
      modifies this
      ensures thrown <==> old(listResponse).None?
      ensures listResponse == if thrown then old(listResponse) else Some(Upsert(old(listResponse).value, payload))
      ensures threads == old(threads) && currentThreadPtr == old(currentThreadPtr)
    {
      if listResponse.None? {
        return true;
      }
      var results := listResponse.value.results;
      var index := FindIndexWhere(results, SameId(payload));
      if index == -1 {
        results := [payload] + results;
      } else {
        results := results[index := payload];
      }
      listResponse := Some(ListResponse(|results|, results));
      thrown := false;
    }

    /** `save(payload)` with the server's answer to the `PUT` as a parameter. */
    method Save(patch: Patch, response: Result<Board, string>) returns (thrown: bool)
      modifies this
      ensures (listResponse, thrown) == SaveOutcome(old(listResponse), patch, response)
      ensures threads == old(threads) && currentThreadPtr == old(currentThreadPtr)
    {
      var current := CurrentBoardOf(listResponse);
      if current.None? {
        return true;
      }
      if patch.state == Some(current.value.state) && patch.focus == current.value.focus {
        return false;
      }
      var newBoard := Spread(current.value, patch);
      thrown := UpdateBoardInListResponse(newBoard);
      if thrown {
        return;
      }
      match response {
        case Err(_) =>
          thrown := true;
        case Ok(board) =>
          thrown := UpdateBoardInListResponse(board);
      }
    }

    /** `close()`: commits the current board on the server and puts the answer in the list. */
    method Close(response: Result<Board, string>) returns (thrown: bool)
      modifies this
      ensures thrown <==> CurrentBoardOf(old(listResponse)).None? || response.Err? || old(listResponse).None?
      ensures listResponse == if thrown then old(listResponse) else Some(Upsert(old(listResponse).value, response.value))
      ensures threads == old(threads) && currentThreadPtr == old(currentThreadPtr)
    {
      var oldBoard := CurrentBoardOf(listResponse);
      if oldBoard.None? || response.Err? {
        return true;
      }
      thrown := UpdateBoardInListResponse(response.value);
    }

    /** `initThreads()`: stores the thread list the server sends. */
    method InitThreads(response: Result<ThreadList, string>) returns (thrown: bool)
      modifies this
      ensures thrown <==> response.Err?
      ensures threads == if thrown then old(threads) else Some(response.value)
      ensures listResponse == old(listResponse) && currentThreadPtr == old(currentThreadPtr)
    {
      if response.Err? {
        return true;
      }
      threads := Some(response.value);
      thrown := false;
    }

    /** `loadBoardsForThread(threadId)`: nothing for a falsy id, else the server's page. */
    method LoadBoardsForThread(threadId: Option<int>, response: Result<ListResponse, string>) returns (thrown: bool)
      modifies this
      ensures thrown <==> threadId.Some? && threadId.value != 0 && response.Err?
      ensures listResponse == if threadId.None? || threadId.value == 0 || thrown then old(listResponse)
        else Some(response.value)
      ensures threads == old(threads) && currentThreadPtr == old(currentThreadPtr)
    {
      if threadId.None? || threadId.value == 0 {
        return false;
      }
      if response.Err? {
        return true;
      }
      listResponse := Some(response.value);
      thrown := false;
    }

    /** `changeThread(threadId)`: points at the thread by id, then loads its boards. */
    method ChangeThread(threadId: int, response: Result<ListResponse, string>) returns (thrown: bool)
      modifies this
      ensures currentThreadPtr == IdPtr(threadId) && threads == old(threads)
      ensures thrown <==> threadId != 0 && response.Err?
      ensures listResponse == if threadId == 0 || thrown then old(listResponse) else Some(response.value)
    {
      currentThreadPtr := IdPtr(threadId);
      thrown := LoadBoardsForThread(Some(threadId), response);
    }

    /** `reloadBoards()`: loads the boards of the current thread again. */
    method ReloadBoards(response: Result<ListResponse, string>) returns (thrown: bool)
      modifies this
      ensures var id := CurrentThreadIdOf(old(threads), old(currentThreadPtr));
        thrown <==> id.Some? && id.value != 0 && response.Err?
      ensures var id := CurrentThreadIdOf(old(threads), old(currentThreadPtr));
        listResponse == if id.None? || id.value == 0 || thrown then old(listResponse) else Some(response.value)
      ensures threads == old(threads) && currentThreadPtr == old(currentThreadPtr)
    {
      thrown := LoadBoardsForThread(CurrentThreadIdOf(threads, currentThreadPtr), response);
    }

    /** `initBoard(threadName)`: loads the threads, points at the named one and loads its boards;
        reading the id of a thread that is not found throws. */
    method InitBoard(threadName: string, threadResponse: Result<ThreadList, string>,
                     boardsResponse: Result<ListResponse, string>) returns (thrown: bool)
      modifies this
      ensures threadResponse.Err? ==>
        thrown && threads == old(threads) && listResponse == old(listResponse) && currentThreadPtr == old(currentThreadPtr)
      ensures threadResponse.Ok? ==> threads == Some(threadResponse.value) && currentThreadPtr == NamePtr(threadName)
      ensures threadResponse.Ok? && CurrentThreadOf(threads, currentThreadPtr).None? ==>
        thrown && listResponse == old(listResponse)
      ensures threadResponse.Ok? && CurrentThreadOf(threads, currentThreadPtr).Some? ==>
        var id := CurrentThreadOf(threads, currentThreadPtr).value.id;
        (thrown <==> id != 0 && boardsResponse.Err?)
        && listResponse == (if id == 0 || boardsResponse.Err? then old(listResponse) else Some(boardsResponse.value))
    {
      thrown := InitThreads(threadResponse);
      if thrown {
        return;
      }
      currentThreadPtr := NamePtr(threadName);
      var current := CurrentThreadOf(threads, currentThreadPtr);
      if current.None? {
        return true;
      }
      thrown := LoadBoardsForThread(Some(current.value.id), boardsResponse);
    }
  }
}
