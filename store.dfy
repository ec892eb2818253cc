/**
 * The persisted records the board operations read and write: threads, boards (each with its task
 * forest) and the `BoardCommitted` audit log. Boards are keyed by their primary key; instants
 * (`date_started`, `published`) are integers ordered like time.
 */
module Store {
  import opened Wrappers
  import opened Tree

  /** A `Board` row. */
  datatype Board = Board(thread: string, state: seq<Node>, dateStarted: int, focus: Option<string>)

  /** A `BoardCommitted` event: the board before and after the commit and the slices sent away. */
  datatype Committed = Committed(
    published: int,
    thread: string,
    focus: string,
    before: seq<Node>,
    after: seq<Node>,
    transitions: map<string, seq<Node>>,
    dateStarted: int)

  /** `thread` has at least one board. */
  predicate HasBoardIn(boards: map<nat, Board>, thread: string) {
    exists id :: id in boards && boards[id].thread == thread
  }

  /** `id` comes first in the thread's boards under the ordering `-date_started`. */
  predicate IsNewestIn(boards: map<nat, Board>, id: nat, thread: string) {
    id in boards && boards[id].thread == thread
    && forall j :: j in boards && boards[j].thread == thread ==> boards[j].dateStarted <= boards[id].dateStarted
  }

  /** Every board belongs to one of `threads` and has a key below `nextId`. */
  predicate WellKeyed(threads: set<string>, boards: map<nat, Board>, nextId: nat) {
    forall id :: id in boards ==> id < nextId && boards[id].thread in threads
  }

  /** Replacing a board by one of a known thread, or adding one under `nextId`, keeps the keys well formed. */
  lemma WellKeyedStore(threads: set<string>, boards: map<nat, Board>, nextId: nat, id: nat, b: Board)
    requires WellKeyed(threads, boards, nextId)
    requires id <= nextId && b.thread in threads
    ensures id < nextId ==> WellKeyed(threads, boards[id := b], nextId)
    ensures WellKeyed(threads, boards[id := b], nextId + 1)
  {
  }

  class Repository {
    var threads: set<string>
    var boards: map<nat, Board>
    var nextId: nat
    var commits: seq<Committed>

    /** Every board belongs to a known thread and has a key below `nextId`. */
    ghost predicate Valid()
      reads this
    {
      WellKeyed(threads, boards, nextId)
    }

    constructor(threads: set<string>)
      ensures Valid()
      ensures this.threads == threads && boards == map[] && commits == []
    {
      this.threads := threads;
      boards := map[];
      nextId := 0;
      commits := [];
    }

    /** `board.save()`: overwrites row `id` when the board has one, else inserts it under the next key. */
    method Save(id: Option<nat>, b: Board) returns (key: nat)
      requires Valid() && b.thread in threads
      requires id.Some? ==> id.value in boards
      modifies this
      ensures Valid()
      ensures threads == old(threads) && commits == old(commits)
      ensures id.Some? ==> key == id.value && nextId == old(nextId)
      ensures id.None? ==> key == old(nextId) && key !in old(boards) && nextId == key + 1
      ensures boards == old(boards)[key := b]
    {
      if id.Some? {
        key := id.value;
      } else {
        key := nextId;
        nextId := nextId + 1;
      }
      boards := boards[key := b];
    }

    /**
     * `Board.objects.filter(thread=thread)` ordered by `-date_started`, first row: a most recent
     * board of the thread, or `None` when it has none. Boards started at the same instant come in
     * an unspecified order.
     */
    method Newest(thread: string) returns (r: Option<nat>)
      ensures r.Some? ==> IsNewestIn(boards, r.value, thread)
      ensures r.None? ==> !HasBoardIn(boards, thread)
    {
      r := None;
      var todo := boards.Keys;
      while todo != {}
        invariant todo <= boards.Keys
        invariant r.Some? ==> r.value in boards && boards[r.value].thread == thread
        invariant r.Some? ==> forall j :: j in boards.Keys - todo && boards[j].thread == thread ==>
          boards[j].dateStarted <= boards[r.value].dateStarted
        invariant r.None? ==> forall j :: j in boards.Keys - todo ==> boards[j].thread != thread
        decreases todo
      {
        var j :| j in todo;
        if boards[j].thread == thread && (r.None? || boards[j].dateStarted > boards[r.value].dateStarted) {
          r := Some(j);
        }
        todo := todo - {j};
      }
    }
  }
}
