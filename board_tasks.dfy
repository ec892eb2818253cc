/**
 * The board endpoints: committing a board (age, filter and split its forest, record the commit,
 * send every slice to its thread's board, keep the rest), finding or creating a thread's board,
 * validating a new-task payload and reading a date range from a request.
 */
module BoardTasks {
  import opened Wrappers
  import opened Tree
  import opened Store
  import opened Commit
  import opened Strings
  import BoardOperations

  datatype CommitError = BoardDoesNotExist | ThreadDoesNotExist(name: string)

  /** The slice that stays on the committed board: `changeset[None]`, or `[]` without one. */
  function AfterState(changes: map<Option<string>, seq<Node>>): (r: seq<Node>)
    ensures None in changes ==> r == changes[None]
    ensures None !in changes ==> r == []
  {
    if None in changes then changes[None] else []
  }

  /** The change set with the `None` key removed, keyed by thread name. */
  function Transitions(changes: map<Option<string>, seq<Node>>): (r: map<string, seq<Node>>)
    ensures forall t :: t in r <==> Some(t) in changes
    ensures forall t :: t in r ==> r[t] == changes[Some(t)]
  {
    map k | k in changes && k.Some? :: k.value := changes[k]
  }

  /** `board.focus or ""`. */
  function FocusText(focus: Option<string>): string {
    if focus.Some? then focus.value else ""
  }

  /** The `BoardCommitted` record written when `board` is committed at `now`. */
  function Audit(board: Board, now: int): (c: Committed)
    ensures c.before == board.state
    ensures c.after == AfterState(CalculateChangesPerBoard(board.state))
    ensures c.transitions == Transitions(CalculateChangesPerBoard(board.state))
    ensures c.published == now && c.thread == board.thread && c.dateStarted == board.dateStarted
  {
    var changes := CalculateChangesPerBoard(board.state);
    Committed(now, board.thread, FocusText(board.focus), board.state, AfterState(changes),
              Transitions(changes), board.dateStarted)
  }

  /** What `make_board` hands back: an existing board, or a new unsaved one. */
  datatype BoardRef = Existing(id: nat) | Fresh(board: Board)

  /**
   * `make_board`: the thread's most recent board, or a new board with an empty forest; an
   * unknown thread name raises.
   */
  method MakeBoard(repo: Repository, threadName: string, now: int) returns (r: Result<BoardRef, CommitError>)
    ensures threadName !in repo.threads ==> r == Err(ThreadDoesNotExist(threadName))
    ensures threadName in repo.threads ==> r.Ok?
    ensures r.Ok? && r.value.Existing? ==> IsNewestIn(repo.boards, r.value.id, threadName)
    ensures r.Ok? && r.value.Fresh? ==>
      !HasBoardIn(repo.boards, threadName) && r.value.board == Board(threadName, [], now, None)
  {
    if threadName !in repo.threads {
      return Err(ThreadDoesNotExist(threadName));
    }
    var newest := repo.Newest(threadName);
    if newest.Some? {
      return Ok(Existing(newest.value));
    }
    return Ok(Fresh(Board(threadName, [], now, None)));
  }

  /**
   * Board `bid` of `after` is where a slice for `thread` went, and `state` is its forest: the
   * thread's most recent board before the commit with only its forest replaced, or a new board of
   * the thread started at `now` without a focus.
   */
  predicate Delivered(before: map<nat, Board>, after: map<nat, Board>, thread: string, bid: nat,
                      state: seq<Node>, now: int)
  {
    bid in after
    && (bid in before ==> IsNewestIn(before, bid, thread) && after[bid] == before[bid].(state := state))
    && (bid !in before ==> !HasBoardIn(before, thread) && after[bid] == Board(thread, state, now, None))
  }

  /** The forest a slice is merged into: that of board `bid`, or `[]` for a board not saved yet. */
  function Base(before: map<nat, Board>, bid: nat): seq<Node> {
    if bid in before then before[bid].state else []
  }

  /** Every slice sent so far was merged by `merge` into the forest of the board it went to. */
  ghost predicate Merged(before: map<nat, Board>, slices: map<string, seq<Node>>, targets: map<string, nat>,
                         merged: map<string, seq<Node>>)
  {
    forall t :: t in targets ==>
      t in slices && t in merged && IsMerge(Base(before, targets[t]), slices[t], merged[t])
  }

  /** `ref` is what `make_board` may give for `thread` while the boards are `boards`. */
  predicate RefFor(boards: map<nat, Board>, thread: string, ref: BoardRef, now: int) {
    match ref
    case Existing(bid) => IsNewestIn(boards, bid, thread)
    case Fresh(b) => !HasBoardIn(boards, thread) && b == Board(thread, [], now, None)
  }

  /**
   * `list(map(make_board, changeset.keys()))`: every name is looked up before any board is
   * written; the first unknown name met stops the lookup.
   */
  method LookUpBoards(repo: Repository, names: set<string>, now: int)
    returns (r: Result<map<string, BoardRef>, CommitError>)
    ensures r.Ok? <==> names <= repo.threads
    ensures r.Ok? ==> r.value.Keys == names
    ensures r.Ok? ==> forall t :: t in r.value ==> RefFor(repo.boards, t, r.value[t], now)
    ensures r.Err? ==> r.error.ThreadDoesNotExist? && r.error.name in names && r.error.name !in repo.threads
  {
    var refs: map<string, BoardRef> := map[];
    var todo := names;
    while todo != {}
      invariant todo <= names
      invariant refs.Keys == names - todo
      invariant names - todo <= repo.threads
      invariant forall t :: t in refs ==> RefFor(repo.boards, t, refs[t], now)
      decreases todo
    {
      var t :| t in todo;
      var ref := MakeBoard(repo, t, now);
      if ref.Err? {
        return Err(ref.error);
      }
      refs := refs[t := ref.value];
      todo := todo - {t};
    }
    return Ok(refs);
  }

  /** Some slice went to board `b`. */
  predicate Targeted(targets: map<string, nat>, b: nat) {
    exists t :: t in targets && targets[t] == b
  }

  /**
   * What stays fixed while the slices are sent: the boards before, the first key not in use then,
   * the commit instant, the slices and the boards looked up for them.
   */
  datatype Job = Job(before: map<nat, Board>, firstFree: nat, now: int,
                     slices: map<string, seq<Node>>, refs: map<string, BoardRef>)

  /** Every slice sent so far sits, merged, in the board recorded for it. */
  predicate AllDelivered(job: Job, boards: map<nat, Board>, targets: map<string, nat>,
                         merged: map<string, seq<Node>>)
  {
    forall t :: t in targets ==> t in merged && Delivered(job.before, boards, t, targets[t], merged[t], job.now)
  }

  /** Boards no slice went to are as they were. */
  predicate OthersKept(job: Job, boards: map<nat, Board>, targets: map<string, nat>) {
    forall b :: b in job.before && !Targeted(targets, b) ==> b in boards && boards[b] == job.before[b]
  }

  /** Every key not in use before is a new board some slice went to. */
  predicate NewKeysTargeted(job: Job, boards: map<nat, Board>, targets: map<string, nat>) {
    forall b :: b in boards ==> b in job.before || (Targeted(targets, b) && job.firstFree <= b)
  }

  /** The threads still waiting have the boards `make_board` gave them. */
  predicate Waiting(job: Job, pending: set<string>) {
    pending <= job.refs.Keys && forall t :: t in pending ==> RefFor(job.before, t, job.refs[t], job.now)
  }

  /** The state of the loop over the target threads after the threads outside `pending` are done. */
  ghost predicate SlicesSent(job: Job, boards: map<nat, Board>, pending: set<string>, targets: map<string, nat>,
                             merged: map<string, seq<Node>>)
  {
    job.refs.Keys == job.slices.Keys && targets.Keys == job.refs.Keys - pending
    && Waiting(job, pending) && AllDelivered(job, boards, targets, merged)
    && Merged(job.before, job.slices, targets, merged)
    && OthersKept(job, boards, targets) && NewKeysTargeted(job, boards, targets)
  }

  /** Before the loop nothing is sent and every thread is waiting. */
  lemma StartSending(job: Job)
    requires job.refs.Keys == job.slices.Keys
    requires forall t :: t in job.refs ==> RefFor(job.before, t, job.refs[t], job.now)
    ensures SlicesSent(job, job.before, job.refs.Keys, map[], map[])
  {
    assert forall b :: !Targeted(map[], b);
  }

  /** A board that the loop has not touched yet is still as it was. */
  lemma Untouched(job: Job, boards: map<nat, Board>, pending: set<string>, targets: map<string, nat>,
                  merged: map<string, seq<Node>>, t: string)
    requires SlicesSent(job, boards, pending, targets, merged)
    requires t in pending && job.refs[t].Existing?
    ensures job.refs[t].id in job.before && IsNewestIn(job.before, job.refs[t].id, t)
    ensures !Targeted(targets, job.refs[t].id)
    ensures job.refs[t].id in boards && boards[job.refs[t].id] == job.before[job.refs[t].id]
  {
    var bid := job.refs[t].id;
    assert RefFor(job.before, t, job.refs[t], job.now);
    forall t' | t' in targets
      ensures targets[t'] != bid
    {
      assert Delivered(job.before, boards, t', targets[t'], merged[t'], job.now);
      assert t' != t;
    }
  }

  lemma DeliverToExisting(job: Job, boards: map<nat, Board>, targets: map<string, nat>,
                          merged: map<string, seq<Node>>, t: string, bid: nat, m: seq<Node>)
    requires AllDelivered(job, boards, targets, merged)
    requires t !in targets && !Targeted(targets, bid)
    requires IsNewestIn(job.before, bid, t) && bid in boards && boards[bid] == job.before[bid]
    ensures AllDelivered(job, boards[bid := boards[bid].(state := m)], targets[t := bid], merged[t := m])
  {
    var boards', targets', merged' := boards[bid := boards[bid].(state := m)], targets[t := bid], merged[t := m];
    forall t' | t' in targets'
      ensures t' in merged'
      ensures Delivered(job.before, boards', t', targets'[t'], merged'[t'], job.now)
    {
      if t' != t {
        assert Delivered(job.before, boards, t', targets[t'], merged[t'], job.now);
        assert targets[t'] != bid;
      }
    }
  }

  lemma DeliverToFresh(job: Job, boards: map<nat, Board>, targets: map<string, nat>,
                       merged: map<string, seq<Node>>, t: string, bid: nat, m: seq<Node>)
    requires AllDelivered(job, boards, targets, merged)
    requires t !in targets && bid !in boards && bid !in job.before && !HasBoardIn(job.before, t)
    ensures AllDelivered(job, boards[bid := Board(t, m, job.now, None)], targets[t := bid], merged[t := m])
  {
    var boards', targets', merged' := boards[bid := Board(t, m, job.now, None)], targets[t := bid], merged[t := m];
    forall t' | t' in targets'
      ensures t' in merged'
      ensures Delivered(job.before, boards', t', targets'[t'], merged'[t'], job.now)
    {
      if t' != t {
        assert Delivered(job.before, boards, t', targets[t'], merged[t'], job.now);
      }
    }
  }

  lemma RecordMerge(before: map<nat, Board>, slices: map<string, seq<Node>>, targets: map<string, nat>,
                    merged: map<string, seq<Node>>, t: string, bid: nat, m: seq<Node>)
    requires Merged(before, slices, targets, merged)
    requires t !in targets && t in slices && IsMerge(Base(before, bid), slices[t], m)
    ensures Merged(before, slices, targets[t := bid], merged[t := m])
  {
    forall t' | t' in targets[t := bid]
      ensures t' in slices && t' in merged[t := m]
      ensures IsMerge(Base(before, targets[t := bid][t']), slices[t'], merged[t := m][t'])
    {
      if t' != t {
        assert targets[t := bid][t'] == targets[t'] && merged[t := m][t'] == merged[t'];
      }
    }
  }

  lemma KeepOthers(job: Job, boards: map<nat, Board>, targets: map<string, nat>, t: string, bid: nat,
                   board: Board)
    requires OthersKept(job, boards, targets) && t !in targets
    ensures OthersKept(job, boards[bid := board], targets[t := bid])
  {
    var targets' := targets[t := bid];
    forall b | b in job.before && !Targeted(targets', b)
      ensures b in boards[bid := board] && boards[bid := board][b] == job.before[b]
    {
      assert targets'[t] == bid;
      forall t' | t' in targets
        ensures targets[t'] != b
      {
        assert targets'[t'] == targets[t'];
      }
    }
  }

  lemma NewKeysKept(job: Job, boards: map<nat, Board>, targets: map<string, nat>, t: string, bid: nat,
                    board: Board)
    requires NewKeysTargeted(job, boards, targets) && t !in targets
    requires bid in job.before || job.firstFree <= bid
    ensures NewKeysTargeted(job, boards[bid := board], targets[t := bid])
  {
    var targets' := targets[t := bid];
    forall b | b in boards[bid := board] && b !in job.before
      ensures Targeted(targets', b) && job.firstFree <= b
    {
      assert targets'[t] == bid;
      if b != bid {
        var t' :| t' in targets && targets[t'] == b;
        assert targets'[t'] == b;
      }
    }
  }

  /** Merging a slice into a thread's existing board leaves every slice already sent in place. */
  lemma SendToExisting(job: Job, boards: map<nat, Board>, pending: set<string>, targets: map<string, nat>,
                       merged: map<string, seq<Node>>, t: string, m: seq<Node>)
    requires SlicesSent(job, boards, pending, targets, merged)
    requires t in pending && job.refs[t].Existing?
    requires job.refs[t].id in boards && IsMerge(boards[job.refs[t].id].state, job.slices[t], m)
    ensures SlicesSent(job, boards[job.refs[t].id := boards[job.refs[t].id].(state := m)],
                       pending - {t}, targets[t := job.refs[t].id], merged[t := m])
  {
    var bid := job.refs[t].id;
    var board := boards[bid].(state := m);
    Untouched(job, boards, pending, targets, merged, t);
    DeliverToExisting(job, boards, targets, merged, t, bid, m);
    RecordMerge(job.before, job.slices, targets, merged, t, bid, m);
    KeepOthers(job, boards, targets, t, bid, board);
    NewKeysKept(job, boards, targets, t, bid, board);
  }

  /** Saving a slice as a new board under an unused key keeps every delivery made so far. */
  lemma FreshDelivery(job: Job, boards: map<nat, Board>, pending: set<string>, targets: map<string, nat>,
                      merged: map<string, seq<Node>>, t: string, nextId: nat, m: seq<Node>)
    requires SlicesSent(job, boards, pending, targets, merged)
    requires job.firstFree <= nextId && nextId !in boards
    requires t in pending && job.refs[t].Fresh? && IsMerge(job.refs[t].board.state, job.slices[t], m)
    ensures job.refs[t].board.(state := m) == Board(t, m, job.now, None)
    ensures var boards', targets', merged' :=
        boards[nextId := job.refs[t].board.(state := m)], targets[t := nextId], merged[t := m];
      AllDelivered(job, boards', targets', merged') && Merged(job.before, job.slices, targets', merged')
      && OthersKept(job, boards', targets') && NewKeysTargeted(job, boards', targets')
  {
    assert RefFor(job.before, t, job.refs[t], job.now);
    assert nextId !in job.before;
    var board := job.refs[t].board.(state := m);
    DeliverToFresh(job, boards, targets, merged, t, nextId, m);
    RecordMerge(job.before, job.slices, targets, merged, t, nextId, m);
    KeepOthers(job, boards, targets, t, nextId, board);
    NewKeysKept(job, boards, targets, t, nextId, board);
  }

  /** Saving a slice as a new board under an unused key leaves every slice already sent in place. */
  lemma SendToFresh(job: Job, boards: map<nat, Board>, pending: set<string>, targets: map<string, nat>,
                    merged: map<string, seq<Node>>, t: string, nextId: nat, m: seq<Node>)
    requires SlicesSent(job, boards, pending, targets, merged)
    requires job.firstFree <= nextId && nextId !in boards
    requires t in pending && job.refs[t].Fresh? && IsMerge(job.refs[t].board.state, job.slices[t], m)
    ensures job.refs[t].board.(state := m) == Board(t, m, job.now, None)
    ensures SlicesSent(job, boards[nextId := job.refs[t].board.(state := m)], pending - {t},
                       targets[t := nextId], merged[t := m])
  {
    FreshDelivery(job, boards, pending, targets, merged, t, nextId, m);
  }

  /** `other_board.state = merge(other_board.state, changeset[name]); other_board.save()` for one thread. */
  method SendSlice(repo: Repository, slices: map<string, seq<Node>>, refs: map<string, BoardRef>, t: string,
                   ghost job: Job, ghost pending: set<string>, ghost targets: map<string, nat>,
                   ghost merged: map<string, seq<Node>>)
    returns (ghost targets': map<string, nat>, ghost merged': map<string, seq<Node>>)
    requires repo.Valid() && slices.Keys <= repo.threads
    requires job.slices == slices && job.refs == refs && job.firstFree <= repo.nextId
    requires SlicesSent(job, repo.boards, pending, targets, merged) && t in pending
    modifies repo
    ensures repo.Valid() && job.firstFree <= repo.nextId
    ensures repo.threads == old(repo.threads) && repo.commits == old(repo.commits)
    ensures SlicesSent(job, repo.boards, pending - {t}, targets', merged')
  {
    match refs[t] {
      case Existing(bid) =>
        Untouched(job, repo.boards, pending, targets, merged, t);
        var m := Merge(repo.boards[bid].state, slices[t]);
        SendToExisting(job, repo.boards, pending, targets, merged, t, m);
        var key := repo.Save(Some(bid), repo.boards[bid].(state := m));
        targets', merged' := targets[t := bid], merged[t := m];
      case Fresh(nb) =>
        assert RefFor(job.before, t, job.refs[t], job.now);
        var m := Merge(nb.state, slices[t]);
        SendToFresh(job, repo.boards, pending, targets, merged, t, repo.nextId, m);
        var key := repo.Save(None, nb.(state := m));
        targets', merged' := targets[t := key], merged[t := m];
    }
  }

  /**
   * The loop of `commit_board` over the target threads: each slice is merged into the board looked
   * up for it, a new board being saved under a fresh key. `targets` names the board each slice
   * went to and `merged` the forest that board got.
   */
  method SendSlices(repo: Repository, slices: map<string, seq<Node>>, refs: map<string, BoardRef>, now: int)
    returns (ghost targets: map<string, nat>, ghost merged: map<string, seq<Node>>, ghost job: Job)
    requires repo.Valid()
    requires refs.Keys == slices.Keys && slices.Keys <= repo.threads
    requires forall t :: t in refs ==> RefFor(repo.boards, t, refs[t], now)
    modifies repo
    ensures repo.Valid()
    ensures repo.threads == old(repo.threads) && repo.commits == old(repo.commits)
    ensures job == Job(old(repo.boards), old(repo.nextId), now, slices, refs)
    ensures SlicesSent(job, repo.boards, {}, targets, merged)
  {
    targets, merged := map[], map[];
    job := Job(repo.boards, repo.nextId, now, slices, refs);
    StartSending(job);
    var pending := refs.Keys;
    while pending != {}
      invariant repo.Valid() && repo.threads == old(repo.threads) && repo.commits == old(repo.commits)
      invariant job.firstFree <= repo.nextId
      invariant SlicesSent(job, repo.boards, pending, targets, merged)
      decreases pending
    {
      var t :| t in pending;
      targets, merged := SendSlice(repo, slices, refs, t, job, pending, targets, merged);
      pending := pending - {t};
    }
  }

  /**
   * The boards after a successful commit of board `id`: it holds `committed`; every slice was
   * merged into the forest of the board `targets` names for it, and that board holds the result
   * (unless it is `id` itself, the thread's own most recent board, which `committed` overwrites);
   * every other board is as it was, and every new key is a board created for a slice.
   */
  ghost predicate Applied(before: map<nat, Board>, after: map<nat, Board>, id: nat, committed: Board,
                          slices: map<string, seq<Node>>, now: int, targets: map<string, nat>,
                          merged: map<string, seq<Node>>)
  {
    id in after && after[id] == committed
    && targets.Keys == slices.Keys
    && Merged(before, slices, targets, merged)
    && (forall t :: t in targets && targets[t] != id ==>
          t in merged && Delivered(before, after, t, targets[t], merged[t], now))
    && (forall t :: t in targets && targets[t] == id ==> id in before && t == before[id].thread)
    && (forall b :: b in before && b != id && !Targeted(targets, b) ==> b in after && after[b] == before[b])
    && (forall b :: b in after ==> b in before || Targeted(targets, b))
  }

  /** Overwriting board `id` keeps every delivery to another board; a delivery to `id` was to its own thread. */
  lemma OverwriteKeepsDeliveries(job: Job, sent: map<nat, Board>, targets: map<string, nat>,
                                 merged: map<string, seq<Node>>, id: nat, committed: Board)
    requires AllDelivered(job, sent, targets, merged)
    requires id in job.before
    ensures forall t :: t in targets && targets[t] != id ==>
      t in merged && Delivered(job.before, sent[id := committed], t, targets[t], merged[t], job.now)
    ensures forall t :: t in targets && targets[t] == id ==> t == job.before[id].thread
  {
    forall t | t in targets
      ensures t in merged
      ensures targets[t] != id ==> Delivered(job.before, sent[id := committed], t, targets[t], merged[t], job.now)
      ensures targets[t] == id ==> t == job.before[id].thread
    {
      assert Delivered(job.before, sent, t, targets[t], merged[t], job.now);
    }
  }

  /** Overwriting board `id` keeps every board no slice went to and adds no key. */
  lemma OverwriteKeepsOthers(job: Job, sent: map<nat, Board>, targets: map<string, nat>, id: nat, committed: Board)
    requires OthersKept(job, sent, targets) && NewKeysTargeted(job, sent, targets)
    requires id in job.before
    ensures forall b :: b in job.before && b != id && !Targeted(targets, b) ==>
      b in sent[id := committed] && sent[id := committed][b] == job.before[b]
    ensures forall b :: b in sent[id := committed] ==> b in job.before || Targeted(targets, b)
  {
  }

  /** Overwriting the committed board `id` after the slices are sent keeps every delivery to another board. */
  lemma OverwriteCommitted(job: Job, sent: map<nat, Board>, targets: map<string, nat>,
                           merged: map<string, seq<Node>>, id: nat, committed: Board)
    requires SlicesSent(job, sent, {}, targets, merged)
    requires id in job.before
    ensures Applied(job.before, sent[id := committed], id, committed, job.slices, job.now, targets, merged)
  {
    OverwriteKeepsDeliveries(job, sent, targets, merged, id, committed);
    OverwriteKeepsOthers(job, sent, targets, id, committed);
  }

  /**
   * `commit_board`: the board's forest is split by `CalculateChangesPerBoard`; the commit is
   * recorded; every slice goes to its thread's board (the boards are all looked up before any is
   * written, so an unknown thread stops the commit after the record was written and before any
   * board changed); finally the committed board gets the slice that stays and the new start time.
   * `targets` names the board each slice went to and `merged` the forest it got.
   */
  method CommitBoard(repo: Repository, id: nat, now: int)
    returns (r: Result<Board, CommitError>, ghost targets: map<string, nat>, ghost merged: map<string, seq<Node>>)
    requires repo.Valid()
    modifies repo
    ensures repo.Valid()
    ensures repo.threads == old(repo.threads)
    ensures id !in old(repo.boards) ==>
      r == Err(BoardDoesNotExist) && repo.boards == old(repo.boards) && repo.commits == old(repo.commits)
    ensures id in old(repo.boards) ==> repo.commits == old(repo.commits) + [Audit(old(repo.boards[id]), now)]
    ensures r.Err? && id in old(repo.boards) ==>
      r.error.ThreadDoesNotExist? && r.error.name in Audit(old(repo.boards[id]), now).transitions
      && r.error.name !in repo.threads && repo.boards == old(repo.boards)
    ensures r.Ok? ==>
      id in old(repo.boards)
      && r.value == old(repo.boards[id]).(state := Audit(old(repo.boards[id]), now).after, dateStarted := now)
      && Applied(old(repo.boards), repo.boards, id, r.value, Audit(old(repo.boards[id]), now).transitions, now,
                 targets, merged)
  {
    targets, merged := map[], map[];
    if id !in repo.boards {
      return Err(BoardDoesNotExist), targets, merged;
    }
    var board := repo.boards[id];
    var audit := Audit(board, now);
    repo.commits := repo.commits + [audit];
    r, targets, merged := Deliver(repo, id, board, audit.transitions, audit.after, now);
  }

  /** The part of `commit_board` after the record is written: look up, send, keep. */
  method Deliver(repo: Repository, id: nat, board: Board, slices: map<string, seq<Node>>, newState: seq<Node>,
                 now: int)
    returns (r: Result<Board, CommitError>, ghost targets: map<string, nat>, ghost merged: map<string, seq<Node>>)
    requires repo.Valid() && id in repo.boards && repo.boards[id] == board
    modifies repo
    ensures repo.Valid()
    ensures repo.threads == old(repo.threads) && repo.commits == old(repo.commits)
    ensures r.Err? ==>
      r.error.ThreadDoesNotExist? && r.error.name in slices
      && r.error.name !in repo.threads && repo.boards == old(repo.boards)
    ensures r.Ok? ==>
      r.value == board.(state := newState, dateStarted := now)
      && Applied(old(repo.boards), repo.boards, id, r.value, slices, now, targets, merged)
  {
    targets, merged := map[], map[];
    var refs := LookUpBoards(repo, slices.Keys, now);
    if refs.Err? {
      return Err(refs.error), targets, merged;
    }
    ghost var job;
    targets, merged, job := SendSlices(repo, slices, refs.value, now);
    var committed := board.(state := newState, dateStarted := now);
    OverwriteCommitted(job, repo.boards, targets, merged, id, committed);
    repo.boards := repo.boards[id := committed];
    return Ok(committed), targets, merged;
  }

  /** A request's query parameters and body, as optional strings. */
  type Params = map<string, string>

  /** The response of `add_task`. */
  datatype AddTaskResponse = BadRequest | NotFound(thread: string) | Saved(board: Option<nat>)

  /**
   * `add_task`: a payload lacking `text` or `thread-name` is answered with 400 and changes nothing;
   * otherwise the task is appended by `add_task_to_board` and its answer is passed on.
   */
  method AddTask(repo: Repository, item: Params) returns (r: AddTaskResponse)
    requires repo.Valid()
    modifies repo
    ensures repo.Valid()
    ensures "text" !in item || "thread-name" !in item ==>
      r == BadRequest && repo.boards == old(repo.boards)
    ensures "text" in item && "thread-name" in item && item["thread-name"] !in old(repo.threads) ==>
      r == NotFound(item["thread-name"]) && repo.boards == old(repo.boards)
    ensures r == BadRequest <==> "text" !in item || "thread-name" !in item
    ensures "text" in item && "thread-name" in item && item["thread-name"] in old(repo.threads) ==>
      (!HasBoardIn(old(repo.boards), item["thread-name"]) ==>
        r == Saved(None) && repo.boards == old(repo.boards))
      && (HasBoardIn(old(repo.boards), item["thread-name"]) ==>
        r.Saved? && r.board.Some? && IsNewestIn(old(repo.boards), r.board.value, item["thread-name"])
        && repo.boards == old(repo.boards)[r.board.value := old(repo.boards)[r.board.value].(
             state := old(repo.boards)[r.board.value].state + [BoardOperations.NewTask(item["text"])])])
  {
    if "text" !in item || "thread-name" !in item {
      return BadRequest;
    }
    var res := BoardOperations.AddTaskToBoard(repo, item["text"], item["thread-name"]);
    match res
    case Err(e) => return NotFound(e.name);
    case Ok(board) => return Saved(board);
  }

  /** A date bound of a period: the raw request text, or a date. */
  datatype Bound = Text(s: string) | Day(d: int)

  /**
   * `period_from_request`: each bound is the stripped query parameter when it is not blank, else
   * the caller's default, else a date computed from `today`.
   */
  function PeriodFromRequest(query: Params, days: int, start: Option<int>, end: Option<int>, today: int)
    : (r: (Bound, Bound))
    ensures var f := Strip(if "from" in query then query["from"] else "");
      (f != "" ==> r.0 == Text(f))
      && (f == "" && start.Some? ==> r.0 == Day(start.value))
      && (f == "" && start.None? ==> r.0 == Day(today - days))
    ensures var t := Strip(if "to" in query then query["to"] else "");
      (t != "" ==> r.1 == Text(t))
      && (t == "" && end.Some? ==> r.1 == Day(end.value))
      && (t == "" && end.None? ==> r.1 == Day(today + 1))
  {
    var f := Strip(if "from" in query then query["from"] else "");
    var t := Strip(if "to" in query then query["to"] else "");
    var fromBound := if f != "" then Text(f) else if start.Some? then Day(start.value) else Day(today - days);
    var toBound := if t != "" then Text(t) else if end.Some? then Day(end.value) else Day(today + 1);
    (fromBound, toBound)
  }

  /** A blank or missing parameter never reaches the result: the default takes its place. */
  lemma BlankParameterUsesDefault(query: Params, days: int, today: int)
    requires "from" in query && forall k :: 0 <= k < |query["from"]| ==> IsSpace(query["from"][k])
    ensures PeriodFromRequest(query, days, None, None, today).0 == Day(today - days)
  {
    StripEmptyIffAllSpace(query["from"]);
  }
}
