/** Appending a new task to the most recent board of a thread. */
module BoardOperations {
  import opened Wrappers
  import opened Tree
  import opened Store
  import Commit

  /** Why an operation answers with an error instead of a board. */
  datatype Failure = ThreadNotFound(name: string)

  /**
   * The node `add_task_to_board` appends: an open leaf titled `text`, with every marker at rest
   * and no `state` dictionary.
   */
  function NewTask(text: string): (n: Node)
    ensures n.text == text && n.data.text == text && n.data.state == "open"
    ensures n.children == [] && n.state.None?
    ensures n.Markers() == Markers(0, false, false, false, false, 0, false, None)
    ensures Commit.OpenLeaf(n)
  {
    Node(text, Data(text, "open", Markers(0, false, false, false, false, 0, false, None)), None, [])
  }

  /** A new task stays on its board through five commits and is dropped by the sixth. */
  lemma NewTaskLifetime(text: string)
    ensures |Commit.Commits(5, [NewTask(text)])| == 1
    ensures Commit.Commits(6, [NewTask(text)]) == []
  {
    Commit.OpenLeafSurvives(NewTask(text), 5);
    Commit.OpenLeafExpires(NewTask(text), 6);
  }

  /**
   * `add_task_to_board`: an unknown thread is a 404; a thread without boards is left alone and
   * `None` comes back; otherwise the thread's most recent board gets the new task appended.
   */
  method AddTaskToBoard(repo: Repository, text: string, threadName: string)
    returns (r: Result<Option<nat>, Failure>)
    requires repo.Valid()
    modifies repo
    ensures repo.Valid()
    ensures repo.threads == old(repo.threads) && repo.commits == old(repo.commits)
    ensures repo.nextId == old(repo.nextId)
    ensures threadName !in old(repo.threads) ==>
      r == Err(ThreadNotFound(threadName)) && repo.boards == old(repo.boards)
    ensures threadName in old(repo.threads) && !HasBoardIn(old(repo.boards), threadName) ==>
      r == Ok(None) && repo.boards == old(repo.boards)
    ensures threadName in old(repo.threads) && HasBoardIn(old(repo.boards), threadName) ==>
      r.Ok? && r.value.Some? && IsNewestIn(old(repo.boards), r.value.value, threadName)
      && repo.boards == old(repo.boards)[r.value.value :=
           old(repo.boards)[r.value.value].(state := old(repo.boards)[r.value.value].state + [NewTask(text)])]
  {
    if threadName !in repo.threads {
      return Err(ThreadNotFound(threadName));
    }
    var newest := repo.Newest(threadName);
    if newest.None? {
      return Ok(None);
    }
    var id := newest.value;
    var board := repo.boards[id];
    repo.boards := repo.boards[id := board.(state := board.state + [NewTask(text)])];
    return Ok(Some(id));
  }

  /** Appending keeps every existing item in place and adds exactly one node at the end. */
  lemma AppendKeepsItems(state: seq<Node>, text: string)
    ensures |state + [NewTask(text)]| == |state| + 1
    ensures (state + [NewTask(text)])[..|state|] == state
    ensures Size(state + [NewTask(text)]) == Size(state) + 1
  {
    PreorderAppend(state, [NewTask(text)]);
    assert Preorder([NewTask(text)]) == [NewTask(text)] by {
      assert [NewTask(text)][1..] == [];
    }
  }
}
