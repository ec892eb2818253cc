/**
 * The preorder `tree_iterator` over a task forest, the `BoardSummary` counts computed with it, and
 * the events an observation edit spawns.
 */
module Serializers {
  import opened Wrappers
  import opened Tree
  import opened Strings
  import Commit

  /** What `tree_iterator` is given: a list of nodes, or a single node (a dict with `children`). */
  datatype TreeInput = Forest(nodes: seq<Node>) | Single(node: Node)

  /** The top-level list the iterator walks: a single node is wrapped as a one-root forest. */
  function Roots(tree: TreeInput): (r: seq<Node>)
    ensures tree.Single? ==> r == [tree.node]
    ensures tree.Forest? ==> r == tree.nodes
  {
    match tree
    case Forest(nodes) => nodes
    case Single(node) => [node]
  }

  /**
   * The nodes still to come from a stack of sibling lists: the rest of the innermost list in
   * preorder, then those of the lists below it.
   */
  function Pending(stack: seq<seq<Node>>): seq<Node>
    decreases |stack|
  {
    if stack == [] then [] else Preorder(stack[|stack| - 1]) + Pending(stack[..|stack| - 1])
  }

  lemma PendingPush(stack: seq<seq<Node>>, top: seq<Node>)
    ensures Pending(stack + [top]) == Preorder(top) + Pending(stack)
  {
    assert (stack + [top])[..|stack|] == stack;
  }

  /** `tree_iterator`: a stack of iterators over sibling lists. */
  class TreeIterator {
    var stack: seq<seq<Node>>

    /** The nodes the iterator has yet to yield, in order. */
    ghost function Remaining(): seq<Node>
      reads this
    {
      Pending(stack)
    }

    constructor(tree: TreeInput)
      ensures Remaining() == Preorder(Roots(tree))
    {
      stack := [Roots(tree)];
      new;
      PendingPush([], Roots(tree));
    }

    /**
     * `__next__`: drops exhausted levels, yields the next sibling and descends into its children
     * when it has any; `None` stands for `StopIteration`.
     */
    method Next() returns (r: Option<Node>)
      modifies this
      ensures old(Remaining()) == [] ==> r.None? && Remaining() == []
      ensures old(Remaining()) != [] ==> r == Some(old(Remaining())[0]) && Remaining() == old(Remaining())[1..]
    {
      while stack != [] && stack[|stack| - 1] == []
        invariant Remaining() == old(Remaining())
        decreases |stack|
      {
        PendingPush(stack[..|stack| - 1], []);
        assert stack[..|stack| - 1] + [[]] == stack;
        stack := stack[..|stack| - 1];
      }
      if stack == [] {
        return None;
      }
      var below, top := stack[..|stack| - 1], stack[|stack| - 1];
      assert stack == below + [top];
      PendingPush(below, top);
      var value := top[0];
      assert top == [value] + top[1..];
      stack := below + [top[1..]];
      PendingPush(below, top[1..]);
      if |value.children| > 0 {
        PendingPush(stack, value.children);
        stack := stack + [value.children];
      }
      return Some(value);
    }
  }

  /** Runs the iterator to exhaustion, as `ilen` and `filter` do. */
  method Drain(it: TreeIterator) returns (items: seq<Node>)
    modifies it
    ensures items == old(it.Remaining())
    ensures it.Remaining() == []
  {
    items := [];
    var r := it.Next();
    if r.Some? {
      assert [r.value] + it.Remaining() == old(it.Remaining());
    }
    while r.Some?
      invariant r.Some? ==> items + [r.value] + it.Remaining() == old(it.Remaining())
      invariant r.None? ==> items == old(it.Remaining()) && it.Remaining() == []
      decreases |it.Remaining()| + (if r.Some? then 1 else 0)
    {
      ghost var rest := it.Remaining();
      items := items + [r.value];
      r := it.Next();
      if r.Some? {
        assert rest == [r.value] + it.Remaining();
      }
    }
  }

  /** Every node of `tree`, each exactly once, in preorder. */
  method Traverse(tree: TreeInput) returns (items: seq<Node>)
    ensures items == Preorder(Roots(tree))
    ensures |items| == Size(Roots(tree))
  {
    var it := new TreeIterator(tree);
    items := Drain(it);
  }

  /** `_state("checked", None, item)`: a missing `state` or `checked` reads as not checked. */
  predicate Finished(n: Node) {
    n.Checked()
  }

  /** `_marker("postponedFor", None, item)` is truthy. */
  predicate Postponed(n: Node) {
    n.Markers().postponedFor != 0
  }

  /** The `removed` filter as written: old, unchecked, not postponed, no progress. */
  predicate Removed(n: Node) {
    var m := n.Markers();
    m.weeksInList >= 5 && !n.Checked() && m.postponedFor == 0 && !m.madeProgress
  }

  /** The nodes of `xs` that satisfy `p`, in order. */
  function Filter(xs: seq<Node>, p: Node -> bool): (r: seq<Node>)
    ensures |r| <= |xs|
    ensures forall x :: x in r <==> x in xs && p(x)
  {
    if xs == [] then [] else (if p(xs[0]) then [xs[0]] else []) + Filter(xs[1..], p)
  }

  /** `BoardSummary.task_count`: the number of nodes in the committed board's `before` forest. */
  function TaskCount(before: seq<Node>): (n: nat)
    ensures n == |Preorder(before)|
  {
    Size(before)
  }

  function FinishedCount(before: seq<Node>): nat {
    |Filter(Preorder(before), Finished)|
  }

  function PostponedCount(before: seq<Node>): nat {
    |Filter(Preorder(before), Postponed)|
  }

  function RemovedCount(before: seq<Node>): nat {
    |Filter(Preorder(before), Removed)|
  }

  /** The three counts filter the same traversal, so none exceeds the task count. */
  lemma CountsBounded(before: seq<Node>)
    ensures FinishedCount(before) <= TaskCount(before)
    ensures PostponedCount(before) <= TaskCount(before)
    ensures RemovedCount(before) <= TaskCount(before)
  {
  }

  /** A finished task is never counted as removed. */
  lemma FinishedAndRemovedDisjoint(before: seq<Node>, n: Node)
    ensures !(n in Filter(Preorder(before), Finished) && n in Filter(Preorder(before), Removed))
  {
  }

  /** The `removed` count as the commit's own filter would give it: dropped on its own account, unchecked. */
  predicate RemovedByCommit(n: Node) {
    Commit.ShouldDrop(n) && !n.Checked()
  }

  /** With postponement ruled out, the summary and the commit's filter agree about every node. */
  lemma RemovedAgreesWithoutPostponable(n: Node)
    requires !n.Markers().canBePostponed && n.Markers().postponedFor >= 0
    ensures Removed(n) <==> RemovedByCommit(n)
  {
  }

  /** A task that may be postponed is counted as removed though the commit keeps it. */
  lemma RemovedCountsKeptTask()
    ensures var n := Node("t", Data("t", "open", Tree.Markers(5, false, false, false, true, 0, false, None)), None, []);
      Removed(n) && !Commit.ShouldDrop(n)
  {
  }

  /** `RemovedByCommit` never counts a task the commit keeps, nor a finished one. */
  lemma RemovedByCommitIsDropped(n: Node)
    ensures RemovedByCommit(n) ==> Commit.ShouldDrop(n) && !Finished(n)
    ensures Commit.ShouldDrop(n) && !Finished(n) ==> RemovedByCommit(n)
  {
  }

  /** The corrected `removed_count`: the unfinished tasks of `before` that the commit drops. */
  function RemovedByCommitCount(before: seq<Node>): (count: nat)
    ensures count <= TaskCount(before)
  {
    |Filter(Preorder(before), RemovedByCommit)|
  }

  /** The corrected count takes exactly the tasks the commit drops and finished tasks never. */
  lemma RemovedByCommitCountsDropped(before: seq<Node>, n: Node)
    ensures n in Filter(Preorder(before), RemovedByCommit) <==>
      n in Preorder(before) && Commit.ShouldDrop(n) && !Finished(n)
    ensures !(n in Filter(Preorder(before), Finished) && n in Filter(Preorder(before), RemovedByCommit))
  {
    RemovedByCommitIsDropped(n);
  }

  /** An observation as `spawn_observation_events` sees it; a text field may be `None`. */
  datatype Observation = Observation(
    pk: Option<int>,
    situation: Option<string>,
    interpretation: Option<string>,
    approach: Option<string>)

  datatype ObservationEvent =
    | ObservationMade
    | ObservationRecontextualized(oldSituation: Option<string>)
    | ObservationReinterpreted(oldInterpretation: Option<string>)
    | ObservationReflectedUpon(oldApproach: Option<string>)

  /**
   * `was_changed`: the values differ, one of them is truthy, and they are not two strings equal
   * once stripped and freed of carriage returns.
   */
  predicate WasChanged(before: Option<string>, after: Option<string>) {
    before != after
    && (Truthy(before) || Truthy(after))
    && !(before.Some? && after.Some? && Normalised(before.value) == Normalised(after.value))
  }

  /** The events list built by the three conditional appends, one per changed field. */
  function Appended(situation: bool, interpretation: bool, approach: bool,
                    s: Option<string>, i: Option<string>, a: Option<string>): seq<ObservationEvent> {
    (if situation then [ObservationRecontextualized(s)] else [])
    + (if interpretation then [ObservationReinterpreted(i)] else [])
    + (if approach then [ObservationReflectedUpon(a)] else [])
  }

  /** The events come in the order situation, interpretation, approach. */
  predicate InFieldOrder(events: seq<ObservationEvent>) {
    forall i, j :: 0 <= i < j < |events| ==> Rank(events[i]) < Rank(events[j])
  }

  function Rank(e: ObservationEvent): nat {
    match e
    case ObservationMade => 0
    case ObservationRecontextualized(_) => 1
    case ObservationReinterpreted(_) => 2
    case ObservationReflectedUpon(_) => 3
  }

  /** The three appends give at most one event per field, in field order, with the given old values. */
  lemma AppendedEvents(situation: bool, interpretation: bool, approach: bool,
                       s: Option<string>, i: Option<string>, a: Option<string>)
    ensures var events := Appended(situation, interpretation, approach, s, i, a);
      |events| <= 3 && ObservationMade !in events && InFieldOrder(events)
      && (ObservationRecontextualized(s) in events <==> situation)
      && (ObservationReinterpreted(i) in events <==> interpretation)
      && (ObservationReflectedUpon(a) in events <==> approach)
      && (forall e | e in events ::
            e == ObservationRecontextualized(s) || e == ObservationReinterpreted(i)
            || e == ObservationReflectedUpon(a))
  {
  }

  /** `spawn_observation_events`: a newly saved observation, else one event per changed field. */
  function SpawnObservationEvents(previous: Observation, current: Observation): seq<ObservationEvent> {
    if previous.pk.None? && current.pk.Some? then [ObservationMade]
    else
      Appended(
        WasChanged(previous.situation, current.situation),
        WasChanged(previous.interpretation, current.interpretation),
        WasChanged(previous.approach, current.approach),
        previous.situation, previous.interpretation, previous.approach)
  }

  /**
   * A newly saved observation spawns exactly `ObservationMade`; otherwise at most three events, one
   * for each changed field, in the order situation, interpretation, approach, each carrying that
   * field's previous value.
   */
  lemma SpawnedEvents(previous: Observation, current: Observation)
    ensures var events := SpawnObservationEvents(previous, current);
      (previous.pk.None? && current.pk.Some? ==> events == [ObservationMade])
      && (!(previous.pk.None? && current.pk.Some?) ==>
            |events| <= 3 && ObservationMade !in events && InFieldOrder(events)
            && (ObservationRecontextualized(previous.situation) in events <==>
                  WasChanged(previous.situation, current.situation))
            && (ObservationReinterpreted(previous.interpretation) in events <==>
                  WasChanged(previous.interpretation, current.interpretation))
            && (ObservationReflectedUpon(previous.approach) in events <==>
                  WasChanged(previous.approach, current.approach)))
  {
    AppendedEvents(
      WasChanged(previous.situation, current.situation),
      WasChanged(previous.interpretation, current.interpretation),
      WasChanged(previous.approach, current.approach),
      previous.situation, previous.interpretation, previous.approach);
  }

  /** An edit that leaves a field equal, turns `None` into `""`, or changes only surrounding whitespace. */
  predicate IsCosmeticEdit(before: Option<string>, after: Option<string>) {
    || before == after
    || (before.None? && after == Some(""))
    || (before.Some? && after.Some? && Strip(before.value) == Strip(after.value))
  }

  /** A cosmetic edit is no change. */
  lemma CosmeticEditUnchanged(before: Option<string>, after: Option<string>)
    requires IsCosmeticEdit(before, after)
    ensures !WasChanged(before, after)
  {
    if before.Some? && after.Some? {
      NormalisedOfStrip(before.value, after.value);
    }
  }

  /** A save of an existing observation whose every field edit is cosmetic spawns nothing. */
  lemma NoEventForCosmeticEdits(previous: Observation, current: Observation)
    requires !(previous.pk.None? && current.pk.Some?)
    requires IsCosmeticEdit(previous.situation, current.situation)
    requires IsCosmeticEdit(previous.interpretation, current.interpretation)
    requires IsCosmeticEdit(previous.approach, current.approach)
    ensures SpawnObservationEvents(previous, current) == []
  {
    CosmeticEditUnchanged(previous.situation, current.situation);
    CosmeticEditUnchanged(previous.interpretation, current.interpretation);
    CosmeticEditUnchanged(previous.approach, current.approach);
  }
}
