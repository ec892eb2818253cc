/**
 * The commit engine: ageing and filtering the task forest, collecting the target threads named by
 * `transition` markers, cutting the forest into one slice per target thread, and merging a slice
 * into another board's forest.
 */
module Commit {
  import opened Wrappers
  import opened Tree

  // ---------------------------------------------------------------------------------------------
  // Ageing and transition markers

  /**
   * `weeks_in_list`: a category (a node whose list of children is non-empty) is reset to 0, so is
   * a task that made progress; a postponed task keeps its age and any other task ages by a week.
   */
  function WeeksInList(m: Markers, children: seq<Node>): (w: int)
    ensures children != [] ==> w == 0
    ensures children == [] && m.madeProgress ==> w == 0
    ensures children == [] && !m.madeProgress && m.postponedFor > 0 ==> w == m.weeksInList
    ensures children == [] && !m.madeProgress && m.postponedFor <= 0 ==> w == m.weeksInList + 1
  {
    if children != [] then 0
    else if m.madeProgress then 0
    else if m.postponedFor > 0 then m.weeksInList
    else m.weeksInList + 1
  }

  /**
   * `transition_markers_in_tree_item`: the age is recomputed, a postponement counts down to zero,
   * progress is cleared, the four flags are copied and a `transition` survives only if truthy.
   */
  function TransitionMarkers(m: Markers, children: seq<Node>): (r: Markers)
    ensures r.weeksInList == WeeksInList(m, children)
    ensures r.postponedFor >= 0
    ensures m.postponedFor >= 1 ==> r.postponedFor == m.postponedFor - 1
    ensures m.postponedFor <= 1 ==> r.postponedFor == 0
    ensures !r.madeProgress
    ensures r.important == m.important && r.finalizing == m.finalizing
    ensures r.canBeDoneOutsideOfWork == m.canBeDoneOutsideOfWork
    ensures r.canBePostponed == m.canBePostponed
    ensures Truthy(m.transition) ==> r.transition == m.transition
    ensures !Truthy(m.transition) ==> r.transition.None?
  {
    Markers(
      WeeksInList(m, children),
      m.important,
      m.finalizing,
      m.canBeDoneOutsideOfWork,
      m.canBePostponed,
      if m.postponedFor - 1 > 0 then m.postponedFor - 1 else 0,
      false,
      if Truthy(m.transition) then m.transition else None)
  }

  // ---------------------------------------------------------------------------------------------
  // Filtering

  /** `filter_out_checked_items`: true for a node the commit drops together with its subtree. */
  predicate ShouldDrop(n: Node) {
    var m := n.Markers();
    if m.canBePostponed then false
    else if m.postponedFor > 0 then false
    else if m.madeProgress then false
    else if m.weeksInList >= 5 then true
    else n.Checked()
  }

  /** The exemptions win over expiry, and expiry wins over the checked flag. */
  lemma ShouldDropIff(n: Node)
    ensures ShouldDrop(n) <==>
      !n.Markers().canBePostponed && n.Markers().postponedFor <= 0 && !n.Markers().madeProgress
      && (n.Markers().weeksInList >= 5 || n.Checked())
  {
  }

  /** The nodes of `ts` that the filter keeps, in their original order. */
  function Survivors(ts: seq<Node>): (r: seq<Node>)
    ensures |r| <= |ts|
  {
    if ts == [] then []
    else if ShouldDrop(ts[0]) then Survivors(ts[1..])
    else [ts[0]] + Survivors(ts[1..])
  }

  /** A node survives iff it is one of the inputs and the filter does not drop it. */
  lemma {:induction false} SurvivorsMember(ts: seq<Node>, x: Node)
    ensures x in Survivors(ts) <==> x in ts && !ShouldDrop(x)
  {
    if ts != [] {
      SurvivorsMember(ts[1..], x);
      assert ts == [ts[0]] + ts[1..];
    }
  }

  /** Filtering distributes over concatenation, so survivors keep their relative order. */
  lemma {:induction false} SurvivorsAppend(a: seq<Node>, b: seq<Node>)
    ensures Survivors(a + b) == Survivors(a) + Survivors(b)
  {
    if a == [] {
      assert a + b == b;
    } else {
      assert (a + b)[0] == a[0];
      assert (a + b)[1..] == a[1..] + b;
      SurvivorsAppend(a[1..], b);
    }
  }

  /** `transition_data_in_tree_item`: the state dictionary keeps only `visible`. */
  function TransitionItem(n: Node): (r: Node)
    decreases n, 1
  {
    var visible :=
      if n.data.markers.postponedFor == 1 then true
      else if n.state.Some? && n.state.value.visible.Some? then n.state.value.visible.value
      else true;
    Node(
      n.text,
      Data(n.data.text, n.data.state, TransitionMarkers(n.data.markers, n.children)),
      Some(ItemState(None, Some(visible))),
      TransitionForest(n.children))
  }

  /**
   * The transformed node copies `text`, `data.text` and `data.state`, replaces the markers, and keeps
   * only `visible` in its state: true when the postponement was 1 (it runs out now), else the old
   * value, true by default.
   */
  lemma TransitionItemFields(n: Node)
    ensures var r := TransitionItem(n);
      r.text == n.text && r.data.text == n.data.text && r.data.state == n.data.state
      && r.data.markers == TransitionMarkers(n.data.markers, n.children)
      && r.children == TransitionForest(n.children)
      && r.state.Some? && r.state.value.checked.None? && r.state.value.visible.Some?
      && (n.data.markers.postponedFor == 1 ==> r.state.value.visible == Some(true))
      && (n.data.markers.postponedFor != 1 && n.state.Some? && n.state.value.visible.Some?
          ==> r.state.value.visible == n.state.value.visible)
      && (n.data.markers.postponedFor != 1 && (n.state.None? || n.state.value.visible.None?)
          ==> r.state.value.visible == Some(true))
  {
  }

  /**
   * `transition_data_between_boards`: drop the nodes `ShouldDrop` selects (with their subtrees)
   * and transform the survivors, in order.
   */
  function TransitionForest(ts: seq<Node>): (r: seq<Node>)
    decreases ts, 0
    ensures |r| == |Survivors(ts)|
  {
    if ts == [] then []
    else
      var rest := TransitionForest(ts[1..]);
      if ShouldDrop(ts[0]) then rest else [TransitionItem(ts[0])] + rest
  }

  /** The transitioned forest is the transformed survivors, one for one and in order. */
  lemma {:induction false} TransitionForestItems(ts: seq<Node>)
    ensures forall i :: 0 <= i < |TransitionForest(ts)| ==>
      TransitionForest(ts)[i] == TransitionItem(Survivors(ts)[i])
  {
    if ts != [] {
      TransitionForestItems(ts[1..]);
    }
  }

  /** What a commit leaves in every node: normalised state, no progress, a non-negative postponement
      and either no transition or a truthy one. */
  predicate Normalised(n: Node) {
    n.state.Some? && n.state.value.checked.None? && n.state.value.visible.Some?
    && !n.Markers().madeProgress && n.Markers().postponedFor >= 0
    && (n.Markers().transition.None? || Truthy(n.Markers().transition))
  }

  /** Every node of a transitioned forest is normalised. */
  lemma {:induction false} TransitionNormalises(ts: seq<Node>)
    ensures forall n :: n in Preorder(TransitionForest(ts)) ==> Normalised(n)
    decreases ts
  {
    var r := TransitionForest(ts);
    TransitionForestItems(ts);
    forall n | n in Preorder(r) ensures Normalised(n) {
      PreorderMember(r, n);
      var i :| 0 <= i < |r| && (r[i] == n || n in Preorder(r[i].children));
      var s := Survivors(ts)[i];
      SurvivorsMember(ts, s);
      var k :| 0 <= k < |ts| && ts[k] == s;
      TransitionItemFields(s);
      TransitionNormalises(s.children);
    }
  }

  /** A category is reset to age 0 even when all its children are dropped by the same commit. */
  lemma CategoryAgeUsesUnfilteredChildren(n: Node)
    requires n.children != []
    requires forall c :: c in n.children ==> ShouldDrop(c)
    ensures TransitionItem(n).children == []
    ensures TransitionItem(n).Markers().weeksInList == 0
  {
    var sv := Survivors(n.children);
    if sv != [] {
      SurvivorsMember(n.children, sv[0]);
      assert false;
    }
  }

  /** An open task: a leaf with no exemption, no postponement, no progress and not checked. */
  predicate OpenLeaf(n: Node) {
    n.children == [] && !n.Markers().canBePostponed && n.Markers().postponedFor == 0
    && !n.Markers().madeProgress && !n.Checked()
  }

  /** One commit ages an open task by a week, or drops it once it is five weeks old. */
  lemma OpenLeafAges(n: Node)
    requires OpenLeaf(n)
    ensures n.Markers().weeksInList >= 5 ==> TransitionForest([n]) == []
    ensures n.Markers().weeksInList < 5 ==>
      |TransitionForest([n])| == 1 && OpenLeaf(TransitionForest([n])[0])
      && TransitionForest([n])[0].Markers().weeksInList == n.Markers().weeksInList + 1
  {
    assert [n][1..] == [];
    if n.Markers().weeksInList < 5 {
      assert Survivors([n]) == [n];
    }
  }

  lemma AgeStep(prev: seq<Node>)
    requires |prev| == 1 && OpenLeaf(prev[0]) && prev[0].Markers().weeksInList < 5
    ensures |TransitionForest(prev)| == 1 && OpenLeaf(TransitionForest(prev)[0])
    ensures TransitionForest(prev)[0].Markers().weeksInList == prev[0].Markers().weeksInList + 1
  {
    assert prev == [prev[0]];
    OpenLeafAges(prev[0]);
  }

  lemma ExpireStep(prev: seq<Node>)
    requires |prev| == 1 && OpenLeaf(prev[0]) && prev[0].Markers().weeksInList >= 5
    ensures TransitionForest(prev) == []
  {
    assert prev == [prev[0]];
    OpenLeafAges(prev[0]);
  }

  /** `k` commits applied to a forest. */
  function Commits(k: nat, ts: seq<Node>): seq<Node> {
    if k == 0 then ts else TransitionForest(Commits(k - 1, ts))
  }

  /** An open task of age `w` is still there, aged by `k` weeks, after `k <= 5 - w` commits. */
  lemma {:induction false} OpenLeafSurvives(n: Node, k: nat)
    requires OpenLeaf(n) && k <= 5 - n.Markers().weeksInList
    ensures |Commits(k, [n])| == 1 && OpenLeaf(Commits(k, [n])[0])
    ensures Commits(k, [n])[0].Markers().weeksInList == n.Markers().weeksInList + k
  {
    if k > 0 {
      OpenLeafSurvives(n, k - 1);
      AgeStep(Commits(k - 1, [n]));
    }
  }

  /**
   * ... and is gone after any further commit: a fresh task (age 0) survives five commits and
   * vanishes on the sixth.
   */
  lemma {:induction false} OpenLeafExpires(n: Node, k: nat)
    requires OpenLeaf(n) && 0 <= n.Markers().weeksInList <= 5
    requires k > 5 - n.Markers().weeksInList
    ensures Commits(k, [n]) == []
  {
    if k == 6 - n.Markers().weeksInList {
      OpenLeafSurvives(n, k - 1);
      ExpireStep(Commits(k - 1, [n]));
    } else {
      OpenLeafExpires(n, k - 1);
    }
  }

  /** A task that can be postponed is never dropped: it survives any number of commits. */
  lemma {:induction false} CanBePostponedSurvives(n: Node, k: nat)
    requires n.Markers().canBePostponed
    ensures |Commits(k, [n])| == 1 && Commits(k, [n])[0].Markers().canBePostponed
  {
    if k > 0 {
      CanBePostponedSurvives(n, k - 1);
      var prev := Commits(k - 1, [n]);
      var m := prev[0];
      assert prev == [m];
      assert Commits(k, [n]) == TransitionForest([m]);
      CanBePostponedStep(m);
    }
  }

  lemma CanBePostponedStep(m: Node)
    requires m.Markers().canBePostponed
    ensures |TransitionForest([m])| == 1 && TransitionForest([m])[0].Markers().canBePostponed
  {
    assert [m][1..] == [];
    assert !ShouldDrop(m);
    assert TransitionForest([m]) == [TransitionItem(m)];
  }

  /** A postponed task is kept, counts down its postponement and does not age. */
  lemma PostponedKeptWithoutAgeing(n: Node)
    requires n.Markers().postponedFor > 0 && n.children == [] && !n.Markers().madeProgress
    ensures TransitionForest([n]) == [TransitionItem(n)]
    ensures TransitionItem(n).Markers().weeksInList == n.Markers().weeksInList
    ensures TransitionItem(n).Markers().postponedFor == n.Markers().postponedFor - 1
  {
    assert [n][1..] == [];
    assert Survivors([n]) == [n];
  }

  // ---------------------------------------------------------------------------------------------
  // Collecting the target threads

  /** What the per-item function or the combining function hands back: a single value or a set. */
  datatype Elem = One(v: Option<string>) | Many(s: set<Option<string>>)

  function AsSet(e: Elem): set<Option<string>> {
    match e
    case One(v) => {v}
    case Many(s) => s
  }

  /** `unionize_sets`: a left fold of union, a set element contributing itself and a plain value
      its singleton. */
  function UnionizeSets(items: seq<Elem>): (r: set<Option<string>>)
    ensures forall x :: x in r <==> exists i :: 0 <= i < |items| && x in AsSet(items[i])
  {
    if items == [] then {}
    else
      var init := items[..|items| - 1];
      var r := UnionizeSets(init) + AsSet(items[|items| - 1]);
      assert forall i :: 0 <= i < |init| ==> init[i] == items[i];
      r
  }

  /** `recursively(collection, f, c)`: combine, over the roots, each root's value with the combined
      value of its children. */
  function Recursively<T>(ts: seq<Node>, f: Node -> T, c: seq<T> -> T): T
    decreases ts, 1
  {
    c(RootValues(ts, f, c))
  }

  /** `[c((recursively(item[key], f, c), f(item))) for item in collection]`. */
  function RootValues<T>(ts: seq<Node>, f: Node -> T, c: seq<T> -> T): (r: seq<T>)
    decreases ts, 0
    ensures |r| == |ts|
  {
    seq(|ts|, i requires 0 <= i < |ts| => c([Recursively(ts[i].children, f, c), f(ts[i])]))
  }

  /** The function applied to each node: its `transition`, `None` when absent. */
  function TargetOf(n: Node): Elem {
    One(n.Markers().transition)
  }

  function Unionize(xs: seq<Elem>): Elem {
    Many(UnionizeSets(xs))
  }

  /** The thread names `calculate_changes_per_board` collects. */
  function ThreadNames(ts: seq<Node>): set<Option<string>> {
    AsSet(Recursively(ts, TargetOf, Unionize))
  }

  /** The `transition` value of every node of the forest, `None` standing for "no transition". */
  function Targets(ts: seq<Node>): set<Option<string>> {
    set n | n in Preorder(ts) :: n.Markers().transition
  }

  /** One level of `recursively`: a name is collected iff it is a root's own or collected below it. */
  lemma ThreadNamesMember(ts: seq<Node>, x: Option<string>)
    ensures x in ThreadNames(ts) <==>
      exists i :: 0 <= i < |ts| && (x in ThreadNames(ts[i].children) || x == ts[i].Markers().transition)
  {
    var parts := RootValues(ts, TargetOf, Unionize);
    assert ThreadNames(ts) == UnionizeSets(parts);
    forall i | 0 <= i < |ts|
      ensures x in AsSet(parts[i]) <==> x in ThreadNames(ts[i].children) || x == ts[i].Markers().transition
    {
      var pair := [Recursively(ts[i].children, TargetOf, Unionize), TargetOf(ts[i])];
      assert parts[i] == Unionize(pair);
      assert pair[..1] == [pair[0]] && [pair[0]][..0] == [];
      assert UnionizeSets(pair) == AsSet(pair[0]) + AsSet(pair[1]);
    }
  }

  lemma TargetsMember(ts: seq<Node>, x: Option<string>)
    ensures x in Targets(ts) <==>
      exists i :: 0 <= i < |ts| && (x in Targets(ts[i].children) || x == ts[i].Markers().transition)
  {
    if x in Targets(ts) {
      var n :| n in Preorder(ts) && n.Markers().transition == x;
      PreorderMember(ts, n);
      var i :| 0 <= i < |ts| && (ts[i] == n || n in Preorder(ts[i].children));
      assert x in Targets(ts[i].children) || x == ts[i].Markers().transition;
    }
    if exists i :: 0 <= i < |ts| && (x in Targets(ts[i].children) || x == ts[i].Markers().transition) {
      var i :| 0 <= i < |ts| && (x in Targets(ts[i].children) || x == ts[i].Markers().transition);
      if x == ts[i].Markers().transition {
        PreorderMember(ts, ts[i]);
      } else {
        var n :| n in Preorder(ts[i].children) && n.Markers().transition == x;
        PreorderMember(ts, n);
      }
    }
  }

  /** The collected names are exactly the transitions found anywhere in the forest. */
  lemma {:induction false} ThreadNamesExact(ts: seq<Node>)
    ensures ThreadNames(ts) == Targets(ts)
    decreases ts
  {
    forall i | 0 <= i < |ts| ensures ThreadNames(ts[i].children) == Targets(ts[i].children) {
      ThreadNamesExact(ts[i].children);
    }
    forall x ensures x in ThreadNames(ts) <==> x in Targets(ts) {
      ThreadNamesMember(ts, x);
      TargetsMember(ts, x);
    }
  }

  // ---------------------------------------------------------------------------------------------
  // Cutting the forest into slices

  /** `item_thread_name or implied`: a node's own truthy target overrides what it inherited. */
  function NewImplied(n: Node, implied: Option<string>): Option<string> {
    if Truthy(n.Markers().transition) then n.Markers().transition else implied
  }

  /** The node with its `transition` marker deleted and its children replaced. */
  function Detach(n: Node, children: seq<Node>): (r: Node)
    ensures r.Markers().transition.None? && r.children == children
    ensures r.text == n.text && r.data.text == n.data.text && r.state == n.state
  {
    n.(data := n.data.(markers := n.data.markers.(transition := None)), children := children)
  }

  /** Whether `cut_leaves` keeps a node for `target`, given the slice of its children. */
  predicate Kept(n: Node, target: Option<string>, implied: Option<string>, children: seq<Node>) {
    children != []
    || (n.Markers().transition == target && !Truthy(implied))
    || (implied.Some? && implied == target)
  }

  /**
   * `cut_leaves`: the part of the forest that goes to `target`. `implied` is the nearest
   * ancestor's target (`None` standing for Python's `False`).
   */
  function CutLeaves(ts: seq<Node>, target: Option<string>, implied: Option<string>): (r: seq<Node>)
    decreases ts
    ensures |r| <= |ts|
  {
    if ts == [] then []
    else
      var n := ts[0];
      var children := CutLeaves(n.children, target, NewImplied(n, implied));
      var rest := CutLeaves(ts[1..], target, implied);
      if Kept(n, target, implied, children) then [Detach(n, children)] + rest else rest
  }

  /** Slicing distributes over concatenation: sibling order is preserved. */
  lemma {:induction false} CutLeavesAppend(a: seq<Node>, b: seq<Node>, target: Option<string>,
                                           implied: Option<string>)
    ensures CutLeaves(a + b, target, implied) == CutLeaves(a, target, implied) + CutLeaves(b, target, implied)
  {
    if a == [] {
      assert a + b == b;
    } else {
      assert (a + b)[0] == a[0];
      assert (a + b)[1..] == a[1..] + b;
      CutLeavesAppend(a[1..], b, target, implied);
    }
  }

  /** A single node is kept, without its transition and with its children sliced, or left out. */
  lemma CutLeavesSingle(n: Node, target: Option<string>, implied: Option<string>)
    ensures var children := CutLeaves(n.children, target, NewImplied(n, implied));
      CutLeaves([n], target, implied)
        == if Kept(n, target, implied, children) then [Detach(n, children)] else []
  {
    assert [n][1..] == [];
  }

  /** The target a leaf goes to: its nearest ancestor's target if there is one, else its own. */
  function EffectiveTarget(n: Node, implied: Option<string>): Option<string> {
    if Truthy(implied) then implied else n.Markers().transition
  }

  /** What an inherited target can be: nothing, or a truthy name. */
  predicate ImpliedOk(implied: Option<string>) {
    implied.None? || Truthy(implied)
  }

  /**
   * A leaf lands in exactly one slice: the one for its effective target. In particular an
   * ancestor's target overrides the leaf's own.
   */
  lemma LeafInExactlyOneSlice(n: Node, target: Option<string>, implied: Option<string>)
    requires n.children == [] && ImpliedOk(implied)
    ensures CutLeaves([n], target, implied) != [] <==> target == EffectiveTarget(n, implied)
  {
    CutLeavesSingle(n, target, implied);
  }

  // Following one node of the forest into a slice

  /** `p` is a path from a root: an index among the roots, then among that node's children, and so on. */
  predicate ValidPath(ts: seq<Node>, p: seq<nat>)
    decreases |p|
  {
    p != [] && p[0] < |ts| && (|p| == 1 || ValidPath(ts[p[0]].children, p[1..]))
  }

  /** The node a path leads to. */
  function At(ts: seq<Node>, p: seq<nat>): Node
    requires ValidPath(ts, p)
    decreases |p|
  {
    if |p| == 1 then ts[p[0]] else At(ts[p[0]].children, p[1..])
  }

  /** The target `cut_leaves` hands down to the node at `p`, starting from `implied` at the roots. */
  function InheritedAt(ts: seq<Node>, implied: Option<string>, p: seq<nat>): Option<string>
    requires ValidPath(ts, p)
    decreases |p|
  {
    if |p| == 1 then implied else InheritedAt(ts[p[0]].children, NewImplied(ts[p[0]], implied), p[1..])
  }

  /** Where the node at `p` lands in the slice for `target`, or `None` when the slice leaves it out. */
  function Image(ts: seq<Node>, target: Option<string>, implied: Option<string>, p: seq<nat>): Option<seq<nat>>
    requires ValidPath(ts, p)
    decreases |p|
  {
    var n := ts[p[0]];
    var children := CutLeaves(n.children, target, NewImplied(n, implied));
    if !Kept(n, target, implied, children) then None
    else
      var j := |CutLeaves(ts[..p[0]], target, implied)|;
      if |p| == 1 then Some([j])
      else
        match Image(n.children, target, NewImplied(n, implied), p[1..])
        case None => None
        case Some(q) => Some([j] + q)
  }

  /** The slice around the node at index `i`: the slices of the nodes before it, its own, then the rest. */
  lemma CutLeavesAround(ts: seq<Node>, target: Option<string>, implied: Option<string>, i: nat)
    requires i < |ts|
    ensures var n := ts[i];
      var children := CutLeaves(n.children, target, NewImplied(n, implied));
      CutLeaves(ts, target, implied) == CutLeaves(ts[..i], target, implied)
        + (if Kept(n, target, implied, children) then [Detach(n, children)] else [])
        + CutLeaves(ts[i + 1..], target, implied)
  {
    assert ts == ts[..i] + [ts[i]] + ts[i + 1..];
    CutLeavesAppend(ts[..i] + [ts[i]], ts[i + 1..], target, implied);
    CutLeavesAppend(ts[..i], [ts[i]], target, implied);
    CutLeavesSingle(ts[i], target, implied);
  }

  /** A node that has an image makes its slice non-empty. */
  lemma ImageInSlice(ts: seq<Node>, target: Option<string>, implied: Option<string>, p: seq<nat>)
    requires ValidPath(ts, p) && Image(ts, target, implied, p).Some?
    ensures CutLeaves(ts, target, implied) != []
  {
    CutLeavesAround(ts, target, implied, p[0]);
  }

  /** The image of a node is the node itself, detached, with its children sliced for the same target. */
  lemma {:induction false} ImageAt(ts: seq<Node>, target: Option<string>, implied: Option<string>, p: seq<nat>)
    requires ValidPath(ts, p) && Image(ts, target, implied, p).Some?
    ensures var q := Image(ts, target, implied, p).value;
      var m := At(ts, p);
      ValidPath(CutLeaves(ts, target, implied), q)
      && At(CutLeaves(ts, target, implied), q)
        == Detach(m, CutLeaves(m.children, target, NewImplied(m, InheritedAt(ts, implied, p))))
    decreases |p|
  {
    var n := ts[p[0]];
    var children := CutLeaves(n.children, target, NewImplied(n, implied));
    CutLeavesAround(ts, target, implied, p[0]);
    var j := |CutLeaves(ts[..p[0]], target, implied)|;
    assert CutLeaves(ts, target, implied)[j] == Detach(n, children);
    if |p| > 1 {
      ImageAt(n.children, target, NewImplied(n, implied), p[1..]);
    }
  }

  /** A leaf has an image in the slice for `target` exactly when `target` is its effective target. */
  lemma {:induction false} LeafImageIff(ts: seq<Node>, target: Option<string>, implied: Option<string>, p: seq<nat>)
    requires ValidPath(ts, p) && At(ts, p).children == [] && ImpliedOk(implied)
    ensures Image(ts, target, implied, p).Some? <==> target == EffectiveTarget(At(ts, p), InheritedAt(ts, implied, p))
    decreases |p|
  {
    var n := ts[p[0]];
    if |p| == 1 {
      LeafInExactlyOneSlice(n, target, implied);
      CutLeavesSingle(n, target, implied);
    } else {
      NewImpliedOk(n, implied);
      LeafImageIff(n.children, target, NewImplied(n, implied), p[1..]);
      if Image(n.children, target, NewImplied(n, implied), p[1..]).Some? {
        ImageInSlice(n.children, target, NewImplied(n, implied), p[1..]);
      }
    }
  }

  /** The node at a path is a node of the forest. */
  lemma {:induction false} AtInPreorder(ts: seq<Node>, p: seq<nat>)
    requires ValidPath(ts, p)
    ensures At(ts, p) in Preorder(ts)
    decreases |p|
  {
    if |p| > 1 {
      AtInPreorder(ts[p[0]].children, p[1..]);
    }
    PreorderMember(ts, At(ts, p));
  }

  /** The inherited target is the one given at the roots or the transition of a node of the forest. */
  lemma {:induction false} InheritedFromForest(ts: seq<Node>, implied: Option<string>, p: seq<nat>)
    requires ValidPath(ts, p)
    ensures InheritedAt(ts, implied, p) == implied || InheritedAt(ts, implied, p) in Targets(ts)
    decreases |p|
  {
    if |p| > 1 {
      var n := ts[p[0]];
      InheritedFromForest(n.children, NewImplied(n, implied), p[1..]);
      TargetsMember(ts, InheritedAt(ts, implied, p));
    }
  }

  /**
   * Every leaf of the transitioned board goes to exactly one key of the change set: the key of its
   * effective target. It appears there, detached and still a leaf, and no other slice holds it.
   */
  lemma LeafInExactlyOneChange(state: seq<Node>, p: seq<nat>)
    requires ValidPath(TransitionForest(state), p) && At(TransitionForest(state), p).children == []
    ensures var ns := TransitionForest(state);
      var changes := CalculateChangesPerBoard(state);
      var e := EffectiveTarget(At(ns, p), InheritedAt(ns, None, p));
      e in changes
      && (forall k :: k in changes ==> (Image(ns, k, None, p).Some? <==> k == e))
      && Image(ns, e, None, p).Some?
      && ValidPath(changes[e], Image(ns, e, None, p).value)
      && At(changes[e], Image(ns, e, None, p).value) == Detach(At(ns, p), [])
  {
    var ns := TransitionForest(state);
    var l := At(ns, p);
    var e := EffectiveTarget(l, InheritedAt(ns, None, p));
    AtInPreorder(ns, p);
    InheritedFromForest(ns, None, p);
    assert e in Targets(ns);
    forall k | k in CalculateChangesPerBoard(state) ensures Image(ns, k, None, p).Some? <==> k == e {
      LeafImageIff(ns, k, None, p);
    }
    LeafImageIff(ns, e, None, p);
    ImageAt(ns, e, None, p);
    assert CutLeaves(l.children, e, NewImplied(l, InheritedAt(ns, None, p))) == [];
  }

  /** The targets passed down to children are again nothing or a truthy name. */
  lemma NewImpliedOk(n: Node, implied: Option<string>)
    requires ImpliedOk(implied)
    ensures ImpliedOk(NewImplied(n, implied))
  {
  }

  /** No node of a slice keeps a `transition` marker. */
  lemma {:induction false} CutLeavesDetaches(ts: seq<Node>, target: Option<string>, implied: Option<string>)
    ensures forall n :: n in Preorder(CutLeaves(ts, target, implied)) ==> n.Markers().transition.None?
    decreases ts
  {
    if ts != [] {
      var n := ts[0];
      CutLeavesDetaches(n.children, target, NewImplied(n, implied));
      CutLeavesDetaches(ts[1..], target, implied);
      var children := CutLeaves(n.children, target, NewImplied(n, implied));
      var rest := CutLeaves(ts[1..], target, implied);
      if Kept(n, target, implied, children) {
        var d := Detach(n, children);
        assert [d] + rest == [d] + [] + rest;
        PreorderAppend([d], rest);
        assert Preorder([d]) == [d] + Preorder(children) by {
          assert [d][1..] == [];
        }
      }
    }
  }

  /**
   * `cut_leaves` as written: a loop over the items, each sliced recursively, kept ones appended.
   * The source mutates a private deep copy; the model builds the new list.
   */
  method CutLeavesLoop(ts: seq<Node>, target: Option<string>, implied: Option<string>)
    returns (r: seq<Node>)
    decreases ts
    ensures r == CutLeaves(ts, target, implied)
  {
    r := [];
    var i := 0;
    while i < |ts|
      invariant 0 <= i <= |ts|
      invariant r == CutLeaves(ts[..i], target, implied)
    {
      var item := ts[i];
      var newImplied := NewImplied(item, implied);
      var children := CutLeavesLoop(item.children, target, newImplied);
      CutLeavesAppend(ts[..i], [item], target, implied);
      CutLeavesSingle(item, target, implied);
      assert ts[..i + 1] == ts[..i] + [item];
      if Kept(item, target, implied, children) {
        r := r + [Detach(item, children)];
      }
      i := i + 1;
    }
    assert ts[..i] == ts;
  }

  // ---------------------------------------------------------------------------------------------
  // The change set

  /**
   * `calculate_changes_per_board`: transition the forest, then one slice per collected thread name
   * (`None` standing for "stays on this board").
   */
  function CalculateChangesPerBoard(state: seq<Node>): (r: map<Option<string>, seq<Node>>)
    ensures r.Keys == Targets(TransitionForest(state))
    ensures forall k :: k in r ==> r[k] == CutLeaves(TransitionForest(state), k, None)
  {
    var ns := TransitionForest(state);
    ThreadNamesExact(ns);
    map name | name in ThreadNames(ns) :: CutLeaves(ns, name, None)
  }

  /** An empty board, or one whose every task is dropped, yields no slice at all. */
  lemma ChangesOfEmptyForest(state: seq<Node>)
    requires TransitionForest(state) == []
    ensures CalculateChangesPerBoard(state) == map[]
  {
    assert Targets([]) == {};
  }

  /** Every key is `None` or a truthy thread name. */
  lemma ChangeKeysAreNames(state: seq<Node>)
    ensures forall k :: k in CalculateChangesPerBoard(state) ==> k.None? || Truthy(k)
  {
    TransitionNormalises(state);
  }

  /** `None` is a key iff some node of the transitioned forest has no transition. */
  lemma StayKeyIff(state: seq<Node>)
    ensures None in CalculateChangesPerBoard(state) <==>
      exists n :: n in Preorder(TransitionForest(state)) && n.Markers().transition.None?
  {
  }

  // ---------------------------------------------------------------------------------------------
  // Merging a slice into a board

  /** The `data.text` values of a list of items. */
  function Texts(ts: seq<Node>): set<string> {
    set i | 0 <= i < |ts| :: ts[i].data.text
  }

  lemma TextsAppend(a: seq<Node>, b: seq<Node>)
    ensures Texts(a + b) == Texts(a) + Texts(b)
  {
    forall t | t in Texts(a + b) ensures t in Texts(a) + Texts(b) {
      var i :| 0 <= i < |a + b| && (a + b)[i].data.text == t;
      if i >= |a| {
        assert b[i - |a|] == (a + b)[i];
      }
    }
    forall t | t in Texts(a) + Texts(b) ensures t in Texts(a + b) {
      if t in Texts(a) {
        var i :| 0 <= i < |a| && a[i].data.text == t;
        assert (a + b)[i] == a[i];
      } else {
        var i :| 0 <= i < |b| && b[i].data.text == t;
        assert (a + b)[|a| + i] == b[i];
      }
    }
  }

  /** The index an `OrderedDict` built from `(data.text, index)` pairs keeps: the last one. */
  function LastIndex(ts: seq<Node>, text: string): (i: nat)
    requires text in Texts(ts)
    ensures i < |ts| && ts[i].data.text == text
    ensures forall j :: i < j < |ts| ==> ts[j].data.text != text
  {
    if ts[|ts| - 1].data.text == text then |ts| - 1
    else
      assert text in Texts(ts[..|ts| - 1]) by {
        var k :| 0 <= k < |ts| && ts[k].data.text == text;
        assert ts[..|ts| - 1][k] == ts[k];
      }
      LastIndex(ts[..|ts| - 1], text)
  }

  /** Item `i` of `a` after the merge: the last item with a text also in `b` has its children merged
      with those of the last such item of `b`; every other item is untouched. */
  ghost predicate MergedAt(a: seq<Node>, b: seq<Node>, i: nat, x: Node)
    requires i < |a|
    decreases a, 0
  {
    var key := a[i].data.text;
    if key in Texts(b) && LastIndex(a, key) == i then
      x.text == a[i].text && x.data == a[i].data && x.state == a[i].state
      && IsMerge(a[i].children, b[LastIndex(b, key)].children, x.children)
    else x == a[i]
  }

  /**
   * `r` is a possible result of `merge(a, b)`: all of `a` first, merged item by item, then one item
   * per text found in `b` but not in `a` (the last such item of `b`), in an unspecified order.
   */
  ghost predicate IsMerge(a: seq<Node>, b: seq<Node>, r: seq<Node>)
    decreases a, 1
  {
    |r| == |a| + |Texts(b) - Texts(a)|
    && (forall i :: 0 <= i < |a| ==> MergedAt(a, b, i, r[i]))
    && Texts(r[|a|..]) == Texts(b) - Texts(a)
    && (forall j :: |a| <= j < |r| ==>
          r[j].data.text in Texts(b) && r[j] == b[LastIndex(b, r[j].data.text)])
  }

  /** `names` indexes the first `i` items of `ts`: each text seen so far maps to its last position. */
  predicate Indexed(ts: seq<Node>, i: nat, names: map<string, nat>)
    requires i <= |ts|
  {
    names.Keys == Texts(ts[..i])
    && (forall k :: k in names ==> names[k] < i && ts[names[k]].data.text == k)
    && (forall k, j :: k in names && names[k] < j < i ==> ts[j].data.text != k)
  }

  lemma IndexStep(ts: seq<Node>, i: nat, names: map<string, nat>)
    requires i < |ts| && Indexed(ts, i, names)
    ensures Indexed(ts, i + 1, names[ts[i].data.text := i])
  {
    assert ts[..i + 1] == ts[..i] + [ts[i]];
    TextsAppend(ts[..i], [ts[i]]);
    assert Texts([ts[i]]) == {ts[i].data.text};
  }

  lemma IndexedAll(ts: seq<Node>, names: map<string, nat>)
    requires Indexed(ts, |ts|, names)
    ensures names.Keys == Texts(ts)
    ensures forall k :: k in names ==> names[k] == LastIndex(ts, k)
  {
    assert ts[..|ts|] == ts;
  }

  /** Builds the `OrderedDict` of `data.text` to index. */
  method IndexByText(ts: seq<Node>) returns (names: map<string, nat>)
    ensures names.Keys == Texts(ts)
    ensures forall k :: k in names ==> names[k] == LastIndex(ts, k)
  {
    names := map[];
    var i := 0;
    while i < |ts|
      invariant 0 <= i <= |ts|
      invariant Indexed(ts, i, names)
    {
      IndexStep(ts, i, names);
      names := names[ts[i].data.text := i];
      i := i + 1;
    }
    IndexedAll(ts, names);
  }

  /** The state of the first loop of `merge` once the texts outside `todo` are done. */
  ghost predicate CommonDone(a: seq<Node>, b: seq<Node>, todo: set<string>, res: seq<Node>) {
    |res| == |a|
    && (forall i :: 0 <= i < |a| && a[i].data.text in todo ==> res[i] == a[i])
    && (forall i :: 0 <= i < |a| && a[i].data.text !in todo ==> MergedAt(a, b, i, res[i]))
  }

  lemma CommonStart(a: seq<Node>, b: seq<Node>)
    ensures CommonDone(a, b, Texts(a) * Texts(b), a)
  {
    forall i | 0 <= i < |a| && a[i].data.text !in Texts(a) * Texts(b) ensures MergedAt(a, b, i, a[i]) {
      assert a[i].data.text in Texts(a);
    }
  }

  lemma CommonStep(a: seq<Node>, b: seq<Node>, todo: set<string>, res: seq<Node>, key: string, c: seq<Node>)
    requires CommonDone(a, b, todo, res) && key in todo && key in Texts(a) && key in Texts(b)
    requires IsMerge(a[LastIndex(a, key)].children, b[LastIndex(b, key)].children, c)
    ensures var ia := LastIndex(a, key);
      CommonDone(a, b, todo - {key}, res[ia := res[ia].(children := c)])
  {
    var ia := LastIndex(a, key);
    MergedAtMatched(a, b, ia, c);
    var res' := res[ia := res[ia].(children := c)];
    forall i | 0 <= i < |a| && a[i].data.text !in todo - {key} ensures MergedAt(a, b, i, res'[i]) {
      if i != ia && a[i].data.text == key {
        MergedAtOther(a, b, i);
      }
    }
  }

  /** The first loop of `merge`: the children of each common text are merged, in set order. */
  method MergeCommon(a: seq<Node>, b: seq<Node>, namesA: map<string, nat>, namesB: map<string, nat>)
    returns (res: seq<Node>)
    requires namesA.Keys == Texts(a) && forall k :: k in namesA ==> namesA[k] == LastIndex(a, k)
    requires namesB.Keys == Texts(b) && forall k :: k in namesB ==> namesB[k] == LastIndex(b, k)
    decreases a, 0
    ensures CommonDone(a, b, {}, res)
  {
    var common := namesA.Keys * namesB.Keys;
    res := a;
    var todo := common;
    CommonStart(a, b);
    while todo != {}
      invariant todo <= common
      invariant CommonDone(a, b, todo, res)
      decreases todo
    {
      var key :| key in todo;
      var ia := namesA[key];
      var ib := namesB[key];
      var c := Merge(a[ia].children, b[ib].children);
      CommonStep(a, b, todo, res, key, c);
      res := res[ia := res[ia].(children := c)];
      todo := todo - {key};
    }
  }

  lemma MergedAtMatched(a: seq<Node>, b: seq<Node>, i: nat, c: seq<Node>)
    requires i < |a| && a[i].data.text in Texts(b) && LastIndex(a, a[i].data.text) == i
    requires IsMerge(a[i].children, b[LastIndex(b, a[i].data.text)].children, c)
    ensures MergedAt(a, b, i, a[i].(children := c))
  {
  }

  lemma MergedAtOther(a: seq<Node>, b: seq<Node>, i: nat)
    requires i < |a| && LastIndex(a, a[i].data.text) != i
    ensures MergedAt(a, b, i, a[i])
  {
  }

  /** The state of the second loop of `merge`: one item collected per text outside `rest`. */
  predicate TailDone(b: seq<Node>, inB: set<string>, rest: set<string>, tail: seq<Node>)
    requires inB <= Texts(b)
  {
    rest <= inB
    && |tail| + |rest| == |inB|
    && Texts(tail) == inB - rest
    && (forall j :: 0 <= j < |tail| ==>
          tail[j].data.text in Texts(b) && tail[j] == b[LastIndex(b, tail[j].data.text)])
  }

  lemma TailStep(b: seq<Node>, inB: set<string>, rest: set<string>, tail: seq<Node>, key: string)
    requires inB <= Texts(b) && TailDone(b, inB, rest, tail) && key in rest
    ensures TailDone(b, inB, rest - {key}, tail + [b[LastIndex(b, key)]])
  {
    var item := b[LastIndex(b, key)];
    TextsAppend(tail, [item]);
    assert Texts([item]) == {key} by {
      assert [item][0] == item;
    }
  }

  /** `[b[names_b[key]] for key in in_b]`, in set order. */
  method CollectUnmatched(b: seq<Node>, namesB: map<string, nat>, inB: set<string>)
    returns (tail: seq<Node>)
    requires namesB.Keys == Texts(b) && forall k :: k in namesB ==> namesB[k] == LastIndex(b, k)
    requires inB <= Texts(b)
    ensures TailDone(b, inB, {}, tail)
  {
    tail := [];
    var rest := inB;
    assert Texts([]) == {};
    while rest != {}
      invariant TailDone(b, inB, rest, tail)
      decreases rest
    {
      var key :| key in rest;
      TailStep(b, inB, rest, tail, key);
      tail := tail + [b[namesB[key]]];
      rest := rest - {key};
    }
  }

  /**
   * `merge(a, b)`: merges the children of matching items (in the unspecified iteration order of a
   * set of texts) and appends the unmatched items of `b` (again in set order).
   */
  method Merge(a: seq<Node>, b: seq<Node>) returns (r: seq<Node>)
    decreases a, 1
    ensures IsMerge(a, b, r)
  {
    var namesA := IndexByText(a);
    var namesB := IndexByText(b);
    var inB := namesB.Keys - namesA.Keys;
    var res := MergeCommon(a, b, namesA, namesB);
    var tail := CollectUnmatched(b, namesB, inB);
    MergeAssembled(a, b, res, tail);
    r := res + tail;
  }

  lemma MergeAssembled(a: seq<Node>, b: seq<Node>, res: seq<Node>, tail: seq<Node>)
    requires CommonDone(a, b, {}, res) && TailDone(b, Texts(b) - Texts(a), {}, tail)
    ensures IsMerge(a, b, res + tail)
  {
    var r := res + tail;
    assert r[|a|..] == tail;
    forall i | 0 <= i < |a| ensures MergedAt(a, b, i, r[i]) {
      assert r[i] == res[i];
    }
    forall j | |a| <= j < |r|
      ensures r[j].data.text in Texts(b) && r[j] == b[LastIndex(b, r[j].data.text)]
    {
      assert r[j] == tail[j - |a|];
    }
  }

  /** Merging nothing into a forest leaves it as it is. */
  lemma MergeWithNothing(a: seq<Node>, r: seq<Node>)
    requires IsMerge(a, [], r)
    ensures r == a
  {
    assert Texts([]) == {};
    assert |r| == |a|;
    forall i | 0 <= i < |a| ensures r[i] == a[i] {
      assert MergedAt(a, [], i, r[i]);
    }
  }

  /** The texts of a merge are the texts of both inputs. */
  lemma MergeTexts(a: seq<Node>, b: seq<Node>, r: seq<Node>)
    requires IsMerge(a, b, r)
    ensures Texts(r) == Texts(a) + Texts(b)
  {
    assert r == r[..|a|] + r[|a|..];
    TextsAppend(r[..|a|], r[|a|..]);
    assert Texts(r[..|a|]) == Texts(a) by {
      forall t | t in Texts(a) ensures t in Texts(r[..|a|]) {
        var j :| 0 <= j < |a| && a[j].data.text == t;
        assert MergedAt(a, b, j, r[j]);
        assert r[..|a|][j] == r[j];
      }
      forall t | t in Texts(r[..|a|]) ensures t in Texts(a) {
        var j :| 0 <= j < |a| && r[..|a|][j].data.text == t;
        assert MergedAt(a, b, j, r[j]);
      }
    }
  }

  /** Merging into an empty board (a board created for the slice) gives one item per distinct text
      of the slice, each taken from the slice. */
  lemma MergeIntoEmpty(b: seq<Node>, r: seq<Node>)
    requires IsMerge([], b, r)
    ensures |r| == |Texts(b)|
    ensures Texts(r) == Texts(b)
    ensures forall j :: 0 <= j < |r| ==> r[j] in b
  {
    assert Texts([]) == {};
    MergeTexts([], b, r);
  }
}
