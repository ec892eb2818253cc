/**
 * The board state: a forest of task nodes, as stored in `Board.state` and `BoardCommitted.before`
 * / `after`. Every node carries its own `text`, a `data` record (`data.text`, `data.state` and the
 * `meaningfulMarkers`), an optional `state` dictionary (`checked` / `visible`, each optional) and
 * its `children`.
 */
module Tree {
  import opened Wrappers

  /** `data.meaningfulMarkers`. `transition` is the name of the thread the task moves to. */
  datatype Markers = Markers(
    weeksInList: int,
    important: bool,
    finalizing: bool,
    canBeDoneOutsideOfWork: bool,
    canBePostponed: bool,
    postponedFor: int,
    madeProgress: bool,
    transition: Option<string>)

  /** The node's `state` dictionary; a missing key is `None`. */
  datatype ItemState = ItemState(checked: Option<bool>, visible: Option<bool>)

  datatype Data = Data(text: string, state: string, markers: Markers)

  datatype Node = Node(text: string, data: Data, state: Option<ItemState>, children: seq<Node>)
  {
    function Markers(): Markers { data.markers }

    /** `item.get("state", {}).get("checked", False)`. */
    predicate Checked() {
      state.Some? && state.value.checked == Some(true)
    }
  }

  /** Python truthiness of an optional string: `None` and `""` are false. */
  predicate Truthy(s: Option<string>) {
    s.Some? && s.value != ""
  }

  /** Every node of the forest, each before its children and its children before its next sibling. */
  function Preorder(ts: seq<Node>): (r: seq<Node>)
    decreases ts
  {
    if ts == [] then [] else [ts[0]] + Preorder(ts[0].children) + Preorder(ts[1..])
  }

  /** The number of nodes in the forest. */
  function Size(ts: seq<Node>): (n: nat)
    decreases ts
    ensures n >= |ts|
    ensures n == |Preorder(ts)|
  {
    if ts == [] then 0 else 1 + Size(ts[0].children) + Size(ts[1..])
  }

  lemma {:induction false} PreorderAppend(a: seq<Node>, b: seq<Node>)
    ensures Preorder(a + b) == Preorder(a) + Preorder(b)
    decreases a
  {
    if a == [] {
      assert a + b == b;
    } else {
      assert (a + b)[0] == a[0];
      assert (a + b)[1..] == a[1..] + b;
      PreorderAppend(a[1..], b);
    }
  }

  /** A node is in the preorder listing iff it is a root or lies in the listing of a root's children. */
  lemma {:induction false} PreorderMember(ts: seq<Node>, n: Node)
    ensures n in Preorder(ts) <==>
      exists i :: 0 <= i < |ts| && (ts[i] == n || n in Preorder(ts[i].children))
    decreases ts
  {
    if ts != [] {
      PreorderMember(ts[1..], n);
      if n in Preorder(ts[1..]) {
        var i :| 0 <= i < |ts[1..]| && (ts[1..][i] == n || n in Preorder(ts[1..][i].children));
        assert ts[i + 1] == ts[1..][i];
      }
      if exists i :: 0 <= i < |ts| && (ts[i] == n || n in Preorder(ts[i].children)) {
        var i :| 0 <= i < |ts| && (ts[i] == n || n in Preorder(ts[i].children));
        if i > 0 {
          assert ts[1..][i - 1] == ts[i];
        }
      }
    }
  }
}
