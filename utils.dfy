/**
 * Client-side helpers of `assets/utils.js`: walking a path of keys and indices into a JSON value,
 * and the blank tree item and blank board the editor starts from.
 */
module AssetUtils {
  import opened Wrappers

  /** A JSON-like JavaScript value. */
  datatype Value = Undefined | Null | Bool(b: bool) | Num(n: int) | Str(s: string)
                 | Obj(fields: map<string, Value>) | Arr(items: seq<Value>)

  /** One step of a path: an object key or an array index. */
  datatype Chunk = Key(name: string) | Index(i: int)

  /** Reading a property of `null` throws. */
  const NULL_PROPERTY := "TypeError: cannot read properties of null"

  /** `cur[chunk]` for a value other than `undefined`: a missing key or an index out of range
      gives `undefined`, and `null` throws. */
  function Member(cur: Value, chunk: Chunk): (r: Result<Value, string>)
    requires cur != Undefined
    ensures r.Err? <==> cur.Null?
    ensures cur.Obj? && chunk.Key? && chunk.name in cur.fields ==> r == Ok(cur.fields[chunk.name])
    ensures cur.Arr? && chunk.Index? && 0 <= chunk.i < |cur.items| ==> r == Ok(cur.items[chunk.i])
    ensures cur.Arr? && chunk.Index? && !(0 <= chunk.i < |cur.items|) ==> r == Ok(Undefined)
  {
    match cur
    case Null => Err(NULL_PROPERTY)
    case Obj(fields) => Ok(if chunk.Key? && chunk.name in fields then fields[chunk.name] else Undefined)
    case Arr(items) => Ok(if chunk.Index? && 0 <= chunk.i < |items| then items[chunk.i] else Undefined)
    case _ => Ok(Undefined)
  }

  /** `treeItemForRootAndPath`: `path.reduce` from `root`, stepping into each chunk in turn and
      passing `undefined` along once it appears. */
  function TreeItemForRootAndPath(root: Value, path: seq<Chunk>): (r: Result<Value, string>)
    ensures path == [] ==> r == Ok(root)
    decreases |path|
  {
    if path == [] then Ok(root)
    else if root == Undefined then TreeItemForRootAndPath(Undefined, path[1..])
    else
      match Member(root, path[0])
      case Err(e) => Err(e)
      case Ok(next) => TreeItemForRootAndPath(next, path[1..])
  }

  /** Whatever the path, nothing is found below `undefined`. */
  lemma {:induction false} UndefinedIsSticky(path: seq<Chunk>)
    decreases |path|
    ensures TreeItemForRootAndPath(Undefined, path) == Ok(Undefined)
  {
    if path != [] {
      UndefinedIsSticky(path[1..]);
    }
  }

  /** Walking `p + q` is walking `p`, then walking `q` from where `p` ended. */
  lemma {:induction false} WalkConcat(root: Value, p: seq<Chunk>, q: seq<Chunk>)
    decreases |p|
    ensures TreeItemForRootAndPath(root, p + q) ==
      match TreeItemForRootAndPath(root, p)
      case Err(e) => Err(e)
      case Ok(v) => TreeItemForRootAndPath(v, q)
  {
    if p == [] {
      assert p + q == q;
    } else {
      assert (p + q)[1..] == p[1..] + q;
      assert (p + q)[0] == p[0];
      if root == Undefined {
        WalkConcat(Undefined, p[1..], q);
      } else if Member(root, p[0]).Ok? {
        WalkConcat(Member(root, p[0]).value, p[1..], q);
      }
    }
  }

  /** Once a prefix of the path reaches `undefined`, the result is `undefined`. */
  lemma UndefinedPrefix(root: Value, p: seq<Chunk>, q: seq<Chunk>)
    requires TreeItemForRootAndPath(root, p) == Ok(Undefined)
    ensures TreeItemForRootAndPath(root, p + q) == Ok(Undefined)
  {
    WalkConcat(root, p, q);
    UndefinedIsSticky(q);
  }

  /** Extending a path by one chunk indexes the value the path reached. */
  lemma WalkOneMore(root: Value, p: seq<Chunk>, c: Chunk)
    requires TreeItemForRootAndPath(root, p).Ok? && TreeItemForRootAndPath(root, p).value != Undefined
    ensures TreeItemForRootAndPath(root, p + [c]) == Member(TreeItemForRootAndPath(root, p).value, c)
  {
    WalkConcat(root, p, [c]);
  }

  // The blank tree item and board

  /** `data.meaningfulMarkers` of a client tree item: `important` ranges over 0..3 and
      `postponedFor` counts weeks. */
  datatype ClientMarkers = ClientMarkers(
    weeksInList: int,
    important: int,
    finalizing: bool,
    canBeDoneOutsideOfWork: bool,
    canBePostponed: bool,
    postponedFor: int,
    hiddenWhenPostponed: bool)

  datatype ItemData = ItemData(markers: ClientMarkers, state: string)

  datatype TreeItem = TreeItem(data: ItemData, text: string, children: seq<TreeItem>)

  /** Marker values in the ranges the editor uses. */
  predicate MarkersInRange(m: ClientMarkers) {
    m.weeksInList >= 0 && 0 <= m.important <= 3 && m.postponedFor >= 0
  }

  /** A marker set that sets no flag and counts nothing. */
  predicate Blank(m: ClientMarkers) {
    m.weeksInList == 0 && m.important == 0 && m.postponedFor == 0
    && !m.finalizing && !m.canBeDoneOutsideOfWork && !m.canBePostponed && !m.hiddenWhenPostponed
  }

  /** `createTreeItem`: an open leaf with the given text and blank markers. */
  function CreateTreeItem(text: string := ""): (item: TreeItem)
    ensures item.text == text && item.children == [] && item.data.state == "open"
    ensures Blank(item.data.markers) && MarkersInRange(item.data.markers)
  {
    TreeItem(ItemData(ClientMarkers(0, 0, false, false, false, 0, false), "open"), text, [])
  }

  /** A board as the client holds it; `None` is `null` for the id and dates and `undefined` for
      the focus. */
  datatype Board = Board(
    id: Option<int>,
    dateStarted: Option<string>,
    dateClosed: Option<string>,
    state: seq<TreeItem>,
    focus: Option<string>)

  /** `createBoard`: no id, no dates, an empty state and no focus. */
  function CreateBoard(): (b: Board)
    ensures b.id.None? && b.dateStarted.None? && b.dateClosed.None?
    ensures b.state == [] && b.focus.None?
  {
    Board(None, None, None, [], None)
  }

  // Tree items as JSON values

  function MarkersValue(m: ClientMarkers): Value {
    Obj(map[
      "weeksInList" := Num(m.weeksInList),
      "important" := Num(m.important),
      "finalizing" := Bool(m.finalizing),
      "canBeDoneOutsideOfWork" := Bool(m.canBeDoneOutsideOfWork),
      "canBePostponed" := Bool(m.canBePostponed),
      "postponedFor" := Num(m.postponedFor),
      "hiddenWhenPostponed" := Bool(m.hiddenWhenPostponed)])
  }

  /** The JSON object of a tree item. */
  function ItemValue(item: TreeItem): Value
    decreases item, 1
  {
    Obj(map[
      "data" := Obj(map["meaningfulMarkers" := MarkersValue(item.data.markers), "state" := Str(item.data.state)]),
      "text" := Str(item.text),
      "children" := Arr(ItemValues(item.children))])
  }

  function ItemValues(items: seq<TreeItem>): (vs: seq<Value>)
    decreases items, 0
    ensures |vs| == |items|
    ensures forall i :: 0 <= i < |items| ==> vs[i] == ItemValue(items[i])
  {
    if items == [] then [] else [ItemValue(items[0])] + ItemValues(items[1..])
  }

  /** The path that goes down through `children` by the given indices. */
  function ChildrenPath(indices: seq<int>): (path: seq<Chunk>)
    ensures |path| == 2 * |indices|
  {
    if indices == [] then [] else [Key("children"), Index(indices[0])] + ChildrenPath(indices[1..])
  }

  /** The item those indices lead to, if each of them is in range. */
  function Descendant(item: TreeItem, indices: seq<int>): Option<TreeItem>
    decreases |indices|
  {
    if indices == [] then Some(item)
    else if 0 <= indices[0] < |item.children| then Descendant(item.children[indices[0]], indices[1..])
    else None
  }

  /** Walking a tree item's JSON by a `children` path finds the descendant's JSON, or `undefined`
      when an index is out of range. */
  lemma {:induction false} ChildrenPathFindsDescendant(item: TreeItem, indices: seq<int>)
    ensures TreeItemForRootAndPath(ItemValue(item), ChildrenPath(indices)) ==
      match Descendant(item, indices)
      case Some(d) => Ok(ItemValue(d))
      case None => Ok(Undefined)
    decreases |indices|
  {
    if indices != [] {
      var i := indices[0];
      var step := [Key("children"), Index(i)];
      var rest := ChildrenPath(indices[1..]);
      var children := Arr(ItemValues(item.children));
      assert ChildrenPath(indices) == step + rest;
      WalkConcat(ItemValue(item), step, rest);
      assert Member(ItemValue(item), Key("children")) == Ok(children);
      assert step[1..] == [Index(i)];
      if 0 <= i < |item.children| {
        assert TreeItemForRootAndPath(ItemValue(item), step) == Ok(ItemValue(item.children[i]));
        ChildrenPathFindsDescendant(item.children[i], indices[1..]);
      } else {
        assert TreeItemForRootAndPath(ItemValue(item), step) == Ok(Undefined);
        UndefinedIsSticky(rest);
      }
    }
  }
}
