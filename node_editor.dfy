/**
 * The node editor's structural edits: creating node and option windows,
 * the three attach paths, removing an attached option, the quote shown for
 * an option, and the cascading renumber when a node window is deleted.
 *
 * The editor keeps, besides the nodes and options, parallel lists in the
 * dialogue's editor information: one entry per window (rectangle, kind and
 * the id within that kind), and for each kind the window index of each
 * entity. `EditorConsistent` states how these fit together; creation and
 * deletion are proved to keep it.
 */
module NodeEditors {

  import opened Targets
  import opened Dialogues

  // ---------------------------------------------------------------------
  // Editor configuration (the integer settings)

  /** The integer display settings: quote length and the text-area height range. */
  datatype DisplaySettings = DisplaySettings(maxQuotasLength: int, minTextAreaHeight: int, maxTextAreaHeight: int)

  /** The field initialisers of `EditorConfigurationData`. */
  const DefaultSettings: DisplaySettings := DisplaySettings(49, 50, 150)

  class EditorConfigurationData {
    var maxQuotasLength: int
    var maxTextAreaHeight: int
    var minTextAreaHeight: int

    constructor ()
      ensures Data() == DefaultSettings
    {
      maxQuotasLength, maxTextAreaHeight, minTextAreaHeight := 49, 150, 50;
    }

    function Data(): DisplaySettings
      reads this
    {
      DisplaySettings(maxQuotasLength, minTextAreaHeight, maxTextAreaHeight)
    }
  }

  // ---------------------------------------------------------------------
  // Consistency of the editor's bookkeeping

  predicate Increasing(s: seq<int>) {
    forall i, j :: 0 <= i < j < |s| ==> s[i] < s[j]
  }

  /** Every window is a node or an option window. */
  predicate KindsKnown(types: seq<NodeType>) {
    forall w :: 0 <= w < |types| ==> types[w] == Node || types[w] == Option
  }

  /** Entry `i` of `indexes` is a window of `kind` whose type id is `i`. */
  predicate IndexMap(types: seq<NodeType>, ids: seq<int>, indexes: seq<int>, kind: NodeType)
    requires |types| == |ids|
  {
    forall i :: 0 <= i < |indexes| ==>
      0 <= indexes[i] < |types| && types[indexes[i]] == kind && ids[indexes[i]] == i
  }

  /** Every window of `kind` is listed in `indexes` at its type id. */
  predicate BackMap(types: seq<NodeType>, ids: seq<int>, indexes: seq<int>, kind: NodeType)
    requires |types| == |ids|
  {
    forall w :: 0 <= w < |types| && types[w] == kind ==> 0 <= ids[w] < |indexes| && indexes[ids[w]] == w
  }

  /** The window bookkeeping: parallel lists, and index lists inverse to the type ids and in window order. */
  predicate WindowMaps(info: InfoData) {
    && |info.windows| == |info.windowTypes| == |info.nodeTypesIDs|
    && info.nodes == |info.nodesIndexes| && info.options == |info.optionsIndexes|
    && KindsKnown(info.windowTypes)
    && IndexMap(info.windowTypes, info.nodeTypesIDs, info.nodesIndexes, Node)
    && IndexMap(info.windowTypes, info.nodeTypesIDs, info.optionsIndexes, Option)
    && BackMap(info.windowTypes, info.nodeTypesIDs, info.nodesIndexes, Node)
    && BackMap(info.windowTypes, info.nodeTypesIDs, info.optionsIndexes, Option)
    && Increasing(info.nodesIndexes)
    && Increasing(info.optionsIndexes)
  }

  /** Every entity's id is its position, and node targets name existing nodes. */
  predicate GraphConsistent(nodes: seq<NodeData>, options: seq<OptionData>) {
    && (forall i :: 0 <= i < |nodes| ==> nodes[i].id == i)
    && (forall i :: 0 <= i < |options| ==> options[i].id == i)
    && (forall i :: 0 <= i < |nodes| ==> NodeEdgeInRange(nodes[i], |nodes|))
    && (forall i :: 0 <= i < |options| ==> OptionEdgeInRange(options[i], |nodes|))
  }

  /**
   * The editor's bookkeeping agrees with the dialogue: the window maps
   * hold, there is one node entry per node and one option entry per
   * option, the graph is consistent, and the foldout keys are node ids.
   */
  predicate EditorConsistent(info: InfoData, nodes: seq<NodeData>, options: seq<OptionData>) {
    && WindowMaps(info)
    && info.nodes == |nodes| && info.options == |options|
    && GraphConsistent(nodes, options)
    && (forall key :: key in info.foldouts ==> 0 <= key < |nodes|)
  }

  /** An immediate node's node target names one of `count` nodes. */
  predicate NodeEdgeInRange(n: NodeData, count: int) {
    n.immediate && n.next.kind == Node ==> 0 <= n.next.id < count
  }

  /** An option's node target names one of `count` nodes. */
  predicate OptionEdgeInRange(o: OptionData, count: int) {
    o.next.kind == Node ==> 0 <= o.next.id < count
  }

  // ---------------------------------------------------------------------
  // Creating windows

  /** The position new windows get: ten pixels inside the scrolled view, 200 wide. */
  function NewWindowRect(scrollX: real, scrollY: real): Rect {
    Rect(10.0 + scrollX, 10.0 + scrollY, 200.0, 5.0)
  }

  /** "Create Dialogue Node": a node window and its bookkeeping appended; the id is the old counter. */
  function WithNewNodeWindow(info: InfoData, r: Rect): InfoData {
    info.(windows := info.windows + [r], windowTypes := info.windowTypes + [Node],
          nodeTypesIDs := info.nodeTypesIDs + [info.nodes], nodes := info.nodes + 1,
          nodesIndexes := info.nodesIndexes + [|info.windows|])
  }

  /** "Create Dialogue Option": an option window and its bookkeeping appended. */
  function WithNewOptionWindow(info: InfoData, r: Rect): InfoData {
    info.(windows := info.windows + [r], windowTypes := info.windowTypes + [Option],
          nodeTypesIDs := info.nodeTypesIDs + [info.options], options := info.options + 1,
          optionsIndexes := info.optionsIndexes + [|info.windows|])
  }

  /**
   * Creating a node keeps the bookkeeping consistent: the new node has the
   * next free id, and the new index entry points at the new window, whose
   * kind and type id match.
   */
  lemma CreateNodeKeepsConsistent(info: InfoData, nodes: seq<NodeData>, options: seq<OptionData>, r: Rect)
    requires EditorConsistent(info, nodes, options)
    ensures var info' := WithNewNodeWindow(info, r);
      && EditorConsistent(info', nodes + [NewNode.WithID(info.nodes)], options)
      && NewNode.WithID(info.nodes).id == |nodes|
      && info'.nodesIndexes[|nodes|] == |info'.windows| - 1
      && info'.windowTypes[|info'.windows| - 1] == Node && info'.nodeTypesIDs[|info'.windows| - 1] == |nodes|
  {
    var info' := WithNewNodeWindow(info, r);
    var nodes' := nodes + [NewNode.WithID(info.nodes)];
    forall i | 0 <= i < |info'.nodesIndexes|
      ensures 0 <= info'.nodesIndexes[i] < |info'.windows|
      ensures info'.windowTypes[info'.nodesIndexes[i]] == Node && info'.nodeTypesIDs[info'.nodesIndexes[i]] == i
    {
      if i < |info.nodesIndexes| {
        assert info'.nodesIndexes[i] == info.nodesIndexes[i];
      }
    }
    forall i | 0 <= i < |nodes'| ensures nodes'[i].id == i && NodeEdgeInRange(nodes'[i], |nodes'|) {
      if i < |nodes| {
        assert nodes'[i] == nodes[i];
      }
    }
  }

  /** Creating an option keeps the bookkeeping consistent, in the same way. */
  lemma CreateOptionKeepsConsistent(info: InfoData, nodes: seq<NodeData>, options: seq<OptionData>, r: Rect)
    requires EditorConsistent(info, nodes, options)
    ensures var info' := WithNewOptionWindow(info, r);
      && EditorConsistent(info', nodes, options + [NewOption.WithID(info.options)])
      && NewOption.WithID(info.options).id == |options|
      && info'.optionsIndexes[|options|] == |info'.windows| - 1
      && info'.windowTypes[|info'.windows| - 1] == Option && info'.nodeTypesIDs[|info'.windows| - 1] == |options|
  {
    var info' := WithNewOptionWindow(info, r);
    var options' := options + [NewOption.WithID(info.options)];
    forall i | 0 <= i < |info'.optionsIndexes|
      ensures 0 <= info'.optionsIndexes[i] < |info'.windows|
      ensures info'.windowTypes[info'.optionsIndexes[i]] == Option && info'.nodeTypesIDs[info'.optionsIndexes[i]] == i
    {
      if i < |info.optionsIndexes| {
        assert info'.optionsIndexes[i] == info.optionsIndexes[i];
      }
    }
    forall i | 0 <= i < |options'| ensures options'[i].id == i && OptionEdgeInRange(options'[i], |nodes|) {
      if i < |options| {
        assert options'[i] == options[i];
      }
    }
  }

  // ---------------------------------------------------------------------
  // Deleting a node window, as functions of the state

  /** `List.RemoveAt(i)`. */
  function RemoveAt<T>(s: seq<T>, i: int): (r: seq<T>)
    requires 0 <= i < |s|
    ensures |r| == |s| - 1
  {
    s[..i] + s[i + 1..]
  }

  /** The type-id loop: node windows with a type id above `d` get it decremented. */
  function ShiftTypeIDs(types: seq<NodeType>, ids: seq<int>, d: int): (r: seq<int>)
    requires |ids| <= |types|
  {
    seq(|ids|, i requires 0 <= i < |ids| => if types[i] == Node && ids[i] > d then ids[i] - 1 else ids[i])
  }

  /** The `NodesIndexes` loop: every entry from position `from` on decremented. */
  function ShiftFrom(s: seq<int>, from: int): seq<int> {
    seq(|s|, i requires 0 <= i < |s| => if i >= from then s[i] - 1 else s[i])
  }

  /** `FindIndex(x => x > v)`: the first position holding a value above `v`, or -1. */
  function FindIndexAbove(s: seq<int>, v: int): (r: int)
    ensures -1 <= r < |s|
    ensures r >= 0 ==> s[r] > v && forall j :: 0 <= j < r ==> s[j] <= v
    ensures r == -1 ==> forall j :: 0 <= j < |s| ==> s[j] <= v
  {
    if s == [] then -1
    else if s[0] > v then 0
    else
      var t := FindIndexAbove(s[1..], v);
      if t == -1 then -1 else t + 1
  }

  /** The `OptionsIndexes` loop: every entry from the first one above `id` on decremented. */
  function ShiftOptionsIndexes(s: seq<int>, id: int): seq<int> {
    var f := FindIndexAbove(s, id);
    if f < 0 then s else ShiftFrom(s, f)
  }

  /** On an increasing list, the `OptionsIndexes` loop decrements exactly the entries above `id`. */
  lemma ShiftOptionsIndexesDecrementsAbove(s: seq<int>, id: int)
    requires Increasing(s)
    ensures var r := ShiftOptionsIndexes(s, id);
      |r| == |s| && forall i :: 0 <= i < |s| ==> r[i] == if s[i] > id then s[i] - 1 else s[i]
  {
    var f := FindIndexAbove(s, id);
    if f >= 0 {
      forall i | f <= i < |s| ensures s[i] > id {
        if i > f { assert s[f] < s[i]; }
      }
    }
  }

  /**
   * The node loop: ids above `d` decremented; an immediate node aimed at a
   * node above `d` is re-aimed one lower, one aimed at `d` itself is made a
   * regular node (its stored target is kept).
   */
  function RenumberNode(n: NodeData, d: int): NodeData {
    var n1 := if n.id > d then n.WithID(n.id - 1) else n;
    if n1.immediate && n1.next.kind == Node then
      if n1.next.id > d then n1.WithImmediateTarget(n1.next.id - 1, Node)
      else if n1.next.id == d then n1.RevertToRegular()
      else n1
    else n1
  }

  /** The option loop: a node target above `d` moves one lower, one at `d` becomes the exit. */
  function RedirectOption(o: OptionData, d: int): OptionData {
    if o.next.kind == Node then
      if o.next.id > d then o.WithNext(o.next.id - 1, Node)
      else if o.next.id == d then o.WithNextExit()
      else o
    else o
  }

  function DeletedNodes(nodes: seq<NodeData>, d: int): (r: seq<NodeData>)
    requires 0 <= d < |nodes|
    ensures |r| == |nodes| - 1
  {
    var rest := RemoveAt(nodes, d);
    seq(|rest|, i requires 0 <= i < |rest| => RenumberNode(rest[i], d))
  }

  function DeletedOptions(options: seq<OptionData>, d: int): (r: seq<OptionData>)
    ensures |r| == |options|
  {
    seq(|options|, i requires 0 <= i < |options| => RedirectOption(options[i], d))
  }

  /** The old key that lands on key `k` when node `d` is deleted. */
  function SourceKey(k: int, d: int): int {
    if k < d then k else k + 1
  }

  /**
   * The foldouts of `n` nodes after node `d` is deleted: node `d`'s entry
   * dropped and every key above `d` moved one lower.
   */
  function ShiftedFoldouts(m: Foldouts, d: int, n: int): Foldouts {
    map k | 0 <= k < n - 1 && SourceKey(k, d) in m :: m[SourceKey(k, d)]
  }

  /** The editor information after `DeleteNodeWindow(id, d)`. */
  function DeletedInfo(info: InfoData, id: int, d: int): InfoData
    requires 0 <= id < |info.windows| && |info.windowTypes| == |info.nodeTypesIDs| == |info.windows|
    requires 0 <= d < |info.nodesIndexes|
  {
    var types := RemoveAt(info.windowTypes, id);
    info.(windows := RemoveAt(info.windows, id),
          windowTypes := types,
          nodeTypesIDs := ShiftTypeIDs(types, RemoveAt(info.nodeTypesIDs, id), d),
          nodesIndexes := ShiftFrom(RemoveAt(info.nodesIndexes, d), d),
          optionsIndexes := ShiftOptionsIndexes(info.optionsIndexes, id),
          nodes := info.nodes - 1,
          foldouts := ShiftedFoldouts(info.foldouts, d, info.nodes))
  }

  /** The arguments the node window's "Delete" button passes: its window and that window's type id. */
  predicate DeletableNodeWindow(info: InfoData, id: int, d: int) {
    0 <= id < |info.windowTypes| && id < |info.nodeTypesIDs| && info.windowTypes[id] == Node && d == info.nodeTypesIDs[id]
  }

  // ---------------------------------------------------------------------
  // Deleting preserves consistency

  /** The node windows before window `id` belong to nodes before `d`, the later ones to later nodes. */
  lemma NodeIndexesAround(NI: seq<int>, id: int, d: int)
    requires 0 <= d < |NI| && NI[d] == id && Increasing(NI)
    ensures forall i :: 0 <= i < d ==> NI[i] < id
    ensures forall i :: d < i < |NI| ==> NI[i] > id
  {
    forall i | 0 <= i < d ensures NI[i] < id { assert NI[i] < NI[d]; }
    forall i | d < i < |NI| ensures NI[i] > id { assert NI[d] < NI[i]; }
  }

  /** Node `d`'s window is window `id`. */
  lemma DeletedNodeWindowIndex(T: seq<NodeType>, I: seq<int>, NI: seq<int>, id: int, d: int)
    requires |T| == |I| && 0 <= id < |T| && T[id] == Node && I[id] == d
    requires BackMap(T, I, NI, Node)
    ensures 0 <= d < |NI| && NI[d] == id
  {
  }

  lemma DeleteKeepsNodeIndexMap(T: seq<NodeType>, I: seq<int>, NI: seq<int>, id: int, d: int)
    requires |T| == |I| && 0 <= id < |T| && T[id] == Node && I[id] == d
    requires IndexMap(T, I, NI, Node) && Increasing(NI) && 0 <= d < |NI| && NI[d] == id
    ensures var T' := RemoveAt(T, id);
      IndexMap(T', ShiftTypeIDs(T', RemoveAt(I, id), d), ShiftFrom(RemoveAt(NI, d), d), Node)
  {
    var T' := RemoveAt(T, id);
    var I' := ShiftTypeIDs(T', RemoveAt(I, id), d);
    var NI' := ShiftFrom(RemoveAt(NI, d), d);
    NodeIndexesAround(NI, id, d);
    forall i | 0 <= i < |NI'|
      ensures 0 <= NI'[i] < |T'| && T'[NI'[i]] == Node && I'[NI'[i]] == i
    {
      if i < d {
        assert NI'[i] == NI[i] < id;
      } else {
        assert NI'[i] == NI[i + 1] - 1 >= id;
      }
    }
  }

  lemma DeleteKeepsNodeBackMap(T: seq<NodeType>, I: seq<int>, NI: seq<int>, id: int, d: int)
    requires |T| == |I| && 0 <= id < |T| && T[id] == Node && I[id] == d
    requires BackMap(T, I, NI, Node) && Increasing(NI) && 0 <= d < |NI| && NI[d] == id
    ensures var T' := RemoveAt(T, id);
      BackMap(T', ShiftTypeIDs(T', RemoveAt(I, id), d), ShiftFrom(RemoveAt(NI, d), d), Node)
  {
    var T' := RemoveAt(T, id);
    var I' := ShiftTypeIDs(T', RemoveAt(I, id), d);
    var NI' := ShiftFrom(RemoveAt(NI, d), d);
    NodeIndexesAround(NI, id, d);
    forall w | 0 <= w < |T'| && T'[w] == Node
      ensures 0 <= I'[w] < |NI'| && NI'[I'[w]] == w
    {
      var v := if w < id then w else w + 1;
      assert T[v] == Node && I[v] != d;
    }
  }

  lemma DeleteKeepsNodeOrder(NI: seq<int>, id: int, d: int)
    requires Increasing(NI) && 0 <= d < |NI| && NI[d] == id
    ensures Increasing(ShiftFrom(RemoveAt(NI, d), d))
  {
    var NI' := ShiftFrom(RemoveAt(NI, d), d);
    NodeIndexesAround(NI, id, d);
    forall i, j | 0 <= i < j < |NI'| ensures NI'[i] < NI'[j] {
      if i < d && j >= d {
        assert NI[i] < id < NI[j + 1];
      } else if i >= d {
        assert NI[i + 1] < NI[j + 1];
      } else {
        assert NI[i] < NI[j];
      }
    }
  }

  /** The node part of the window maps after removing window `id`, the window of node `d`. */
  lemma DeleteKeepsNodeMaps(T: seq<NodeType>, I: seq<int>, NI: seq<int>, id: int, d: int)
    requires |T| == |I| && 0 <= id < |T| && T[id] == Node && I[id] == d
    requires IndexMap(T, I, NI, Node) && BackMap(T, I, NI, Node) && Increasing(NI)
    ensures 0 <= d < |NI| && NI[d] == id
    ensures var T' := RemoveAt(T, id);
      var I' := ShiftTypeIDs(T', RemoveAt(I, id), d);
      var NI' := ShiftFrom(RemoveAt(NI, d), d);
      && |T'| == |I'| && |NI'| == |NI| - 1
      && IndexMap(T', I', NI', Node) && BackMap(T', I', NI', Node) && Increasing(NI')
  {
    DeletedNodeWindowIndex(T, I, NI, id, d);
    DeleteKeepsNodeIndexMap(T, I, NI, id, d);
    DeleteKeepsNodeBackMap(T, I, NI, id, d);
    DeleteKeepsNodeOrder(NI, id, d);
  }

  lemma DeleteKeepsOptionIndexMap(T: seq<NodeType>, I: seq<int>, OI: seq<int>, id: int, d: int)
    requires |T| == |I| && 0 <= id < |T| && T[id] == Node
    requires IndexMap(T, I, OI, Option) && Increasing(OI)
    ensures var T' := RemoveAt(T, id);
      IndexMap(T', ShiftTypeIDs(T', RemoveAt(I, id), d), ShiftOptionsIndexes(OI, id), Option)
  {
    var T' := RemoveAt(T, id);
    var I' := ShiftTypeIDs(T', RemoveAt(I, id), d);
    var OI' := ShiftOptionsIndexes(OI, id);
    ShiftOptionsIndexesDecrementsAbove(OI, id);
    forall i | 0 <= i < |OI'|
      ensures 0 <= OI'[i] < |T'| && T'[OI'[i]] == Option && I'[OI'[i]] == i
    {
      assert OI[i] != id;
    }
  }

  lemma DeleteKeepsOptionBackMap(T: seq<NodeType>, I: seq<int>, OI: seq<int>, id: int, d: int)
    requires |T| == |I| && 0 <= id < |T| && T[id] == Node
    requires BackMap(T, I, OI, Option) && Increasing(OI)
    ensures var T' := RemoveAt(T, id);
      BackMap(T', ShiftTypeIDs(T', RemoveAt(I, id), d), ShiftOptionsIndexes(OI, id), Option)
  {
    var T' := RemoveAt(T, id);
    var I' := ShiftTypeIDs(T', RemoveAt(I, id), d);
    var OI' := ShiftOptionsIndexes(OI, id);
    ShiftOptionsIndexesDecrementsAbove(OI, id);
    forall w | 0 <= w < |T'| && T'[w] == Option
      ensures 0 <= I'[w] < |OI'| && OI'[I'[w]] == w
    {
      var v := if w < id then w else w + 1;
      assert T[v] == Option;
    }
  }

  lemma DeleteKeepsOptionOrder(T: seq<NodeType>, I: seq<int>, OI: seq<int>, id: int)
    requires |T| == |I| && 0 <= id < |T| && T[id] == Node
    requires IndexMap(T, I, OI, Option) && Increasing(OI)
    ensures Increasing(ShiftOptionsIndexes(OI, id))
  {
    var OI' := ShiftOptionsIndexes(OI, id);
    ShiftOptionsIndexesDecrementsAbove(OI, id);
    forall i, j | 0 <= i < j < |OI'| ensures OI'[i] < OI'[j] {
      assert OI[i] < OI[j] && OI[i] != id;
    }
  }

  /** The option part of the window maps after removing node window `id`. */
  lemma DeleteKeepsOptionMaps(T: seq<NodeType>, I: seq<int>, OI: seq<int>, id: int, d: int)
    requires |T| == |I| && 0 <= id < |T| && T[id] == Node
    requires IndexMap(T, I, OI, Option) && BackMap(T, I, OI, Option) && Increasing(OI)
    ensures var T' := RemoveAt(T, id);
      var I' := ShiftTypeIDs(T', RemoveAt(I, id), d);
      var OI' := ShiftOptionsIndexes(OI, id);
      && |T'| == |I'| && |OI'| == |OI|
      && IndexMap(T', I', OI', Option) && BackMap(T', I', OI', Option) && Increasing(OI')
  {
    ShiftOptionsIndexesDecrementsAbove(OI, id);
    DeleteKeepsOptionIndexMap(T, I, OI, id, d);
    DeleteKeepsOptionBackMap(T, I, OI, id, d);
    DeleteKeepsOptionOrder(T, I, OI, id);
  }

  lemma DeleteKeepsWindowMaps(info: InfoData, id: int, d: int)
    requires WindowMaps(info) && DeletableNodeWindow(info, id, d)
    ensures 0 <= d < |info.nodesIndexes| && info.nodesIndexes[d] == id
    ensures WindowMaps(DeletedInfo(info, id, d))
    ensures DeletedInfo(info, id, d).nodes == info.nodes - 1 && DeletedInfo(info, id, d).options == info.options
  {
    DeleteKeepsNodeMaps(info.windowTypes, info.nodeTypesIDs, info.nodesIndexes, id, d);
    DeleteKeepsOptionMaps(info.windowTypes, info.nodeTypesIDs, info.optionsIndexes, id, d);
    DeleteKeepsKinds(info.windowTypes, id);
    var info' := DeletedInfo(info, id, d);
    assert info'.windowTypes == RemoveAt(info.windowTypes, id);
    assert info'.nodeTypesIDs == ShiftTypeIDs(info'.windowTypes, RemoveAt(info.nodeTypesIDs, id), d);
    assert info'.nodesIndexes == ShiftFrom(RemoveAt(info.nodesIndexes, d), d);
    assert info'.optionsIndexes == ShiftOptionsIndexes(info.optionsIndexes, id);
  }

  lemma DeleteKeepsKinds(T: seq<NodeType>, id: int)
    requires KindsKnown(T) && 0 <= id < |T|
    ensures KindsKnown(RemoveAt(T, id))
  {
    var T' := RemoveAt(T, id);
    forall w | 0 <= w < |T'| ensures T'[w] == Node || T'[w] == Option {
      assert T'[w] == T[if w < id then w else w + 1];
    }
  }

  /** The id and edge part: ids stay positions, node targets stay in range. */
  lemma DeleteKeepsIdsAndEdges(nodes: seq<NodeData>, options: seq<OptionData>, d: int)
    requires 0 <= d < |nodes|
    requires forall i :: 0 <= i < |nodes| ==> nodes[i].id == i && NodeEdgeInRange(nodes[i], |nodes|)
    requires forall i :: 0 <= i < |options| ==> OptionEdgeInRange(options[i], |nodes|)
    ensures var nodes' := DeletedNodes(nodes, d);
      && (forall i :: 0 <= i < |nodes'| ==> nodes'[i].id == i && NodeEdgeInRange(nodes'[i], |nodes'|))
      && (forall i :: 0 <= i < |options| ==> OptionEdgeInRange(DeletedOptions(options, d)[i], |nodes'|))
  {
    var nodes' := DeletedNodes(nodes, d);
    forall i | 0 <= i < |nodes'| ensures nodes'[i].id == i && NodeEdgeInRange(nodes'[i], |nodes'|) {
      var n := nodes[if i < d then i else i + 1];
      assert nodes'[i] == RenumberNode(n, d);
    }
  }

  /**
   * `DeleteNodeWindow` on a consistent editor, for the window of an existing
   * node, leaves a consistent editor with one node fewer.
   */
  lemma DeleteKeepsConsistent(info: InfoData, nodes: seq<NodeData>, options: seq<OptionData>, id: int, d: int)
    requires EditorConsistent(info, nodes, options) && DeletableNodeWindow(info, id, d)
    ensures 0 <= d < |nodes|
    ensures EditorConsistent(DeletedInfo(info, id, d), DeletedNodes(nodes, d), DeletedOptions(options, d))
  {
    DeleteKeepsWindowMaps(info, id, d);
    DeleteKeepsIdsAndEdges(nodes, options, d);
  }

  /**
   * What deleting node `d` does to each remaining node: ids above `d`
   * decrease by one, the rest are unchanged; an immediate node aimed at a
   * node above `d` is aimed one lower, one aimed at `d` becomes regular,
   * and every other target, the text and the option list are untouched.
   */
  lemma RenumberNodeEffect(n: NodeData, d: int)
    requires d >= 0
    ensures var n' := RenumberNode(n, d);
      && n'.id == (if n.id > d then n.id - 1 else n.id)
      && n'.text == n.text && n'.customID == n.customID && n'.options == n.options
      && (n.immediate && n.next.kind == Node && n.next.id > d ==> n'.immediate && n'.next == Target(n.next.id - 1, Node))
      && (n.immediate && n.next.kind == Node && n.next.id == d ==> !n'.immediate && n'.next == n.next)
      && (!(n.immediate && n.next.kind == Node && n.next.id >= d) ==> n'.immediate == n.immediate && n'.next == n.next)
  {
  }

  /**
   * What deleting node `d` does to an option: a node target above `d`
   * decreases by one, one at `d` becomes the exit, everything else stays.
   */
  lemma RedirectOptionEffect(o: OptionData, d: int)
    requires d >= 0
    ensures var o' := RedirectOption(o, d);
      && o'.(next := o.next) == o
      && (o.next.kind == Node && o.next.id > d ==> o'.next == Target(o.next.id - 1, Node))
      && (o.next.kind == Node && o.next.id == d ==> o'.next == ExitTarget)
      && (!(o.next.kind == Node && o.next.id >= d) ==> o'.next == o.next)
  {
  }

  // ---------------------------------------------------------------------
  // Re-keying the foldouts

  /**
   * The re-key loop as written: over the keys in dictionary enumeration
   * order, each key above `d` is removed and re-added one lower; `Add`
   * throws when that lower key is still present.
   */
  function RekeyAsWritten(m: Foldouts, keys: seq<int>, d: int): (r: (Foldouts, Outcome))
    ensures r.1.Fail? ==> r.1.error == KeyNotFound || r.1.error == DuplicateKey
    decreases |keys|
  {
    if keys == [] then (m, Pass)
    else if keys[0] !in m then (m, Fail(KeyNotFound))
    else if keys[0] <= d then RekeyAsWritten(m, keys[1..], d)
    else
      var value := m[keys[0]];
      var m1 := m - {keys[0]};
      if keys[0] - 1 in m1 then (m1, Fail(DuplicateKey))
      else RekeyAsWritten(m1[keys[0] - 1 := value], keys[1..], d)
  }

  /** Foldouts of four nodes after node 1's entry is removed: nodes 0, 2 and 3 have one. */
  const SampleFoldouts: Foldouts := map[0 := map[], 2 := map[5 := true], 3 := map[6 := false]]

  /**
   * Deleting node 1 with the keys enumerated as 0, 3, 2: moving 3 to 2
   * collides with the entry for 2, which has not moved yet.
   */
  lemma RekeyAsWrittenCollides()
    ensures RekeyAsWritten(SampleFoldouts, [0, 3, 2], 1).1 == Fail(DuplicateKey)
  {
    var m := SampleFoldouts;
    assert [0, 3, 2][1..] == [3, 2];
    assert RekeyAsWritten(m, [0, 3, 2], 1) == RekeyAsWritten(m, [3, 2], 1);
    assert 2 in m - {3};
  }

  /** With the keys enumerated in ascending order the same deletion re-keys as intended. */
  lemma RekeyAsWrittenAscending()
    ensures RekeyAsWritten(SampleFoldouts, [0, 2, 3], 1) == (ShiftedFoldouts(SampleFoldouts, 1, 4), Pass)
  {
    var m := SampleFoldouts;
    var m1 := (m - {2})[1 := m[2]];
    var m2 := (m1 - {3})[2 := m[3]];
    assert [0, 2, 3][1..] == [2, 3] && [2, 3][1..] == [3] && [3][1..] == [];
    assert RekeyAsWritten(m, [0, 2, 3], 1) == RekeyAsWritten(m, [2, 3], 1);
    assert RekeyAsWritten(m, [2, 3], 1) == RekeyAsWritten(m1, [3], 1);
    assert RekeyAsWritten(m1, [3], 1) == RekeyAsWritten(m2, [], 1);
    var s := ShiftedFoldouts(m, 1, 4);
    assert SourceKey(0, 1) == 0 && SourceKey(1, 1) == 2 && SourceKey(2, 1) == 3;
    assert s.Keys == {0, 1, 2} == m2.Keys;
    assert s[0] == m[0] == m2[0] && s[1] == m[2] == m2[1] && s[2] == m[3] == m2[2];
    assert s == m2;
  }

  /**
   * The keys of `acc` lie below every key still to be processed, and below
   * the slot each key above `d` moves to.
   */
  predicate BelowPending(acc: Foldouts, keys: seq<int>, d: int) {
    forall a, j :: a in acc && 0 <= j < |keys| ==> a < keys[j] && (keys[j] > d ==> a < keys[j] - 1)
  }

  /** One key below the deleted node: it stays where it is. */
  lemma ShiftedFoldoutsKeep(m: Foldouts, key: int, d: int, n: int)
    requires key in m && 0 <= key < d < n
    ensures ShiftedFoldouts(m, d, n) == ShiftedFoldouts(m - {key}, d, n)[key := m[key]]
  {
    assert SourceKey(key, d) == key;
  }

  /** One key above the deleted node: it moves one lower. */
  lemma ShiftedFoldoutsMove(m: Foldouts, key: int, d: int, n: int)
    requires key in m && 0 <= d < key < n
    ensures ShiftedFoldouts(m, d, n) == ShiftedFoldouts(m - {key}, d, n)[key - 1 := m[key]]
  {
    var lhs, rhs := ShiftedFoldouts(m, d, n), ShiftedFoldouts(m - {key}, d, n)[key - 1 := m[key]];
    assert SourceKey(key - 1, d) == key;
    forall k ensures k in lhs <==> k in rhs {
      assert k != key - 1 ==> SourceKey(k, d) != key;
    }
    assert lhs.Keys == rhs.Keys;
  }

  /** After the smallest pending key, the rest are ascending, larger, and exactly the other entries. */
  lemma PendingTail(m: Foldouts, keys: seq<int>)
    requires Increasing(keys) && keys != []
    requires forall key :: key in m <==> key in keys
    ensures keys[0] in m && keys[0] - 1 !in m
    ensures Increasing(keys[1..])
    ensures forall key :: key in m - {keys[0]} <==> key in keys[1..]
    ensures forall j :: 0 <= j < |keys[1..]| ==> keys[0] < keys[1..][j]
  {
    var rest := keys[1..];
    forall k | k in rest ensures k != keys[0] {
      var j :| 0 <= j < |rest| && rest[j] == k;
      assert keys[j + 1] == k;
    }
    forall j | 0 <= j < |keys| ensures keys[j] != keys[0] - 1 {
      if j > 0 {
        assert keys[0] < keys[j];
      }
    }
  }

  /** Moving the smallest pending key to `slot` keeps the moved keys below the rest. */
  lemma BelowPendingStep(acc: Foldouts, keys: seq<int>, d: int, slot: int, v: map<int, bool>)
    requires Increasing(keys) && keys != [] && BelowPending(acc, keys, d)
    requires slot == (if keys[0] < d then keys[0] else keys[0] - 1) && keys[0] != d
    ensures BelowPending(acc[slot := v], keys[1..], d)
  {
    var rest, acc' := keys[1..], acc[slot := v];
    forall a, j | a in acc' && 0 <= j < |rest|
      ensures a < rest[j] && (rest[j] > d ==> a < rest[j] - 1)
    {
      assert rest[j] == keys[j + 1] && keys[0] < keys[j + 1];
    }
  }

  /** One step of the re-key as written on a pending key below `d`: nothing moves. */
  lemma RekeyStepKeep(acc: Foldouts, m: Foldouts, keys: seq<int>, d: int)
    requires keys != [] && keys[0] in m && keys[0] < d
    ensures RekeyAsWritten(acc + m, keys, d) == RekeyAsWritten(acc[keys[0] := m[keys[0]]] + (m - {keys[0]}), keys[1..], d)
  {
    assert acc + m == acc[keys[0] := m[keys[0]]] + (m - {keys[0]});
  }

  /** One step of the re-key as written on a pending key above `d` whose lower slot is free. */
  lemma RekeyStepMove(acc: Foldouts, m: Foldouts, keys: seq<int>, d: int)
    requires keys != [] && keys[0] in m && keys[0] > d
    requires keys[0] !in acc && keys[0] - 1 !in acc && keys[0] - 1 !in m
    ensures RekeyAsWritten(acc + m, keys, d) == RekeyAsWritten(acc[keys[0] - 1 := m[keys[0]]] + (m - {keys[0]}), keys[1..], d)
  {
    var key := keys[0];
    assert (acc + m)[key] == m[key];
    assert key - 1 !in (acc + m) - {key};
    assert ((acc + m) - {key})[key - 1 := m[key]] == acc[key - 1 := m[key]] + (m - {key});
  }

  /** Storing an entry before or after a union that does not hold its key gives the same map. */
  lemma UnionUpdate(acc: Foldouts, s: Foldouts, slot: int, v: map<int, bool>)
    requires slot !in s
    ensures acc[slot := v] + s == acc + s[slot := v]
  {
    assert (acc[slot := v] + s).Keys == (acc + s[slot := v]).Keys;
  }

  /**
   * The re-key as written, from a state holding the keys already moved
   * (`acc`) and the entries still to be processed (`m`, whose keys are
   * exactly the pending `keys`, in ascending order).
   */
  lemma {:induction false} RekeyAsWrittenFrom(acc: Foldouts, m: Foldouts, keys: seq<int>, d: int, n: int)
    requires Increasing(keys)
    requires forall key :: key in m <==> key in keys
    requires forall key :: key in m ==> 0 <= key < n
    requires d !in m && 0 <= d < n
    requires BelowPending(acc, keys, d)
    ensures RekeyAsWritten(acc + m, keys, d) == (acc + ShiftedFoldouts(m, d, n), Pass)
    decreases |keys|
  {
    if keys == [] {
      assert forall key :: key !in m;
      assert m.Keys == {};
      assert m == map[];
      assert ShiftedFoldouts(m, d, n) == map[];
      assert acc + m == acc == acc + map[];
    } else {
      var key, v := keys[0], m[keys[0]];
      var m', rest := m - {key}, keys[1..];
      PendingTail(m, keys);
      var shifted := ShiftedFoldouts(m', d, n);
      var slot := if key < d then key else key - 1;
      assert SourceKey(slot, d) == key;
      assert slot !in shifted;
      BelowPendingStep(acc, keys, d, slot, v);
      if key < d {
        RekeyStepKeep(acc, m, keys, d);
        ShiftedFoldoutsKeep(m, key, d, n);
      } else {
        RekeyStepMove(acc, m, keys, d);
        ShiftedFoldoutsMove(m, key, d, n);
      }
      assert RekeyAsWritten(acc + m, keys, d) == RekeyAsWritten(acc[slot := v] + m', rest, d);
      assert ShiftedFoldouts(m, d, n) == shifted[slot := v];
      RekeyAsWrittenFrom(acc[slot := v], m', rest, d, n);
      UnionUpdate(acc, shifted, slot, v);
    }
  }

  /**
   * Whenever the keys are enumerated in ascending order, the re-key as
   * written succeeds and leaves exactly the intended foldouts: each entry
   * below the deleted node kept, each entry above it moved one lower.
   */
  lemma RekeyAsWrittenSorted(m: Foldouts, keys: seq<int>, d: int, n: int)
    requires Increasing(keys)
    requires forall key :: key in m <==> key in keys
    requires forall key :: key in m ==> 0 <= key < n
    requires d !in m && 0 <= d < n
    ensures RekeyAsWritten(m, keys, d) == (ShiftedFoldouts(m, d, n), Pass)
  {
    var empty: Foldouts := map[];
    assert empty + m == m;
    assert empty + ShiftedFoldouts(m, d, n) == ShiftedFoldouts(m, d, n);
    RekeyAsWrittenFrom(empty, m, keys, d, n);
  }

  /**
   * The re-key with the order dependence removed: the new map is built
   * from scratch over the copied keys, each key below `d` kept and each key
   * above moved one lower. No two keys land on the same slot, so the result
   * is the same in every enumeration order.
   */
  method RekeyFoldouts(m: Foldouts, keys: seq<int>, d: int, n: int) returns (r: Foldouts)
    requires forall key :: key in m <==> key in keys
    requires forall key :: key in m ==> 0 <= key < n
    requires 0 <= d < n
    ensures r == ShiftedFoldouts(m, d, n)
  {
    r := map[];
    for i := 0 to |keys|
      invariant forall k :: k in r ==> 0 <= k < n - 1 && SourceKey(k, d) in m && SourceKey(k, d) in keys[..i]
      invariant forall k :: 0 <= k < n - 1 && SourceKey(k, d) in m && SourceKey(k, d) in keys[..i] ==> k in r
      invariant forall k :: k in r ==> r[k] == m[SourceKey(k, d)]
    {
      var key := keys[i];
      assert keys[..i + 1] == keys[..i] + [key];
      assert forall k :: SourceKey(k, d) != d;
      if key < d {
        assert SourceKey(key, d) == key;
        r := r[key := m[key]];
      } else if key > d {
        assert SourceKey(key - 1, d) == key;
        r := r[key - 1 := m[key]];
      }
    }
    assert keys[..|keys|] == keys;
  }

  // ---------------------------------------------------------------------
  // The loops of DeleteNodeWindow over the index lists

  /** The `NodeTypesIDs` loop. */
  method ShiftedTypeIDs(types: seq<NodeType>, ids: seq<int>, d: int) returns (r: seq<int>)
    requires |ids| <= |types|
    ensures r == ShiftTypeIDs(types, ids, d)
  {
    r := ids;
    for i := 0 to |r|
      invariant |r| == |ids|
      invariant forall j :: 0 <= j < |r| ==> r[j] == if j < i && types[j] == Node && ids[j] > d then ids[j] - 1 else ids[j]
    {
      if types[i] == Node && r[i] > d {
        r := r[i := r[i] - 1];
      }
    }
  }

  /** The `NodesIndexes` loop. */
  method ShiftedFrom(s: seq<int>, from: int) returns (r: seq<int>)
    requires 0 <= from
    ensures r == ShiftFrom(s, from)
  {
    r := s;
    var i := from;
    while i < |r|
      invariant |r| == |s| && from <= i
      invariant forall j :: 0 <= j < |r| ==> r[j] == if from <= j < i then s[j] - 1 else s[j]
    {
      r := r[i := r[i] - 1];
      i := i + 1;
    }
  }

  /** The `OptionsIndexes` loop, starting at `FindIndex(x => x > id)`. */
  method ShiftedOptionsIndexes(s: seq<int>, id: int) returns (r: seq<int>)
    ensures r == ShiftOptionsIndexes(s, id)
  {
    var f := 0;
    while f < |s| && s[f] <= id
      invariant 0 <= f <= |s| && forall j :: 0 <= j < f ==> s[j] <= id
    {
      f := f + 1;
    }
    if f == |s| {
      f := -1;
    }
    assert f == FindIndexAbove(s, id);
    r := s;
    var i := f;
    while i < |r| && i >= 0
      invariant |r| == |s|
      invariant f < 0 ==> r == s && i == f
      invariant f >= 0 ==> f <= i && forall j :: 0 <= j < |r| ==> r[j] == if f <= j < i then s[j] - 1 else s[j]
    {
      r := r[i := r[i] - 1];
      i := i + 1;
    }
  }

  /** The node loop, in place. */
  method RenumberNodes(ns: seq<DialogueNode>, d: int)
    requires Distinct(ns)
    modifies ns
    ensures forall i :: 0 <= i < |ns| ==> ns[i].Data() == RenumberNode(old(ns[i].Data()), d)
  {
    for i := 0 to |ns|
      invariant forall j :: 0 <= j < |ns| ==> ns[j].Data() == if j < i then RenumberNode(old(ns[j].Data()), d) else old(ns[j].Data())
    {
      var node := ns[i];
      if node.nodeID > d {
        node.SetNodeID(node.nodeID - 1);
      }
      if node.isImmediateNode {
        var target := node.GetTarget();
        if target.kind == Node {
          if target.id > d {
            node.SetImmediateNodeTarget(target.id - 1, target.kind);
          } else if target.id == d {
            node.RevertToRegularNode();
          }
        }
      }
    }
  }

  /** The option loop, in place. */
  method RedirectOptions(os: seq<DialogueOption>, d: int)
    requires Distinct(os)
    modifies os
    ensures forall i :: 0 <= i < |os| ==> os[i].entryCondition == old(os[i].entryCondition)
    ensures forall i :: 0 <= i < |os| ==> os[i].Data() == RedirectOption(old(os[i].Data()), d)
    ensures OptionsData(os) == DeletedOptions(old(OptionsData(os)), d)
  {
    ghost var data := OptionsData(os);
    for i := 0 to |os|
      invariant forall j :: 0 <= j < |os| ==> os[j].entryCondition == old(os[j].entryCondition)
      invariant forall j :: 0 <= j < |os| ==> os[j].Data() == if j < i then RedirectOption(old(os[j].Data()), d) else old(os[j].Data())
    {
      var opt := os[i];
      if opt.next.kind == Node {
        if opt.next.id > d {
          opt.SetNext(opt.next.id - 1, opt.next.kind);
        } else if opt.next.id == d {
          opt.SetNextNodeExit();
        }
      }
    }
    assert forall i :: 0 <= i < |os| ==> OptionsData(os)[i] == RedirectOption(data[i], d);
  }

  // ---------------------------------------------------------------------
  // Attaching and removing options

  /** The node→option attach: the option is appended only when absent. */
  function AttachOption(attached: seq<int>, o: int): seq<int> {
    if o in attached then attached else attached + [o]
  }

  /** Attaching never introduces a duplicate, and the attached set gains exactly the option. */
  lemma AttachOptionNoDuplicates(attached: seq<int>, o: int)
    requires NoDuplicates(attached)
    ensures NoDuplicates(AttachOption(attached, o))
    ensures o in AttachOption(attached, o)
    ensures forall x :: x in AttachOption(attached, o) <==> x in attached || x == o
    ensures AttachOption(attached, o)[..|attached|] == attached
  {
  }

  /** `List.Remove`: drops the first occurrence of `x`, if any. */
  function RemoveFirst(s: seq<int>, x: int): (r: seq<int>)
    decreases |s|
  {
    if s == [] then []
    else if s[0] == x then s[1..]
    else [s[0]] + RemoveFirst(s[1..], x)
  }

  /** The "x" button removes one occurrence of the option and nothing else. */
  lemma {:induction false} RemoveFirstRemovesOne(s: seq<int>, x: int)
    ensures multiset(RemoveFirst(s, x)) == multiset(s) - multiset{x}
    decreases |s|
  {
    if s != [] {
      RemoveFirstRemovesOne(s[1..], x);
      assert s == [s[0]] + s[1..];
      if s[0] != x {
        assert RemoveFirst(s, x) == [s[0]] + RemoveFirst(s[1..], x);
      }
    }
  }

  lemma NoDuplicatesTail(s: seq<int>)
    requires s != [] && NoDuplicates(s)
    ensures NoDuplicates(s[1..]) && s[0] !in s[1..]
  {
    var tail := s[1..];
    forall i, j | 0 <= i < j < |tail| ensures tail[i] != tail[j] {
      assert tail[i] == s[i + 1] && tail[j] == s[j + 1];
    }
    forall j | 0 <= j < |tail| ensures tail[j] != s[0] {
      assert tail[j] == s[j + 1];
    }
  }

  lemma NoDuplicatesCons(x: int, t: seq<int>)
    requires NoDuplicates(t) && x !in t
    ensures NoDuplicates([x] + t)
  {
    var r := [x] + t;
    forall i, j | 0 <= i < j < |r| ensures r[i] != r[j] {
      assert r[j] == t[j - 1];
      if i > 0 {
        assert r[i] == t[i - 1];
      }
    }
  }

  /** On a list without duplicates the removed option is gone afterwards, and no duplicate appears. */
  lemma {:induction false} RemoveFirstNoDuplicates(s: seq<int>, x: int)
    requires NoDuplicates(s)
    ensures NoDuplicates(RemoveFirst(s, x)) && x !in RemoveFirst(s, x)
    decreases |s|
  {
    if s != [] {
      var tail := s[1..];
      NoDuplicatesTail(s);
      if s[0] != x {
        RemoveFirstNoDuplicates(tail, x);
        var t := RemoveFirst(tail, x);
        RemoveFirstRemovesOne(tail, x);
        assert s[0] !in t by {
          assert s[0] !in multiset(tail);
          assert s[0] !in multiset(t);
        }
        NoDuplicatesCons(s[0], t);
      }
    }
  }

  // ---------------------------------------------------------------------
  // The quote shown for an option

  /**
   * The option text as shown: cut to `maxLen - 3` characters followed by
   * "..." when longer than `maxLen`. A negative cut length throws.
   */
  function TruncateQuote(text: string, maxLen: int): (r: Result<string>)
    ensures r.Err? <==> |text| > maxLen && maxLen < 3
    ensures r.Err? ==> r.error == ArgumentOutOfRange
    ensures |text| <= maxLen ==> r == Ok(text)
  {
    if |text| > maxLen then
      if maxLen - 3 < 0 then Err(ArgumentOutOfRange)
      else Ok(text[..maxLen - 3] + "...")
    else Ok(text)
  }

  /** The label around a shown quote. */
  function QuoteLabel(shown: string): string {
    "\"" + shown + "\""
  }

  /**
   * With any configurable limit (the configuration only accepts limits
   * above 16), a long text is shown as exactly `maxLen` characters, a prefix
   * of the text followed by "..."; a short one is shown whole.
   */
  lemma TruncateQuoteShape(text: string, maxLen: int)
    requires maxLen >= 3
    ensures TruncateQuote(text, maxLen).Ok?
    ensures var shown := TruncateQuote(text, maxLen).value;
      && (|text| > maxLen ==> |shown| == maxLen && shown[..maxLen - 3] == text[..maxLen - 3] && shown[maxLen - 3..] == "...")
      && (|text| <= maxLen ==> shown == text)
      && |shown| <= maxLen
  {
    if |text| > maxLen {
      var shown := text[..maxLen - 3] + "...";
      assert shown[..maxLen - 3] == text[..maxLen - 3];
      assert shown[maxLen - 3..] == "...";
    }
  }

  // ---------------------------------------------------------------------
  // The editor window

  class NodeEditor {
    var info: DialogueEditorInfo
    var currentNodes: seq<DialogueNode>
    var currentOptions: seq<DialogueOption>
    var nodeToNodeToAttach: seq<int>
    var nodeToOptionToAttach: seq<int>
    var optionToNodeToAttach: seq<int>
    var scrollX: real
    var scrollY: real
    var config: EditorConfigurationData

    /** An editor over the given bookkeeping and working lists, nothing pending, unscrolled. */
    constructor (info: DialogueEditorInfo, nodes: seq<DialogueNode>, options: seq<DialogueOption>)
      ensures this.info == info && currentNodes == nodes && currentOptions == options
      ensures nodeToNodeToAttach == [] && nodeToOptionToAttach == [] && optionToNodeToAttach == []
      ensures scrollX == 0.0 && scrollY == 0.0
      ensures fresh(config) && config.Data() == DefaultSettings
    {
      this.info := info;
      currentNodes, currentOptions := nodes, options;
      nodeToNodeToAttach, nodeToOptionToAttach, optionToNodeToAttach := [], [], [];
      scrollX, scrollY := 0.0, 0.0;
      config := new EditorConfigurationData();
    }

    /** "Create Dialogue Node". */
    method CreateNode() returns (node: DialogueNode)
      modifies this`currentNodes, info
      ensures fresh(node)
      ensures currentNodes == old(currentNodes) + [node] && currentOptions == old(currentOptions)
      ensures node.Data() == NewNode.WithID(old(info.nodes))
      ensures info.Data() == WithNewNodeWindow(old(info.Data()), NewWindowRect(scrollX, scrollY))
      ensures unchanged(old(currentNodes))
    {
      node := new DialogueNode();
      node.SetNodeID(info.nodes);
      currentNodes := currentNodes + [node];
      info.windows, info.windowTypes, info.nodeTypesIDs, info.nodes, info.nodesIndexes :=
        info.windows + [NewWindowRect(scrollX, scrollY)], info.windowTypes + [Node],
        info.nodeTypesIDs + [info.nodes], info.nodes + 1, info.nodesIndexes + [|info.windows|];
    }

    /** "Create Dialogue Option". */
    method CreateOption() returns (option: DialogueOption)
      modifies this`currentOptions, info
      ensures fresh(option)
      ensures currentOptions == old(currentOptions) + [option] && currentNodes == old(currentNodes)
      ensures option.entryCondition == null && option.Data() == NewOption.WithID(old(info.options))
      ensures info.Data() == WithNewOptionWindow(old(info.Data()), NewWindowRect(scrollX, scrollY))
      ensures unchanged(old(currentOptions))
    {
      option := new DialogueOption();
      option.SetOptionID(info.options);
      currentOptions := currentOptions + [option];
      info.windows, info.windowTypes, info.nodeTypesIDs, info.options, info.optionsIndexes :=
        info.windows + [NewWindowRect(scrollX, scrollY)], info.windowTypes + [Option],
        info.nodeTypesIDs + [info.options], info.options + 1, info.optionsIndexes + [|info.windows|];
    }

    /**
     * The node→node branch of `UpdateCurves`, once both ends are chosen:
     * the source node becomes immediate and aims at the chosen node, or at
     * the exit for -1.
     */
    method AttachNodeToNode() returns (r: Outcome)
      modifies this`nodeToNodeToAttach, currentNodes
      ensures |old(nodeToNodeToAttach)| != 2 ==> r == Pass && nodeToNodeToAttach == old(nodeToNodeToAttach) && unchanged(currentNodes)
      ensures |old(nodeToNodeToAttach)| == 2 && !(0 <= old(nodeToNodeToAttach)[0] < |currentNodes|) ==>
        r == Fail(ArgumentOutOfRange) && nodeToNodeToAttach == old(nodeToNodeToAttach) && unchanged(currentNodes)
      ensures |old(nodeToNodeToAttach)| == 2 && 0 <= old(nodeToNodeToAttach)[0] < |currentNodes| ==>
        var from, to := old(nodeToNodeToAttach)[0], old(nodeToNodeToAttach)[1];
        && r == Pass && nodeToNodeToAttach == []
        && currentNodes[from].Data() == AttachedImmediate(old(currentNodes[from].Data()), to)
        && forall j :: 0 <= j < |currentNodes| && currentNodes[j] != currentNodes[from] ==> unchanged(currentNodes[j])
    {
      if |nodeToNodeToAttach| != 2 {
        return Pass;
      }
      if !(0 <= nodeToNodeToAttach[0] < |currentNodes|) {
        return Fail(ArgumentOutOfRange);
      }
      var node := currentNodes[nodeToNodeToAttach[0]];
      node.MakeImmediateNode();
      if nodeToNodeToAttach[1] == ExitDialogue {
        node.SetImmediateNodeTargetExit();
      } else {
        node.SetImmediateNodeTarget(nodeToNodeToAttach[1], Node);
      }
      nodeToNodeToAttach := [];
      r := Pass;
    }

    /**
     * The node→option branch of `UpdateCurves`: the option is appended to
     * the node's list (and gets a folded foldout) only if not yet attached.
     * An immediate node has no list to copy.
     */
    method AttachOptionToNode() returns (r: Outcome)
      modifies this`nodeToOptionToAttach, currentNodes, info`foldouts
      ensures |old(nodeToOptionToAttach)| != 2 ==> r == Pass && nodeToOptionToAttach == old(nodeToOptionToAttach) && unchanged(currentNodes) && info.foldouts == old(info.foldouts)
      ensures |old(nodeToOptionToAttach)| == 2 && !(0 <= old(nodeToOptionToAttach)[0] < |currentNodes|) ==>
        r == Fail(ArgumentOutOfRange) && nodeToOptionToAttach == old(nodeToOptionToAttach) && unchanged(currentNodes) && info.foldouts == old(info.foldouts)
      ensures |old(nodeToOptionToAttach)| == 2 && 0 <= old(nodeToOptionToAttach)[0] < |currentNodes| ==>
        var node, o := currentNodes[old(nodeToOptionToAttach)[0]], old(nodeToOptionToAttach)[1];
        var step := AttachOptionStep(old(node.Data()), old(info.foldouts), o);
        && r == step.2
        && node.Data() == step.0 && info.foldouts == step.1
        && (if r == Pass then nodeToOptionToAttach == [] else nodeToOptionToAttach == old(nodeToOptionToAttach))
        && forall j :: 0 <= j < |currentNodes| && currentNodes[j] != node ==> unchanged(currentNodes[j])
    {
      if |nodeToOptionToAttach| != 2 {
        return Pass;
      }
      if !(0 <= nodeToOptionToAttach[0] < |currentNodes|) {
        return Fail(ArgumentOutOfRange);
      }
      var node := currentNodes[nodeToOptionToAttach[0]];
      var o := nodeToOptionToAttach[1];
      if node.isImmediateNode {
        return Fail(ArgumentNull);
      }
      var attached := node.optionsIndexesList;
      if node.nodeID !in info.foldouts {
        info.foldouts := info.foldouts[node.nodeID := map[]];
      }
      if o !in attached {
        attached := attached + [o];
        node.SetOptionsAttached(attached);
        if o in info.foldouts[node.nodeID] {
          return Fail(DuplicateKey);
        }
        info.foldouts := info.foldouts[node.nodeID := info.foldouts[node.nodeID][o := false]];
      }
      nodeToOptionToAttach := [];
      r := Pass;
    }

    /** The option→node branch of `UpdateCurves`: the option aims at the chosen node, or at the exit for -1. */
    method AttachNodeToOption() returns (r: Outcome)
      modifies this`optionToNodeToAttach, currentOptions
      ensures |old(optionToNodeToAttach)| != 2 ==> r == Pass && optionToNodeToAttach == old(optionToNodeToAttach) && unchanged(currentOptions)
      ensures |old(optionToNodeToAttach)| == 2 && !(0 <= old(optionToNodeToAttach)[0] < |currentOptions|) ==>
        r == Fail(ArgumentOutOfRange) && optionToNodeToAttach == old(optionToNodeToAttach) && unchanged(currentOptions)
      ensures |old(optionToNodeToAttach)| == 2 && 0 <= old(optionToNodeToAttach)[0] < |currentOptions| ==>
        var option, to := currentOptions[old(optionToNodeToAttach)[0]], old(optionToNodeToAttach)[1];
        && r == Pass && optionToNodeToAttach == []
        && option.entryCondition == old(option.entryCondition)
        && option.Data() == old(option.Data()).(next := AttachedTarget(old(option.Data()).next, to))
        && forall j :: 0 <= j < |currentOptions| && currentOptions[j] != option ==> unchanged(currentOptions[j])
    {
      if |optionToNodeToAttach| != 2 {
        return Pass;
      }
      if !(0 <= optionToNodeToAttach[0] < |currentOptions|) {
        return Fail(ArgumentOutOfRange);
      }
      var option := currentOptions[optionToNodeToAttach[0]];
      if optionToNodeToAttach[1] != ExitDialogue {
        option.SetNext(optionToNodeToAttach[1], Node);
      } else {
        option.SetNextNodeExit();
      }
      optionToNodeToAttach := [];
      r := Pass;
    }

    /**
     * The "x" button next to an attached option of the regular node drawn
     * in window `typeid`: one occurrence of the option leaves the node's
     * list and its foldout entry is dropped.
     */
    method RemoveAttachedOption(node: DialogueNode, typeid: int, optionIndex: int) returns (r: Outcome)
      modifies node, info`foldouts
      ensures node.isImmediateNode ==> r == Fail(ArgumentNull) && unchanged(node) && info.foldouts == old(info.foldouts)
      ensures !node.isImmediateNode && typeid !in old(info.foldouts) ==>
        r == Fail(KeyNotFound) && node.Data() == old(node.Data()).(options := RemoveFirst(old(node.optionsIndexesList), optionIndex))
        && info.foldouts == old(info.foldouts)
      ensures !node.isImmediateNode && typeid in old(info.foldouts) ==>
        && r == Pass
        && node.Data() == old(node.Data()).(options := RemoveFirst(old(node.optionsIndexesList), optionIndex))
        && info.foldouts == old(info.foldouts)[typeid := old(info.foldouts)[typeid] - {optionIndex}]
    {
      if node.isImmediateNode {
        return Fail(ArgumentNull);
      }
      var without := RemoveFirst(node.optionsIndexesList, optionIndex);
      node.SetOptionsAttached(without);
      if typeid !in info.foldouts {
        return Fail(KeyNotFound);
      }
      info.foldouts := info.foldouts[typeid := info.foldouts[typeid] - {optionIndex}];
      r := Pass;
    }

    /**
     * `DeleteNodeWindow(id, idOfType)`, as the node window's "Delete" button
     * calls it. `foldoutKeys` are the foldout keys left once node
     * `idOfType`'s entry is removed, in the dictionary's enumeration order;
     * they are re-keyed by `RekeyFoldouts`. The bookkeeping and the entity
     * loops touch disjoint state, so their order does not matter.
     */
    method DeleteNodeWindow(id: int, idOfType: int, foldoutKeys: seq<int>)
      requires WindowMaps(info.Data()) && info.nodes == |currentNodes|
      requires forall key :: key in info.foldouts ==> 0 <= key < info.nodes
      requires DeletableNodeWindow(info.Data(), id, idOfType)
      requires forall key :: key in info.foldouts && key != idOfType <==> key in foldoutKeys
      requires Distinct(currentNodes) && Distinct(currentOptions)
      modifies this`currentNodes, this`nodeToNodeToAttach, this`nodeToOptionToAttach, this`optionToNodeToAttach
      modifies info, currentNodes, currentOptions
      ensures 0 <= idOfType < |old(currentNodes)|
      ensures currentNodes == RemoveAt(old(currentNodes), idOfType) && currentOptions == old(currentOptions)
      ensures info.Data() == DeletedInfo(old(info.Data()), id, idOfType)
      ensures NodesData(currentNodes) == DeletedNodes(old(NodesData(currentNodes)), idOfType)
      ensures OptionsData(currentOptions) == DeletedOptions(old(OptionsData(currentOptions)), idOfType)
      ensures nodeToNodeToAttach == [] && nodeToOptionToAttach == [] && optionToNodeToAttach == []
    {
      currentNodes := DeleteNodeWindowState(info, currentNodes, currentOptions, id, idOfType, foldoutKeys);
      nodeToNodeToAttach, nodeToOptionToAttach, optionToNodeToAttach := [], [], [];
    }
  }

  /** The body of `DeleteNodeWindow`, on the state it changes. */
  method DeleteNodeWindowState(info: DialogueEditorInfo, ns: seq<DialogueNode>, os: seq<DialogueOption>,
                               id: int, idOfType: int, foldoutKeys: seq<int>) returns (rest: seq<DialogueNode>)
    requires WindowMaps(info.Data()) && info.nodes == |ns|
    requires forall key :: key in info.foldouts ==> 0 <= key < info.nodes
    requires DeletableNodeWindow(info.Data(), id, idOfType)
    requires forall key :: key in info.foldouts && key != idOfType <==> key in foldoutKeys
    requires Distinct(ns) && Distinct(os)
    modifies info, ns, os
    ensures 0 <= idOfType < |ns|
    ensures rest == RemoveAt(ns, idOfType)
    ensures info.Data() == DeletedInfo(old(info.Data()), id, idOfType)
    ensures NodesData(rest) == DeletedNodes(old(NodesData(ns)), idOfType)
    ensures OptionsData(os) == DeletedOptions(old(OptionsData(os)), idOfType)
  {
    DeletedNodeWindowIndex(info.windowTypes, info.nodeTypesIDs, info.nodesIndexes, id, idOfType);
    rest := DeleteEntities(ns, os, idOfType);
    DeleteWindowEntries(info, id, idOfType, foldoutKeys);
  }

  /** The node and option loops of `DeleteNodeWindow`. */
  method DeleteEntities(ns: seq<DialogueNode>, os: seq<DialogueOption>, d: int) returns (rest: seq<DialogueNode>)
    requires Distinct(ns) && Distinct(os) && 0 <= d < |ns|
    modifies ns, os
    ensures rest == RemoveAt(ns, d)
    ensures NodesData(rest) == DeletedNodes(old(NodesData(ns)), d)
    ensures OptionsData(os) == DeletedOptions(old(OptionsData(os)), d)
  {
    rest := DeleteNodeEntry(ns, d);
    RedirectOptions(os, d);
  }

  /** The node part of `DeleteNodeWindow`: the node leaves the list and the rest are renumbered. */
  method DeleteNodeEntry(ns: seq<DialogueNode>, d: int) returns (rest: seq<DialogueNode>)
    requires Distinct(ns) && 0 <= d < |ns|
    modifies ns
    ensures rest == RemoveAt(ns, d)
    ensures NodesData(rest) == DeletedNodes(old(NodesData(ns)), d)
  {
    ghost var data := NodesData(ns);
    rest := RemoveAt(ns, d);
    assert Distinct(rest) by {
      forall i, j | 0 <= i < j < |rest| ensures rest[i] != rest[j] {
        assert rest[i] == ns[if i < d then i else i + 1] && rest[j] == ns[if j < d then j else j + 1];
      }
    }
    ghost var kept := NodesData(rest);
    assert kept == RemoveAt(data, d);
    RenumberNodes(rest, d);
    assert forall i :: 0 <= i < |rest| ==> NodesData(rest)[i] == RenumberNode(kept[i], d);
  }

  /** The bookkeeping part of `DeleteNodeWindow`: the list removals, the three index loops and the re-key. */
  method DeleteWindowEntries(info: DialogueEditorInfo, id: int, idOfType: int, foldoutKeys: seq<int>)
    requires |info.windows| == |info.windowTypes| == |info.nodeTypesIDs| && info.nodes == |info.nodesIndexes|
    requires DeletableNodeWindow(info.Data(), id, idOfType) && 0 <= idOfType < |info.nodesIndexes|
    requires forall key :: key in info.foldouts ==> 0 <= key < info.nodes
    requires forall key :: key in info.foldouts && key != idOfType <==> key in foldoutKeys
    modifies info
    ensures info.Data() == DeletedInfo(old(info.Data()), id, idOfType)
  {
    var n := info.nodes;
    var types := RemoveAt(info.windowTypes, id);
    var typeIDs := ShiftedTypeIDs(types, RemoveAt(info.nodeTypesIDs, id), idOfType);
    var nodesIx := ShiftedFrom(RemoveAt(info.nodesIndexes, idOfType), idOfType);
    var optionsIx := ShiftedOptionsIndexes(info.optionsIndexes, id);
    var rest := info.foldouts - {idOfType};
    ShiftedFoldoutsIgnoresDeleted(info.foldouts, idOfType, n);
    var folds := RekeyFoldouts(rest, foldoutKeys, idOfType, n);
    info.windows, info.windowTypes, info.nodeTypesIDs := RemoveAt(info.windows, id), types, typeIDs;
    info.nodesIndexes, info.optionsIndexes, info.nodes, info.foldouts := nodesIx, optionsIx, n - 1, folds;
  }

  /** Removing node `d`'s own entry first does not change the shifted foldouts. */
  lemma ShiftedFoldoutsIgnoresDeleted(m: Foldouts, d: int, n: int)
    ensures ShiftedFoldouts(m - {d}, d, n) == ShiftedFoldouts(m, d, n)
  {
    assert forall k :: SourceKey(k, d) != d;
  }

  /** The node→node attach on the node's state. */
  function AttachedImmediate(n: NodeData, to: int): NodeData {
    var n1 := n.MakeImmediate();
    if to == ExitDialogue then n1.WithImmediateTargetExit() else n1.WithImmediateTarget(to, Node)
  }

  /** The option→node attach on a target: the chosen node, the exit for -1, else unchanged. */
  function AttachedTarget(t: Target, to: int): Target {
    if to != ExitDialogue then (if to >= 0 then Target(to, Node) else t) else ExitTarget
  }

  /**
   * The node→option attach on the node's state and the foldouts, with the
   * exceptions it can raise.
   */
  function AttachOptionStep(n: NodeData, f: Foldouts, o: int): (NodeData, Foldouts, Outcome) {
    if n.immediate then (n, f, Fail(ArgumentNull))
    else
      var f1 := if n.id in f then f else f[n.id := map[]];
      if o in n.options then (n, f1, Pass)
      else
        var n1 := n.(options := n.options + [o]);
        if o in f1[n.id] then (n1, f1, Fail(DuplicateKey))
        else (n1, f1[n.id := f1[n.id][o := false]], Pass)
  }

  /**
   * The node→node attach makes the node immediate; it aims at the exit for
   * -1 and at the chosen node otherwise, keeping a legal edge legal.
   */
  lemma AttachedImmediateEffect(n: NodeData, to: int)
    requires LegalTarget(n.next)
    ensures var n' := AttachedImmediate(n, to);
      && n'.immediate && n'.options == n.options && n'.id == n.id
      && (to == ExitDialogue ==> n'.next == ExitTarget)
      && (to >= 0 ==> n'.next == Target(to, Node))
      && LegalTarget(n'.next)
  {
  }

  /**
   * A regular node's foldouts mirror its list: the keys of its entry are
   * its options, and a node without an entry has none.
   */
  predicate FoldoutsMirror(n: NodeData, f: Foldouts) {
    if n.id in f then f[n.id].Keys == set x | x in n.options else n.options == []
  }

  /**
   * The node→option attach on a regular node whose list has no duplicates
   * and is mirrored by its foldouts succeeds, appends the option when it is
   * new (so, by `AttachOptionNoDuplicates`, the list stays free of
   * duplicates) and keeps the mirror; other nodes' foldouts are untouched.
   */
  lemma AttachOptionStepKeepsFoldouts(n: NodeData, f: Foldouts, o: int)
    requires !n.immediate && NoDuplicates(n.options) && FoldoutsMirror(n, f)
    ensures AttachOptionStep(n, f, o).2 == Pass
    ensures AttachOptionStep(n, f, o).0 == n.(options := AttachOption(n.options, o))
    ensures FoldoutsMirror(AttachOptionStep(n, f, o).0, AttachOptionStep(n, f, o).1)
    ensures forall key :: key in f && key != n.id ==> key in AttachOptionStep(n, f, o).1 && AttachOptionStep(n, f, o).1[key] == f[key]
  {
    var f1 := if n.id in f then f else f[n.id := map[]];
    assert f1[n.id].Keys == set x | x in n.options;
    if o !in n.options {
      var n1 := n.(options := n.options + [o]);
      assert o !in f1[n.id];
      var f2 := f1[n.id := f1[n.id][o := false]];
      assert AttachOptionStep(n, f, o) == (n1, f2, Pass);
      assert f2[n.id].Keys == (set x | x in n.options) + {o};
      assert (set x | x in n1.options) == (set x | x in n.options) + {o};
    }
  }
}
