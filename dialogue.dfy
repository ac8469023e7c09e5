/**
 * The dialogue graph: nodes (NPC lines, either immediate with one edge or
 * regular with attached options), options (player answers with one edge),
 * the dialogue container with its runtime cursor, and the editor's side
 * information stored with a dialogue.
 *
 * Every entity class has a `Data()` function giving its state as a value;
 * the transition functions on those values are the definitions, and the
 * methods of the classes apply them in place.
 */
module Dialogues {

  import opened Targets
  import opened Conditions
  import Decimal

  // ---------------------------------------------------------------------
  // DialogueNode

  /** The state of one node. `options` is the stored option list, kept while the node is immediate. */
  datatype NodeData = NodeData(
    id: int,
    immediate: bool,
    next: Target,
    text: string,
    customID: string,
    options: seq<int>)
  {
    /** The `NodeID` setter: negative values are ignored. */
    function WithID(value: int): NodeData {
      if value >= 0 then this.(id := value) else this
    }

    function MakeImmediate(): NodeData {
      this.(immediate := true)
    }

    function RevertToRegular(): NodeData {
      this.(immediate := false)
    }

    /** `SetImmediateNodeTarget`: only an immediate node, a non-negative id and a Node or Condition kind. */
    function WithImmediateTarget(nID: int, nType: NodeType): NodeData {
      if immediate && nID >= 0 && nType != Option && nType != Exit then this.(next := Target(nID, nType))
      else this
    }

    /** `SetImmediateNodeTargetExit`: only an immediate node. */
    function WithImmediateTargetExit(): NodeData {
      if immediate then this.(next := ExitTarget) else this
    }

    /** The `OptionsAttached` getter: no list for an immediate node. */
    function OptionsAttached(): Maybe<seq<int>> {
      if !immediate then Some(options) else None
    }

    /** The `CustomID` getter: the custom name, or "Node " and the id when none is set. */
    function CustomID(): (r: string)
      ensures customID != "" ==> r == customID
      ensures customID == "" ==> |r| > 5 && r[..5] == "Node " && Decimal.ParseInt(r[5..]) == Some(id)
    {
      if customID != "" then customID
      else
        var digits := Decimal.IntToString(id);
        assert ("Node " + digits)[5..] == digits;
        "Node " + digits
    }
  }

  /** A new node: id 0, regular, edge at Exit, no options. */
  const NewNode: NodeData := NodeData(0, false, ExitTarget, "", "", [])

  /**
   * The guarded setters can only store a legal edge: whatever the arguments,
   * a node whose edge is legal keeps a legal edge, and its id stays non-negative.
   */
  lemma NodeSettersKeepInvariant(n: NodeData, value: int, nID: int, nType: NodeType)
    requires LegalTarget(n.next) && n.id >= 0
    ensures LegalTarget(n.WithImmediateTarget(nID, nType).next)
    ensures LegalTarget(n.WithImmediateTargetExit().next)
    ensures n.WithID(value).id >= 0
  {
  }

  /** Switching modes flips only the flag; the edge and the stored option list survive. */
  lemma ModeSwitchKeepsRepresentations(n: NodeData)
    ensures n.MakeImmediate().OptionsAttached() == None
    ensures n.RevertToRegular().OptionsAttached() == Some(n.options)
    ensures n.MakeImmediate().RevertToRegular() == n.RevertToRegular()
    ensures n.RevertToRegular().MakeImmediate() == n.MakeImmediate()
    ensures n.MakeImmediate().next == n.next && n.RevertToRegular().next == n.next
  {
  }

  /** The target setters leave a regular node untouched. */
  lemma RegularNodeIgnoresTargetSetters(n: NodeData, nID: int, nType: NodeType)
    requires !n.immediate
    ensures n.WithImmediateTarget(nID, nType) == n && n.WithImmediateTargetExit() == n
  {
  }

  class DialogueNode {
    var nodeID: int
    var isImmediateNode: bool
    var next: Target
    var nodeText: string
    var customID: string
    var optionsIndexesList: seq<int>

    constructor ()
      ensures Data() == NewNode
    {
      nodeID, isImmediateNode, next := 0, false, ExitTarget;
      nodeText, customID, optionsIndexesList := "", "", [];
    }

    function Data(): NodeData
      reads this
    {
      NodeData(nodeID, isImmediateNode, next, nodeText, customID, optionsIndexesList)
    }

    function ImmediateNode(): bool
      reads this
    {
      isImmediateNode
    }

    /** `GetTarget(out targetID, out targetType)`. */
    function GetTarget(): Target
      reads this
    {
      next
    }

    method SetNodeID(value: int)
      modifies this
      ensures Data() == old(Data()).WithID(value)
    {
      if value >= 0 {
        nodeID := value;
      }
    }

    /** The `OptionsAttached` setter: stores a copy of the given list. */
    method SetOptionsAttached(value: seq<int>)
      modifies this
      ensures Data() == old(Data()).(options := value)
    {
      optionsIndexesList := value;
    }

    method ClearOptionsAttached()
      modifies this
      ensures Data() == old(Data()).(options := [])
    {
      optionsIndexesList := [];
    }

    method RevertToRegularNode()
      modifies this
      ensures Data() == old(Data()).RevertToRegular()
    {
      isImmediateNode := false;
    }

    method MakeImmediateNode()
      modifies this
      ensures Data() == old(Data()).MakeImmediate()
    {
      isImmediateNode := true;
    }

    method SetImmediateNodeTarget(nID: int, nType: NodeType)
      modifies this
      ensures Data() == old(Data()).WithImmediateTarget(nID, nType)
    {
      if isImmediateNode && nID >= 0 && nType != Option && nType != Exit {
        next := Target(nID, nType);
      }
    }

    method SetImmediateNodeTargetExit()
      modifies this
      ensures Data() == old(Data()).WithImmediateTargetExit()
    {
      if isImmediateNode {
        next := ExitTarget;
      }
    }
  }

  /** The state of every node of a collection, position by position. */
  function NodesData(ns: seq<DialogueNode>): (r: seq<NodeData>)
    reads ns
    ensures |r| == |ns|
  {
    seq(|ns|, i requires 0 <= i < |ns| reads ns => ns[i].Data())
  }

  // ---------------------------------------------------------------------
  // DialogueOption

  /**
   * The state of one option. `entry` is the id of the entry condition the
   * option refers to, if one is set.
   */
  datatype OptionData = OptionData(
    id: int,
    next: Target,
    visited: bool,
    visitOnce: bool,
    entry: Maybe<int>,
    text: string)
  {
    /** The `OptionID` setter: negative values are ignored. */
    function WithID(value: int): OptionData {
      if value >= 0 then this.(id := value) else this
    }

    /** `SetNextNodeExit`. */
    function WithNextExit(): OptionData {
      this.(next := ExitTarget)
    }

    /** `SetNext`: only a non-negative id and a Node or Condition kind. */
    function WithNext(nID: int, nType: NodeType): OptionData {
      if nID >= 0 && nType != Exit && nType != Option then this.(next := Target(nID, nType)) else this
    }

    /** `CanDisplay`, given the verdict of the entry-condition chain. */
    predicate Shown(chainVerdict: bool) {
      (!visitOnce || !visited) && (entry.None? || chainVerdict)
    }
  }

  /** A new option: id 0, edge at Exit, not visited, no entry condition. */
  const NewOption: OptionData := OptionData(0, ExitTarget, false, false, None, "")

  /** The guarded setters of an option can only store a legal edge. */
  lemma OptionSettersKeepInvariant(o: OptionData, value: int, nID: int, nType: NodeType)
    requires LegalTarget(o.next) && o.id >= 0
    ensures LegalTarget(o.WithNext(nID, nType).next)
    ensures LegalTarget(o.WithNextExit().next)
    ensures o.WithID(value).id >= 0
  {
  }

  /**
   * `CanDisplay` of an option: evaluates the entry-condition chain when one
   * is set (consuming draws), and combines its verdict with the visit-once
   * gate. The chain is evaluated even when the gate already hides the option.
   */
  function DisplayCheck(o: OptionData, conds: seq<CondData>, rank: seq<nat>, draws: nat -> int, k: nat): Result<(bool, nat)>
    requires Ranked(conds, rank)
  {
    match o.entry
    case None => Ok((o.Shown(true), k))
    case Some(c) =>
      match ChainTest(conds, rank, c, draws, k)
      case Err(e) => Err(e)
      case Ok((verdict, k1)) => Ok((o.Shown(verdict), k1))
  }

  /**
   * `CanDisplay` is false for a visited visit-once option whatever its entry
   * condition says; without an entry condition it is decided by the
   * visit-once gate alone and draws nothing.
   */
  lemma DisplayCheckGates(o: OptionData, conds: seq<CondData>, rank: seq<nat>, draws: nat -> int, k: nat)
    requires Ranked(conds, rank)
    ensures o.visitOnce && o.visited ==> (DisplayCheck(o, conds, rank, draws, k).Ok? ==> !DisplayCheck(o, conds, rank, draws, k).value.0)
    ensures o.entry.None? ==> DisplayCheck(o, conds, rank, draws, k) == Ok((!o.visitOnce || !o.visited, k))
    ensures o.entry.Some? && (!o.visitOnce || !o.visited) ==>
      match ChainTest(conds, rank, o.entry.value, draws, k)
      case Err(e) => DisplayCheck(o, conds, rank, draws, k) == Err(e)
      case Ok((verdict, k1)) => DisplayCheck(o, conds, rank, draws, k) == Ok((verdict, k1))
  {
  }

  class DialogueOption {
    var optionID: int
    var next: Target
    var alreadyVisited: bool
    var entryCondition: ConditionNode?
    var optionText: string
    var visitOnce: bool

    constructor ()
      ensures entryCondition == null && Data() == NewOption
    {
      optionID, next, alreadyVisited := 0, ExitTarget, false;
      entryCondition, optionText, visitOnce := null, "", false;
    }

    function Data(): OptionData
      reads this, entryCondition
    {
      OptionData(optionID, next, alreadyVisited, visitOnce,
        if entryCondition == null then None else Some(entryCondition.conditionID),
        optionText)
    }

    /** `EntryConditionSet`: the flag the setters keep equal to `entryCondition != null`. */
    function EntryConditionSet(): (r: bool)
      reads this, entryCondition
      ensures r <==> Data().entry.Some?
    {
      entryCondition != null
    }

    method SetOptionID(value: int)
      modifies this
      ensures entryCondition == old(entryCondition) && Data() == old(Data()).WithID(value)
    {
      if value >= 0 {
        optionID := value;
      }
    }

    /** Marks the option visited and returns its text. */
    method Visit() returns (text: string)
      modifies this
      ensures text == old(optionText)
      ensures entryCondition == old(entryCondition) && Data() == old(Data()).(visited := true)
    {
      alreadyVisited := true;
      text := optionText;
    }

    /** Stores the condition; the entry condition counts as set exactly when it is not null. */
    method SetEntryCondition(condition: ConditionNode?)
      modifies this
      ensures entryCondition == condition
      ensures EntryConditionSet() == (condition != null)
      ensures Data() == old(Data()).(entry := if condition == null then None else Some(condition.conditionID))
    {
      entryCondition := condition;
    }

    method ClearEntryCondition()
      modifies this
      ensures entryCondition == null && !EntryConditionSet()
      ensures Data() == old(Data()).(entry := None)
    {
      entryCondition := null;
    }

    method SetNextNodeExit()
      modifies this
      ensures entryCondition == old(entryCondition) && Data() == old(Data()).WithNextExit()
    {
      next := ExitTarget;
    }

    method SetNext(nID: int, nType: NodeType)
      modifies this
      ensures entryCondition == old(entryCondition) && Data() == old(Data()).WithNext(nID, nType)
    {
      if nID >= 0 && nType != Exit && nType != Option {
        next := Target(nID, nType);
      }
    }

    /**
     * `CanDisplay`, with the dialogue whose conditions the entry chain is
     * looked up in passed explicitly.
     */
    method CanDisplay(d: Dialogue, draws: nat -> int, k: nat, ghost rank: seq<nat>) returns (r: Result<(bool, nat)>)
      requires Ranked(ConditionsData(d.conditions), rank)
      ensures r == DisplayCheck(Data(), ConditionsData(d.conditions), rank, draws, k)
    {
      var visible := !visitOnce || !alreadyVisited;
      if entryCondition == null {
        r := Ok((visible, k));
      } else {
        var chain := d.ConditionChainTest(entryCondition.conditionID, draws, k, rank);
        match chain
        case Err(e) => r := Err(e);
        case Ok((verdict, k1)) => r := Ok((visible && verdict, k1));
      }
    }
  }

  /** The entry conditions the options refer to (null where there is none). */
  function EntryConditions(os: seq<DialogueOption>): set<object?>
    reads os
  {
    set i | 0 <= i < |os| :: os[i].entryCondition
  }

  /** The state of every option of a collection, position by position. */
  function OptionsData(os: seq<DialogueOption>): (r: seq<OptionData>)
    reads os, EntryConditions(os)
    ensures |r| == |os|
  {
    seq(|os|, i requires 0 <= i < |os| reads os, EntryConditions(os) => os[i].Data())
  }

  // ---------------------------------------------------------------------
  // Traversal, as functions of the graph's state

  /**
   * `Next()`: the current node must exist and be immediate; its edge is
   * resolved through the conditions, and the walk must end at a node.
   * Yields the new current node id and the index of the next unused draw.
   */
  function ImmediateStep(nodes: seq<NodeData>, conds: seq<CondData>, rank: seq<nat>, cur: int, draws: nat -> int, k: nat): Result<(int, nat)>
    requires ResolveRanked(conds, rank)
  {
    if !(0 <= cur < |nodes|) then Err(ArgumentOutOfRange)
    else if !nodes[cur].immediate then Err(Argument("Node is not an immediate node!"))
    else
      match Resolve(conds, rank, nodes[cur].next, draws, k)
      case Err(e) => Err(e)
      case Ok((t, k1)) => if t.kind == Node then Ok((t.id, k1)) else Err(Argument("Illegal node type"))
  }

  /**
   * `Next(option)`: the current node must exist and be regular; the chosen
   * edge is resolved through the conditions and whatever id it ends at
   * becomes the current node id.
   */
  function OptionStep(nodes: seq<NodeData>, conds: seq<CondData>, rank: seq<nat>, cur: int, chosen: Target, draws: nat -> int, k: nat): Result<(int, nat)>
    requires ResolveRanked(conds, rank)
  {
    if !(0 <= cur < |nodes|) then Err(ArgumentOutOfRange)
    else if nodes[cur].immediate then Err(Argument("Node is an immediate node - operation illegal!"))
    else
      match Resolve(conds, rank, chosen, draws, k)
      case Err(e) => Err(e)
      case Ok((t, k1)) => Ok((t.id, k1))
  }

  /** Every immediate node's edge and every option's edge is legal. */
  predicate LegalGraph(nodes: seq<NodeData>, options: seq<OptionData>, conds: seq<CondData>) {
    && (forall i :: 0 <= i < |nodes| ==> LegalTarget(nodes[i].next))
    && (forall i :: 0 <= i < |options| ==> LegalTarget(options[i].next))
    && LegalEdges(conds)
    && ConditionEdgesInRange(conds)
    && (forall i :: 0 <= i < |nodes| ==> nodes[i].next.kind == Condition ==> nodes[i].next.id < |conds|)
    && (forall i :: 0 <= i < |options| ==> options[i].next.kind == Condition ==> options[i].next.id < |conds|)
  }

  /**
   * On a legal graph, `Next()` from an immediate node either moves to a
   * node (never to the exit id) or fails with "Illegal node type" exactly
   * when the edge resolves to Exit: it cannot finish the dialogue.
   */
  lemma ImmediateStepNeverFinishes(nodes: seq<NodeData>, options: seq<OptionData>, conds: seq<CondData>, rank: seq<nat>, cur: int, draws: nat -> int, k: nat)
    requires ResolveRanked(conds, rank) && LegalGraph(nodes, options, conds)
    requires 0 <= cur < |nodes| && nodes[cur].immediate
    ensures var r := ImmediateStep(nodes, conds, rank, cur, draws, k);
      var w := Resolve(conds, rank, nodes[cur].next, draws, k);
      && w.Ok?
      && (r.Ok? <==> w.value.0.kind == Node)
      && (r.Ok? ==> r.value.0 >= 0 && r.value.0 != ExitDialogue && w.value == (Target(r.value.0, Node), r.value.1))
      && (r.Err? ==> w.value.0 == ExitTarget && r.error == Argument("Illegal node type"))
  {
    ResolveReachesNodeOrExit(conds, rank, nodes[cur].next, draws, k);
  }

  /**
   * On a legal graph, `Next(option)` from a regular node always succeeds, and
   * it finishes the dialogue (moves to the exit id) exactly when the
   * option's edge resolves to Exit; otherwise it moves to the node reached.
   */
  lemma OptionStepFinishesAtExit(nodes: seq<NodeData>, options: seq<OptionData>, conds: seq<CondData>, rank: seq<nat>, cur: int, chosen: int, draws: nat -> int, k: nat)
    requires ResolveRanked(conds, rank) && LegalGraph(nodes, options, conds)
    requires 0 <= cur < |nodes| && !nodes[cur].immediate && 0 <= chosen < |options|
    ensures var r := OptionStep(nodes, conds, rank, cur, options[chosen].next, draws, k);
      var w := Resolve(conds, rank, options[chosen].next, draws, k);
      && r.Ok? && w.Ok?
      && (r.value.0 == ExitDialogue <==> w.value.0 == ExitTarget)
      && (r.value.0 != ExitDialogue ==> w.value.0 == Target(r.value.0, Node))
  {
    ResolveReachesNodeOrExit(conds, rank, options[chosen].next, draws, k);
  }

  /**
   * `CurrentNodeOptions` over an attached list: in order, the options whose
   * `CanDisplay` holds, each evaluated with the draws following the previous
   * one's. Yields their ids and the index of the next unused draw.
   */
  function VisibleOptions(opts: seq<OptionData>, conds: seq<CondData>, rank: seq<nat>, attached: seq<int>, draws: nat -> int, k: nat): (r: Result<(seq<int>, nat)>)
    requires Ranked(conds, rank)
    ensures r.Ok? ==> |r.value.0| <= |attached| && r.value.1 >= k
    decreases |attached|
  {
    if attached == [] then Ok(([], k))
    else if !(0 <= attached[0] < |opts|) then Err(ArgumentOutOfRange)
    else
      match DisplayCheck(opts[attached[0]], conds, rank, draws, k)
      case Err(e) => Err(e)
      case Ok((shown, k1)) =>
        Prepend(if shown then [attached[0]] else [], VisibleOptions(opts, conds, rank, attached[1..], draws, k1))
  }

  /** One step of `VisibleOptions`: the first attached option's check, then the rest. */
  lemma VisibleOptionsStep(opts: seq<OptionData>, conds: seq<CondData>, rank: seq<nat>, attached: seq<int>, draws: nat -> int, k: nat, shown: Result<(bool, nat)>)
    requires Ranked(conds, rank)
    requires attached != [] && 0 <= attached[0] < |opts|
    requires shown == DisplayCheck(opts[attached[0]], conds, rank, draws, k)
    ensures shown.Err? ==> VisibleOptions(opts, conds, rank, attached, draws, k) == Err(shown.error)
    ensures shown.Ok? ==>
      VisibleOptions(opts, conds, rank, attached, draws, k) ==
      Prepend(if shown.value.0 then [attached[0]] else [], VisibleOptions(opts, conds, rank, attached[1..], draws, shown.value.1))
  {
  }

  /** Puts `prefix` in front of a successful list result. */
  function Prepend(prefix: seq<int>, r: Result<(seq<int>, nat)>): Result<(seq<int>, nat)> {
    match r
    case Err(e) => Err(e)
    case Ok((rest, k)) => Ok((prefix + rest, k))
  }

  lemma PrependNothing(r: Result<(seq<int>, nat)>)
    ensures Prepend([], r) == r
  {
    if r.Ok? {
      assert [] + r.value.0 == r.value.0;
    }
  }

  lemma PrependPrepend(a: seq<int>, b: seq<int>, r: Result<(seq<int>, nat)>)
    ensures Prepend(a, Prepend(b, r)) == Prepend(a + b, r)
  {
    if r.Ok? {
      assert a + (b + r.value.0) == (a + b) + r.value.0;
    }
  }

  /** `a` is `b` with some elements left out, the rest kept in order. */
  predicate Subsequence(a: seq<int>, b: seq<int>)
    decreases |b|
  {
    if a == [] then true
    else if b == [] then false
    else (a[0] == b[0] && Subsequence(a[1..], b[1..])) || Subsequence(a, b[1..])
  }

  /** The listed options are an order-preserving subsequence of the attached ones. */
  lemma {:induction false} VisibleOptionsSubsequence(opts: seq<OptionData>, conds: seq<CondData>, rank: seq<nat>, attached: seq<int>, draws: nat -> int, k: nat)
    requires Ranked(conds, rank)
    ensures VisibleOptions(opts, conds, rank, attached, draws, k).Ok? ==>
      Subsequence(VisibleOptions(opts, conds, rank, attached, draws, k).value.0, attached)
    decreases |attached|
  {
    if attached != [] && 0 <= attached[0] < |opts| {
      var d := DisplayCheck(opts[attached[0]], conds, rank, draws, k);
      VisibleOptionsStep(opts, conds, rank, attached, draws, k, d);
      if d.Ok? {
        VisibleOptionsSubsequence(opts, conds, rank, attached[1..], draws, d.value.1);
        var rest := VisibleOptions(opts, conds, rank, attached[1..], draws, d.value.1);
        if rest.Ok? && d.value.0 {
          assert ([attached[0]] + rest.value.0)[1..] == rest.value.0;
        } else if rest.Ok? {
          assert [] + rest.value.0 == rest.value.0;
          SubsequenceOfTail(rest.value.0, attached);
        }
      }
    }
  }

  /** No listed option is out of range or a visited visit-once option. */
  lemma {:induction false} VisibleOptionsUnvisited(opts: seq<OptionData>, conds: seq<CondData>, rank: seq<nat>, attached: seq<int>, draws: nat -> int, k: nat)
    requires Ranked(conds, rank)
    ensures var r := VisibleOptions(opts, conds, rank, attached, draws, k);
      r.Ok? ==> forall j :: 0 <= j < |r.value.0| ==>
        0 <= r.value.0[j] < |opts| && !(opts[r.value.0[j]].visitOnce && opts[r.value.0[j]].visited)
    decreases |attached|
  {
    if attached != [] && 0 <= attached[0] < |opts| {
      var o := opts[attached[0]];
      DisplayCheckGates(o, conds, rank, draws, k);
      var d := DisplayCheck(o, conds, rank, draws, k);
      VisibleOptionsStep(opts, conds, rank, attached, draws, k, d);
      if d.Ok? {
        VisibleOptionsUnvisited(opts, conds, rank, attached[1..], draws, d.value.1);
      }
    }
  }

  /**
   * The listed options are an order-preserving subsequence of the attached
   * ones, and no visited visit-once option is ever listed.
   */
  lemma VisibleOptionsAreFiltered(opts: seq<OptionData>, conds: seq<CondData>, rank: seq<nat>, attached: seq<int>, draws: nat -> int, k: nat)
    requires Ranked(conds, rank)
    ensures var r := VisibleOptions(opts, conds, rank, attached, draws, k);
      r.Ok? ==>
        && Subsequence(r.value.0, attached)
        && forall j :: 0 <= j < |r.value.0| ==>
             0 <= r.value.0[j] < |opts| && !(opts[r.value.0[j]].visitOnce && opts[r.value.0[j]].visited)
  {
    VisibleOptionsSubsequence(opts, conds, rank, attached, draws, k);
    VisibleOptionsUnvisited(opts, conds, rank, attached, draws, k);
  }

  lemma SubsequenceOfTail(a: seq<int>, b: seq<int>)
    requires b != [] && Subsequence(a, b[1..])
    ensures Subsequence(a, b)
  {
  }

  /** The filter of the attached list by the visit-once gate alone. */
  function UnvisitedOptions(opts: seq<OptionData>, attached: seq<int>): seq<int>
    requires forall j :: 0 <= j < |attached| ==> 0 <= attached[j] < |opts|
  {
    if attached == [] then []
    else
      var o := opts[attached[0]];
      (if !o.visitOnce || !o.visited then [attached[0]] else []) + UnvisitedOptions(opts, attached[1..])
  }

  /**
   * When no attached option has an entry condition, the options listed are
   * exactly the attached ones not hidden by the visit-once gate, and no
   * draw is consumed.
   */
  lemma {:induction false} VisibleOptionsWithoutConditions(opts: seq<OptionData>, conds: seq<CondData>, rank: seq<nat>, attached: seq<int>, draws: nat -> int, k: nat)
    requires Ranked(conds, rank)
    requires forall j :: 0 <= j < |attached| ==> 0 <= attached[j] < |opts| && opts[attached[j]].entry.None?
    ensures VisibleOptions(opts, conds, rank, attached, draws, k) == Ok((UnvisitedOptions(opts, attached), k))
    decreases |attached|
  {
    if attached != [] {
      VisibleOptionsWithoutConditions(opts, conds, rank, attached[1..], draws, k);
    }
  }

  /**
   * `CurrentNodeOptions`: the current node must exist; an immediate node has
   * no option list (the loop dereferences null).
   */
  function NodeOptionsStep(nodes: seq<NodeData>, opts: seq<OptionData>, conds: seq<CondData>, rank: seq<nat>, cur: int, draws: nat -> int, k: nat): Result<(seq<int>, nat)>
    requires Ranked(conds, rank)
  {
    if !(0 <= cur < |nodes|) then Err(ArgumentOutOfRange)
    else
      match nodes[cur].OptionsAttached()
      case None => Err(NullReference)
      case Some(attached) => VisibleOptions(opts, conds, rank, attached, draws, k)
  }

  /** The objects at the given positions. */
  function Pick<T>(xs: seq<T>, idx: seq<int>): (r: seq<T>)
    requires forall j :: 0 <= j < |idx| ==> 0 <= idx[j] < |xs|
    ensures |r| == |idx| && forall j :: 0 <= j < |idx| ==> r[j] == xs[idx[j]]
  {
    seq(|idx|, j requires 0 <= j < |idx| => xs[idx[j]])
  }

  lemma PickAppend<T>(xs: seq<T>, idx: seq<int>, i: int)
    requires forall j :: 0 <= j < |idx| ==> 0 <= idx[j] < |xs|
    requires 0 <= i < |xs|
    ensures Pick(xs, idx + [i]) == Pick(xs, idx) + [xs[i]]
  {
    var idx' := idx + [i];
    assert forall j :: 0 <= j < |idx'| ==> idx'[j] == if j < |idx| then idx[j] else i;
  }

  /** Every object of the collection occurs once. */
  predicate Distinct<T(==)>(xs: seq<T>) {
    forall i, j :: 0 <= i < j < |xs| ==> xs[i] != xs[j]
  }

  // ---------------------------------------------------------------------
  // Dialogue

  /**
   * The delete guard as written: `Count < nr` (with `Count >= 0` always
   * true), followed by `RemoveAt(nr)`. The body runs only for an `nr` past
   * the end, where `RemoveAt` throws; for every other `nr` nothing happens.
   */
  function DeleteAsWritten(count: nat, nr: int): (r: Outcome)
    ensures 0 <= nr < count ==> r == Pass
    ensures r.Fail? <==> nr > count
    ensures r.Fail? ==> r == Fail(ArgumentOutOfRange)
  {
    if count < nr then Fail(ArgumentOutOfRange) else Pass
  }

  /** Deleting any existing entry with the guard as written removes nothing and raises nothing. */
  lemma DeleteAsWrittenNeverDeletes(count: nat, nr: int)
    requires 0 <= nr < count
    ensures DeleteAsWritten(count, nr) == Pass
  {
  }

  /** Three entries, delete the one at 1: nothing is removed; asking for 4 throws. */
  lemma DeleteAsWrittenCounterexample()
    ensures DeleteAsWritten(3, 1) == Pass && DeleteAsWritten(3, 4) == Fail(ArgumentOutOfRange)
  {
  }

  /** Gives every option from position `from` on its position as id. */
  method RenumberOptions(os: seq<DialogueOption>, from: nat)
    requires Distinct(os)
    modifies os
    ensures forall j :: 0 <= j < |os| ==> os[j].entryCondition == old(os[j].entryCondition)
    ensures forall j :: 0 <= j < |os| ==> os[j].Data() == if j < from then old(os[j].Data()) else old(os[j].Data()).WithID(j)
  {
    var i := from;
    while i < |os|
      invariant from <= i
      invariant forall j :: 0 <= j < |os| ==> os[j].entryCondition == old(os[j].entryCondition)
      invariant forall j :: 0 <= j < |os| ==> os[j].Data() == if from <= j < i then old(os[j].Data()).WithID(j) else old(os[j].Data())
    {
      os[i].SetOptionID(i);
      i := i + 1;
    }
  }

  /** Gives every node from position `from` on its position as id. */
  method RenumberNodesFrom(ns: seq<DialogueNode>, from: nat)
    requires Distinct(ns)
    modifies ns
    ensures forall j :: 0 <= j < |ns| ==> ns[j].Data() == if j < from then old(ns[j].Data()) else old(ns[j].Data()).WithID(j)
  {
    var i := from;
    while i < |ns|
      invariant from <= i
      invariant forall j :: 0 <= j < |ns| ==> ns[j].Data() == if from <= j < i then old(ns[j].Data()).WithID(j) else old(ns[j].Data())
    {
      ns[i].SetNodeID(i);
      i := i + 1;
    }
  }

  /** Gives every condition from position `from` on its position as id, leaving its edges and evaluator. */
  method RenumberConditions(cs: seq<ConditionNode>, from: nat)
    requires Distinct(cs)
    modifies cs
    ensures forall j :: 0 <= j < |cs| ==>
      && cs[j].passTarget == old(cs[j].passTarget) && cs[j].failTarget == old(cs[j].failTarget)
      && cs[j].randomizer == old(cs[j].randomizer)
    ensures forall j :: 0 <= j < |cs| ==> cs[j].conditionID == if j < from then old(cs[j].conditionID) else j
  {
    var i := from;
    while i < |cs|
      invariant from <= i
      invariant forall j :: 0 <= j < |cs| ==>
        && cs[j].passTarget == old(cs[j].passTarget) && cs[j].failTarget == old(cs[j].failTarget)
        && cs[j].randomizer == old(cs[j].randomizer)
      invariant forall j :: 0 <= j < |cs| ==> cs[j].conditionID == if from <= j < i then j else old(cs[j].conditionID)
    {
      cs[i].SetConditionID(i);
      i := i + 1;
    }
  }

  class Dialogue {
    var startNodeID: int
    var currentNodeID: int
    var options: seq<DialogueOption>
    var nodes: seq<DialogueNode>
    var conditions: seq<ConditionNode>
    var editorInfo: DialogueEditorInfo?

    /** A new dialogue asset: start node 0 and empty collections. */
    constructor ()
      ensures startNodeID == 0 && options == [] && nodes == [] && conditions == [] && editorInfo == null
    {
      startNodeID, currentNodeID := 0, 0;
      options, nodes, conditions := [], [], [];
      editorInfo := null;
    }

    function GetOption(id: int): (r: Maybe<DialogueOption>)
      reads this
      ensures r.Some? <==> 0 <= id < |options|
      ensures r.Some? ==> r.value == options[id]
    {
      if id >= 0 && id < |options| then Some(options[id]) else None
    }

    function GetNode(id: int): (r: Maybe<DialogueNode>)
      reads this
      ensures r.Some? <==> 0 <= id < |nodes|
      ensures r.Some? ==> r.value == nodes[id]
    {
      if id >= 0 && id < |nodes| then Some(nodes[id]) else None
    }

    function GetCondition(id: int): (r: Maybe<ConditionNode>)
      reads this
      ensures r.Some? <==> 0 <= id < |conditions|
      ensures r.Some? ==> r.value == conditions[id]
    {
      if id >= 0 && id < |conditions| then Some(conditions[id]) else None
    }

    /**
     * `DeleteOption` with the guard corrected to `0 <= nr < Count`: removes
     * the option at `nr` and gives every later option its new position as id.
     */
    method DeleteOption(nr: int)
      requires Distinct(options)
      modifies this`options, options
      ensures if 0 <= nr < |old(options)| then options == old(options[..nr] + options[nr + 1..])
              else options == old(options)
      ensures 0 <= nr < |old(options)| ==>
        && (forall i :: 0 <= i < nr ==> options[i].Data() == old(options[i].Data()))
        && (forall i :: nr <= i < |options| ==> options[i].Data() == old(options[i + 1].Data()).WithID(i))
      ensures (forall i :: 0 <= i < |old(options)| ==> old(options[i].optionID) == i) ==>
        forall i :: 0 <= i < |options| ==> options[i].optionID == i
      ensures !(0 <= nr < |old(options)|) ==> forall i :: 0 <= i < |options| ==> options[i].Data() == old(options[i].Data())
    {
      if 0 <= nr < |options| {
        ghost var before := options;
        options := options[..nr] + options[nr + 1..];
        forall a, b | 0 <= a < b < |options| ensures options[a] != options[b] {
          assert options[a] == before[if a < nr then a else a + 1];
          assert options[b] == before[if b < nr then b else b + 1];
        }
        RenumberOptions(options, nr);
      }
    }

    /** `DeleteNode` with the guard corrected to `0 <= nr < Count`. */
    method DeleteNode(nr: int)
      requires Distinct(nodes)
      modifies this`nodes, nodes
      ensures if 0 <= nr < |old(nodes)| then nodes == old(nodes[..nr] + nodes[nr + 1..])
              else nodes == old(nodes)
      ensures 0 <= nr < |old(nodes)| ==>
        && (forall i :: 0 <= i < nr ==> nodes[i].Data() == old(nodes[i].Data()))
        && (forall i :: nr <= i < |nodes| ==> nodes[i].Data() == old(nodes[i + 1].Data()).WithID(i))
      ensures (forall i :: 0 <= i < |old(nodes)| ==> old(nodes[i].nodeID) == i) ==>
        forall i :: 0 <= i < |nodes| ==> nodes[i].nodeID == i
      ensures !(0 <= nr < |old(nodes)|) ==> forall i :: 0 <= i < |nodes| ==> nodes[i].Data() == old(nodes[i].Data())
    {
      if 0 <= nr < |nodes| {
        ghost var before := nodes;
        nodes := nodes[..nr] + nodes[nr + 1..];
        forall a, b | 0 <= a < b < |nodes| ensures nodes[a] != nodes[b] {
          assert nodes[a] == before[if a < nr then a else a + 1];
          assert nodes[b] == before[if b < nr then b else b + 1];
        }
        RenumberNodesFrom(nodes, nr);
      }
    }

    /** `DeleteCondition` with the guard corrected to `0 <= nr < Count`. */
    method DeleteCondition(nr: int)
      requires Distinct(conditions)
      modifies this`conditions, conditions
      ensures if 0 <= nr < |old(conditions)| then conditions == old(conditions[..nr] + conditions[nr + 1..])
              else conditions == old(conditions)
      ensures forall c :: c in old(conditions) ==>
        c.passTarget == old(c.passTarget) && c.failTarget == old(c.failTarget) && c.randomizer == old(c.randomizer)
      ensures 0 <= nr < |old(conditions)| ==>
        && (forall i :: 0 <= i < nr ==> conditions[i].conditionID == old(conditions[i].conditionID))
        && (forall i :: nr <= i < |conditions| ==> conditions[i].conditionID == i)
      ensures (forall i :: 0 <= i < |old(conditions)| ==> old(conditions[i].conditionID) == i) ==>
        forall i :: 0 <= i < |conditions| ==> conditions[i].conditionID == i
      ensures !(0 <= nr < |old(conditions)|) ==> unchanged(conditions)
    {
      if 0 <= nr < |conditions| {
        ghost var before := conditions;
        conditions := conditions[..nr] + conditions[nr + 1..];
        forall a, b | 0 <= a < b < |conditions| ensures conditions[a] != conditions[b] {
          assert conditions[a] == before[if a < nr then a else a + 1];
          assert conditions[b] == before[if b < nr then b else b + 1];
        }
        RenumberConditions(conditions, nr);
        assert forall c :: c in before ==> c == before[nr] || c in conditions;
      }
    }

    /**
     * `ConditionChainTest(id)`, with the dialogue passed explicitly rather
     * than through the static current dialogue.
     */
    method ConditionChainTest(id: int, draws: nat -> int, k: nat, ghost rank: seq<nat>) returns (r: Result<(bool, nat)>)
      requires Ranked(ConditionsData(conditions), rank)
      ensures r == ChainTest(ConditionsData(conditions), rank, id, draws, k)
    {
      var cur, used := id, k;
      while true
        invariant ChainTest(ConditionsData(conditions), rank, cur, draws, used) == ChainTest(ConditionsData(conditions), rank, id, draws, k)
        decreases if 0 <= cur < |conditions| then rank[cur] + 1 else 0
      {
        if !(0 <= cur < |conditions|) {
          return Err(ArgumentOutOfRange);
        }
        var element := conditions[cur].Data().ChainElement(draws(used));
        if element.Err? {
          return Err(element.error);
        }
        var (passed, nextID) := element.value;
        used := used + 1;
        if nextID == ExitDialogue {
          return Ok((passed, used));
        }
        cur := nextID;
      }
    }

    method StartDialogue()
      modifies this`currentNodeID
      ensures currentNodeID == startNodeID
    {
      currentNodeID := startNodeID;
    }

    /** The dialogue has finished exactly when the cursor holds the exit id. */
    function DialogueFinished(): (r: bool)
      reads this
      ensures r <==> currentNodeID == ExitDialogue
    {
      currentNodeID == ExitDialogue
    }

    /** `CurrentNode`: the node at the cursor. */
    function CurrentNode(): (r: Result<DialogueNode>)
      reads this
      ensures r.Ok? <==> 0 <= currentNodeID < |nodes|
      ensures r.Ok? ==> r.value == nodes[currentNodeID]
      ensures r.Err? ==> r.error == ArgumentOutOfRange
    {
      if 0 <= currentNodeID < |nodes| then Ok(nodes[currentNodeID]) else Err(ArgumentOutOfRange)
    }

    /**
     * `CurrentNodeOptions`: the options attached to the current node whose
     * `CanDisplay` holds, in attachment order.
     */
    method CurrentNodeOptions(draws: nat -> int, k: nat, ghost rank: seq<nat>) returns (r: Result<(seq<DialogueOption>, nat)>)
      requires Ranked(ConditionsData(conditions), rank)
      ensures var s := NodeOptionsStep(NodesData(nodes), OptionsData(options), ConditionsData(conditions), rank, currentNodeID, draws, k);
        && (r.Ok? <==> s.Ok?)
        && (r.Err? ==> r.error == s.error)
        && (r.Ok? ==> (forall j :: 0 <= j < |s.value.0| ==> 0 <= s.value.0[j] < |options|) &&
                      r.value == (Pick(options, s.value.0), s.value.1))
    {
      if !(0 <= currentNodeID < |nodes|) {
        return Err(ArgumentOutOfRange);
      }
      var node := nodes[currentNodeID];
      assert NodesData(nodes)[currentNodeID] == node.Data();
      if node.isImmediateNode {
        return Err(NullReference);
      }
      r := DisplayableOptions(node.optionsIndexesList, draws, k, rank);
    }

    /** The loop of `CurrentNodeOptions` over one attached list. */
    method DisplayableOptions(attached: seq<int>, draws: nat -> int, k: nat, ghost rank: seq<nat>) returns (r: Result<(seq<DialogueOption>, nat)>)
      requires Ranked(ConditionsData(conditions), rank)
      ensures var s := VisibleOptions(OptionsData(options), ConditionsData(conditions), rank, attached, draws, k);
        && (r.Ok? <==> s.Ok?)
        && (r.Err? ==> r.error == s.error)
        && (r.Ok? ==> (forall j :: 0 <= j < |s.value.0| ==> 0 <= s.value.0[j] < |options|) &&
                      r.value == (Pick(options, s.value.0), s.value.1))
    {
      ghost var opts := OptionsData(options);
      ghost var conds := ConditionsData(conditions);
      ghost var goal := VisibleOptions(opts, conds, rank, attached, draws, k);
      ghost var picked: seq<int> := [];
      var result: seq<DialogueOption> := [];
      var used := k;
      var i := 0;
      assert attached[i..] == attached;
      PrependNothing(goal);
      while i < |attached|
        invariant 0 <= i <= |attached|
        invariant opts == OptionsData(options) && conds == ConditionsData(conditions)
        invariant forall j :: 0 <= j < |picked| ==> 0 <= picked[j] < |options|
        invariant result == Pick(options, picked)
        invariant goal == Prepend(picked, VisibleOptions(opts, conds, rank, attached[i..], draws, used))
      {
        var optIndex := attached[i];
        assert attached[i..][0] == optIndex && attached[i..][1..] == attached[i + 1..];
        if !(0 <= optIndex < |options|) {
          assert VisibleOptions(opts, conds, rank, attached[i..], draws, used) == Err(ArgumentOutOfRange);
          return Err(ArgumentOutOfRange);
        }
        var shown := options[optIndex].CanDisplay(this, draws, used, rank);
        assert conds == ConditionsData(conditions) && opts == OptionsData(options);
        assert opts[optIndex] == options[optIndex].Data();
        VisibleOptionsStep(opts, conds, rank, attached[i..], draws, used, shown);
        if shown.Err? {
          return Err(shown.error);
        }
        PrependPrepend(picked, if shown.value.0 then [optIndex] else [], VisibleOptions(opts, conds, rank, attached[i + 1..], draws, shown.value.1));
        if shown.value.0 {
          PickAppend(options, picked, optIndex);
          result := result + [options[optIndex]];
          picked := picked + [optIndex];
        } else {
          assert picked + [] == picked;
        }
        used := shown.value.1;
        i := i + 1;
      }
      assert attached[i..] == [] && picked + [] == picked;
      r := Ok((result, used));
    }

    /** `Next()`: advances from an immediate node along its resolved edge. */
    method Next(draws: nat -> int, k: nat, ghost rank: seq<nat>) returns (r: Result<nat>)
      requires ResolveRanked(ConditionsData(conditions), rank)
      modifies this`currentNodeID
      ensures var s := old(ImmediateStep(NodesData(nodes), ConditionsData(conditions), rank, currentNodeID, draws, k));
        && (s.Ok? ==> r == Ok(s.value.1) && currentNodeID == s.value.0)
        && (s.Err? ==> r == Err(s.error) && currentNodeID == old(currentNodeID))
    {
      if !(0 <= currentNodeID < |nodes|) {
        return Err(ArgumentOutOfRange);
      }
      assert NodesData(nodes)[currentNodeID] == nodes[currentNodeID].Data();
      if !nodes[currentNodeID].isImmediateNode {
        return Err(Argument("Node is not an immediate node!"));
      }
      var target := nodes[currentNodeID].GetTarget();
      ghost var walk := Resolve(ConditionsData(conditions), rank, target, draws, k);
      var used := k;
      while target.kind == Condition
        invariant Resolve(ConditionsData(conditions), rank, target, draws, used) == walk
        decreases if target.kind == Condition && 0 <= target.id < |conditions| then rank[target.id] + 1 else 0
      {
        if !(0 <= target.id < |conditions|) {
            return Err(ArgumentOutOfRange);
        }
        target := conditions[target.id].Data().Select(draws(used)).1;
        used := used + 1;
      }
      if target.kind == Node {
        currentNodeID := target.id;
        r := Ok(used);
      } else {
        r := Err(Argument("Illegal node type"));
      }
    }

    /** `Next(chosenAnswer)`: advances from a regular node along the chosen option's resolved edge. */
    method NextByOption(chosenAnswer: DialogueOption, draws: nat -> int, k: nat, ghost rank: seq<nat>) returns (r: Result<nat>)
      requires ResolveRanked(ConditionsData(conditions), rank)
      modifies this`currentNodeID
      ensures var s := old(OptionStep(NodesData(nodes), ConditionsData(conditions), rank, currentNodeID, chosenAnswer.next, draws, k));
        && (s.Ok? ==> r == Ok(s.value.1) && currentNodeID == s.value.0)
        && (s.Err? ==> r == Err(s.error) && currentNodeID == old(currentNodeID))
      ensures r.Ok? ==> var w := old(Resolve(ConditionsData(conditions), rank, chosenAnswer.next, draws, k));
        w.Ok? && (DialogueFinished() <==> w.value.0.id == ExitDialogue)
    {
      if !(0 <= currentNodeID < |nodes|) {
        return Err(ArgumentOutOfRange);
      }
      assert NodesData(nodes)[currentNodeID] == nodes[currentNodeID].Data();
      if nodes[currentNodeID].isImmediateNode {
        return Err(Argument("Node is an immediate node - operation illegal!"));
      }
      var target := chosenAnswer.next;
      ghost var walk := Resolve(ConditionsData(conditions), rank, target, draws, k);
      var used := k;
      while target.kind == Condition
        invariant Resolve(ConditionsData(conditions), rank, target, draws, used) == walk
        decreases if target.kind == Condition && 0 <= target.id < |conditions| then rank[target.id] + 1 else 0
      {
        if !(0 <= target.id < |conditions|) {
          return Err(ArgumentOutOfRange);
        }
        target := conditions[target.id].Data().Select(draws(used)).1;
        used := used + 1;
      }
      assert walk == Ok((target, used));
      currentNodeID := target.id;
      r := Ok(used);
    }
  }

  // ---------------------------------------------------------------------
  // DialogueEditorInfo

  /** A window rectangle (geometry is not modelled; rectangles are carried along). */
  datatype Rect = Rect(x: real, y: real, width: real, height: real)

  /** Foldout state: node id to (option id to expanded). */
  type Foldouts = map<int, map<int, bool>>

  /** The editor information stored with a dialogue. */
  datatype InfoData = InfoData(
    windows: seq<Rect>,
    windowTypes: seq<NodeType>,
    nodeTypesIDs: seq<int>,
    optionsIndexes: seq<int>,
    nodesIndexes: seq<int>,
    conditionsIndexes: seq<int>,
    nodes: int,
    options: int,
    conditions: int,
    foldouts: Foldouts)

  /** Filling one node's foldouts: `Add(option, false)` for each attached option; a repeat throws. */
  function InnerFoldouts(opts: seq<int>, acc: map<int, bool>): (map<int, bool>, Outcome)
    decreases |opts|
  {
    if opts == [] then (acc, Pass)
    else if opts[0] in acc then (acc, Fail(DuplicateKey))
    else InnerFoldouts(opts[1..], acc[opts[0] := false])
  }

  /**
   * `RestoreFoldouts` from `acc` on: for each regular node in order, `Add`
   * its id with its options' foldouts; a repeated key throws, leaving the
   * entries added so far.
   */
  function FoldoutsFrom(nodes: seq<NodeData>, acc: Foldouts): (Foldouts, Outcome)
    decreases |nodes|
  {
    if nodes == [] then (acc, Pass)
    else if nodes[0].immediate then FoldoutsFrom(nodes[1..], acc)
    else if nodes[0].id in acc then (acc, Fail(DuplicateKey))
    else
      var (inner, ok) := InnerFoldouts(nodes[0].options, map[]);
      if ok.Fail? then (acc[nodes[0].id := inner], ok)
      else FoldoutsFrom(nodes[1..], acc[nodes[0].id := inner])
  }

  predicate NoDuplicates(s: seq<int>) {
    forall i, j :: 0 <= i < j < |s| ==> s[i] != s[j]
  }

  /** The ids of the regular nodes. */
  function RegularIds(nodes: seq<NodeData>): set<int> {
    set i | 0 <= i < |nodes| && !nodes[i].immediate :: nodes[i].id
  }

  /** The options a list holds, as a set. */
  function OptionSet(opts: seq<int>): set<int> {
    set j | 0 <= j < |opts| :: opts[j]
  }

  lemma OptionSetCons(opts: seq<int>)
    requires opts != []
    ensures OptionSet(opts) == {opts[0]} + OptionSet(opts[1..])
  {
    forall x | x in OptionSet(opts) ensures x in {opts[0]} + OptionSet(opts[1..]) {
      var j :| 0 <= j < |opts| && opts[j] == x;
      if j > 0 { assert opts[1..][j - 1] == x; }
    }
  }

  lemma {:induction false} InnerFoldoutsComplete(opts: seq<int>, acc: map<int, bool>)
    requires NoDuplicates(opts) && forall j :: 0 <= j < |opts| ==> opts[j] !in acc
    ensures InnerFoldouts(opts, acc).1 == Pass
    ensures InnerFoldouts(opts, acc).0.Keys == acc.Keys + OptionSet(opts)
    ensures forall o :: o in InnerFoldouts(opts, acc).0 && o !in acc ==> !InnerFoldouts(opts, acc).0[o]
    ensures forall o :: o in acc ==> InnerFoldouts(opts, acc).0[o] == acc[o]
    decreases |opts|
  {
    if opts != [] {
      InnerFoldoutsComplete(opts[1..], acc[opts[0] := false]);
      OptionSetCons(opts);
    }
  }

  lemma RegularIdsCons(nodes: seq<NodeData>)
    requires nodes != []
    ensures RegularIds(nodes) == (if nodes[0].immediate then {} else {nodes[0].id}) + RegularIds(nodes[1..])
  {
    var n := nodes[0];
    forall x | x in RegularIds(nodes) ensures x in (if n.immediate then {} else {n.id}) + RegularIds(nodes[1..]) {
      var i :| 0 <= i < |nodes| && !nodes[i].immediate && nodes[i].id == x;
      if i > 0 { assert nodes[1..][i - 1] == nodes[i]; }
    }
    forall x | x in RegularIds(nodes[1..]) ensures x in RegularIds(nodes) {
      var i :| 0 <= i < |nodes[1..]| && !nodes[1..][i].immediate && nodes[1..][i].id == x;
      assert nodes[i + 1] == nodes[1..][i];
    }
  }

  /** A regular node has an entry holding exactly its options, all folded. */
  predicate FoldedAt(n: NodeData, m: Foldouts) {
    !n.immediate ==>
      n.id in m && m[n.id].Keys == OptionSet(n.options) && forall o :: o in m[n.id] ==> !m[n.id][o]
  }

  /** Every regular node of the list has its entry. */
  predicate FoldedPerNode(nodes: seq<NodeData>, m: Foldouts) {
    forall i :: 0 <= i < |nodes| ==> FoldedAt(nodes[i], m)
  }

  lemma FoldedPerNodeCons(nodes: seq<NodeData>, m: Foldouts)
    requires nodes != [] && FoldedAt(nodes[0], m) && FoldedPerNode(nodes[1..], m)
    ensures FoldedPerNode(nodes, m)
  {
    forall i | 0 < i < |nodes| ensures FoldedAt(nodes[i], m) {
      assert nodes[1..][i - 1] == nodes[i];
    }
  }

  /**
   * With distinct regular-node ids and no option attached twice to a node,
   * `RestoreFoldouts` succeeds; its map has one entry per regular node,
   * holding exactly that node's options, all folded (false).
   */
  lemma {:induction false} FoldoutsFromComplete(nodes: seq<NodeData>, acc: Foldouts)
    requires forall i, j :: 0 <= i < j < |nodes| && !nodes[i].immediate && !nodes[j].immediate ==> nodes[i].id != nodes[j].id
    requires forall i :: 0 <= i < |nodes| && !nodes[i].immediate ==> NoDuplicates(nodes[i].options) && nodes[i].id !in acc
    ensures FoldoutsFrom(nodes, acc).1 == Pass
    ensures FoldoutsFrom(nodes, acc).0.Keys == acc.Keys + RegularIds(nodes)
    ensures FoldedPerNode(nodes, FoldoutsFrom(nodes, acc).0)
    ensures forall key :: key in acc ==> FoldoutsFrom(nodes, acc).0[key] == acc[key]
    decreases |nodes|
  {
    if nodes != [] {
      var n := nodes[0];
      var tail := nodes[1..];
      RegularIdsCons(nodes);
      var m := FoldoutsFrom(nodes, acc).0;
      if n.immediate {
        FoldoutsFromComplete(tail, acc);
      } else {
        InnerFoldoutsComplete(n.options, map[]);
        var acc' := acc[n.id := InnerFoldouts(n.options, map[]).0];
        assert forall i :: 0 <= i < |tail| && !tail[i].immediate ==> tail[i].id !in acc' by {
          forall i | 0 <= i < |tail| && !tail[i].immediate ensures tail[i].id !in acc' {
            assert tail[i] == nodes[i + 1];
          }
        }
        FoldoutsFromComplete(tail, acc');
        assert m == FoldoutsFrom(tail, acc').0;
      }
      FoldedPerNodeCons(nodes, m);
    }
  }

  /**
   * The inner loop of `RestoreFoldouts`: a fresh map with `Add(option, false)`
   * for each attached option, stopping at the first repeat.
   */
  method OptionFoldouts(opts: seq<int>) returns (m: map<int, bool>, ok: Outcome)
    ensures (m, ok) == InnerFoldouts(opts, map[])
  {
    m := map[];
    var j := 0;
    while j < |opts|
      invariant 0 <= j <= |opts|
      invariant InnerFoldouts(opts[j..], m) == InnerFoldouts(opts, map[])
    {
      assert opts[j..][1..] == opts[j + 1..];
      if opts[j] in m {
        return m, Fail(DuplicateKey);
      }
      m := m[opts[j] := false];
      j := j + 1;
    }
    assert opts[j..] == [];
    ok := Pass;
  }

  class DialogueEditorInfo {
    var windows: seq<Rect>
    var windowTypes: seq<NodeType>
    var nodeTypesIDs: seq<int>
    var optionsIndexes: seq<int>
    var nodesIndexes: seq<int>
    var conditionsIndexes: seq<int>
    var nodes: int
    var options: int
    var conditions: int
    var foldouts: Foldouts

    /** Empty lists, zero counters, no foldouts. */
    constructor ()
      ensures Data() == InfoData([], [], [], [], [], [], 0, 0, 0, map[])
    {
      windows, windowTypes, nodeTypesIDs := [], [], [];
      optionsIndexes, nodesIndexes, conditionsIndexes := [], [], [];
      nodes, options, conditions := 0, 0, 0;
      foldouts := map[];
    }

    function Data(): InfoData
      reads this
    {
      InfoData(windows, windowTypes, nodeTypesIDs, optionsIndexes, nodesIndexes, conditionsIndexes,
        nodes, options, conditions, foldouts)
    }

    /** Clears the foldouts and rebuilds them from the regular nodes. */
    method RestoreFoldouts(ns: seq<DialogueNode>) returns (r: Outcome)
      modifies this`foldouts
      ensures (foldouts, r) == FoldoutsFrom(NodesData(ns), map[])
    {
      ghost var data := NodesData(ns);
      foldouts := map[];
      var i := 0;
      while i < |ns|
        invariant 0 <= i <= |ns|
        invariant data == NodesData(ns)
        invariant FoldoutsFrom(data[i..], foldouts) == FoldoutsFrom(data, map[])
      {
        var node := ns[i];
        assert data[i..][0] == data[i] == node.Data() && data[i..][1..] == data[i + 1..];
        if !node.isImmediateNode {
          if node.nodeID in foldouts {
            return Fail(DuplicateKey);
          }
          var inner, ok := OptionFoldouts(node.optionsIndexesList);
          foldouts := foldouts[node.nodeID := inner];
          if ok.Fail? {
            return ok;
          }
        }
        i := i + 1;
      }
      assert data[i..] == [];
      r := Pass;
    }
  }
}
