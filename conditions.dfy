/**
 * Condition nodes and their evaluator: the randomizer test, the choice of
 * the success or failure edge, and the two walks over chains of conditions
 * (the entry-condition chain test and the resolution of an edge that points
 * at a condition). The random draw is an input: `draws(k)` is the value the
 * k-th evaluation draws, so a walk that evaluates several conditions
 * consumes consecutive draws.
 */
module Conditions {

  import opened Targets

  // ---------------------------------------------------------------------
  // RandomizerCondition

  /** The parameters of a randomizer evaluator. */
  datatype RandomizerData = RandomizerData(minValue: int, maxValue: int, valueChecked: int) {

    /** `Random.Range(MinValue, MaxValue + 1)` draws from [MinValue, MaxValue]. */
    predicate LegalDraw(draw: int) {
      minValue <= draw <= maxValue
    }

    /** `RandomizerCondition.ConditionTest`, given the value it drew. */
    predicate Passes(draw: int) {
      draw > valueChecked
    }
  }

  class RandomizerCondition {
    var minValue: int
    var maxValue: int
    var valueChecked: int

    /** A fresh evaluator: every field at the C# default 0. */
    constructor ()
      ensures Data() == RandomizerData(0, 0, 0)
    {
      minValue, maxValue, valueChecked := 0, 0, 0;
    }

    function Data(): RandomizerData
      reads this
    {
      RandomizerData(minValue, maxValue, valueChecked)
    }
  }

  /** A threshold at or above the maximum fails every legal draw. */
  lemma ThresholdAtMaxNeverPasses(r: RandomizerData, draw: int)
    requires r.valueChecked >= r.maxValue && r.LegalDraw(draw)
    ensures !r.Passes(draw)
  {
  }

  /** A threshold below the minimum passes every legal draw. */
  lemma ThresholdBelowMinAlwaysPasses(r: RandomizerData, draw: int)
    requires r.valueChecked < r.minValue && r.LegalDraw(draw)
    ensures r.Passes(draw)
  {
  }

  /** The integers in [lo, hi]. */
  function IntRange(lo: int, hi: int): (s: set<int>)
    ensures forall v :: v in s <==> lo <= v <= hi
    decreases hi - lo
  {
    if hi < lo then {} else IntRange(lo, hi - 1) + {hi}
  }

  lemma {:induction false} IntRangeSize(lo: int, hi: int)
    ensures |IntRange(lo, hi)| == if hi < lo then 0 else hi - lo + 1
    decreases hi - lo
  {
    if lo <= hi {
      IntRangeSize(lo, hi - 1);
    }
  }

  /** The legal draws that pass the test. */
  function PassingDraws(r: RandomizerData): set<int> {
    set v | r.minValue <= v <= r.maxValue && r.Passes(v)
  }

  /**
   * How many of the legal draws pass: with a uniform draw the test succeeds
   * with probability PassingDrawCount / (MaxValue - MinValue + 1).
   */
  lemma PassingDrawCount(r: RandomizerData)
    requires r.minValue <= r.maxValue
    ensures |PassingDraws(r)| ==
      if r.valueChecked >= r.maxValue then 0
      else if r.valueChecked < r.minValue then r.maxValue - r.minValue + 1
      else r.maxValue - r.valueChecked
  {
    var lo := if r.valueChecked < r.minValue then r.minValue else r.valueChecked + 1;
    assert PassingDraws(r) == IntRange(lo, r.maxValue);
    IntRangeSize(lo, r.maxValue);
  }

  /** With bounds 0..10 and threshold 5, a draw of 7 passes and a draw of 3 does not. */
  lemma RandomizerScenario()
    ensures var r := RandomizerData(0, 10, 5);
      r.LegalDraw(7) && r.Passes(7) && r.LegalDraw(3) && !r.Passes(3)
  {
  }

  // ---------------------------------------------------------------------
  // ConditionNode

  /** The condition kinds (`ConditionTypes`); the randomizer is the only one. */
  datatype ConditionTypes = RandomizerKind

  /** The state of one condition node. */
  datatype CondData = CondData(
    id: int,
    pass: Target,
    fail: Target,
    randomizer: Maybe<RandomizerData>)
  {
    /** The `ConditionID` setter: negative values are ignored. */
    function WithID(value: int): CondData {
      if value >= 0 then this.(id := value) else this
    }

    /** `ConditionNode.ConditionTest()`: false without an evaluator, else its verdict. */
    predicate Test(draw: int) {
      randomizer.Some? && randomizer.value.Passes(draw)
    }

    /** `ConditionTest(out targetID, out targetType)`: the verdict and the edge it selects. */
    function Select(draw: int): (r: (bool, Target))
      ensures r.0 <==> Test(draw)
      ensures r.1 == if r.0 then pass else fail
    {
      var passed := Test(draw);
      (passed, if passed then pass else fail)
    }

    /**
     * `ConditionChainElementTest`: the verdict and the id of the next link;
     * a selected edge of a kind other than Exit or Condition is an error.
     */
    function ChainElement(draw: int): Result<(bool, int)> {
      var (passed, next) := Select(draw);
      if next.kind != Exit && next.kind != Condition then
        Err(AccessViolation("Illegal operation - only conditions are allowed"))
      else
        Ok((passed, next.id))
    }
  }

  /** The success edge is taken exactly when the test passes; otherwise the failure edge. */
  lemma SelectFollowsVerdict(c: CondData, draw: int)
    requires c.pass != c.fail
    ensures c.Select(draw).0 == c.Test(draw)
    ensures c.Select(draw).1 == c.pass <==> c.Test(draw)
    ensures c.Select(draw).1 == c.fail <==> !c.Test(draw)
  {
  }

  /** A condition without an evaluator always takes its failure edge. */
  lemma NoEvaluatorFails(c: CondData, draw: int)
    requires c.randomizer.None?
    ensures c.Select(draw) == (false, c.fail)
  {
  }

  class ConditionNode {
    var conditionID: int
    var passTarget: Target
    var failTarget: Target
    var conditionType: ConditionTypes
    var randomizer: RandomizerCondition?

    /** A new condition: id 0, both edges at Exit, no evaluator. */
    constructor ()
      ensures randomizer == null
      ensures Data() == CondData(0, ExitTarget, ExitTarget, None)
    {
      conditionID := 0;
      passTarget, failTarget := ExitTarget, ExitTarget;
      conditionType := RandomizerKind;
      randomizer := null;
    }

    function Data(): CondData
      reads this, randomizer
    {
      CondData(conditionID, passTarget, failTarget,
        if randomizer == null then None else Some(randomizer.Data()))
    }

    method SetConditionID(value: int)
      modifies this
      ensures randomizer == old(randomizer) && Data() == old(Data()).WithID(value)
    {
      if value >= 0 {
        conditionID := value;
      }
    }

    /** Stores the success edge as given; nothing is validated. */
    method SetSuccessTarget(nID: int, nType: NodeType)
      modifies this
      ensures randomizer == old(randomizer)
      ensures Data() == old(Data()).(pass := Target(nID, nType))
    {
      passTarget := Target(nID, nType);
    }

    /** Stores the failure edge as given; nothing is validated. */
    method SetFailureTarget(nID: int, nType: NodeType)
      modifies this
      ensures randomizer == old(randomizer)
      ensures Data() == old(Data()).(fail := Target(nID, nType))
    {
      failTarget := Target(nID, nType);
    }

    /**
     * Creates the evaluator only when there is none, stores the three
     * parameters verbatim (no clamping) and returns the stored evaluator.
     */
    method SetRandomizerCondition(min: int, max: int, valChecked: int) returns (r: RandomizerCondition)
      modifies this, randomizer
      ensures old(randomizer) != null ==> r == old(randomizer)
      ensures old(randomizer) == null ==> fresh(r)
      ensures randomizer == r
      ensures Data() == old(Data()).(randomizer := Some(RandomizerData(min, max, valChecked)))
    {
      if randomizer == null {
        randomizer := new RandomizerCondition();
      }
      randomizer.minValue := min;
      randomizer.maxValue := max;
      randomizer.valueChecked := valChecked;
      r := randomizer;
    }
  }

  /** The evaluators the conditions hold (null where there is none). */
  function Randomizers(cs: seq<ConditionNode>): set<object?>
    reads cs
  {
    set i | 0 <= i < |cs| :: cs[i].randomizer
  }

  /** The state of every condition of a collection, position by position. */
  function ConditionsData(cs: seq<ConditionNode>): (r: seq<CondData>)
    reads cs, Randomizers(cs)
    ensures |r| == |cs| && forall i :: 0 <= i < |cs| ==> r[i] == cs[i].Data()
  {
    seq(|cs|, i requires 0 <= i < |cs| reads cs, Randomizers(cs) => cs[i].Data())
  }

  // ---------------------------------------------------------------------
  // Chains of conditions

  /** An edge the chain walks follow further: a Condition or Exit edge with an in-range id. */
  predicate ChainEdge(t: Target, n: int) {
    (t.kind == Condition || t.kind == Exit) && 0 <= t.id < n
  }

  /**
   * `rank` witnesses that following edges between conditions cannot cycle:
   * every followed edge leads to a condition of strictly smaller rank. The
   * code has no cycle check; the walks are modelled for ranked graphs.
   */
  predicate Ranked(conds: seq<CondData>, rank: seq<nat>) {
    && |rank| == |conds|
    && forall i :: 0 <= i < |conds| ==>
         && (ChainEdge(conds[i].pass, |conds|) ==> rank[conds[i].pass.id] < rank[i])
         && (ChainEdge(conds[i].fail, |conds|) ==> rank[conds[i].fail.id] < rank[i])
  }

  /** An edge `Dialogue.Next` follows further: a Condition edge with an in-range id. */
  predicate ResolveEdge(t: Target, n: int) {
    t.kind == Condition && 0 <= t.id < n
  }

  /**
   * The weaker witness the `Next` loops need: they stop at every edge that
   * is not of kind Condition, so only Condition edges must lead to a
   * condition of strictly smaller rank.
   */
  predicate ResolveRanked(conds: seq<CondData>, rank: seq<nat>) {
    && |rank| == |conds|
    && forall i :: 0 <= i < |conds| ==>
         && (ResolveEdge(conds[i].pass, |conds|) ==> rank[conds[i].pass.id] < rank[i])
         && (ResolveEdge(conds[i].fail, |conds|) ==> rank[conds[i].fail.id] < rank[i])
  }

  /** A rank for the chain test is also one for the `Next` loops. */
  lemma RankedResolveRanked(conds: seq<CondData>, rank: seq<nat>)
    requires Ranked(conds, rank)
    ensures ResolveRanked(conds, rank)
  {
  }

  /**
   * Some graphs only the `Next` loops terminate on: a condition whose two
   * edges are `(0, Exit)` is not ranked for the chain test (the chain test
   * follows id 0 back to itself), yet resolution stops at once.
   */
  lemma ExitEdgeLoopsOnlyTheChain(rank: seq<nat>, draws: nat -> int, k: nat)
    ensures var conds := [CondData(0, Target(0, Exit), Target(0, Exit), None)];
      && !Ranked(conds, rank)
      && (|rank| == 1 ==> ResolveRanked(conds, rank) && Resolve(conds, rank, Target(0, Condition), draws, k) == Ok((Target(0, Exit), k + 1)))
  {
    var conds := [CondData(0, Target(0, Exit), Target(0, Exit), None)];
    assert ChainEdge(conds[0].pass, |conds|);
  }

  /**
   * `Dialogue.ConditionChainTest(id)`: evaluate the condition at `id`, then
   * the one its chosen edge names, until an edge with id -1 is chosen; the
   * verdict is that of the last condition evaluated. Yields the verdict and
   * the index of the next unused draw.
   */
  function ChainTest(conds: seq<CondData>, rank: seq<nat>, id: int, draws: nat -> int, k: nat): (r: Result<(bool, nat)>)
    requires Ranked(conds, rank)
    ensures r.Ok? ==> r.value.1 > k
    ensures r.Err? ==> r.error == ArgumentOutOfRange || r.error.AccessViolation?
    decreases if 0 <= id < |conds| then rank[id] + 1 else 0
  {
    if !(0 <= id < |conds|) then Err(ArgumentOutOfRange)
    else
      match conds[id].ChainElement(draws(k))
      case Err(e) => Err(e)
      case Ok((passed, next)) =>
        if next == ExitDialogue then Ok((passed, k + 1))
        else ChainTest(conds, rank, next, draws, k + 1)
  }

  /**
   * The loop of `Dialogue.Next`: while the edge points at a condition,
   * replace it by the edge that condition selects. Yields the first edge of
   * another kind and the index of the next unused draw.
   */
  function Resolve(conds: seq<CondData>, rank: seq<nat>, t: Target, draws: nat -> int, k: nat): (r: Result<(Target, nat)>)
    requires ResolveRanked(conds, rank)
    ensures r.Ok? ==> r.value.0.kind != Condition && r.value.1 >= k
    ensures r.Err? ==> r.error == ArgumentOutOfRange
    decreases if t.kind == Condition && 0 <= t.id < |conds| then rank[t.id] + 1 else 0
  {
    if t.kind != Condition then Ok((t, k))
    else if !(0 <= t.id < |conds|) then Err(ArgumentOutOfRange)
    else Resolve(conds, rank, conds[t.id].Select(draws(k)).1, draws, k + 1)
  }

  /** The number of conditions a walk from `t` can evaluate at most. */
  function Depth(conds: seq<CondData>, rank: seq<nat>, t: Target): nat
    requires |rank| == |conds|
  {
    if t.kind == Condition && 0 <= t.id < |conds| then rank[t.id] + 1 else 0
  }

  /**
   * Resolution stops only at an edge that is not a condition, evaluates at
   * most Depth conditions, and fails only on an id outside the collection.
   */
  lemma {:induction false} ResolveTerminates(conds: seq<CondData>, rank: seq<nat>, t: Target, draws: nat -> int, k: nat)
    requires ResolveRanked(conds, rank)
    ensures var r := Resolve(conds, rank, t, draws, k);
      && (r.Ok? ==> r.value.0.kind != Condition && k <= r.value.1 <= k + Depth(conds, rank, t))
      && (r.Err? ==> r.error == ArgumentOutOfRange)
    decreases Depth(conds, rank, t)
  {
    if t.kind == Condition && 0 <= t.id < |conds| {
      var next := conds[t.id].Select(draws(k)).1;
      ResolveTerminates(conds, rank, next, draws, k + 1);
    }
  }

  /** Every condition edge is legal (the guarded setters' kind of edge). */
  predicate LegalEdges(conds: seq<CondData>) {
    forall i :: 0 <= i < |conds| ==> LegalTarget(conds[i].pass) && LegalTarget(conds[i].fail)
  }

  /** Every Condition edge of every condition names an existing condition. */
  predicate ConditionEdgesInRange(conds: seq<CondData>) {
    forall i :: 0 <= i < |conds| ==>
      && (conds[i].pass.kind == Condition ==> 0 <= conds[i].pass.id < |conds|)
      && (conds[i].fail.kind == Condition ==> 0 <= conds[i].fail.id < |conds|)
  }

  /**
   * On a graph whose edges are legal and in range, resolving a legal edge
   * always succeeds and ends at a node or at the exit edge.
   */
  lemma {:induction false} ResolveReachesNodeOrExit(conds: seq<CondData>, rank: seq<nat>, t: Target, draws: nat -> int, k: nat)
    requires ResolveRanked(conds, rank) && LegalEdges(conds) && ConditionEdgesInRange(conds)
    requires LegalTarget(t) && (t.kind == Condition ==> 0 <= t.id < |conds|)
    ensures var r := Resolve(conds, rank, t, draws, k);
      r.Ok? && (r.value.0.kind == Node || r.value.0 == ExitTarget) && LegalTarget(r.value.0)
    decreases Depth(conds, rank, t)
  {
    if t.kind == Condition {
      var next := conds[t.id].Select(draws(k)).1;
      ResolveReachesNodeOrExit(conds, rank, next, draws, k + 1);
    }
  }

  /**
   * The condition a chain test evaluates last: the one whose chosen edge has
   * id -1, or the one at which the walk fails.
   */
  function LastLink(conds: seq<CondData>, rank: seq<nat>, id: int, draws: nat -> int, k: nat): int
    requires Ranked(conds, rank)
    decreases if 0 <= id < |conds| then rank[id] + 1 else 0
  {
    if !(0 <= id < |conds|) then id
    else
      match conds[id].ChainElement(draws(k))
      case Err(_) => id
      case Ok((_, next)) =>
        if next == ExitDialogue then id
        else LastLink(conds, rank, next, draws, k + 1)
  }

  /**
   * A successful chain test returns the verdict of the condition it
   * evaluated last, with the last draw it used, and that condition chose an
   * edge with id -1; it fails only on an id outside the collection or on a
   * chosen edge that is neither Exit nor Condition.
   */
  lemma {:induction false} ChainTestVerdictIsLast(conds: seq<CondData>, rank: seq<nat>, id: int, draws: nat -> int, k: nat)
    requires Ranked(conds, rank)
    ensures var r := ChainTest(conds, rank, id, draws, k);
      var last := LastLink(conds, rank, id, draws, k);
      && (r.Ok? ==> k < r.value.1 && 0 <= last < |conds|
                    && conds[last].Select(draws(r.value.1 - 1)).0 == r.value.0
                    && conds[last].Select(draws(r.value.1 - 1)).1.id == ExitDialogue)
      && (r.Err? ==> r.error == ArgumentOutOfRange || r.error.AccessViolation?)
    decreases if 0 <= id < |conds| then rank[id] + 1 else 0
  {
    if 0 <= id < |conds| {
      var e := conds[id].ChainElement(draws(k));
      if e.Ok? && e.value.1 != ExitDialogue {
        ChainTestVerdictIsLast(conds, rank, e.value.1, draws, k + 1);
      } else if e.Ok? {
        assert conds[id].Select(draws(k)).1.id == ExitDialogue;
      }
    }
  }
}
