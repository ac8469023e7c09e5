/**
 * Shared vocabulary of the dialogue graph: the kinds of entity an edge can
 * point at, the (id, kind) pair every edge is made of, the Exit sentinel,
 * and the error results that stand for the exceptions the code throws.
 */
module Targets {

  /** The kinds of graph entity (the `NodeType` enum). */
  datatype NodeType = Exit | Node | Option | Condition

  /** Id carried by an edge that ends the dialogue. */
  const ExitDialogue: int := -1

  /** An outgoing edge: the id of the target and the kind of collection it indexes. */
  datatype Target = Target(id: int, kind: NodeType)

  /** The edge every exit setter writes. */
  const ExitTarget: Target := Target(ExitDialogue, Exit)

  /**
   * A target the guarded setters can produce: the exit edge, or a node or a
   * condition with a non-negative id. Options are never legal edge targets.
   */
  predicate LegalTarget(t: Target) {
    t == ExitTarget || ((t.kind == Node || t.kind == Condition) && t.id >= 0)
  }

  /** The exceptions the modelled code can raise, as values. */
  datatype Error =
    | Argument(message: string)         // System.ArgumentException
    | AccessViolation(message: string)  // System.AccessViolationException
    | ArgumentOutOfRange                // a List index outside [0, Count), or a negative StringBuilder length
    | NullReference                     // member access through null
    | ArgumentNull                      // copying a null array into a new List
    | KeyNotFound                       // dictionary lookup of a missing key
    | DuplicateKey                      // Dictionary.Add of a key already present

  datatype Result<T> = Ok(value: T) | Err(error: Error)

  datatype Outcome = Pass | Fail(error: Error)

  datatype Maybe<T> = None | Some(value: T)

  /** `NodeTypeExtension.ToString`: the display name of a kind. */
  function NodeTypeName(t: NodeType): (s: string)
    ensures ParseNodeType(s) == Some(t)
  {
    match t
    case Condition => "Condition"
    case Exit => "Exit"
    case Node => "Node"
    case Option => "Option"
  }

  /** Inverse of NodeTypeName: the kind a display name stands for. */
  function ParseNodeType(s: string): Maybe<NodeType> {
    if s == "Condition" then Some(Condition)
    else if s == "Exit" then Some(Exit)
    else if s == "Node" then Some(Node)
    else if s == "Option" then Some(Option)
    else None
  }

  /** Distinct kinds have distinct names, and every recognised name is some kind's. */
  lemma NodeTypeNameBijective(s: string)
    ensures ParseNodeType(s).Some? <==> exists t :: NodeTypeName(t) == s
  {
    if exists t :: NodeTypeName(t) == s {
      var t :| NodeTypeName(t) == s;
      assert ParseNodeType(s) == Some(t);
    }
    if ParseNodeType(s).Some? {
      assert NodeTypeName(ParseNodeType(s).value) == s;
    }
  }
}
