/** The part of the syntax-tree node model that the parent-consistency check
    consumes: a node's identity, whether it is a reference leaf, its recorded
    back-reference to a parent, and the children the generic scanner descends
    into. Nodes are values here: the check reads them and never changes them. */
module Ast {

  datatype Option<+T> = None | Some(value: T)

  /** A node's identity. Two occurrences with the same id are the same node
      instance (the source compares parents with `!=` on references). */
  type NodeId = nat

  /** `Reference` stands for every `CtReference`: a leaf that may be shared by
      several parents. Every other element is `Regular`. */
  datatype Kind = Reference | Regular

  /** `Null` is a null child slot. In a `Node`, `recordedParent` is `None` when
      the parent was never initialised, and `Some(p)` when it points to node `p`. */
  datatype Tree =
    | Null
    | Node(id: NodeId, kind: Kind, recordedParent: Option<NodeId>, children: seq<Tree>)

  /** Child `c` of the node with id `p` is consistent with its structural
      position: it is null, a reference (exempt), uninitialised, or points to `p`. */
  predicate ChildAgrees(p: NodeId, c: Tree)
  {
    c.Node? && c.kind == Regular && c.recordedParent.Some? ==> c.recordedParent.value == p
  }

  /** Every node of `t`, at any depth, including below reference nodes, has only
      children whose initialised back-references name it. The root itself is
      unconstrained: its structural parent lies outside `t`. */
  predicate WellParented(t: Tree)
    decreases t
  {
    match t
    case Null => true
    case Node(id, _, _, kids) =>
      forall i :: 0 <= i < |kids| ==> ChildAgrees(id, kids[i]) && WellParented(kids[i])
  }

  /** No regular node of `t`, at any depth, has an initialised parent. */
  predicate NoneInitialised(t: Tree)
    decreases t
  {
    match t
    case Null => true
    case Node(_, kind, rec, kids) =>
      (kind == Regular ==> rec.None?) &&
      forall i :: 0 <= i < |kids| ==> NoneInitialised(kids[i])
  }
}
