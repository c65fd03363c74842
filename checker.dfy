/** The checker itself: a scanner object whose one field holds the element
    through which the node now being scanned was reached. `Scan` checks a
    node against that field, overwrites it with the node, descends into the
    children and restores it; a violation aborts the walk and leaves the
    field as it was at the failing check. */
module Visitor {
  import opened Ast
  import opened ParentConsistency

  class AstParentConsistencyChecker {
    /** The expected parent of the next node scanned; `None` is `null`. */
    var parent: Option<NodeId>
    /** Every check made so far, with the value `parent` had at that check. */
    ghost var trace: seq<Visit>

    constructor ()
      ensures parent == None && trace == []
    {
      parent := None;
      trace := [];
    }

    /** `scan(element)`: the outcome is the first violation of the pre-order
        walk from the current `parent`; the checks made are exactly the
        visits of that walk up to the first offending one; a normal return
        restores `parent`, a violation leaves it at the offending node's
        expected parent. */
    method Scan(t: Tree) returns (r: Outcome)
      modifies this
      decreases t
      ensures r == FirstViolation(t, old(parent))
      ensures trace == old(trace) + Walked(Visits(t, old(parent)))
      ensures r.Ok? ==> parent == old(parent)
      ensures r.Violation? ==> parent == Some(r.expectedParent)
    {
      if t.Null? || t.kind == Reference {
        return Ok;
      }
      var v := Visit(t.id, t.recordedParent, parent);
      trace := trace + [v];
      WalkedAppend([v], VisitsIn(t.children, Some(t.id)));
      if parent.Some? && t.recordedParent.Some? && t.recordedParent.value != parent.value {
        return Violation(t.id, t.recordedParent.value, parent.value);
      }
      var saved := parent;
      parent := Some(t.id);
      r := ScanChildren(t.children);
      if r.Violation? {
        return;
      }
      parent := saved;
    }

    /** The generic descent: scan each child in order with the current
        `parent`, stopping at the first violation. */
    method ScanChildren(ts: seq<Tree>) returns (r: Outcome)
      modifies this
      decreases ts
      ensures r == FirstViolationIn(ts, old(parent))
      ensures trace == old(trace) + Walked(VisitsIn(ts, old(parent)))
      ensures r.Ok? ==> parent == old(parent)
      ensures r.Violation? ==> parent == Some(r.expectedParent)
    {
      var i := 0;
      while i < |ts|
        invariant 0 <= i <= |ts|
        invariant parent == old(parent)
        invariant FirstViolationIn(ts, parent) == FirstViolationIn(ts[i..], parent)
        invariant FirstOffence(VisitsIn(ts[..i], parent)).Ok?
        invariant trace == old(trace) + VisitsIn(ts[..i], parent)
        decreases |ts| - i
      {
        ghost var ctx := parent;
        r := Scan(ts[i]);
        if r.Violation? {
          ChildFails(ts, i, ctx);
          return;
        }
        ChildPasses(ts, i, ctx);
        i := i + 1;
      }
      assert ts[..i] == ts;
      WalkedStopsAtFirstOffence(VisitsIn(ts, parent));
      r := Ok;
    }
  }

  /** A top-level scan with a fresh checker: the root is reached through no
      element, and the scan passes exactly when no visit offends. */
  method CheckTree(root: Tree) returns (r: Outcome)
    ensures r == FirstViolation(root, None)
    ensures r.Ok? <==> forall k :: 0 <= k < |Visits(root, None)| ==> !Offends(Visits(root, None)[k])
  {
    var checker := new AstParentConsistencyChecker();
    r := checker.Scan(root);
    ViolationMatchesVisits(root, None);
    FirstOffenceCharacterised(Visits(root, None));
  }
}
