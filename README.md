# Spoon's AST parent-consistency checker, modelled in Dafny

Spoon's `AstParentConsistencyChecker` is a `CtScanner` that walks a syntax
tree depth-first in pre-order. It checks one invariant: a regular node that
is reached through element `P` and whose parent is initialised must record
`P` itself as its parent.

The expected parent lives in one mutable field, `parent`. `scan` works in
these steps:
- It skips `null` and every `CtReference`. References are leaves that may be
  shared by several parents.
- It throws `IllegalStateException` when the check fails.
- Otherwise it saves the field, sets it to the node, lets the generic scanner
  descend into the children, and restores the field.

The model has three modules:

- `Ast` (`ast.dfy`) is the part of the node model the checker reads.
  - A `Tree` is `Null` or a `Node` with an identity (`NodeId`), a `Kind`
    (`Reference` or `Regular`), a recorded parent (`None` means not
    initialised) and its children in scanning order.
  - Nodes are immutable values, so the checker cannot write a node's parent.
  - `WellParented` is an independent structural reading of the invariant.
    Every initialised back-reference of a regular child names the node whose
    children contain it.
- `ParentConsistency` (`parent_consistency.dfy`) holds the specifications.
  - `FirstViolation` follows the scan's control flow as a pure function.
  - `Visits` lists every check a complete pre-order walk makes, as
    (node, recorded parent, expected parent). `FirstOffence` picks the
    earliest visit that fails. `Walked` is the visits made before the walk
    stops.
  - The lemmas prove that the two definitions agree, and they prove the
    properties below.
- `Visitor` (`checker.dfy`) is the checker itself.
  - Class `AstParentConsistencyChecker` has the `parent` field. It also has a
    ghost `trace` that records every check together with the value the field
    had at that check.
  - `Scan` is `scan`. `ScanChildren` is the descent of `super.scan`: a loop
    over the children in order.
  - The exception is the result value `Violation(node, recordedParent,
    expectedParent)`. It aborts the rest of the walk.

The code has no `finally` around the descent
(`AstParentConsistencyChecker.java:46-49`), so a violation leaves `parent` at
the failing node's expected parent. `Scan`'s contract states this value.

## Model

| member | source | states |
|---|---|---|
| `Visitor.AstParentConsistencyChecker.constructor` | src/main/java/spoon/reflect/visitor/AstParentConsistencyChecker.java:13-15 | A fresh checker has no expected parent (`parent` is null) and has made no checks. |
| `Visitor.AstParentConsistencyChecker.Scan` | src/main/java/spoon/reflect/visitor/AstParentConsistencyChecker.java:32-50 | The result is the first violation of the pre-order walk from the current field value. The checks made are exactly the walk's visits up to and including the first failing one, each against the field value in force: for children that is the node being scanned (lines 46-48). A normal return restores the field (line 49). A violation leaves the field at the failing node's expected parent. Only the checker's own state changes. |
| `Visitor.AstParentConsistencyChecker.ScanChildren` | src/main/java/spoon/reflect/visitor/AstParentConsistencyChecker.java:48 | Scanning the children in order gives the first violation among them and stops at it. The checks made are the children's visits up to that point. The field is unchanged on normal return. |
| `Visitor.CheckTree` | src/main/java/spoon/reflect/visitor/AstParentConsistencyChecker.java:36-49 | A top-level scan with a fresh checker gives `FirstViolation(root, None)`. It passes exactly when no visit of the walk offends. |
| `ParentConsistency.FirstViolation` | src/main/java/spoon/reflect/visitor/AstParentConsistencyChecker.java:36-49 | Any violation reported carries a recorded parent different from the expected parent. |
| `ParentConsistency.FirstViolationIn` | src/main/java/spoon/reflect/visitor/AstParentConsistencyChecker.java:48 | The same holds for a sequence of sibling subtrees. |
| `ParentConsistency.ViolationMatchesVisits` | src/main/java/spoon/reflect/visitor/AstParentConsistencyChecker.java:32-50 | The scan's outcome equals the report of the earliest offending visit of the complete pre-order walk. |
| `ParentConsistency.FirstOffenceCharacterised` | src/main/java/spoon/reflect/visitor/AstParentConsistencyChecker.java:39-44 | The walk passes if and only if no visit offends. Otherwise it reports an offending visit before which no visit offends: the first one, and only one. |
| `ParentConsistency.WalkedStopsAtFirstOffence` | src/main/java/spoon/reflect/visitor/AstParentConsistencyChecker.java:42-48 | The visits performed are a prefix of the walk. They are the whole walk when nothing offends. Otherwise they end at the reported visit, and no visit before it offends, so the walk stops at its first offending visit. |
| `ParentConsistency.SkippedNode` | src/main/java/spoon/reflect/visitor/AstParentConsistencyChecker.java:36-38 | A null or reference node yields no violation and no visit of itself or anything below it, whatever its recorded parent and children are. |
| `ParentConsistency.RegularNodeChecked` | src/main/java/spoon/reflect/visitor/AstParentConsistencyChecker.java:39-48 | A regular node is visited first with the current context. It offends if and only if the context is non-null, its parent is initialised and differs from the context. When it offends it is the one reported. Otherwise the outcome is that of its children with itself as context. |
| `ParentConsistency.ReportedNodeWasInitialised` | src/main/java/spoon/reflect/visitor/AstParentConsistencyChecker.java:39-44 | A reported violation names a visited node whose parent was initialised to the reported recorded parent, and which was reached through the reported expected parent. |
| `ParentConsistency.UninitialisedTreePasses` | src/main/java/spoon/reflect/visitor/AstParentConsistencyChecker.java:40 | If no regular node has an initialised parent, the scan passes from any context. |
| `ParentConsistency.RootNeverReported` | src/main/java/spoon/reflect/visitor/AstParentConsistencyChecker.java:39 | In a top-level call the root's visit never offends. Any violation comes from a later visit. The root's own recorded parent does not change the outcome. |
| `ParentConsistency.ContextIsInnermostEnclosingNode` | src/main/java/spoon/reflect/visitor/AstParentConsistencyChecker.java:46-49 | The expected parent is a stack. Give each visit its nesting depth (`Depths`). A visit at the starting depth is checked against the starting context. Every deeper visit is checked against the node of its innermost enclosing visit: the latest earlier visit one level up, with no shallower visit in between. |
| `ParentConsistency.GrandchildCheckedAgainstRootRejected` | src/main/java/spoon/reflect/visitor/AstParentConsistencyChecker.java:46-49 | In A, B, C, a walk that checks C against A instead of B breaks the stack property: B is C's innermost enclosing visit. Such a walk would come from a checker that does not overwrite the field for B. |
| `ParentConsistency.Soundness` | src/main/java/spoon/reflect/visitor/AstParentConsistencyChecker.java:17-44 | If every initialised back-reference of a regular child names its structural parent, a top-level scan passes. References are unconstrained, so one reference may be shared by several parents. |
| `ParentConsistency.DetectsSoleOffender` | src/main/java/spoon/reflect/visitor/AstParentConsistencyChecker.java:39-44 | When exactly one visit offends, the scan reports that node, its recorded parent and its expected parent. |
| `ParentConsistency.SharedReferenceAccepted` | src/main/java/spoon/reflect/visitor/AstParentConsistencyChecker.java:33-38 | A reference leaf that appears under two regular parents and records only one of them does not cause a violation. |
| `ParentConsistency.MisparentedGrandchildReported` | src/main/java/spoon/reflect/visitor/AstParentConsistencyChecker.java:39-44 | In the tree A, B, C, if C records A as its parent, the scan from A reports C with recorded parent A and expected parent B. |

## Left out

- `toDebugString` and the exception's message text (lines 42-44, 52-54) are left out: they are string formatting over `toString`, `getShortRepresentation`, `getClass` and `getPosition`. The violation carries only the three identities the message is built from.
- `CtScanner`'s generic descent (`super.scan`) and the visitor double dispatch are not part of this model. They are modelled as "scan each child in order". A node's children are given in the tree, in scanning order.
- The `CtElement`/`CtReference` class hierarchy is reduced to the `Kind` tag. Node identity is reduced to `NodeId`: two occurrences with the same id are the same instance.
- Concurrent use of one checker by several walks is left out; the code is single-threaded.
- Cycles are left out: trees are finite inductive values, and the code does not detect cycles.
