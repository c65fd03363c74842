/** What a parent-consistency scan computes, stated twice: `FirstViolation`
    follows the checker's own control flow (skip, check, descend, abort on the
    first violation); `Visits` and `FirstOffence` say the same declaratively,
    as "the first offending visit of the pre-order walk". The two are proved
    equal, and the properties of the scan are proved about them. */
module ParentConsistency {
  import opened Ast

  /** The outcome of a scan: normal return, or the `IllegalStateException`
      with the identities its message is built from: the offending node, the
      parent it records, and the node it was reached through. */
  datatype Outcome = Ok | Violation(node: NodeId, recordedParent: NodeId, expectedParent: NodeId)

  /** The condition under which a regular node is reported: there is an
      expected parent, the node's parent is initialised, and it is not
      identical to the expected parent. */
  predicate Mismatch(recorded: Option<NodeId>, expected: Option<NodeId>)
  {
    expected.Some? && recorded.Some? && recorded.value != expected.value
  }

  /** The outcome of scanning `t` when the node it is reached through is `ctx`
      (`None` at the top-level call). Reference and null nodes are skipped
      without descent; a regular node is checked, then its children are
      scanned in order with the node itself as their context. */
  function FirstViolation(t: Tree, ctx: Option<NodeId>): (r: Outcome)
    decreases t
    ensures r.Violation? ==> r.recordedParent != r.expectedParent
  {
    match t
    case Null => Ok
    case Node(id, kind, rec, kids) =>
      if kind == Reference then Ok
      else if Mismatch(rec, ctx) then Violation(id, rec.value, ctx.value)
      else FirstViolationIn(kids, Some(id))
  }

  /** Scanning the children `ts` in order, all with context `ctx`; the first
      violation aborts the remaining siblings. */
  function FirstViolationIn(ts: seq<Tree>, ctx: Option<NodeId>): (r: Outcome)
    decreases ts
    ensures r.Violation? ==> r.recordedParent != r.expectedParent
  {
    if ts == [] then Ok
    else
      var first := FirstViolation(ts[0], ctx);
      if first.Violation? then first else FirstViolationIn(ts[1..], ctx)
  }

  /** One check the scan performs: the node, the parent it records, and the
      expected parent in force when it is visited. */
  datatype Visit = Visit(node: NodeId, recorded: Option<NodeId>, context: Option<NodeId>)

  predicate Offends(v: Visit)
  {
    Mismatch(v.recorded, v.context)
  }

  function Report(v: Visit): Outcome
    requires Offends(v)
  {
    Violation(v.node, v.recorded.value, v.context.value)
  }

  /** The visits of a complete pre-order walk of `t` from context `ctx`,
      ignoring aborts. Reference and null nodes contribute nothing, nor does
      anything below a reference node. */
  function Visits(t: Tree, ctx: Option<NodeId>): seq<Visit>
    decreases t
  {
    match t
    case Null => []
    case Node(id, kind, rec, kids) =>
      if kind == Reference then [] else [Visit(id, rec, ctx)] + VisitsIn(kids, Some(id))
  }

  function VisitsIn(ts: seq<Tree>, ctx: Option<NodeId>): seq<Visit>
    decreases ts
  {
    if ts == [] then [] else Visits(ts[0], ctx) + VisitsIn(ts[1..], ctx)
  }

  /** The report of the earliest offending visit, if any. */
  function FirstOffence(vs: seq<Visit>): Outcome
  {
    if vs == [] then Ok
    else if Offends(vs[0]) then Report(vs[0])
    else FirstOffence(vs[1..])
  }

  /** `FirstOffence` passes exactly when no visit offends, and otherwise
      reports an offending visit before which none offends. */
  lemma {:induction false} FirstOffenceCharacterised(vs: seq<Visit>)
    ensures FirstOffence(vs).Ok? <==> forall k :: 0 <= k < |vs| ==> !Offends(vs[k])
    ensures FirstOffence(vs).Violation? ==>
      exists k :: 0 <= k < |vs| && Offends(vs[k]) && FirstOffence(vs) == Report(vs[k]) &&
        forall j :: 0 <= j < k ==> !Offends(vs[j])
  {
    if vs != [] && !Offends(vs[0]) {
      FirstOffenceCharacterised(vs[1..]);
      assert forall k :: 1 <= k < |vs| ==> vs[k] == vs[1..][k - 1];
      if FirstOffence(vs).Violation? {
        var k :| 0 <= k < |vs[1..]| && Offends(vs[1..][k]) && FirstOffence(vs) == Report(vs[1..][k]) &&
          forall j :: 0 <= j < k ==> !Offends(vs[1..][j]);
        assert vs[k + 1] == vs[1..][k];
      }
    }
  }

  /** The visits actually performed before the walk stops: every visit up to
      and including the first offending one. */
  function Walked(vs: seq<Visit>): seq<Visit>
  {
    if vs == [] then []
    else if Offends(vs[0]) then [vs[0]]
    else [vs[0]] + Walked(vs[1..])
  }

  /** `Walked` is a prefix of the walk: all of it when nothing offends, and
      otherwise ending at the visit `FirstOffence` reports. */
  lemma {:induction false} WalkedStopsAtFirstOffence(vs: seq<Visit>)
    ensures Walked(vs) <= vs
    ensures FirstOffence(vs).Ok? ==> Walked(vs) == vs
    ensures FirstOffence(vs).Violation? ==>
      var w := Walked(vs);
      |w| > 0 && Offends(w[|w| - 1]) && Report(w[|w| - 1]) == FirstOffence(vs) &&
      forall j :: 0 <= j < |w| - 1 ==> !Offends(w[j])
  {
    if vs != [] && !Offends(vs[0]) {
      WalkedStopsAtFirstOffence(vs[1..]);
      assert vs == [vs[0]] + vs[1..];
      var w := Walked(vs);
      assert forall j :: 1 <= j < |w| ==> w[j] == Walked(vs[1..])[j - 1];
    }
  }

  lemma {:induction false} FirstOffenceAppend(a: seq<Visit>, b: seq<Visit>)
    ensures FirstOffence(a + b) == if FirstOffence(a).Ok? then FirstOffence(b) else FirstOffence(a)
  {
    if a == [] {
      assert a + b == b;
    } else {
      assert (a + b)[0] == a[0];
      assert (a + b)[1..] == a[1..] + b;
      if !Offends(a[0]) {
        FirstOffenceAppend(a[1..], b);
      }
    }
  }

  lemma {:induction false} WalkedAppend(a: seq<Visit>, b: seq<Visit>)
    ensures Walked(a + b) == if FirstOffence(a).Ok? then a + Walked(b) else Walked(a)
  {
    if a == [] {
      assert a + b == b;
    } else {
      assert (a + b)[0] == a[0];
      assert (a + b)[1..] == a[1..] + b;
      if Offends(a[0]) {
        assert Walked(a + b) == [a[0]] == Walked(a);
      } else {
        assert Walked(a + b) == [a[0]] + Walked(a[1..] + b);
        assert FirstOffence(a) == FirstOffence(a[1..]);
        WalkedAppend(a[1..], b);
        if FirstOffence(a).Ok? {
          assert [a[0]] + (a[1..] + Walked(b)) == a + Walked(b);
        } else {
          assert Walked(a) == [a[0]] + Walked(a[1..]);
        }
      }
    }
  }

  lemma {:induction false} VisitsInAppend(a: seq<Tree>, b: seq<Tree>, ctx: Option<NodeId>)
    ensures VisitsIn(a + b, ctx) == VisitsIn(a, ctx) + VisitsIn(b, ctx)
  {
    if a == [] {
      assert a + b == b;
    } else {
      assert (a + b)[0] == a[0];
      assert (a + b)[1..] == a[1..] + b;
      VisitsInAppend(a[1..], b, ctx);
    }
  }

  /** The operational and the declarative definitions agree: a scan reports
      exactly the earliest offending visit of the pre-order walk. */
  lemma {:induction false} ViolationMatchesVisits(t: Tree, ctx: Option<NodeId>)
    decreases t
    ensures FirstViolation(t, ctx) == FirstOffence(Visits(t, ctx))
  {
    match t
    case Null =>
    case Node(id, kind, rec, kids) =>
      if kind == Regular {
        var v := Visit(id, rec, ctx);
        FirstOffenceAppend([v], VisitsIn(kids, Some(id)));
        if !Offends(v) {
          ViolationMatchesVisitsIn(kids, Some(id));
        }
      }
  }

  lemma {:induction false} ViolationMatchesVisitsIn(ts: seq<Tree>, ctx: Option<NodeId>)
    decreases ts
    ensures FirstViolationIn(ts, ctx) == FirstOffence(VisitsIn(ts, ctx))
  {
    if ts != [] {
      ViolationMatchesVisits(ts[0], ctx);
      FirstOffenceAppend(Visits(ts[0], ctx), VisitsIn(ts[1..], ctx));
      ViolationMatchesVisitsIn(ts[1..], ctx);
    }
  }

  /** One step of scanning children in order: child `i` passes. */
  lemma ChildPasses(ts: seq<Tree>, i: nat, ctx: Option<NodeId>)
    requires i < |ts| && FirstViolation(ts[i], ctx).Ok?
    requires FirstOffence(VisitsIn(ts[..i], ctx)).Ok?
    ensures VisitsIn(ts[..i + 1], ctx) == VisitsIn(ts[..i], ctx) + Walked(Visits(ts[i], ctx))
    ensures FirstOffence(VisitsIn(ts[..i + 1], ctx)).Ok?
    ensures FirstViolationIn(ts[i..], ctx) == FirstViolationIn(ts[i + 1..], ctx)
  {
    ViolationMatchesVisits(ts[i], ctx);
    WalkedStopsAtFirstOffence(Visits(ts[i], ctx));
    assert ts[i..][0] == ts[i] && ts[i..][1..] == ts[i + 1..];
    assert ts[..i + 1] == ts[..i] + [ts[i]];
    VisitsInAppend(ts[..i], [ts[i]], ctx);
    assert [ts[i]][1..] == [];
    assert VisitsIn([ts[i]], ctx) == Visits(ts[i], ctx);
    FirstOffenceAppend(VisitsIn(ts[..i], ctx), Visits(ts[i], ctx));
  }

  /** The other step: child `i` is the first to fail, which ends the walk
      over `ts`. */
  lemma ChildFails(ts: seq<Tree>, i: nat, ctx: Option<NodeId>)
    requires i < |ts| && FirstViolation(ts[i], ctx).Violation?
    requires FirstOffence(VisitsIn(ts[..i], ctx)).Ok?
    ensures FirstViolationIn(ts[i..], ctx) == FirstViolation(ts[i], ctx)
    ensures Walked(VisitsIn(ts, ctx)) == VisitsIn(ts[..i], ctx) + Walked(Visits(ts[i], ctx))
  {
    ViolationMatchesVisits(ts[i], ctx);
    assert ts[i..][0] == ts[i] && ts[i..][1..] == ts[i + 1..];
    var done := VisitsIn(ts[..i], ctx);
    var rest := VisitsIn(ts[i + 1..], ctx);
    assert ts == ts[..i] + ts[i..];
    VisitsInAppend(ts[..i], ts[i..], ctx);
    assert VisitsIn(ts, ctx) == done + (Visits(ts[i], ctx) + rest);
    WalkedAppend(done, Visits(ts[i], ctx) + rest);
    WalkedAppend(Visits(ts[i], ctx), rest);
  }

  /** A null or reference node is not checked, and nothing below it is
      visited, whatever its children and its recorded parent are. */
  lemma SkippedNode(t: Tree, ctx: Option<NodeId>)
    requires t.Null? || t.kind == Reference
    ensures FirstViolation(t, ctx) == Ok
    ensures Visits(t, ctx) == []
  {
  }

  /** A regular node is reported exactly when there is an expected parent,
      its own parent is initialised, and the two differ; otherwise the
      outcome is that of its children, scanned with the node as context. */
  lemma RegularNodeChecked(t: Tree, ctx: Option<NodeId>)
    requires t.Node? && t.kind == Regular
    ensures Visits(t, ctx)[0] == Visit(t.id, t.recordedParent, ctx)
    ensures Offends(Visits(t, ctx)[0]) <==>
      ctx.Some? && t.recordedParent.Some? && t.recordedParent.value != ctx.value
    ensures Offends(Visits(t, ctx)[0]) ==>
      FirstViolation(t, ctx) == Violation(t.id, t.recordedParent.value, ctx.value)
    ensures !Offends(Visits(t, ctx)[0]) ==>
      FirstViolation(t, ctx) == FirstViolationIn(t.children, Some(t.id))
  {
  }

  /** The report a scan makes always names a node that was visited with an
      initialised parent differing from the expected one: a node whose
      parent is uninitialised is never the one reported. */
  lemma ReportedNodeWasInitialised(t: Tree, ctx: Option<NodeId>)
    ensures var r := FirstViolation(t, ctx);
      r.Violation? ==>
        exists k :: 0 <= k < |Visits(t, ctx)| &&
          Visits(t, ctx)[k] == Visit(r.node, Some(r.recordedParent), Some(r.expectedParent))
  {
    ViolationMatchesVisits(t, ctx);
    FirstOffenceCharacterised(Visits(t, ctx));
  }

  /** A tree in which no regular node has an initialised parent passes,
      from any context. */
  lemma {:induction false} UninitialisedTreePasses(t: Tree, ctx: Option<NodeId>)
    requires NoneInitialised(t)
    decreases t
    ensures FirstViolation(t, ctx) == Ok
  {
    match t
    case Null =>
    case Node(id, kind, rec, kids) =>
      if kind == Regular {
        UninitialisedChildrenPass(kids, Some(id));
      }
  }

  lemma {:induction false} UninitialisedChildrenPass(ts: seq<Tree>, ctx: Option<NodeId>)
    requires forall i :: 0 <= i < |ts| ==> NoneInitialised(ts[i])
    decreases ts
    ensures FirstViolationIn(ts, ctx) == Ok
  {
    if ts != [] {
      UninitialisedTreePasses(ts[0], ctx);
      UninitialisedChildrenPass(ts[1..], ctx);
    }
  }

  /** The root of a top-level scan is visited with no expected parent, so it
      is never the offending visit: any violation is found at a later visit,
      and the root's own recorded parent does not affect the outcome. */
  lemma RootNeverReported(t: Tree, p: Option<NodeId>)
    requires t.Node? && t.kind == Regular
    ensures !Offends(Visits(t, None)[0])
    ensures var r := FirstViolation(t, None); var vs := Visits(t, None);
      r.Violation? ==> exists k :: 1 <= k < |vs| && Offends(vs[k]) && r == Report(vs[k])
    ensures FirstViolation(t.(recordedParent := p), None) == FirstViolation(t, None)
  {
    ViolationMatchesVisits(t, None);
    FirstOffenceCharacterised(Visits(t, None));
  }

  /** The nesting depth of each visit of `Visits(t, ctx)`, when `t` sits at
      depth `d`: a node's children are one level deeper than the node. */
  function Depths(t: Tree, d: nat): seq<nat>
    decreases t
  {
    match t
    case Null => []
    case Node(_, kind, _, kids) =>
      if kind == Reference then [] else [d] + DepthsIn(kids, d + 1)
  }

  function DepthsIn(ts: seq<Tree>, d: nat): seq<nat>
    decreases ts
  {
    if ts == [] then [] else Depths(ts[0], d) + DepthsIn(ts[1..], d)
  }

  /** Visit `j` is the innermost node the walk is inside when it makes visit
      `k`: the latest earlier visit one level up, with nothing shallower than
      `k` in between. */
  ghost predicate Encloses(ds: seq<nat>, j: int, k: int)
  {
    0 <= j < k < |ds| && ds[j] + 1 == ds[k] &&
    forall i :: j < i < k ==> ds[i] >= ds[k]
  }

  /** Visit `k` is made at depth `d` or deeper: at depth `d` against `ctx`,
      deeper against the node of its innermost enclosing visit. */
  ghost predicate ScopedAt(vs: seq<Visit>, ds: seq<nat>, ctx: Option<NodeId>, d: nat, k: int)
    requires 0 <= k < |vs| == |ds|
  {
    ds[k] >= d &&
    (ds[k] == d ==> vs[k].context == ctx) &&
    (ds[k] > d ==> exists j :: Encloses(ds, j, k) && vs[k].context == Some(vs[j].node))
  }

  /** The expected parent behaves as a stack over the whole walk. */
  ghost predicate StackScoped(vs: seq<Visit>, ds: seq<nat>, ctx: Option<NodeId>, d: nat)
  {
    |vs| == |ds| && forall k :: 0 <= k < |vs| ==> ScopedAt(vs, ds, ctx, d, k)
  }

  lemma EnclosesShifted(pre: seq<nat>, ds: seq<nat>, post: seq<nat>, j: int, k: int)
    requires Encloses(ds, j, k)
    ensures Encloses(pre + ds + post, j + |pre|, k + |pre|)
  {
    var all := pre + ds + post;
    assert forall i :: |pre| <= i < |pre| + |ds| ==> all[i] == ds[i - |pre|];
  }

  /** A visit at depth `d` against `ctx`, followed by a walk one level deeper
      against that visit's node, is a stack-scoped walk. */
  lemma StackScopedCons(v: Visit, r: seq<Visit>, dr: seq<nat>, ctx: Option<NodeId>, d: nat)
    requires v.context == ctx && StackScoped(r, dr, Some(v.node), d + 1)
    ensures StackScoped([v] + r, [d] + dr, ctx, d)
  {
    var vs := [v] + r;
    var ds := [d] + dr;
    forall k | 0 <= k < |vs|
      ensures ScopedAt(vs, ds, ctx, d, k)
    {
      if k > 0 {
        assert ds[k] == dr[k - 1] && vs[k] == r[k - 1];
        assert ScopedAt(r, dr, Some(v.node), d + 1, k - 1);
        if dr[k - 1] == d + 1 {
          forall i | 0 < i < k ensures ds[i] >= ds[k] {
            assert ds[i] == dr[i - 1];
            assert ScopedAt(r, dr, Some(v.node), d + 1, i - 1);
          }
          assert Encloses(ds, 0, k);
        } else {
          var j :| Encloses(dr, j, k - 1) && r[k - 1].context == Some(r[j].node);
          EnclosesShifted([d], dr, [], j, k - 1);
          assert [d] + dr + [] == ds;
          assert vs[j + 1] == r[j];
        }
      }
    }
  }

  /** Two stack-scoped walks from the same context, one after the other. */
  lemma StackScopedAppend(a: seq<Visit>, da: seq<nat>, b: seq<Visit>, db: seq<nat>, ctx: Option<NodeId>, d: nat)
    requires StackScoped(a, da, ctx, d) && StackScoped(b, db, ctx, d)
    ensures StackScoped(a + b, da + db, ctx, d)
  {
    var vs := a + b;
    var ds := da + db;
    forall k | 0 <= k < |vs|
      ensures ScopedAt(vs, ds, ctx, d, k)
    {
      if k < |a| {
        assert ds[k] == da[k] && vs[k] == a[k];
        assert ScopedAt(a, da, ctx, d, k);
        if da[k] > d {
          var j :| Encloses(da, j, k) && a[k].context == Some(a[j].node);
          EnclosesShifted([], da, db, j, k);
          assert [] + da + db == ds;
          assert vs[j] == a[j];
        }
      } else {
        assert ds[k] == db[k - |a|] && vs[k] == b[k - |a|];
        assert ScopedAt(b, db, ctx, d, k - |a|);
        if db[k - |a|] > d {
          var j :| Encloses(db, j, k - |a|) && b[k - |a|].context == Some(b[j].node);
          EnclosesShifted(da, db, [], j, k - |a|);
          assert da + db + [] == ds;
          assert vs[j + |a|] == b[j];
        }
      }
    }
  }

  /** For A -> B -> C, checking C against A instead of B is not
      stack-scoped: B is C's innermost enclosing visit. */
  lemma GrandchildCheckedAgainstRootRejected()
    ensures !StackScoped([Visit(0, None, None), Visit(1, Some(0), Some(0)), Visit(2, Some(0), Some(0))],
                         [0, 1, 2], None, 0)
  {
    var vs := [Visit(0, None, None), Visit(1, Some(0), Some(0)), Visit(2, Some(0), Some(0))];
    var ds: seq<nat> := [0, 1, 2];
    forall j | Encloses(ds, j, 2) ensures j == 1 && vs[j].node == 1 { }
    assert !ScopedAt(vs, ds, None, 0, 2);
  }

  /** The walk's expected parents form a stack: each visit is made against
      the node of its innermost enclosing visit, or against `ctx` at the
      top level. */
  lemma {:induction false} ContextIsInnermostEnclosingNode(t: Tree, ctx: Option<NodeId>, d: nat)
    decreases t
    ensures StackScoped(Visits(t, ctx), Depths(t, d), ctx, d)
  {
    match t
    case Null =>
    case Node(id, kind, rec, kids) =>
      if kind == Regular {
        ContextIsInnermostEnclosingNodeIn(kids, Some(id), d + 1);
        StackScopedCons(Visit(id, rec, ctx), VisitsIn(kids, Some(id)), DepthsIn(kids, d + 1), ctx, d);
      }
  }

  lemma {:induction false} ContextIsInnermostEnclosingNodeIn(ts: seq<Tree>, ctx: Option<NodeId>, d: nat)
    decreases ts
    ensures StackScoped(VisitsIn(ts, ctx), DepthsIn(ts, d), ctx, d)
  {
    if ts != [] {
      ContextIsInnermostEnclosingNode(ts[0], ctx, d);
      ContextIsInnermostEnclosingNodeIn(ts[1..], ctx, d);
      StackScopedAppend(Visits(ts[0], ctx), Depths(ts[0], d), VisitsIn(ts[1..], ctx), DepthsIn(ts[1..], d), ctx, d);
    }
  }

  /** Soundness: in a well-parented tree, a top-level scan returns normally.
      Reference children are unconstrained, so one reference instance may
      sit under several parents. */
  lemma Soundness(t: Tree)
    requires WellParented(t)
    ensures FirstViolation(t, None) == Ok
  {
    SoundUnder(t, None);
  }

  lemma {:induction false} SoundUnder(t: Tree, ctx: Option<NodeId>)
    requires WellParented(t)
    requires ctx.Some? ==> ChildAgrees(ctx.value, t)
    decreases t
    ensures FirstViolation(t, ctx) == Ok
  {
    match t
    case Null =>
    case Node(id, kind, rec, kids) =>
      if kind == Regular {
        SoundUnderIn(kids, id);
      }
  }

  lemma {:induction false} SoundUnderIn(ts: seq<Tree>, p: NodeId)
    requires forall i :: 0 <= i < |ts| ==> ChildAgrees(p, ts[i]) && WellParented(ts[i])
    decreases ts
    ensures FirstViolationIn(ts, Some(p)) == Ok
  {
    if ts != [] {
      SoundUnder(ts[0], Some(p));
      SoundUnderIn(ts[1..], p);
    }
  }

  /** Detection: when exactly one visit of the walk offends, the scan
      reports that visit's node, recorded parent and expected parent. */
  lemma DetectsSoleOffender(t: Tree, ctx: Option<NodeId>, k: nat)
    requires k < |Visits(t, ctx)| && Offends(Visits(t, ctx)[k])
    requires forall j :: 0 <= j < |Visits(t, ctx)| && j != k ==> !Offends(Visits(t, ctx)[j])
    ensures FirstViolation(t, ctx) == Report(Visits(t, ctx)[k])
  {
    ViolationMatchesVisits(t, ctx);
    FirstOffenceCharacterised(Visits(t, ctx));
  }

  /** A reference leaf shared by two regular parents, recording the first of
      them, does not make the scan fail. */
  lemma SharedReferenceAccepted()
    ensures
      var leaf := Node(3, Reference, Some(1), []);
      var b := Node(1, Regular, Some(0), [leaf]);
      var c := Node(2, Regular, Some(0), [leaf, Null]);
      FirstViolation(Node(0, Regular, None, [b, c]), None) == Ok
  {
    var leaf := Node(3, Reference, Some(1), []);
    var b := Node(1, Regular, Some(0), [leaf]);
    var c := Node(2, Regular, Some(0), [leaf, Null]);
    Soundness(Node(0, Regular, None, [b, c]));
  }

  /** Tree A -> B -> C where C records A as its parent: the scan from A
      reports C, recorded parent A, expected parent B. */
  lemma MisparentedGrandchildReported()
    ensures
      var c := Node(2, Regular, Some(0), []);
      var b := Node(1, Regular, Some(0), [c]);
      FirstViolation(Node(0, Regular, None, [b]), None) == Violation(2, 0, 1)
  {
    var c := Node(2, Regular, Some(0), []);
    var b := Node(1, Regular, Some(0), [c]);
    assert FirstViolation(c, Some(1)) == Violation(2, 0, 1);
    assert FirstViolationIn([c], Some(1)) == Violation(2, 0, 1);
    assert FirstViolation(b, Some(0)) == Violation(2, 0, 1);
    assert FirstViolationIn([b], Some(0)) == Violation(2, 0, 1);
  }
}
