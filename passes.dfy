/** The inner loop of `append`, `prepend` and `insertAfter` for one target: what the passes
    over the content nodes do together. */
module Passes {
  import opened DomTree
  import opened Engine
  import opened Steps

  /** Once an exception is thrown the remaining passes change nothing. */
  lemma {:induction false} FillThrown(r: Run, mode: Mode, t: NodeId, c: seq<NodeId>, copy: bool, j: nat, m: nat)
    requires j <= m <= |c| && Fill(r, mode, t, c, copy, j).thrown.Some?
    ensures Fill(r, mode, t, c, copy, m) == Fill(r, mode, t, c, copy, j)
    decreases m
  {
    if j < m {
      FillThrown(r, mode, t, c, copy, j, m - 1);
      StepThrown(Fill(r, mode, t, c, copy, m - 1), mode, t, c[m - 1], copy);
    }
  }

  /** Every content node is an element of `d`. */
  ghost predicate AllIn(c: seq<NodeId>, d: Dom)
  {
    forall i :: 0 <= i < |c| ==> c[i] in d.nodes
  }

  /** The nodes the first `m` passes place, in order. */
  function PlacedBy(r: Run, mode: Mode, t: NodeId, c: seq<NodeId>, copy: bool, m: nat): (b: seq<NodeId>)
    requires m <= |c|
    ensures |b| == m
  {
    if m == 0 then []
    else PlacedBy(r, mode, t, c, copy, m - 1) + [Placed(Fill(r, mode, t, c, copy, m - 1).dom, c[m - 1], copy)]
  }

  /** A loop that does not throw pushes exactly the nodes it placed, one per pass. */
  lemma {:induction false} FillMade(r: Run, mode: Mode, t: NodeId, c: seq<NodeId>, copy: bool, m: nat)
    requires m <= |c|
    ensures var r' := Fill(r, mode, t, c, copy, m);
      r'.thrown.None? ==> r.thrown.None? && r'.made == r.made + PlacedBy(r, mode, t, c, copy, m)
  {
    if m > 0 {
      StepMade(Fill(r, mode, t, c, copy, m - 1), mode, t, c[m - 1], copy);
      FillMade(r, mode, t, c, copy, m - 1);
    }
  }

  /** A loop that does not throw keeps the document well formed and every element with its
      tag and markup; only copying hands out ids. */
  lemma {:induction false} FillFrame(r: Run, mode: Mode, t: NodeId, c: seq<NodeId>, copy: bool, m: nat)
    requires WellFormed(r.dom) && m <= |c|
    ensures var r' := Fill(r, mode, t, c, copy, m);
      r'.thrown.None? ==>
      && WellFormed(r'.dom) && r.dom.next <= r'.dom.next && (!copy ==> r'.dom.next == r.dom.next)
      && (forall y :: y in r.dom.nodes ==>
            y in r'.dom.nodes && Tag(r'.dom, y) == Tag(r.dom, y) && Html(r'.dom, y) == Html(r.dom, y))
  {
    if m > 0 {
      var r1 := Fill(r, mode, t, c, copy, m - 1);
      StepThrown(r1, mode, t, c[m - 1], copy);
      FillFrame(r, mode, t, c, copy, m - 1);
      if r1.thrown.None? {
        StepFrame(r1, mode, t, c[m - 1], copy);
      }
    }
  }

  /** Without copying, the loop places the content nodes themselves, in order. */
  lemma {:induction false} FillOriginals(r: Run, mode: Mode, t: NodeId, c: seq<NodeId>, m: nat)
    requires m <= |c|
    ensures PlacedBy(r, mode, t, c, false, m) == c[..m]
  {
    if m > 0 {
      FillOriginals(r, mode, t, c, m - 1);
      assert c[..m] == c[..m - 1] + [c[m - 1]];
    }
  }

  /** Pass `k` places `c[k]` itself or the id its clone receives. */
  lemma {:induction false} PlacedAt(r: Run, mode: Mode, t: NodeId, c: seq<NodeId>, copy: bool, m: nat, k: nat)
    requires k < m <= |c|
    ensures PlacedBy(r, mode, t, c, copy, m)[k] == Placed(Fill(r, mode, t, c, copy, k).dom, c[k], copy)
  {
    if k < m - 1 {
      PlacedAt(r, mode, t, c, copy, m - 1, k);
    }
  }

  /** When the loop gets through `m` passes it got through the first `j`, and the ids it
      hands out only grow. */
  lemma {:induction false} FillReaches(r: Run, mode: Mode, t: NodeId, c: seq<NodeId>, copy: bool, j: nat, m: nat)
    requires j <= m <= |c|
    ensures var rj, rm := Fill(r, mode, t, c, copy, j), Fill(r, mode, t, c, copy, m);
      rm.thrown.None? ==> rj.thrown.None? && rj.dom.next <= rm.dom.next
    decreases m
  {
    if j < m {
      var r1 := Fill(r, mode, t, c, copy, m - 1);
      StepThrown(r1, mode, t, c[m - 1], copy);
      StepNext(r1, mode, t, c[m - 1], copy);
      FillReaches(r, mode, t, c, copy, j, m - 1);
    }
  }

  /** An element present after `j` passes survives the later passes with its tag and markup. */
  lemma {:induction false} FillKeeps(r: Run, mode: Mode, t: NodeId, c: seq<NodeId>, copy: bool, j: nat, m: nat, y: NodeId)
    requires WellFormed(r.dom) && j <= m <= |c| && y in Fill(r, mode, t, c, copy, j).dom.nodes
    ensures var rj, rm := Fill(r, mode, t, c, copy, j), Fill(r, mode, t, c, copy, m);
      rm.thrown.None? ==> y in rm.dom.nodes && Tag(rm.dom, y) == Tag(rj.dom, y) && Html(rm.dom, y) == Html(rj.dom, y)
    decreases m
  {
    if j < m {
      var m1 := m - 1;
      var r1 := Fill(r, mode, t, c, copy, m1);
      StepThrown(r1, mode, t, c[m1], copy);
      if r1.thrown.None? {
        FillKeeps(r, mode, t, c, copy, j, m1, y);
        FillFrame(r, mode, t, c, copy, m1);
        StepFrame(r1, mode, t, c[m1], copy);
      }
    }
  }

  /** With copying, pass `k` hands out the next id. */
  lemma CopyNext(r: Run, mode: Mode, t: NodeId, c: seq<NodeId>, k: nat, k1: nat)
    requires k1 == k + 1 <= |c|
    ensures var rk, rk1 := Fill(r, mode, t, c, true, k), Fill(r, mode, t, c, true, k1);
      rk1.thrown.None? ==> rk.dom.next < rk1.dom.next
  {
    var rk := Fill(r, mode, t, c, true, k);
    assert Fill(r, mode, t, c, true, k1) == Step(rk, mode, t, c[k], true);
    StepNext(rk, mode, t, c[k], true);
  }

  /** With copying, the node pass `k` places has an id handed out during the loop. */
  lemma CopyFresh(r: Run, mode: Mode, t: NodeId, c: seq<NodeId>, m: nat, k: nat)
    requires k < m <= |c|
    ensures var r', b := Fill(r, mode, t, c, true, m), PlacedBy(r, mode, t, c, true, m);
      r'.thrown.None? ==> r.dom.next <= b[k] < r'.dom.next
  {
    if Fill(r, mode, t, c, true, m).thrown.None? {
      var k1 := k + 1;
      PlacedAt(r, mode, t, c, true, m, k);
      FillReaches(r, mode, t, c, true, 0, k);
      FillReaches(r, mode, t, c, true, k, m);
      FillReaches(r, mode, t, c, true, k1, m);
      CopyNext(r, mode, t, c, k, k1);
    }
  }

  /** With copying, pass `k` adds the id it hands out to the document, as a copy of `c[k]`. */
  lemma CopyAdded(r: Run, mode: Mode, t: NodeId, c: seq<NodeId>, k: nat, k1: nat)
    requires WellFormed(r.dom) && k1 == k + 1 <= |c|
    ensures var rk, rk1 := Fill(r, mode, t, c, true, k), Fill(r, mode, t, c, true, k1);
      rk1.thrown.None? ==>
      && rk.dom.next in rk1.dom.nodes
      && (c[k] in r.dom.nodes ==>
            Tag(rk1.dom, rk.dom.next) == Tag(r.dom, c[k]) && Html(rk1.dom, rk.dom.next) == Html(r.dom, c[k]))
  {
    var rk, rk1 := Fill(r, mode, t, c, true, k), Fill(r, mode, t, c, true, k1);
    if rk1.thrown.None? {
      assert rk1 == Step(rk, mode, t, c[k], true);
      StepThrown(rk, mode, t, c[k], true);
      FillFrame(r, mode, t, c, true, k);
      StepPlaced(rk, mode, t, c[k], true);
    }
  }

  /** With copying, the node pass `k` places is an element when the loop ends. */
  lemma CopyAt(r: Run, mode: Mode, t: NodeId, c: seq<NodeId>, m: nat, k: nat)
    requires WellFormed(r.dom) && k < m <= |c|
    ensures var r', b := Fill(r, mode, t, c, true, m), PlacedBy(r, mode, t, c, true, m);
      r'.thrown.None? ==> b[k] in r'.dom.nodes
  {
    var r' := Fill(r, mode, t, c, true, m);
    if r'.thrown.None? {
      var k1 := k + 1;
      PlacedAt(r, mode, t, c, true, m, k);
      FillReaches(r, mode, t, c, true, k1, m);
      CopyAdded(r, mode, t, c, k, k1);
      FillKeeps(r, mode, t, c, true, k1, m, Fill(r, mode, t, c, true, k).dom.next);
    }
  }

  /** With copying, the node pass `k` places keeps the tag and markup of `c[k]`. */
  lemma CopyLooksAlike(r: Run, mode: Mode, t: NodeId, c: seq<NodeId>, m: nat, k: nat)
    requires WellFormed(r.dom) && k < m <= |c| && c[k] in r.dom.nodes
    ensures var r', b := Fill(r, mode, t, c, true, m), PlacedBy(r, mode, t, c, true, m);
      r'.thrown.None? ==> Tag(r'.dom, b[k]) == Tag(r.dom, c[k]) && Html(r'.dom, b[k]) == Html(r.dom, c[k])
  {
    if Fill(r, mode, t, c, true, m).thrown.None? {
      var k1 := k + 1;
      PlacedAt(r, mode, t, c, true, m, k);
      FillReaches(r, mode, t, c, true, k1, m);
      CopyAdded(r, mode, t, c, k, k1);
      FillKeeps(r, mode, t, c, true, k1, m, Fill(r, mode, t, c, true, k).dom.next);
    }
  }

  /** With copying, a later pass places a larger id. */
  lemma CopyOrder(r: Run, mode: Mode, t: NodeId, c: seq<NodeId>, m: nat, k: nat, k': nat)
    requires k < k' < m <= |c|
    ensures var r', b := Fill(r, mode, t, c, true, m), PlacedBy(r, mode, t, c, true, m);
      r'.thrown.None? ==> b[k] < b[k']
  {
    if Fill(r, mode, t, c, true, m).thrown.None? {
      var k1 := k + 1;
      PlacedAt(r, mode, t, c, true, m, k);
      PlacedAt(r, mode, t, c, true, m, k');
      FillReaches(r, mode, t, c, true, k', m);
      FillReaches(r, mode, t, c, true, k1, k');
      CopyNext(r, mode, t, c, k, k1);
    }
  }

  /** With copying, every pass places a new element: the ids are fresh, increasing, and in
      the document. */
  lemma FillFresh(r: Run, mode: Mode, t: NodeId, c: seq<NodeId>, m: nat)
    requires WellFormed(r.dom) && m <= |c|
    ensures var r', b := Fill(r, mode, t, c, true, m), PlacedBy(r, mode, t, c, true, m);
      r'.thrown.None? ==>
      && (forall k :: 0 <= k < m ==> r.dom.next <= b[k] < r'.dom.next && b[k] in r'.dom.nodes)
      && (forall k, k' :: 0 <= k < k' < m ==> b[k] < b[k'])
  {
    var r', b := Fill(r, mode, t, c, true, m), PlacedBy(r, mode, t, c, true, m);
    if r'.thrown.None? {
      forall k | 0 <= k < m ensures r.dom.next <= b[k] < r'.dom.next && b[k] in r'.dom.nodes {
        CopyFresh(r, mode, t, c, m, k);
        CopyAt(r, mode, t, c, m, k);
      }
      forall k, k' | 0 <= k < k' < m ensures b[k] < b[k'] {
        CopyOrder(r, mode, t, c, m, k, k');
      }
    }
  }

  /** With copying, the copy placed by pass `k` carries the tag and markup of `c[k]`. */
  lemma FillCopies(r: Run, mode: Mode, t: NodeId, c: seq<NodeId>, m: nat)
    requires WellFormed(r.dom) && AllIn(c, r.dom) && m <= |c|
    ensures var r', b := Fill(r, mode, t, c, true, m), PlacedBy(r, mode, t, c, true, m);
      r'.thrown.None? ==> forall k :: 0 <= k < m ==>
        Tag(r'.dom, b[k]) == Tag(r.dom, c[k]) && Html(r'.dom, b[k]) == Html(r.dom, c[k])
  {
    var r', b := Fill(r, mode, t, c, true, m), PlacedBy(r, mode, t, c, true, m);
    if r'.thrown.None? {
      forall k | 0 <= k < m ensures Tag(r'.dom, b[k]) == Tag(r.dom, c[k]) && Html(r'.dom, b[k]) == Html(r.dom, c[k]) {
        CopyLooksAlike(r, mode, t, c, m, k);
      }
    }
  }

  /** No node is placed twice by one loop when copying or when the content is distinct. */
  lemma FillDistinct(r: Run, mode: Mode, t: NodeId, c: seq<NodeId>, copy: bool, m: nat)
    requires WellFormed(r.dom) && m <= |c| && (copy || Distinct(c))
    ensures Fill(r, mode, t, c, copy, m).thrown.None? ==> Distinct(PlacedBy(r, mode, t, c, copy, m))
  {
    if copy {
      FillFresh(r, mode, t, c, m);
    } else {
      FillOriginals(r, mode, t, c, m);
    }
  }

  /** The receiver stays the same element through the loop. */
  lemma {:induction false} FillSteady(r: Run, mode: Mode, t: NodeId, c: seq<NodeId>, copy: bool, m: nat, p: NodeId)
    requires WellFormed(r.dom) && Steady(r.dom, mode, t, p) && m <= |c|
    ensures Fill(r, mode, t, c, copy, m).thrown.None? ==> Steady(Fill(r, mode, t, c, copy, m).dom, mode, t, p)
  {
    if m > 0 {
      var r1 := Fill(r, mode, t, c, copy, m - 1);
      StepThrown(r1, mode, t, c[m - 1], copy);
      if r1.thrown.None? {
        FillSteady(r, mode, t, c, copy, m - 1, p);
        FillFrame(r, mode, t, c, copy, m - 1);
        StepSteady(r1, mode, t, c[m - 1], copy, p);
      }
    }
  }

  /** The last id of a list without repeats is not among the others. */
  lemma LastNew(b: seq<NodeId>, n: NodeId)
    requires Distinct(b + [n])
    ensures n !in b
  {
    forall i | 0 <= i < |b| ensures b[i] != n {
      assert (b + [n])[i] == b[i] && (b + [n])[|b|] == n;
    }
  }

  /** A loop that does not throw leaves the placed nodes pairwise distinct, and the last one
      placed is new among those before it. */
  lemma FillLastNew(r: Run, mode: Mode, t: NodeId, c: seq<NodeId>, copy: bool, m: nat)
    requires WellFormed(r.dom) && 0 < m <= |c| && (copy || Distinct(c))
    ensures var b := PlacedBy(r, mode, t, c, copy, m - 1);
      Fill(r, mode, t, c, copy, m).thrown.None? ==> Placed(Fill(r, mode, t, c, copy, m - 1).dom, c[m - 1], copy) !in b
  {
    if Fill(r, mode, t, c, copy, m).thrown.None? {
      FillDistinct(r, mode, t, c, copy, m);
      LastNew(PlacedBy(r, mode, t, c, copy, m - 1), Placed(Fill(r, mode, t, c, copy, m - 1).dom, c[m - 1], copy));
    }
  }

  /** Every element other than the receiver loses the placed nodes from its children. */
  lemma {:induction false} FillOtherKids(r: Run, mode: Mode, t: NodeId, c: seq<NodeId>, copy: bool, m: nat, p: NodeId, q: NodeId)
    requires WellFormed(r.dom) && Steady(r.dom, mode, t, p) && m <= |c| && q in r.dom.nodes && q != p
    ensures var r' := Fill(r, mode, t, c, copy, m);
      r'.thrown.None? ==> Kids(r'.dom, q) == Strip(Kids(r.dom, q), PlacedBy(r, mode, t, c, copy, m))
  {
    if m == 0 {
      StripNothing(Kids(r.dom, q), []);
    } else {
      FillOtherKids(r, mode, t, c, copy, m - 1, p, q);
      OtherKidsPass(r, mode, t, c, copy, m, p, q);
    }
  }

  /** The step of the induction above: one more pass takes one more node out. */
  lemma OtherKidsPass(r: Run, mode: Mode, t: NodeId, c: seq<NodeId>, copy: bool, m: nat, p: NodeId, q: NodeId)
    requires WellFormed(r.dom) && Steady(r.dom, mode, t, p) && 0 < m <= |c| && q in r.dom.nodes && q != p
    requires var r1 := Fill(r, mode, t, c, copy, m - 1);
      r1.thrown.None? ==> Kids(r1.dom, q) == Strip(Kids(r.dom, q), PlacedBy(r, mode, t, c, copy, m - 1))
    ensures var r' := Fill(r, mode, t, c, copy, m);
      r'.thrown.None? ==> Kids(r'.dom, q) == Strip(Kids(r.dom, q), PlacedBy(r, mode, t, c, copy, m))
  {
    var m1 := m - 1;
    var r1 := Fill(r, mode, t, c, copy, m1);
    StepThrown(r1, mode, t, c[m1], copy);
    if r1.thrown.None? {
      FillFrame(r, mode, t, c, copy, m1);
      FillSteady(r, mode, t, c, copy, m1, p);
      StepKids(r1, mode, t, c[m1], copy, q);
      StripTwice(Kids(r.dom, q), PlacedBy(r, mode, t, c, copy, m1), [Placed(r1.dom, c[m1], copy)]);
    }
  }

  /** The parent links after a loop: every placed node has the receiver as its parent, and
      every other element keeps its parent. */
  lemma {:induction false} FillParents(r: Run, mode: Mode, t: NodeId, c: seq<NodeId>, copy: bool, m: nat, p: NodeId, y: NodeId)
    requires WellFormed(r.dom) && Steady(r.dom, mode, t, p) && m <= |c| && y in r.dom.nodes
    ensures var r' := Fill(r, mode, t, c, copy, m);
      r'.thrown.None? ==>
      Parent(r'.dom, y) == if y in PlacedBy(r, mode, t, c, copy, m) then Some(p) else Parent(r.dom, y)
  {
    if m > 0 {
      var r1 := Fill(r, mode, t, c, copy, m - 1);
      StepThrown(r1, mode, t, c[m - 1], copy);
      if r1.thrown.None? {
        FillParents(r, mode, t, c, copy, m - 1, p, y);
        FillFrame(r, mode, t, c, copy, m - 1);
        FillSteady(r, mode, t, c, copy, m - 1, p);
        StepParent(r1, mode, t, c[m - 1], copy, y);
      }
    }
  }

  /** `append`: the target's children end with the placed nodes, in order. */
  lemma {:induction false} FillLastKids(r: Run, t: NodeId, c: seq<NodeId>, copy: bool, m: nat)
    requires WellFormed(r.dom) && t in r.dom.nodes && m <= |c| && (copy || Distinct(c))
    ensures var r', b := Fill(r, Last, t, c, copy, m), PlacedBy(r, Last, t, c, copy, m);
      r'.thrown.None? ==> Kids(r'.dom, t) == Strip(Kids(r.dom, t), b) + b
  {
    if m == 0 {
      StripNothing(Kids(r.dom, t), []);
    } else {
      var r1 := Fill(r, Last, t, c, copy, m - 1);
      StepThrown(r1, Last, t, c[m - 1], copy);
      if r1.thrown.None? {
        FillLastKids(r, t, c, copy, m - 1);
        FillFrame(r, Last, t, c, copy, m - 1);
        FillLastNew(r, Last, t, c, copy, m);
        StepLastKids(r1, t, c[m - 1], copy, Kids(r.dom, t), PlacedBy(r, Last, t, c, copy, m - 1));
      }
    }
  }

  /** `prepend`: the target's children start with the placed nodes, last placed first. */
  lemma {:induction false} FillFirstKids(r: Run, t: NodeId, c: seq<NodeId>, copy: bool, m: nat)
    requires WellFormed(r.dom) && t in r.dom.nodes && m <= |c| && (copy || Distinct(c))
    ensures var r', b := Fill(r, First, t, c, copy, m), PlacedBy(r, First, t, c, copy, m);
      r'.thrown.None? ==> Kids(r'.dom, t) == Reversed(b) + Strip(Kids(r.dom, t), b)
  {
    if m == 0 {
      StripNothing(Kids(r.dom, t), []);
    } else {
      var r1 := Fill(r, First, t, c, copy, m - 1);
      StepThrown(r1, First, t, c[m - 1], copy);
      if r1.thrown.None? {
        FillFirstKids(r, t, c, copy, m - 1);
        FillFrame(r, First, t, c, copy, m - 1);
        FillLastNew(r, First, t, c, copy, m);
        StepFirstKids(r1, t, c[m - 1], copy, Kids(r.dom, t), PlacedBy(r, First, t, c, copy, m - 1));
      }
    }
  }

  /** What the last pass of a loop that does not throw starts from: a well-formed document
      with the receiver unchanged, and a node not placed before. */
  lemma FillSteps(r: Run, mode: Mode, t: NodeId, c: seq<NodeId>, copy: bool, k: nat, m: nat, p: NodeId)
    requires WellFormed(r.dom) && Steady(r.dom, mode, t, p) && m == k + 1 <= |c| && (copy || Distinct(c))
    ensures var r1, b1 := Fill(r, mode, t, c, copy, k), PlacedBy(r, mode, t, c, copy, k);
      var n := Placed(r1.dom, c[k], copy);
      Fill(r, mode, t, c, copy, m).thrown.None? ==>
      && r1.thrown.None? && WellFormed(r1.dom) && Steady(r1.dom, mode, t, p) && n !in b1
      && PlacedBy(r, mode, t, c, copy, m) == b1 + [n]
  {
    var r1 := Fill(r, mode, t, c, copy, k);
    StepThrown(r1, mode, t, c[k], copy);
    if r1.thrown.None? {
      FillFrame(r, mode, t, c, copy, k);
      FillSteady(r, mode, t, c, copy, k, p);
      FillLastNew(r, mode, t, c, copy, m);
    }
  }

  /** An element of the document that is not a content node, or that exists before a copying
      loop starts, is never placed. */
  lemma NotPlaced(r: Run, mode: Mode, t: NodeId, c: seq<NodeId>, copy: bool, m: nat, v: NodeId)
    requires WellFormed(r.dom) && v in r.dom.nodes && m <= |c| && (copy || v !in c)
    ensures Fill(r, mode, t, c, copy, m).thrown.None? ==> v !in PlacedBy(r, mode, t, c, copy, m)
  {
    if copy {
      FillFresh(r, mode, t, c, m);
    } else {
      FillOriginals(r, mode, t, c, m);
    }
  }

  /** `insertAfter` after `m` passes: the parent's children are those before the target's next
      sibling, the placed nodes in order, then the rest, each without the placed nodes. */
  ghost predicate AfterShape(r: Run, b: seq<NodeId>, p: NodeId, a: seq<NodeId>, w: seq<NodeId>)
  {
    r.thrown.None? ==> Kids(r.dom, p) == Strip(a, b) + b + Strip(w, b)
  }

  /** Where an `insertAfter` loop starts: the parent's children are `a + w`, `w` starting with
      the sibling read before the loop, which is not among the nodes to place. */
  ghost predicate AfterReady(r: Run, t: NodeId, c: seq<NodeId>, copy: bool, p: NodeId, a: seq<NodeId>, w: seq<NodeId>)
  {
    && WellFormed(r.dom) && Steady(r.dom, After(Front(w)), t, p)
    && Kids(r.dom, p) == a + w && (w != [] ==> w[0] !in a)
    && (copy || (Distinct(c) && (w != [] ==> w[0] !in c)))
  }

  /** `insertAfter` keeps that shape through the loop, starting from children `a + w` where
      `w` starts with the target's next sibling. */
  lemma {:induction false} FillAfterKids(r: Run, t: NodeId, c: seq<NodeId>, copy: bool, m: nat, p: NodeId, a: seq<NodeId>, w: seq<NodeId>)
    requires AfterReady(r, t, c, copy, p, a, w) && m <= |c|
    ensures AfterShape(Fill(r, After(Front(w)), t, c, copy, m), PlacedBy(r, After(Front(w)), t, c, copy, m), p, a, w)
  {
    if m == 0 {
      AfterStart(r, t, c, copy, p, a, w);
    } else {
      FillAfterKids(r, t, c, copy, m - 1, p, a, w);
      AfterPass(r, t, c, copy, m, p, a, w);
    }
  }

  /** Before the first pass the children are `a + w`, nothing placed yet. */
  lemma AfterStart(r: Run, t: NodeId, c: seq<NodeId>, copy: bool, p: NodeId, a: seq<NodeId>, w: seq<NodeId>)
    requires AfterReady(r, t, c, copy, p, a, w)
    ensures AfterShape(Fill(r, After(Front(w)), t, c, copy, 0), PlacedBy(r, After(Front(w)), t, c, copy, 0), p, a, w)
  {
    StripNothing(a, []);
    StripNothing(w, []);
  }

  /** The step of the induction above: one more pass keeps the shape of the children. */
  lemma AfterPass(r: Run, t: NodeId, c: seq<NodeId>, copy: bool, m: nat, p: NodeId, a: seq<NodeId>, w: seq<NodeId>)
    requires AfterReady(r, t, c, copy, p, a, w) && 0 < m <= |c|
    requires AfterShape(Fill(r, After(Front(w)), t, c, copy, m - 1), PlacedBy(r, After(Front(w)), t, c, copy, m - 1), p, a, w)
    ensures AfterShape(Fill(r, After(Front(w)), t, c, copy, m), PlacedBy(r, After(Front(w)), t, c, copy, m), p, a, w)
  {
    var mode := After(Front(w));
    if Fill(r, mode, t, c, copy, m).thrown.None? {
      FillSteps(r, mode, t, c, copy, m - 1, m, p);
      if w != [] {
        NotPlaced(r, mode, t, c, copy, m, w[0]);
      }
      AfterPassAt(Fill(r, mode, t, c, copy, m - 1), Fill(r, mode, t, c, copy, m), t, c[m - 1], copy, p, a, w,
        PlacedBy(r, mode, t, c, copy, m - 1), PlacedBy(r, mode, t, c, copy, m));
    }
  }

  /** One `insertAfter` pass, from the run `r1` with `b1` placed to the run `r2` with `b2`. */
  lemma AfterPassAt(r1: Run, r2: Run, t: NodeId, x: NodeId, copy: bool, p: NodeId, a: seq<NodeId>, w: seq<NodeId>, b1: seq<NodeId>, b2: seq<NodeId>)
    requires WellFormed(r1.dom) && Steady(r1.dom, After(Front(w)), t, p)
    requires r2 == Step(r1, After(Front(w)), t, x, copy) && b2 == b1 + [Placed(r1.dom, x, copy)]
    requires r1.thrown.None? && AfterShape(r1, b1, p, a, w)
    requires Placed(r1.dom, x, copy) !in b1 && (w != [] ==> w[0] !in a && w[0] !in b2)
    ensures AfterShape(r2, b2, p, a, w)
  {
    StepAfterKids(r1, t, x, copy, p, a, w, b1);
  }
}
