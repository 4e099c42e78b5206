/** The outer loop of `append`, `prepend` and `insertAfter`: what the stages over the targets
    do together, and what the operations hand back. */
module Targets {
  import opened DomTree
  import opened Engine
  import opened Steps
  import opened Passes

  /** How one stage places its nodes. For `insertAfter` the sibling is read once, before the
      inner loop; a target without parent throws before it is used. */
  function StageMode(d: Dom, op: Op, t: NodeId): Mode
  {
    match op
    case Appending(prepend) => if prepend then First else Last
    case InsertingAfter => After(if Parent(d, t).Some? then ChildAfter(d, Parent(d, t).value, t) else None)
  }

  /** A stage that does not throw is the inner loop run with its mode. */
  lemma StageFill(r: Run, op: Op, t: NodeId, c: seq<NodeId>, copy: bool)
    ensures var r' := Stage(r, op, t, c, copy);
      r'.thrown.None? ==>
      && r.thrown.None? && (op.InsertingAfter? ==> Parent(r.dom, t).Some?)
      && r' == Fill(r, StageMode(r.dom, op, t), t, c, copy, |c|)
  {
    if Stage(r, op, t, c, copy).thrown.None? && op.Appending? {
      if r.thrown.Some? {
        FillThrown(r, StageMode(r.dom, op, t), t, c, copy, 0, |c|);
      }
    }
  }

  /** The nodes the stage for target `k` places: the content nodes themselves for target 0,
      their fresh clones for every later target. */
  function Batch(r: Run, op: Op, ts: seq<NodeId>, c: seq<NodeId>, k: nat): (b: seq<NodeId>)
    requires k < |ts|
    ensures |b| == |c|
  {
    var rk := Stages(r, op, ts, c, k);
    var mode := StageMode(rk.dom, op, ts[k]);
    if k == 0 then PlacedBy(rk, mode, ts[k], c, false, |c|) else PlacedBy(rk, mode, ts[k], c, true, |c|)
  }

  /** The nodes the first `k` stages place, target after target. */
  function Batches(r: Run, op: Op, ts: seq<NodeId>, c: seq<NodeId>, k: nat): (s: seq<NodeId>)
    requires k <= |ts|
    ensures |s| == k * |c|
  {
    if k == 0 then [] else Batches(r, op, ts, c, k - 1) + Batch(r, op, ts, c, k - 1)
  }

  /** Once an exception is thrown the remaining stages change nothing. */
  lemma {:induction false} StagesThrown(r: Run, op: Op, ts: seq<NodeId>, c: seq<NodeId>, j: nat, k: nat)
    requires j <= k <= |ts| && Stages(r, op, ts, c, j).thrown.Some?
    ensures Stages(r, op, ts, c, k) == Stages(r, op, ts, c, j)
    decreases k
  {
    if j < k {
      var k0 := k - 1;
      StagesThrown(r, op, ts, c, j, k0);
      var rk := Stages(r, op, ts, c, k0);
      if op.Appending? {
        FillThrown(rk, StageMode(rk.dom, op, ts[k0]), ts[k0], c, k0 > 0, 0, |c|);
      }
    }
  }

  /** A stage run that does not throw got through every earlier stage. */
  lemma {:induction false} StagesReach(r: Run, op: Op, ts: seq<NodeId>, c: seq<NodeId>, j: nat, k: nat)
    requires j <= k <= |ts|
    ensures Stages(r, op, ts, c, k).thrown.None? ==> Stages(r, op, ts, c, j).thrown.None?
  {
    if Stages(r, op, ts, c, j).thrown.Some? {
      StagesThrown(r, op, ts, c, j, k);
    }
  }

  /** The stages that do not throw push exactly the nodes they place, target after target:
      `|ts| * |c|` of them, in target-major, content-minor order. */
  lemma {:induction false} StagesMade(r: Run, op: Op, ts: seq<NodeId>, c: seq<NodeId>, k: nat)
    requires k <= |ts|
    ensures var r' := Stages(r, op, ts, c, k);
      r'.thrown.None? ==> r.thrown.None? && r'.made == r.made + Batches(r, op, ts, c, k)
  {
    if k > 0 {
      StagesMade(r, op, ts, c, k - 1);
      StageMade(Stages(r, op, ts, c, k - 1), op, ts[k - 1], c, k - 1 > 0);
      BatchPlaced(r, op, ts, c, k - 1);
      assert Stages(r, op, ts, c, k) == Stage(Stages(r, op, ts, c, k - 1), op, ts[k - 1], c, k - 1 > 0);
      assert Batches(r, op, ts, c, k) == Batches(r, op, ts, c, k - 1) + Batch(r, op, ts, c, k - 1);
      Join(r.made, Batches(r, op, ts, c, k - 1), Batch(r, op, ts, c, k - 1));
    }
  }

  /** One stage that does not throw pushes the nodes it places. */
  lemma StageMade(r: Run, op: Op, t: NodeId, c: seq<NodeId>, copy: bool)
    ensures var r' := Stage(r, op, t, c, copy);
      r'.thrown.None? ==> r.thrown.None? && r'.made == r.made + PlacedBy(r, StageMode(r.dom, op, t), t, c, copy, |c|)
  {
    StageFill(r, op, t, c, copy);
    FillMade(r, StageMode(r.dom, op, t), t, c, copy, |c|);
  }

  /** The batch of target `k` is what its stage places, copying for every target after the first. */
  lemma BatchPlaced(r: Run, op: Op, ts: seq<NodeId>, c: seq<NodeId>, k: nat)
    requires k < |ts|
    ensures var rk := Stages(r, op, ts, c, k);
      Batch(r, op, ts, c, k) == PlacedBy(rk, StageMode(rk.dom, op, ts[k]), ts[k], c, k > 0, |c|)
  {
  }

  /** A stage that does not throw keeps the document well formed and every element with its
      tag and markup; only a stage that copies hands out ids. */
  lemma StageFrame(r: Run, op: Op, t: NodeId, c: seq<NodeId>, copy: bool)
    requires WellFormed(r.dom)
    ensures var r' := Stage(r, op, t, c, copy);
      r'.thrown.None? ==>
      && WellFormed(r'.dom) && r.dom.next <= r'.dom.next && (!copy ==> r'.dom.next == r.dom.next)
      && (forall y :: y in r.dom.nodes ==>
            y in r'.dom.nodes && Tag(r'.dom, y) == Tag(r.dom, y) && Html(r'.dom, y) == Html(r.dom, y))
  {
    StageFill(r, op, t, c, copy);
    FillFrame(r, StageMode(r.dom, op, t), t, c, copy, |c|);
  }

  /** The same across the stages `j` to `k`. */
  lemma {:induction false} StagesFrame(r: Run, op: Op, ts: seq<NodeId>, c: seq<NodeId>, j: nat, k: nat)
    requires j <= k <= |ts| && WellFormed(Stages(r, op, ts, c, j).dom)
    ensures var rj, rk := Stages(r, op, ts, c, j), Stages(r, op, ts, c, k);
      rk.thrown.None? ==>
      && WellFormed(rk.dom) && rj.dom.next <= rk.dom.next
      && (forall y :: y in rj.dom.nodes ==>
            y in rk.dom.nodes && Tag(rk.dom, y) == Tag(rj.dom, y) && Html(rk.dom, y) == Html(rj.dom, y))
    decreases k
  {
    if j < k {
      var r1 := Stages(r, op, ts, c, k - 1);
      StageFill(r1, op, ts[k - 1], c, k - 1 > 0);
      StagesFrame(r, op, ts, c, j, k - 1);
      if r1.thrown.None? {
        StageFrame(r1, op, ts[k - 1], c, k - 1 > 0);
      }
    }
  }

  /** Target 0 receives the content nodes themselves. */
  lemma BatchOriginals(r: Run, op: Op, ts: seq<NodeId>, c: seq<NodeId>)
    requires 0 < |ts|
    ensures Batch(r, op, ts, c, 0) == c
  {
    FillOriginals(r, StageMode(r.dom, op, ts[0]), ts[0], c, |c|);
  }

  /** A stage that copies places new elements, in increasing order. */
  lemma StageFresh(r: Run, op: Op, t: NodeId, c: seq<NodeId>)
    requires WellFormed(r.dom)
    ensures var r', b := Stage(r, op, t, c, true), PlacedBy(r, StageMode(r.dom, op, t), t, c, true, |c|);
      r'.thrown.None? ==>
      && (forall j :: 0 <= j < |c| ==> r.dom.next <= b[j] < r'.dom.next && b[j] in r'.dom.nodes)
      && (forall j, j' :: 0 <= j < j' < |c| ==> b[j] < b[j'])
  {
    StageFill(r, op, t, c, true);
    FillFresh(r, StageMode(r.dom, op, t), t, c, |c|);
  }

  /** Every later target receives new elements: ids handed out by its own stage, increasing
      in content order. */
  lemma BatchFresh(r: Run, op: Op, ts: seq<NodeId>, c: seq<NodeId>, k: nat, k1: nat)
    requires WellFormed(r.dom) && 0 < k < |ts| && k1 == k + 1
    ensures var rk := Stages(r, op, ts, c, k);
      var r', b := Stages(r, op, ts, c, k1), Batch(r, op, ts, c, k);
      r'.thrown.None? ==>
      && (forall j :: 0 <= j < |c| ==> rk.dom.next <= b[j] < r'.dom.next && b[j] in r'.dom.nodes)
      && (forall j, j' :: 0 <= j < j' < |c| ==> b[j] < b[j'])
  {
    var rk := Stages(r, op, ts, c, k);
    assert Batch(r, op, ts, c, k) == PlacedBy(rk, StageMode(rk.dom, op, ts[k]), ts[k], c, true, |c|);
    assert Stages(r, op, ts, c, k1) == Stage(rk, op, ts[k], c, true);
    StageFill(rk, op, ts[k], c, true);
    if rk.thrown.None? {
      assert WellFormed(rk.dom) by {
        StagesFrame(r, op, ts, c, 0, k);
      }
      StageFresh(rk, op, ts[k], c);
    }
  }

  /** The clones a later target receives carry the tag and markup of the content nodes. */
  lemma BatchCopies(r: Run, op: Op, ts: seq<NodeId>, c: seq<NodeId>, k: nat, k1: nat)
    requires WellFormed(r.dom) && AllIn(c, r.dom) && 0 < k < |ts| && k1 == k + 1
    ensures var r', b := Stages(r, op, ts, c, k1), Batch(r, op, ts, c, k);
      r'.thrown.None? ==>
      forall j :: 0 <= j < |c| ==> Tag(r'.dom, b[j]) == Tag(r.dom, c[j]) && Html(r'.dom, b[j]) == Html(r.dom, c[j])
  {
    var rk := Stages(r, op, ts, c, k);
    assert Stages(r, op, ts, c, k1) == Stage(rk, op, ts[k], c, true);
    StageFill(rk, op, ts[k], c, true);
    StagesFrame(r, op, ts, c, 0, k);
    if rk.thrown.None? {
      FillCopies(rk, StageMode(rk.dom, op, ts[k]), ts[k], c, |c|);
    }
  }

  /** From index `n` on, `s` holds ids in `[lo, hi)`, in increasing order. */
  ghost predicate Rising(s: seq<NodeId>, n: nat, lo: int, hi: int)
  {
    && (forall i :: n <= i < |s| ==> lo <= s[i] < hi)
    && (forall i, i' :: n <= i < i' < |s| ==> s[i] < s[i'])
  }

  lemma RisingJoin(s0: seq<NodeId>, b: seq<NodeId>, n: nat, lo: int, mid: int, hi: int)
    requires n <= |s0| && Rising(s0, n, lo, mid) && Rising(b, 0, mid, hi) && lo <= mid <= hi
    ensures Rising(s0 + b, n, lo, hi)
  {
    var s := s0 + b;
    forall i | n <= i < |s| ensures lo <= s[i] < hi {
      if i >= |s0| {
        assert s[i] == b[i - |s0|];
      }
    }
    forall i, i' | n <= i < i' < |s| ensures s[i] < s[i'] {
      if i' < |s0| {
      } else if i < |s0| {
        assert s[i'] == b[i' - |s0|];
      } else {
        assert s[i] == b[i - |s0|] && s[i'] == b[i' - |s0|];
      }
    }
  }

  /** Across the stages: every node pushed after the first `|c|` is a new element, and they
      are pushed in increasing order, so none of them is an original and no two are the same. */
  lemma {:induction false} BatchesFresh(r: Run, op: Op, ts: seq<NodeId>, c: seq<NodeId>, k: nat)
    requires WellFormed(r.dom) && 0 < k <= |ts|
    ensures var rk := Stages(r, op, ts, c, k);
      rk.thrown.None? ==> Rising(Batches(r, op, ts, c, k), |c|, r.dom.next, rk.dom.next)
  {
    var k0 := k - 1;
    if Stages(r, op, ts, c, k).thrown.None? {
      if k0 == 0 {
        assert |Batches(r, op, ts, c, k)| == |c|;
      } else {
        var r0, rk := Stages(r, op, ts, c, k0), Stages(r, op, ts, c, k);
        StagesReach(r, op, ts, c, k0, k);
        BatchesFresh(r, op, ts, c, k0);
        assert Rising(Batch(r, op, ts, c, k0), 0, r0.dom.next, rk.dom.next) by {
          BatchFresh(r, op, ts, c, k0, k);
        }
        assert r.dom.next <= r0.dom.next <= rk.dom.next by {
          StagesFrame(r, op, ts, c, 0, k0);
          StagesFrame(r, op, ts, c, k0, k);
        }
        assert |c| <= |Batches(r, op, ts, c, k0)| by {
          assert |Batches(r, op, ts, c, k0)| == k0 * |c|;
        }
        RisingJoin(Batches(r, op, ts, c, k0), Batch(r, op, ts, c, k0), |c|, r.dom.next, r0.dom.next, rk.dom.next);
      }
    }
  }

  // ---------------------------------------------------------------------------
  // Children lists after one stage

  /** `append`/`prepend` on one target: its children end with the placed nodes in order, or
      start with them in reverse order; the placed nodes leave wherever they were before. */
  lemma StageAppendKids(r: Run, prepend: bool, t: NodeId, c: seq<NodeId>, copy: bool)
    requires WellFormed(r.dom) && t in r.dom.nodes && (copy || Distinct(c))
    ensures var op := Appending(prepend);
      var r', k, b := Stage(r, op, t, c, copy), Kids(r.dom, t), PlacedBy(r, StageMode(r.dom, op, t), t, c, copy, |c|);
      r'.thrown.None? ==> Kids(r'.dom, t) == if prepend then Reversed(b) + Strip(k, b) else Strip(k, b) + b
  {
    if prepend {
      FillFirstKids(r, t, c, copy, |c|);
    } else {
      FillLastKids(r, t, c, copy, |c|);
    }
  }

  /** Where `insertAfter` puts its nodes: the target's parent's children split just after the
      target; the second part starts with the sibling read before the loop. */
  lemma AfterSplit(d: Dom, t: NodeId, p: NodeId)
    requires WellFormed(d) && Parent(d, t) == Some(p)
    ensures var w := Kids(d, p);
      var j := IndexOf(w, t) + 1;
      && j <= |w| && w == w[..j] + w[j..]
      && StageMode(d, InsertingAfter, t) == After(Front(w[j..]))
      && ChildAfter(d, p, t) == Front(w[j..])
      && Steady(d, After(Front(w[j..])), t, p)
      && (j < |w| ==> w[j] !in w[..j])
  {
    ParentsChildren(d, t, p);
    SplitAt(Kids(d, p), t);
    SiblingAt(d, t, p);
  }

  /** Splitting a list without repeats just after one of its elements. */
  lemma SplitAt(w: seq<NodeId>, t: NodeId)
    requires t in w && Distinct(w)
    ensures var j := IndexOf(w, t) + 1;
      && j <= |w| && w == w[..j] + w[j..]
      && (j < |w| ==> w[j] !in w[..j] && Front(w[j..]) == Some(w[j]))
      && (j == |w| ==> Front(w[j..]) == None)
  {
    var j := IndexOf(w, t) + 1;
    if j < |w| {
      assert w[j..][0] == w[j];
    }
  }

  /** The sibling `insertAfter` reads is the first child after the split, and it shares the
      target's parent. */
  lemma SiblingAt(d: Dom, t: NodeId, p: NodeId)
    requires t in d.nodes && Parent(d, t) == Some(p) && t in Kids(d, p)
    requires forall x :: x in Kids(d, p) ==> x in d.nodes && Parent(d, x) == Some(p)
    requires var w := Kids(d, p);
      var j := IndexOf(w, t) + 1;
      (j < |w| ==> Front(w[j..]) == Some(w[j])) && (j == |w| ==> Front(w[j..]) == None)
    ensures var w := Kids(d, p);
      var j := IndexOf(w, t) + 1;
      && StageMode(d, InsertingAfter, t) == After(Front(w[j..]))
      && ChildAfter(d, p, t) == Front(w[j..])
      && Steady(d, After(Front(w[j..])), t, p)
  {
    var w := Kids(d, p);
    var j := IndexOf(w, t) + 1;
    if j < |w| {
      assert w[j] in w;
    }
  }

  /** What a well-formed document says about the children of a target's parent. */
  lemma ParentsChildren(d: Dom, t: NodeId, p: NodeId)
    requires WellFormed(d) && Parent(d, t) == Some(p)
    ensures t in d.nodes && p in d.nodes && t in Kids(d, p) && Distinct(Kids(d, p))
    ensures forall x :: x in Kids(d, p) ==> x in d.nodes && Parent(d, x) == Some(p)
  {
    assert t in d.nodes && p in d.nodes && t in Kids(d, p);
  }

  /** `insertAfter` on one target: in its parent's children, the placed nodes follow the
      children up to the target, in order, and precede the rest; they leave wherever they
      were before. */
  lemma StageAfterKids(r: Run, t: NodeId, c: seq<NodeId>, copy: bool, p: NodeId)
    requires WellFormed(r.dom) && Parent(r.dom, t) == Some(p)
    requires copy || (Distinct(c) && (ChildAfter(r.dom, p, t).Some? ==> ChildAfter(r.dom, p, t).value !in c))
    ensures var w := Kids(r.dom, p);
      var j := IndexOf(w, t) + 1;
      var r', b := Stage(r, InsertingAfter, t, c, copy), PlacedBy(r, StageMode(r.dom, InsertingAfter, t), t, c, copy, |c|);
      r'.thrown.None? ==> Kids(r'.dom, p) == Strip(w[..j], b) + b + Strip(w[j..], b)
  {
    var w := Kids(r.dom, p);
    var j := IndexOf(w, t) + 1;
    AfterSplit(r.dom, t, p);
    StageFill(r, InsertingAfter, t, c, copy);
    FillAfterKids(r, t, c, copy, |c|, p, w[..j], w[j..]);
  }

  /** The element whose children a stage edits: the target itself for `append`/`prepend`,
      its parent for `insertAfter`. */
  function StageReceiver(d: Dom, op: Op, t: NodeId): Option<NodeId>
  {
    if op.Appending? then Some(t) else Parent(d, t)
  }

  /** Every other element only loses the placed nodes from its children. */
  lemma StageOtherKids(r: Run, op: Op, t: NodeId, c: seq<NodeId>, copy: bool, q: NodeId)
    requires WellFormed(r.dom) && q in r.dom.nodes && StageReceiver(r.dom, op, t) != Some(q)
    requires op.Appending? ==> t in r.dom.nodes
    ensures var r', b := Stage(r, op, t, c, copy), PlacedBy(r, StageMode(r.dom, op, t), t, c, copy, |c|);
      r'.thrown.None? ==> Kids(r'.dom, q) == Strip(Kids(r.dom, q), b)
  {
    StageFill(r, op, t, c, copy);
    if Stage(r, op, t, c, copy).thrown.None? {
      var p := StageReceiver(r.dom, op, t).value;
      if op.InsertingAfter? {
        AfterSplit(r.dom, t, p);
      }
      FillOtherKids(r, StageMode(r.dom, op, t), t, c, copy, |c|, p, q);
    }
  }

  /** The parent links after one stage: the placed nodes hang from the element the stage
      edits, every other element keeps its parent. */
  lemma StageParents(r: Run, op: Op, t: NodeId, c: seq<NodeId>, copy: bool, y: NodeId)
    requires WellFormed(r.dom) && y in r.dom.nodes && (op.Appending? ==> t in r.dom.nodes)
    ensures var r', b := Stage(r, op, t, c, copy), PlacedBy(r, StageMode(r.dom, op, t), t, c, copy, |c|);
      r'.thrown.None? ==> Parent(r'.dom, y) == if y in b then StageReceiver(r.dom, op, t) else Parent(r.dom, y)
  {
    StageFill(r, op, t, c, copy);
    if Stage(r, op, t, c, copy).thrown.None? {
      var p := StageReceiver(r.dom, op, t).value;
      if op.InsertingAfter? {
        AfterSplit(r.dom, t, p);
      }
      FillParents(r, StageMode(r.dom, op, t), t, c, copy, |c|, p, y);
    }
  }

  /** The same for the stage of target `k`: the first stage gives the content nodes the
      element it edits as parent; every later stage places only new clones, so the elements
      it finds keep their parents. */
  lemma BatchParents(r: Run, op: Op, ts: seq<NodeId>, c: seq<NodeId>, k: nat, k1: nat, y: NodeId)
    requires WellFormed(r.dom) && k < |ts| && (op.Appending? ==> ts[k] in r.dom.nodes) && k1 == k + 1
    ensures var rk, t := Stages(r, op, ts, c, k), ts[k];
      Stages(r, op, ts, c, k1).thrown.None? && y in rk.dom.nodes ==>
      Parent(Stages(r, op, ts, c, k1).dom, y) ==
        if k == 0 && y in c then StageReceiver(rk.dom, op, t) else Parent(rk.dom, y)
  {
    var t := ts[k];
    var rk := Stages(r, op, ts, c, k);
    var copy := k > 0;
    var b := PlacedBy(rk, StageMode(rk.dom, op, t), t, c, copy, |c|);
    assert Stages(r, op, ts, c, k1) == Stage(rk, op, t, c, copy);
    StageFill(rk, op, t, c, copy);
    if rk.thrown.None? && Stage(rk, op, t, c, copy).thrown.None? && y in rk.dom.nodes {
      assert WellFormed(rk.dom) && (op.Appending? ==> t in rk.dom.nodes) by {
        StagesFrame(r, op, ts, c, 0, k);
      }
      StageParents(rk, op, t, c, copy, y);
      if copy {
        StageFresh(rk, op, t, c);
        assert y < rk.dom.next;
        assert y !in b;
      } else {
        FillOriginals(rk, StageMode(rk.dom, op, t), t, c, |c|);
      }
    }
  }

  /** Ids from `n` on are not among ids below `n`. */
  lemma FreshStrip(s: seq<NodeId>, b: seq<NodeId>, n: int)
    requires (forall y :: y in s ==> y < n) && (forall j :: 0 <= j < |b| ==> n <= b[j])
    ensures Strip(s, b) == s
  {
    StripNothing(s, b);
  }

  /** The same for both parts of a list split at `j`. */
  lemma FreshSplit(w: seq<NodeId>, j: int, b: seq<NodeId>, n: int)
    requires 0 <= j <= |w| && (forall y :: y in w ==> y < n) && (forall i :: 0 <= i < |b| ==> n <= b[i])
    ensures Strip(w[..j], b) == w[..j] && Strip(w[j..], b) == w[j..]
  {
    assert forall y :: y in w[..j] ==> y in w;
    assert forall y :: y in w[j..] ==> y in w;
    FreshStrip(w[..j], b, n);
    FreshStrip(w[j..], b, n);
  }

  /** Children are elements, so their ids are below the next one handed out. */
  lemma KidsBelow(d: Dom, q: NodeId)
    requires WellFormed(d)
    ensures forall y :: y in Kids(d, q) ==> y < d.next
  {
    forall y | y in Kids(d, q) ensures y < d.next {
      assert q in d.nodes && y in d.nodes;
    }
  }

  /** `append`/`prepend`: the stage for target `k` ends its children with the nodes it
      places, or starts them with those nodes in reverse order. For every target after the
      first the nodes are new clones, so the children it had stay as they were. */
  lemma BatchAppendKids(r: Run, prepend: bool, ts: seq<NodeId>, c: seq<NodeId>, k: nat, k1: nat)
    requires WellFormed(r.dom) && k < |ts| && ts[k] in r.dom.nodes && (k > 0 || Distinct(c)) && k1 == k + 1
    ensures var op := Appending(prepend);
      var rk := Stages(r, op, ts, c, k);
      var r', b, w := Stages(r, op, ts, c, k1), Batch(r, op, ts, c, k), Kids(rk.dom, ts[k]);
      r'.thrown.None? ==>
      && Kids(r'.dom, ts[k]) == (if prepend then Reversed(b) + Strip(w, b) else Strip(w, b) + b)
      && (k > 0 ==> Strip(w, b) == w)
  {
    var op := Appending(prepend);
    var rk := Stages(r, op, ts, c, k);
    var copy := k > 0;
    var b := PlacedBy(rk, StageMode(rk.dom, op, ts[k]), ts[k], c, copy, |c|);
    assert Batch(r, op, ts, c, k) == b;
    assert Stages(r, op, ts, c, k1) == Stage(rk, op, ts[k], c, copy);
    StageFill(rk, op, ts[k], c, copy);
    if rk.thrown.None? {
      assert WellFormed(rk.dom) && ts[k] in rk.dom.nodes by {
        StagesFrame(r, op, ts, c, 0, k);
      }
      StageAppendKids(rk, prepend, ts[k], c, copy);
      if copy {
        StageFresh(rk, op, ts[k], c);
        KidsBelow(rk.dom, ts[k]);
        if Stage(rk, op, ts[k], c, copy).thrown.None? {
          FreshStrip(Kids(rk.dom, ts[k]), b, rk.dom.next);
        }
      }
    }
  }

  /** `insertAfter`: the stage for target `k` puts the nodes it places, in order, just after
      the target among its parent's children. For every target after the first the nodes are
      new clones, so the parent's other children stay as they were. */
  lemma BatchAfterKids(r: Run, ts: seq<NodeId>, c: seq<NodeId>, k: nat, k1: nat, p: NodeId)
    requires WellFormed(r.dom) && k < |ts| && k1 == k + 1
    ensures var rk, t := Stages(r, InsertingAfter, ts, c, k), ts[k];
      var r', b := Stages(r, InsertingAfter, ts, c, k1), Batch(r, InsertingAfter, ts, c, k);
      var w := Kids(rk.dom, p);
      var j := IndexOf(w, t) + 1;
      r'.thrown.None? && Parent(rk.dom, t) == Some(p)
        && (k > 0 || (Distinct(c) && (ChildAfter(rk.dom, p, t).Some? ==> ChildAfter(rk.dom, p, t).value !in c))) ==>
      && Kids(r'.dom, p) == Strip(w[..j], b) + b + Strip(w[j..], b)
      && (k > 0 ==> Strip(w[..j], b) == w[..j] && Strip(w[j..], b) == w[j..])
  {
    var rk, t := Stages(r, InsertingAfter, ts, c, k), ts[k];
    BatchPlaced(r, InsertingAfter, ts, c, k);
    assert Stages(r, InsertingAfter, ts, c, k1) == Stage(rk, InsertingAfter, t, c, k > 0);
    if rk.thrown.None? && Parent(rk.dom, t) == Some(p)
      && (k > 0 || (Distinct(c) && (ChildAfter(rk.dom, p, t).Some? ==> ChildAfter(rk.dom, p, t).value !in c)))
    {
      StagesFrame(r, InsertingAfter, ts, c, 0, k);
      StageAfter(rk, t, c, k > 0, p, Batch(r, InsertingAfter, ts, c, k), IndexOf(Kids(rk.dom, p), t) + 1);
    }
  }

  /** `insertAfter` on one target, with the nodes it places and the split point named. */
  lemma StageAfter(r: Run, t: NodeId, c: seq<NodeId>, copy: bool, p: NodeId, b: seq<NodeId>, j: int)
    requires WellFormed(r.dom) && r.thrown.None? && Parent(r.dom, t) == Some(p)
    requires copy || (Distinct(c) && (ChildAfter(r.dom, p, t).Some? ==> ChildAfter(r.dom, p, t).value !in c))
    requires b == PlacedBy(r, StageMode(r.dom, InsertingAfter, t), t, c, copy, |c|)
    requires j == IndexOf(Kids(r.dom, p), t) + 1
    ensures Stage(r, InsertingAfter, t, c, copy).thrown.None? ==>
      var w := Kids(r.dom, p);
      && Kids(Stage(r, InsertingAfter, t, c, copy).dom, p) == Strip(w[..j], b) + b + Strip(w[j..], b)
      && (copy ==> Strip(w[..j], b) == w[..j] && Strip(w[j..], b) == w[j..])
  {
    StageAfterKids(r, t, c, copy, p);
    if copy {
      StageAfterFresh(r, t, c, p, b, j);
    }
  }

  /** A copying `insertAfter` stage places only new clones, so they are in neither part of the
      parent's children. */
  lemma StageAfterFresh(r: Run, t: NodeId, c: seq<NodeId>, p: NodeId, b: seq<NodeId>, j: int)
    requires WellFormed(r.dom) && r.thrown.None? && Parent(r.dom, t) == Some(p)
    requires b == PlacedBy(r, StageMode(r.dom, InsertingAfter, t), t, c, true, |c|)
    requires j == IndexOf(Kids(r.dom, p), t) + 1
    ensures Stage(r, InsertingAfter, t, c, true).thrown.None? ==>
      var w := Kids(r.dom, p);
      Strip(w[..j], b) == w[..j] && Strip(w[j..], b) == w[j..]
  {
    if Stage(r, InsertingAfter, t, c, true).thrown.None? {
      assert forall i :: 0 <= i < |b| ==> r.dom.next <= b[i] by {
        StageFresh(r, InsertingAfter, t, c);
      }
      assert forall y :: y in Kids(r.dom, p) ==> y < r.dom.next by {
        KidsBelow(r.dom, p);
      }
      FreshSplit(Kids(r.dom, p), j, b, r.dom.next);
    }
  }

  /** Every other element only loses, from its children, the nodes the stage for target `k`
      places; for every target after the first those are new clones, so nothing else changes. */
  lemma BatchOtherKids(r: Run, op: Op, ts: seq<NodeId>, c: seq<NodeId>, k: nat, k1: nat, q: NodeId)
    requires WellFormed(r.dom) && k < |ts| && (op.Appending? ==> ts[k] in r.dom.nodes) && k1 == k + 1
    ensures var rk, t := Stages(r, op, ts, c, k), ts[k];
      var r', b := Stages(r, op, ts, c, k1), Batch(r, op, ts, c, k);
      r'.thrown.None? && q in rk.dom.nodes && StageReceiver(rk.dom, op, t) != Some(q) ==>
      Kids(r'.dom, q) == (if k == 0 then Strip(Kids(rk.dom, q), b) else Kids(rk.dom, q))
  {
    var t := ts[k];
    var rk := Stages(r, op, ts, c, k);
    var copy := k > 0;
    var b := PlacedBy(rk, StageMode(rk.dom, op, t), t, c, copy, |c|);
    assert Batch(r, op, ts, c, k) == b;
    assert Stages(r, op, ts, c, k1) == Stage(rk, op, t, c, copy);
    StageFill(rk, op, t, c, copy);
    if rk.thrown.None? && Stage(rk, op, t, c, copy).thrown.None? && q in rk.dom.nodes && StageReceiver(rk.dom, op, t) != Some(q) {
      assert WellFormed(rk.dom) && (op.Appending? ==> t in rk.dom.nodes) by {
        StagesFrame(r, op, ts, c, 0, k);
      }
      StageOtherKids(rk, op, t, c, copy, q);
      if copy {
        StageFresh(rk, op, t, c);
        KidsBelow(rk.dom, q);
        FreshStrip(Kids(rk.dom, q), b, rk.dom.next);
      }
    }
  }
}
