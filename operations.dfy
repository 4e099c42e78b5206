/** What `append`, `prepend` and `insertAfter` do as a whole: the collection they hand back,
    the clones it holds, and the children lists they leave. */
module Operations {
  import opened DomTree
  import opened Engine
  import opened Steps
  import opened Passes
  import opened Targets

  // ---------------------------------------------------------------------------
  // The collection handed back

  /** The nodes of the first `k` stages come first in the nodes of any later count. */
  lemma {:induction false} BatchesPrefix(r: Run, op: Op, ts: seq<NodeId>, c: seq<NodeId>, k: nat, n: nat)
    requires k <= n <= |ts|
    ensures k * |c| <= n * |c| && Batches(r, op, ts, c, n)[..k * |c|] == Batches(r, op, ts, c, k)
    decreases n
  {
    if k < n {
      var n0 := n - 1;
      BatchesPrefix(r, op, ts, c, k, n0);
      Scaled(k, n0, |c|);
      PrefixOfJoin(Batches(r, op, ts, c, n0), Batch(r, op, ts, c, n0), k * |c|);
    }
  }

  /** Counts of `m` ids are ordered as the counts are, and one more count adds `m`. */
  lemma Scaled(k: nat, n: nat, m: nat)
    requires k <= n
    ensures 0 <= k * m <= n * m && (n + 1) * m == n * m + m
  {
  }

  lemma PrefixOfJoin(s: seq<NodeId>, b: seq<NodeId>, x: nat)
    requires x <= |s|
    ensures (s + b)[..x] == s[..x]
  {
  }

  /** The nodes the stage for target `k` places sit at `k * |c|` onwards. */
  lemma BatchesAt(r: Run, op: Op, ts: seq<NodeId>, c: seq<NodeId>, k: nat)
    requires k < |ts|
    ensures k * |c| + |c| <= |ts| * |c|
    ensures Batches(r, op, ts, c, |ts|)[k * |c|..k * |c| + |c|] == Batch(r, op, ts, c, k)
  {
    var k1 := k + 1;
    BatchesPrefix(r, op, ts, c, k1, |ts|);
    Scaled(k, k, |c|);
    SliceOfPrefix(Batches(r, op, ts, c, |ts|), Batches(r, op, ts, c, k), Batch(r, op, ts, c, k), k * |c|, k1 * |c|);
  }

  lemma SliceOfPrefix(s: seq<NodeId>, a: seq<NodeId>, b: seq<NodeId>, x: nat, y: nat)
    requires x == |a| && y == |a| + |b| && y <= |s| && s[..y] == a + b
    ensures s[x..y] == b
  {
    assert s[x..y] == s[..y][x..];
  }

  /** The stages over every target, from a well-formed document, when none throws: the nodes
      handed back are the ones placed, `|ts| * |c|` of them; the first `|c|` are the content
      nodes, the rest are new ids in increasing order; the document stays well formed and no
      element loses its tag or markup. */
  lemma StagesDone(d: Dom, op: Op, ts: seq<NodeId>, c: seq<NodeId>)
    requires WellFormed(d)
    ensures var r0 := Run(d, [], None);
      var r := Stages(r0, op, ts, c, |ts|);
      r.thrown.None? ==>
      && r.made == Batches(r0, op, ts, c, |ts|)
      && |r.made| == |ts| * |c|
      && (|ts| > 0 ==> |c| <= |r.made| && r.made[..|c|] == c)
      && Rising(r.made, |c|, d.next, r.dom.next)
      && WellFormed(r.dom) && d.next <= r.dom.next
      && (forall y :: y in d.nodes ==> y in r.dom.nodes && Tag(r.dom, y) == Tag(d, y) && Html(r.dom, y) == Html(d, y))
  {
    var r0 := Run(d, [], None);
    var r := Stages(r0, op, ts, c, |ts|);
    StagesMade(r0, op, ts, c, |ts|);
    StagesFrame(r0, op, ts, c, 0, |ts|);
    if r.thrown.None? {
      if |ts| > 0 {
        BatchesFresh(r0, op, ts, c, |ts|);
        BatchesAt(r0, op, ts, c, 0);
        BatchOriginals(r0, op, ts, c);
        assert r.made[0 * |c|..0 * |c| + |c|] == r.made[..|c|];
      } else {
        assert r.made == [];
      }
    }
  }

  /** Target `k > 0` receives clones: the nodes its stage places, which BatchesAt locates in
      the collection handed back, are in the final document with the tags and markup of the
      content nodes. */
  lemma StagesCopies(d: Dom, op: Op, ts: seq<NodeId>, c: seq<NodeId>, k: nat)
    requires WellFormed(d) && AllIn(c, d) && 0 < k < |ts|
    ensures var r0 := Run(d, [], None);
      var r, b := Stages(r0, op, ts, c, |ts|), Batch(r0, op, ts, c, k);
      r.thrown.None? ==>
      forall j :: 0 <= j < |c| ==>
        b[j] in r.dom.nodes && Tag(r.dom, b[j]) == Tag(d, c[j]) && Html(r.dom, b[j]) == Html(d, c[j])
  {
    var r0 := Run(d, [], None);
    var r := Stages(r0, op, ts, c, |ts|);
    var k1 := k + 1;
    var b := Batch(r0, op, ts, c, k);
    if r.thrown.None? {
      var rk1 := Stages(r0, op, ts, c, k1);
      assert rk1.thrown.None? by {
        StagesReach(r0, op, ts, c, k1, |ts|);
      }
      assert forall j :: 0 <= j < |c| ==>
        b[j] in rk1.dom.nodes && Tag(rk1.dom, b[j]) == Tag(d, c[j]) && Html(rk1.dom, b[j]) == Html(d, c[j]) by {
        BatchCopies(r0, op, ts, c, k, k1);
        BatchFresh(r0, op, ts, c, k, k1);
      }
      assert WellFormed(rk1.dom) by {
        StagesFrame(r0, op, ts, c, 0, k1);
      }
      StagesFrame(r0, op, ts, c, k1, |ts|);
    }
  }

  /** Node `j` of the stage for target `k` in the nodes of all stages. */
  lemma BatchAt(r: Run, op: Op, ts: seq<NodeId>, c: seq<NodeId>, k: nat, j: nat)
    requires k < |ts| && j < |c|
    ensures k * |c| + j < |Batches(r, op, ts, c, |ts|)|
    ensures Batches(r, op, ts, c, |ts|)[k * |c| + j] == Batch(r, op, ts, c, k)[j]
  {
    Scaled(k, k, |c|);
    BatchesAt(r, op, ts, c, k);
    IndexInSlice(Batches(r, op, ts, c, |ts|), Batch(r, op, ts, c, k), k * |c|, k * |c| + |c|, j);
  }

  lemma IndexInSlice(s: seq<NodeId>, b: seq<NodeId>, x: nat, y: nat, j: nat)
    requires x <= y <= |s| && s[x..y] == b && j < |b|
    ensures x + j < |s| && s[x + j] == b[j]
  {
  }

  // ---------------------------------------------------------------------------
  // Children lists

  /** Stages after the first only add new clones to the element they edit, so an element
      that none of the stages `j` to `k` edits keeps its children. */
  lemma {:induction false} StagesKeepKids(r: Run, op: Op, ts: seq<NodeId>, c: seq<NodeId>, j: nat, k: nat, q: NodeId)
    requires WellFormed(r.dom) && 0 < j <= k <= |ts|
    requires forall i :: j <= i < k ==> StageReceiver(Stages(r, op, ts, c, i).dom, op, ts[i]) != Some(q)
    requires op.Appending? ==> forall i :: j <= i < k ==> ts[i] in r.dom.nodes
    ensures var rj, rk := Stages(r, op, ts, c, j), Stages(r, op, ts, c, k);
      rk.thrown.None? && q in rj.dom.nodes ==> Kids(rk.dom, q) == Kids(rj.dom, q)
    decreases k
  {
    if j < k && Stages(r, op, ts, c, k).thrown.None? && q in Stages(r, op, ts, c, j).dom.nodes {
      var k0 := k - 1;
      StagesKeepKids(r, op, ts, c, j, k0, q);
      StagesReach(r, op, ts, c, k0, k);
      assert q in Stages(r, op, ts, c, k0).dom.nodes by {
        StagesReach(r, op, ts, c, j, k0);
        StagesFrame(r, op, ts, c, 0, j);
        StagesFrame(r, op, ts, c, j, k0);
      }
      BatchOtherKids(r, op, ts, c, k0, k, q);
    }
  }

  /** `append`/`prepend`: after the first stage, an element that is not the first target has
      lost the content nodes from its children, and the stages up to `k` that do not target it
      leave it so. */
  lemma AppendKidsBefore(d: Dom, prepend: bool, ts: seq<NodeId>, c: seq<NodeId>, k: nat, q: NodeId)
    requires WellFormed(d) && 0 < k <= |ts| && q in d.nodes && q !in ts[..k]
    requires forall i :: 0 <= i < |ts| ==> ts[i] in d.nodes
    ensures var r0, op := Run(d, [], None), Appending(prepend);
      var rk := Stages(r0, op, ts, c, k);
      rk.thrown.None? ==> Kids(rk.dom, q) == Strip(Kids(d, q), c)
  {
    var r0, op := Run(d, [], None), Appending(prepend);
    if Stages(r0, op, ts, c, k).thrown.None? {
      assert ts[0] == ts[..k][0];
      StagesReach(r0, op, ts, c, 1, k);
      BatchOtherKids(r0, op, ts, c, 0, 1, q);
      BatchOriginals(r0, op, ts, c);
      assert forall i :: 1 <= i < k ==> ts[i] == ts[..k][i];
      StagesKeepKids(r0, op, ts, c, 1, k, q);
      StagesFrame(r0, op, ts, c, 0, 1);
    }
  }

  /** `append`/`prepend`, seen from target `k` when it is listed once: its stage leaves it
      with its own children, less the content nodes, followed (for `prepend`: preceded, in
      reverse order) by the nodes the stage placed; the later stages leave it so. */
  lemma AppendKidsAt(d: Dom, prepend: bool, ts: seq<NodeId>, c: seq<NodeId>, k: nat)
    requires WellFormed(d) && Distinct(c) && Distinct(ts) && k < |ts|
    requires forall i :: 0 <= i < |ts| ==> ts[i] in d.nodes
    ensures var r0, op := Run(d, [], None), Appending(prepend);
      var r, b, w := Stages(r0, op, ts, c, |ts|), Batch(r0, op, ts, c, k), Strip(Kids(d, ts[k]), c);
      r.thrown.None? ==> Kids(r.dom, ts[k]) == if prepend then Reversed(b) + w else w + b
  {
    var r0, op := Run(d, [], None), Appending(prepend);
    var q, k1 := ts[k], k + 1;
    var rk, rk1 := Stages(r0, op, ts, c, k), Stages(r0, op, ts, c, k1);
    if Stages(r0, op, ts, c, |ts|).thrown.None? {
      assert rk1.thrown.None? && rk.thrown.None? by {
        StagesReach(r0, op, ts, c, k1, |ts|);
        StagesReach(r0, op, ts, c, k, k1);
      }
      if k > 0 {
        assert Kids(rk.dom, q) == Strip(Kids(d, q), c) by {
          assert q !in ts[..k];
          AppendKidsBefore(d, prepend, ts, c, k, q);
        }
      } else {
        BatchOriginals(r0, op, ts, c);
      }
      BatchAppendKids(r0, prepend, ts, c, k, k1);
      assert q in rk1.dom.nodes by {
        StagesFrame(r0, op, ts, c, 0, k1);
      }
      assert forall i :: k1 <= i < |ts| ==> ts[i] != q;
      StagesKeepKids(r0, op, ts, c, k1, |ts|, q);
    }
  }

  /** `append`/`prepend` on targets listed once each, seen from any element: a target's
      children as AppendKidsAt states; any other element keeps its children less the content
      nodes, in order. */
  lemma AppendKids(d: Dom, prepend: bool, ts: seq<NodeId>, c: seq<NodeId>, q: NodeId)
    requires WellFormed(d) && Distinct(c) && Distinct(ts) && |ts| > 0 && q in d.nodes
    requires forall i :: 0 <= i < |ts| ==> ts[i] in d.nodes
    ensures var r0, op := Run(d, [], None), Appending(prepend);
      var r := Stages(r0, op, ts, c, |ts|);
      var w := Strip(Kids(d, q), c);
      r.thrown.None? ==>
      Kids(r.dom, q) ==
        if q !in ts then w
        else
          var b := Batch(r0, op, ts, c, IndexOf(ts, q));
          if prepend then Reversed(b) + w else w + b
  {
    if q !in ts {
      assert ts[..|ts|] == ts;
      AppendKidsBefore(d, prepend, ts, c, |ts|, q);
    } else {
      AppendKidsAt(d, prepend, ts, c, IndexOf(ts, q));
    }
  }

  /** Element `y` of stage `j` has the same parent after stage `k`, when that stage does not
      throw. */
  ghost predicate ParentKept(r: Run, op: Op, ts: seq<NodeId>, c: seq<NodeId>, j: nat, k: nat, y: NodeId)
    requires j <= k <= |ts|
  {
    var rj, rk := Stages(r, op, ts, c, j), Stages(r, op, ts, c, k);
    rk.thrown.None? && y in rj.dom.nodes ==> Parent(rk.dom, y) == Parent(rj.dom, y)
  }

  /** Stages after the first place only new clones, so the elements of stage `j` keep their
      parents through stage `k`. */
  lemma {:induction false} StagesKeepParents(r: Run, op: Op, ts: seq<NodeId>, c: seq<NodeId>, j: nat, k: nat, y: NodeId)
    requires WellFormed(r.dom) && 0 < j <= k <= |ts|
    requires op.Appending? ==> forall i :: j <= i < k ==> ts[i] in r.dom.nodes
    ensures ParentKept(r, op, ts, c, j, k, y)
    decreases k
  {
    if j < k {
      StagesKeepParents(r, op, ts, c, j, k - 1, y);
      KeepParentsStep(r, op, ts, c, j, k - 1, y);
    }
  }

  lemma KeepParentsStep(r: Run, op: Op, ts: seq<NodeId>, c: seq<NodeId>, j: nat, k: nat, y: NodeId)
    requires WellFormed(r.dom) && 0 < j <= k < |ts| && (op.Appending? ==> ts[k] in r.dom.nodes)
    requires ParentKept(r, op, ts, c, j, k, y)
    ensures ParentKept(r, op, ts, c, j, k + 1, y)
  {
    var k1 := k + 1;
    if Stages(r, op, ts, c, k1).thrown.None? && y in Stages(r, op, ts, c, j).dom.nodes {
      StagesReach(r, op, ts, c, k, k1);
      assert y in Stages(r, op, ts, c, k).dom.nodes by {
        StagesReach(r, op, ts, c, j, k);
        StagesFrame(r, op, ts, c, 0, j);
        StagesFrame(r, op, ts, c, j, k);
      }
      BatchParents(r, op, ts, c, k, k1, y);
    }
  }

  /** `insertAfter`: the stage of target `i` edits the parent the target had to begin with,
      when the target is not a content node. */
  lemma AfterReceiver(d: Dom, ts: seq<NodeId>, c: seq<NodeId>, i: nat)
    requires WellFormed(d) && i < |ts| && ts[i] in d.nodes && ts[i] !in c
    ensures var ri := Stages(Run(d, [], None), InsertingAfter, ts, c, i);
      ri.thrown.None? ==> StageReceiver(ri.dom, InsertingAfter, ts[i]) == Parent(d, ts[i])
  {
    var r0, op := Run(d, [], None), InsertingAfter;
    if i > 0 && Stages(r0, op, ts, c, i).thrown.None? {
      StagesReach(r0, op, ts, c, 1, i);
      BatchParents(r0, op, ts, c, 0, 1, ts[i]);
      StagesKeepParents(r0, op, ts, c, 1, i, ts[i]);
      assert ParentKept(r0, op, ts, c, 1, i, ts[i]);
      StagesFrame(r0, op, ts, c, 0, 1);
    }
  }

  /** `insertAfter`: after the first stage, an element that is not the parent of any of the
      first `k` targets has lost the content nodes from its children, and keeps so. */
  lemma AfterKidsBefore(d: Dom, ts: seq<NodeId>, c: seq<NodeId>, k: nat, q: NodeId)
    requires WellFormed(d) && 0 < k <= |ts| && q in d.nodes
    requires forall i :: 0 <= i < |ts| ==> ts[i] in d.nodes && ts[i] !in c
    requires forall i :: 0 <= i < k ==> Parent(d, ts[i]) != Some(q)
    ensures var r0 := Run(d, [], None);
      var rk := Stages(r0, InsertingAfter, ts, c, k);
      rk.thrown.None? ==> Kids(rk.dom, q) == Strip(Kids(d, q), c)
  {
    var r0, op := Run(d, [], None), InsertingAfter;
    if Stages(r0, op, ts, c, k).thrown.None? {
      StagesReach(r0, op, ts, c, 1, k);
      BatchOtherKids(r0, op, ts, c, 0, 1, q);
      BatchOriginals(r0, op, ts, c);
      forall i | 1 <= i < k ensures StageReceiver(Stages(r0, op, ts, c, i).dom, op, ts[i]) != Some(q) {
        StagesReach(r0, op, ts, c, i, k);
        AfterReceiver(d, ts, c, i);
      }
      StagesKeepKids(r0, op, ts, c, 1, k, q);
      StagesFrame(r0, op, ts, c, 0, 1);
    }
  }

  /** `insertAfter`, seen from the parent `p` of target `k` when `p` is the parent of no other
      target: the nodes of that target's stage follow the target in `p`'s children, in order,
      and the content nodes leave wherever else they were. */
  lemma AfterKidsAt(d: Dom, ts: seq<NodeId>, c: seq<NodeId>, k: nat, p: NodeId)
    requires WellFormed(d) && Distinct(c) && k < |ts| && Parent(d, ts[k]) == Some(p)
    requires forall i :: 0 <= i < |ts| ==> ts[i] in d.nodes && ts[i] !in c
    requires forall i :: 0 <= i < |ts| && i != k ==> Parent(d, ts[i]) != Some(p)
    requires k == 0 && ChildAfter(d, p, ts[0]).Some? ==> ChildAfter(d, p, ts[0]).value !in c
    ensures var r0 := Run(d, [], None);
      var r, b := Stages(r0, InsertingAfter, ts, c, |ts|), Batch(r0, InsertingAfter, ts, c, k);
      var w := if k == 0 then Kids(d, p) else Strip(Kids(d, p), c);
      var j := IndexOf(w, ts[k]) + 1;
      r.thrown.None? ==>
      && j <= |w|
      && Kids(r.dom, p) == if k == 0 then Strip(w[..j], c) + c + Strip(w[j..], c) else w[..j] + b + w[j..]
  {
    var r0, op := Run(d, [], None), InsertingAfter;
    var k1 := k + 1;
    var rk1 := Stages(r0, op, ts, c, k1);
    if Stages(r0, op, ts, c, |ts|).thrown.None? {
      StagesReach(r0, op, ts, c, k1, |ts|);
      AfterKidsStage(d, ts, c, k, k1, p);
      assert p in rk1.dom.nodes by {
        StagesFrame(r0, op, ts, c, 0, k1);
      }
      forall i | k1 <= i < |ts| ensures StageReceiver(Stages(r0, op, ts, c, i).dom, op, ts[i]) != Some(p) {
        StagesReach(r0, op, ts, c, i, |ts|);
        AfterReceiver(d, ts, c, i);
      }
      StagesKeepKids(r0, op, ts, c, k1, |ts|, p);
    }
  }

  /** The children of `p` right after the stage of its target `ts[k]`. */
  lemma AfterKidsStage(d: Dom, ts: seq<NodeId>, c: seq<NodeId>, k: nat, k1: nat, p: NodeId)
    requires WellFormed(d) && Distinct(c) && k < |ts| && k1 == k + 1 && Parent(d, ts[k]) == Some(p)
    requires forall i :: 0 <= i < |ts| ==> ts[i] in d.nodes && ts[i] !in c
    requires forall i :: 0 <= i < |ts| && i != k ==> Parent(d, ts[i]) != Some(p)
    requires k == 0 && ChildAfter(d, p, ts[0]).Some? ==> ChildAfter(d, p, ts[0]).value !in c
    ensures var r0 := Run(d, [], None);
      var rk1, b := Stages(r0, InsertingAfter, ts, c, k1), Batch(r0, InsertingAfter, ts, c, k);
      var w := if k == 0 then Kids(d, p) else Strip(Kids(d, p), c);
      var j := IndexOf(w, ts[k]) + 1;
      rk1.thrown.None? ==>
      && j <= |w|
      && Kids(rk1.dom, p) == if k == 0 then Strip(w[..j], c) + c + Strip(w[j..], c) else w[..j] + b + w[j..]
  {
    var r0, op := Run(d, [], None), InsertingAfter;
    var t := ts[k];
    var rk, rk1 := Stages(r0, op, ts, c, k), Stages(r0, op, ts, c, k1);
    if rk1.thrown.None? {
      assert rk.thrown.None? by {
        StagesReach(r0, op, ts, c, k, k1);
      }
      assert Parent(rk.dom, t) == Some(p) by {
        AfterReceiver(d, ts, c, k);
      }
      if k > 0 {
        assert Kids(rk.dom, p) == Strip(Kids(d, p), c) by {
          AfterKidsBefore(d, ts, c, k, p);
        }
      } else {
        BatchOriginals(r0, op, ts, c);
      }
      assert WellFormed(rk.dom) by {
        StagesFrame(r0, op, ts, c, 0, k);
      }
      AfterSplit(rk.dom, t, p);
      BatchAfterKids(r0, ts, c, k, k1, p);
    }
  }

  /** `insertAfter`, seen from an element that is the parent of no target: it keeps its
      children less the content nodes, in order. */
  lemma AfterKidsOther(d: Dom, ts: seq<NodeId>, c: seq<NodeId>, q: NodeId)
    requires WellFormed(d) && |ts| > 0 && q in d.nodes
    requires forall i :: 0 <= i < |ts| ==> ts[i] in d.nodes && ts[i] !in c && Parent(d, ts[i]) != Some(q)
    ensures var r := Stages(Run(d, [], None), InsertingAfter, ts, c, |ts|);
      r.thrown.None? ==> Kids(r.dom, q) == Strip(Kids(d, q), c)
  {
    AfterKidsBefore(d, ts, c, |ts|, q);
  }
}
