/** `insertAfter` when the content holds the target's own next sibling. The sibling is read
    once, before the loop, and every node is put in front of it; so when the sibling itself
    comes up it stays where it is, and the content nodes after it in the argument end up
    before it. The content order is kept only when the sibling is not among the content. */
module AfterOrder {
  import opened DomTree
  import opened Engine
  import opened Steps
  import opened Passes
  import opened Targets

  /** A parent 0 with children [1, 2] and a detached element 3. */
  function Sample(): Dom
  {
    Dom(map[0 := Node("div", "", None, [1, 2]),
            1 := Node("p", "", Some(0), []),
            2 := Node("p", "", Some(0), []),
            3 := Node("p", "", None, [])], 4)
  }

  /** The same document once 3 sits between 1 and 2. */
  function SampleAfter(): Dom
  {
    Dom(map[0 := Node("div", "", None, [1, 3, 2]),
            1 := Node("p", "", Some(0), []),
            2 := Node("p", "", Some(0), []),
            3 := Node("p", "", Some(0), [])], 4)
  }

  /** Elements 2 and 3 have no children, so each one's subtree is itself. */
  lemma SampleLeaves()
    ensures Subtree(Sample(), 2) == [2] && Subtree(Sample(), 3) == [3]
  {
    var d0 := Sample();
    assert Subtree(d0, 2) == [2] by {
      assert Scan(d0, [2], 0, 0) == Reach(d0, [2], 1);
    }
    assert Subtree(d0, 3) == [3] by {
      assert Scan(d0, [3], 0, 0) == Reach(d0, [3], 1);
    }
  }

  /** Taking 2 out of 0's children and appending it again gives the same document. */
  lemma SampleRelink()
    ensures Link(Detach(Sample(), 2), 0, 2, None) == Sample()
  {
    var d0 := Sample();
    var d1 := Detach(d0, 2);
    assert d1.nodes[0].kids == [1];
    assert Splice([1], 2, None) == [1, 2];
    var d2 := Link(d1, 0, 2, None);
    assert d2.nodes.Keys == d0.nodes.Keys;
    assert forall y :: y in d0.nodes ==> d2.nodes[y] == d0.nodes[y];
    assert d2.nodes == d0.nodes;
  }

  /** Inserting `n` before a sibling `v` under `p`, when nothing makes pre-insertion throw. */
  lemma PutBefore(d: Dom, t: NodeId, n: NodeId, v: NodeId, p: NodeId)
    requires Parent(d, v) == Some(p) && p in d.nodes && n in d.nodes && p !in Subtree(d, n)
    ensures Put(d, After(Some(v)), t, n) == Ok(Link(Detach(d, n), p, n, Reference(d, n, Some(v))))
  {
  }

  /** The facts about `Sample` the two passes use. */
  lemma SampleParents()
    ensures Parent(Sample(), 2) == Some(0) && 0 in Sample().nodes && 2 in Sample().nodes && 3 in Sample().nodes
    ensures Reference(Sample(), 2, Some(2)) == None && Reference(Sample(), 3, Some(2)) == Some(2)
  {
    assert IndexOf([1, 2], 2) == 1;
  }

  /** `insertBefore(2, 2)` under 0: the reference moves on to 2's next sibling, which is
      null, so 2 is appended, where it already was. */
  lemma SampleFirstPass()
    ensures Put(Sample(), After(Some(2)), 1, 2) == Ok(Sample())
  {
    SampleLeaves();
    SampleParents();
    SampleRelink();
    PutBefore(Sample(), 1, 2, 2, 0);
  }

  /** `insertBefore(3, 2)` under 0: 3 goes in front of 2. */
  lemma SampleSecondPass()
    ensures Put(Sample(), After(Some(2)), 1, 3) == Ok(SampleAfter())
  {
    SampleLeaves();
    SampleParents();
    PutBefore(Sample(), 1, 3, 2, 0);
    assert Splice([1, 2], 3, Some(2)) == [1, 3, 2] by {
      assert IndexOf([1, 2], 2) == 1;
      assert [1, 2][..1] == [1] && [1, 2][1..] == [2];
    }
    assert Link(Detach(Sample(), 3), 0, 3, Some(2)) == SampleAfter();
  }

  /** The first pass of `insertAfter([2, 3])` on element 1 leaves the document as it was. */
  lemma SampleFirstFill()
    ensures Fill(Run(Sample(), [], None), After(Some(2)), 1, [2, 3], false, 1) == Run(Sample(), [2], None)
  {
    SampleFirstPass();
    assert Pass(Sample(), [], After(Some(2)), 1, 2, false) == Run(Sample(), [2], None);
  }

  /** The second pass puts 3 in front of 2. */
  lemma SampleSecondFill()
    ensures Fill(Run(Sample(), [], None), After(Some(2)), 1, [2, 3], false, 2) == Run(SampleAfter(), [2, 3], None)
  {
    SampleFirstFill();
    SampleSecondPass();
    assert [2] + [3] == [2, 3];
    assert Pass(Sample(), [2], After(Some(2)), 1, 3, false) == Run(SampleAfter(), [2, 3], None);
  }

  /** Element 1 sits under 0, and its next sibling is 2. */
  lemma SampleSibling()
    ensures Parent(Sample(), 1) == Some(0) && ChildAfter(Sample(), 0, 1) == Some(2)
  {
    assert IndexOf([1, 2], 1) == 0;
  }

  /** The loop of `insertAfter([2, 3])` on element 1 runs both passes. */
  lemma SampleStages()
    ensures Stages(Run(Sample(), [], None), InsertingAfter, [1], [2, 3], 1) == Run(SampleAfter(), [2, 3], None)
  {
    SampleSecondFill();
    SampleSibling();
    assert Stage(Run(Sample(), [], None), InsertingAfter, 1, [2, 3], false) == Run(SampleAfter(), [2, 3], None);
  }

  /** `insertAfter([2, 3])` on element 1, whose next sibling is 2: the call succeeds and hands
      back [2, 3], but the parent's children become [1, 3, 2], not [1, 2, 3]. */
  lemma SiblingOrderBroken(construct: string -> seq<NodeId>)
    ensures var e := InsertAfterSpec(Sample(), [1], Elements([2, 3]), construct);
      e.out == Made([2, 3]) && Kids(e.dom, 0) == [1, 3, 2]
  {
    SampleStages();
    assert ResolveInsertAfter(Elements([2, 3]), construct) == Nodes([2, 3]);
  }

  // ---------------------------------------------------------------------------
  // The loop as written

  /** The parent's children after some passes, with `v` the sibling read before the loop:
      the children before `v`, the placed nodes other than `v`, `v`, then the children after
      `v`, each without the placed nodes. When `v` is not placed this is the order the
      content came in. */
  ghost predicate SiblingShape(r: Run, b: seq<NodeId>, p: NodeId, a: seq<NodeId>, v: NodeId, w: seq<NodeId>)
  {
    r.thrown.None? ==> Kids(r.dom, p) == Strip(a, b) + Strip(b, [v]) + [v] + Strip(w, b)
  }

  /** Where the loop starts: the parent's children are `a`, the sibling `v`, then `w`. */
  ghost predicate SiblingReady(r: Run, t: NodeId, c: seq<NodeId>, p: NodeId, a: seq<NodeId>, v: NodeId, w: seq<NodeId>)
  {
    && WellFormed(r.dom) && Steady(r.dom, After(Some(v)), t, p)
    && Kids(r.dom, p) == a + [v] + w && v !in a && v !in w && Distinct(c)
  }

  /** A node `n` other than `v` goes in front of `v`, after the nodes placed before it. */
  lemma SiblingBefore(a: seq<NodeId>, b: seq<NodeId>, v: NodeId, w: seq<NodeId>, n: NodeId)
    requires v !in a && n !in b && n != v
    ensures Splice(Strip(Strip(a, b) + Strip(b, [v]) + [v] + Strip(w, b), [n]), n, Some(v))
         == Strip(a, b + [n]) + Strip(b + [n], [v]) + [v] + Strip(w, b + [n])
  {
    var a1, bv, w1 := Strip(a, b + [n]), Strip(b, [v]), Strip(w, b + [n]);
    assert Strip(Strip(a, b) + bv + [v] + Strip(w, b), [n]) == (a1 + bv) + ([v] + w1) by {
      SiblingStrip(a, b, v, w, n);
    }
    assert v !in a1 + bv;
    SpliceBefore(a1 + bv, [v] + w1, n);
    assert Strip(b + [n], [v]) == bv + [n] by {
      StripAppend(b, [n], [v]);
      StripNothing([n], [v]);
    }
    Regroup(a1, bv, n, v, w1);
  }

  /** Taking `n` out of the children of SiblingShape, when `n` is neither placed nor `v`. */
  lemma SiblingStrip(a: seq<NodeId>, b: seq<NodeId>, v: NodeId, w: seq<NodeId>, n: NodeId)
    requires n !in b && n != v
    ensures Strip(Strip(a, b) + Strip(b, [v]) + [v] + Strip(w, b), [n])
         == (Strip(a, b + [n]) + Strip(b, [v])) + ([v] + Strip(w, b + [n]))
  {
    var ab, bv, wb := Strip(a, b), Strip(b, [v]), Strip(w, b);
    assert Strip(ab + bv + [v] + wb, [n]) == Strip(ab + bv + [v], [n]) + Strip(wb, [n]) by {
      StripAppend(ab + bv + [v], wb, [n]);
    }
    assert Strip(ab + bv + [v], [n]) == Strip(ab + bv, [n]) + [v] by {
      StripAppend(ab + bv, [v], [n]);
      StripNothing([v], [n]);
    }
    assert Strip(ab + bv, [n]) == Strip(a, b + [n]) + bv by {
      StripAppend(ab, bv, [n]);
      StripTwice(a, b, [n]);
      StripNothing(bv, [n]);
    }
    assert Strip(wb, [n]) == Strip(w, b + [n]) by {
      StripTwice(w, b, [n]);
    }
    Join(Strip(a, b + [n]) + bv, [v], Strip(w, b + [n]));
  }

  lemma Regroup(a: seq<NodeId>, b: seq<NodeId>, n: NodeId, v: NodeId, w: seq<NodeId>)
    ensures (a + b) + [n] + ([v] + w) == a + (b + [n]) + [v] + w
  {
  }

  /** `insertBefore(v, v)`: the reference moves on to `v`'s next sibling, so `v` goes back
      where it was. */
  lemma SiblingItself(front: seq<NodeId>, v: NodeId, tail: seq<NodeId>)
    requires v !in front && Distinct(front + [v] + tail)
    ensures var k, i := front + [v] + tail, IndexOf(front + [v] + tail, v);
      && i == |front|
      && Splice(Strip(k, [v]), v, if i + 1 < |k| then Some(k[i + 1]) else None) == k
  {
    var k := front + [v] + tail;
    assert IndexOf(k, v) == |front| by {
      assert k == front + ([v] + tail);
      IndexOfAppend(front, [v] + tail, v);
    }
    assert v !in tail && (tail != [] ==> tail[0] !in front) by {
      DistinctParts(front, v, tail);
    }
    assert Strip(k, [v]) == front + tail by {
      StripOne(front, v, tail);
    }
    SiblingBack(front, v, tail, k);
  }

  /** Putting `v` back in front of the element that followed it. */
  lemma SiblingBack(front: seq<NodeId>, v: NodeId, tail: seq<NodeId>, k: seq<NodeId>)
    requires k == front + [v] + tail && (tail != [] ==> tail[0] !in front)
    ensures Splice(front + tail, v, if |front| + 1 < |k| then Some(k[|front| + 1]) else None) == k
  {
    if tail != [] {
      assert k[|front| + 1] == tail[0];
      SpliceBefore(front, tail, v);
    } else {
      assert front + tail == front;
    }
  }

  /** What a list without repeats says about its parts around `v`. */
  lemma DistinctParts(front: seq<NodeId>, v: NodeId, tail: seq<NodeId>)
    requires Distinct(front + [v] + tail)
    ensures v !in tail && (tail != [] ==> tail[0] !in front)
  {
    var k := front + [v] + tail;
    forall y | 0 <= y < |tail| ensures tail[y] != v {
      assert k[|front| + 1 + y] == tail[y] && k[|front|] == v;
    }
    if tail != [] {
      forall y | 0 <= y < |front| ensures front[y] != tail[0] {
        assert k[y] == front[y] && k[|front| + 1] == tail[0];
      }
    }
  }

  /** Taking `v` out of `front + [v] + tail` when it occurs only there. */
  lemma StripOne(front: seq<NodeId>, v: NodeId, tail: seq<NodeId>)
    requires v !in front && v !in tail
    ensures Strip(front + [v] + tail, [v]) == front + tail
  {
    var x := front + [v];
    assert Strip(x + tail, [v]) == Strip(x, [v]) + Strip(tail, [v]) by {
      StripAppend(x, tail, [v]);
    }
    assert Strip(x, [v]) == front by {
      StripAppend(front, [v], [v]);
      StripNothing(front, [v]);
      assert Strip([v], [v]) == [] by {
        assert [v][1..] == [];
      }
    }
    assert Strip(tail, [v]) == tail by {
      StripNothing(tail, [v]);
    }
  }

  /** Placing `v` itself keeps the shape: it was not placed before and is not among `a` or
      `w`, so taking it out of them changes nothing. */
  lemma SiblingRegroup(a: seq<NodeId>, b: seq<NodeId>, v: NodeId, w: seq<NodeId>)
    requires v !in a && v !in b && v !in w
    ensures Strip(a, b + [v]) == Strip(a, b) && Strip(w, b + [v]) == Strip(w, b)
    ensures Strip(b + [v], [v]) == Strip(b, [v]) && Strip(b, [v]) == b
  {
    StripTwice(a, b, [v]);
    StripNothing(Strip(a, b), [v]);
    StripTwice(w, b, [v]);
    StripNothing(Strip(w, b), [v]);
    StripAppend(b, [v], [v]);
    StripNothing(b, [v]);
  }

  /** One pass, from the run `r1` with `b1` placed to the run `r2` with `b2`. */
  lemma SiblingPassAt(r1: Run, r2: Run, t: NodeId, x: NodeId, p: NodeId, a: seq<NodeId>, v: NodeId, w: seq<NodeId>, b1: seq<NodeId>, b2: seq<NodeId>)
    requires WellFormed(r1.dom) && Steady(r1.dom, After(Some(v)), t, p)
    requires r2 == Step(r1, After(Some(v)), t, x, false) && b2 == b1 + [x]
    requires r1.thrown.None? && SiblingShape(r1, b1, p, a, v, w)
    requires x !in b1 && v !in a && v !in w
    ensures SiblingShape(r2, b2, p, a, v, w)
  {
    if r2.thrown.None? {
      ParentsChildren(r1.dom, t, p);
      StepKids(r1, After(Some(v)), t, x, false, p);
      if x != v {
        SiblingBefore(a, b1, v, w, x);
      } else {
        SiblingRegroup(a, b1, v, w);
        SiblingItself(Strip(a, b1) + Strip(b1, [v]), v, Strip(w, b1));
      }
    }
  }

  /** The step of the induction below. */
  lemma SiblingPass(r: Run, t: NodeId, c: seq<NodeId>, m: nat, p: NodeId, a: seq<NodeId>, v: NodeId, w: seq<NodeId>)
    requires SiblingReady(r, t, c, p, a, v, w) && 0 < m <= |c|
    requires SiblingShape(Fill(r, After(Some(v)), t, c, false, m - 1), PlacedBy(r, After(Some(v)), t, c, false, m - 1), p, a, v, w)
    ensures SiblingShape(Fill(r, After(Some(v)), t, c, false, m), PlacedBy(r, After(Some(v)), t, c, false, m), p, a, v, w)
  {
    var mode := After(Some(v));
    if Fill(r, mode, t, c, false, m).thrown.None? {
      FillSteps(r, mode, t, c, false, m - 1, m, p);
      SiblingPassAt(Fill(r, mode, t, c, false, m - 1), Fill(r, mode, t, c, false, m), t, c[m - 1], p, a, v, w,
        PlacedBy(r, mode, t, c, false, m - 1), PlacedBy(r, mode, t, c, false, m));
    }
  }

  /** Before the first pass the children are the sibling shape with nothing placed. */
  lemma SiblingStart(r: Run, t: NodeId, c: seq<NodeId>, p: NodeId, a: seq<NodeId>, v: NodeId, w: seq<NodeId>)
    requires SiblingReady(r, t, c, p, a, v, w)
    ensures SiblingShape(r, [], p, a, v, w)
  {
    StripNothing(a, []);
    StripNothing(w, []);
  }

  /** The loop of the first target keeps the sibling shape, pass after pass. */
  lemma {:induction false} FillSiblingKids(r: Run, t: NodeId, c: seq<NodeId>, m: nat, p: NodeId, a: seq<NodeId>, v: NodeId, w: seq<NodeId>)
    requires SiblingReady(r, t, c, p, a, v, w) && m <= |c|
    ensures SiblingShape(Fill(r, After(Some(v)), t, c, false, m), PlacedBy(r, After(Some(v)), t, c, false, m), p, a, v, w)
  {
    if m == 0 {
      SiblingStart(r, t, c, p, a, v, w);
    } else {
      FillSiblingKids(r, t, c, m - 1, p, a, v, w);
      SiblingPass(r, t, c, m, p, a, v, w);
    }
  }

  /** `insertAfter`, first target `t` with a next sibling `v`, content without repeats: the
      parent ends with the children before `v`, then the content nodes other than `v`, in
      order, then `v`, then the rest. When `v` is a content node it therefore comes last
      among them, whatever its position in the content. */
  lemma SiblingStays(r: Run, t: NodeId, c: seq<NodeId>, p: NodeId)
    requires WellFormed(r.dom) && Parent(r.dom, t) == Some(p) && Distinct(c)
    ensures var w := Kids(r.dom, p);
      var j, r' := IndexOf(w, t) + 1, Stage(r, InsertingAfter, t, c, false);
      r'.thrown.None? && j < |w| ==>
      Kids(r'.dom, p) == Strip(w[..j], c) + Strip(c, [w[j]]) + [w[j]] + Strip(w[j + 1..], c)
  {
    var d := r.dom;
    var w := Kids(d, p);
    var j := IndexOf(w, t) + 1;
    if r.thrown.None? && j < |w| {
      AfterSplit(d, t, p);
      assert Distinct(w) by {
        ParentsChildren(d, t, p);
      }
      SiblingCut(w, j);
      assert Stage(r, InsertingAfter, t, c, false) == Fill(r, After(Some(w[j])), t, c, false, |c|);
      SiblingFill(r, t, c, p, w[..j], w[j], w[j + 1..]);
    }
  }

  /** The children around the sibling at position `j`. */
  lemma SiblingCut(w: seq<NodeId>, j: nat)
    requires Distinct(w) && j < |w|
    ensures w[j..] == [w[j]] + w[j + 1..] && w[..j] + w[j..] == w[..j] + [w[j]] + w[j + 1..]
    ensures w[j] !in w[j + 1..] && Front(w[j..]) == Some(w[j])
  {
    assert w[j..] == [w[j]] + w[j + 1..];
    forall y | j + 1 <= y < |w| ensures w[y] != w[j] {
    }
  }

  /** The whole loop of the first target, from the sibling shape's start. */
  lemma SiblingFill(r: Run, t: NodeId, c: seq<NodeId>, p: NodeId, a: seq<NodeId>, v: NodeId, w: seq<NodeId>)
    requires SiblingReady(r, t, c, p, a, v, w)
    ensures var r' := Fill(r, After(Some(v)), t, c, false, |c|);
      r'.thrown.None? ==> Kids(r'.dom, p) == Strip(a, c) + Strip(c, [v]) + [v] + Strip(w, c)
  {
    FillSiblingKids(r, t, c, |c|, p, a, v, w);
    FillOriginals(r, After(Some(v)), t, c, |c|);
    assert c[..|c|] == c;
  }

  // ---------------------------------------------------------------------------
  // The intended reading: the sibling is the first child after the target that is not
  // itself going to be moved.

  /** Index of the first element of `s` that is not in `xs`, or `|s|`. */
  function FirstOutside(s: seq<NodeId>, xs: seq<NodeId>): (i: nat)
    ensures i <= |s| && (i < |s| ==> s[i] !in xs)
    ensures forall k :: 0 <= k < i ==> s[k] in xs
  {
    if s == [] || s[0] !in xs then 0 else 1 + FirstOutside(s[1..], xs)
  }

  lemma {:induction false} StripAll(s: seq<NodeId>, xs: seq<NodeId>)
    requires forall y :: y in s ==> y in xs
    ensures Strip(s, xs) == []
  {
    if s != [] {
      StripAll(s[1..], xs);
    }
  }

  /** The child of `p` after `t` that `insertAfter` should put the nodes `xs` in front of: the
      first one that is not among them. */
  function SiblingOutside(d: Dom, p: NodeId, t: NodeId, xs: seq<NodeId>): Option<NodeId>
  {
    var w := Kids(d, p);
    Front(Strip(w[IndexOf(w, t) + 1..], xs))
  }

  /** The stage of the first target, the originals, with the sibling read as intended. */
  function FixedStage(r: Run, t: NodeId, c: seq<NodeId>): Run
  {
    if r.thrown.Some? then r
    else match Parent(r.dom, t)
      case None => Run(r.dom, r.made, Some(NullParent))
      case Some(p) => Fill(r, After(SiblingOutside(r.dom, p, t, c)), t, c, false, |c|)
  }

  /** The children after the target that `c` holds before the first one it does not hold
      contribute nothing once `c` is taken out. */
  lemma OutsidePrefix(tail: seq<NodeId>, c: seq<NodeId>, i: nat)
    requires i == FirstOutside(tail, c)
    ensures Strip(tail[..i], c) == [] && Strip(tail, c) == Strip(tail[i..], c)
  {
    assert Strip(tail[..i], c) == [] by {
      StripAll(tail[..i], c);
    }
    assert Strip(tail, c) == Strip(tail[..i], c) + Strip(tail[i..], c) by {
      assert tail == tail[..i] + tail[i..];
      StripAppend(tail[..i], tail[i..], c);
    }
  }

  /** In a list without repeats, an element occurs nowhere before its position. */
  lemma NotBefore(w: seq<NodeId>, k: nat)
    requires Distinct(w) && k < |w|
    ensures w[k] !in w[..k]
  {
    forall y | 0 <= y < k ensures w[y] != w[k] {
    }
  }

  lemma SliceJoin(w: seq<NodeId>, j: nat, i: nat)
    requires j + i <= |w|
    ensures w[..j] + w[j..][..i] == w[..j + i] && w[j..][i..] == w[j + i..]
    ensures w == w[..j + i] + w[j + i..]
  {
    var a := w[..j] + w[j..][..i];
    assert |a| == j + i;
    forall k | 0 <= k < j + i ensures a[k] == w[k] {
      if k >= j {
        assert a[k] == w[j..][k - j];
      }
    }
  }

  /** Cutting the children after the target at the first one outside `c`. */
  lemma OutsideSplit(w: seq<NodeId>, j: nat, c: seq<NodeId>, i: nat, a: seq<NodeId>, v: seq<NodeId>)
    requires j <= |w| && Distinct(w) && i == FirstOutside(w[j..], c)
    requires a == w[..j] + w[j..][..i] && v == w[j..][i..]
    ensures w == a + v
    ensures Front(Strip(w[j..], c)) == Front(v) && Strip(w[j..], c) == Strip(v, c)
    ensures v != [] ==> v[0] !in a && v[0] !in c && v[0] in w
    ensures Strip(a, c) == Strip(w[..j], c)
  {
    var tail := w[j..];
    OutsidePrefix(tail, c, i);
    assert Strip(a, c) == Strip(w[..j], c) by {
      StripAppend(w[..j], tail[..i], c);
    }
    SliceJoin(w, j, i);
    if v != [] {
      assert v[0] == w[j + i];
      StripHead(v, c);
      NotBefore(w, j + i);
    } else {
      assert Strip(v, c) == [];
    }
  }

  /** The shape `FillAfterKids` needs holds for the split at the first child outside `c`. */
  lemma OutsideReady(r: Run, t: NodeId, c: seq<NodeId>, p: NodeId, a: seq<NodeId>, v: seq<NodeId>)
    requires WellFormed(r.dom) && Parent(r.dom, t) == Some(p) && Distinct(c)
    requires Kids(r.dom, p) == a + v && (v != [] ==> v[0] !in a && v[0] !in c)
    ensures AfterReady(r, t, c, false, p, a, v)
  {
    var d := r.dom;
    ParentsChildren(d, t, p);
    if v != [] {
      assert v[0] in Kids(d, p);
    }
  }

  /** With the sibling read past the content, `insertAfter` keeps the content order for the
      first target, whichever of the parent's children the content holds: the parent ends with
      its children up to the target, then the content in order, then the rest, with the content
      nodes taken out of both parts. */
  lemma FixedAfterKids(r: Run, t: NodeId, c: seq<NodeId>, p: NodeId)
    requires WellFormed(r.dom) && Parent(r.dom, t) == Some(p) && Distinct(c)
    ensures var w := Kids(r.dom, p);
      var j, r' := IndexOf(w, t) + 1, FixedStage(r, t, c);
      r'.thrown.None? ==>
      && j <= |w| && r'.made == r.made + c
      && Kids(r'.dom, p) == Strip(w[..j], c) + c + Strip(w[j..], c)
  {
    if r.thrown.None? {
      var a, v := FixedSplit(r, t, c, p);
      FixedFill(r, t, c, p, a, v);
    }
  }

  /** The split of the parent's children at the first child after the target that is not a
      content node, and the corrected stage as the loop from there. */
  lemma FixedSplit(r: Run, t: NodeId, c: seq<NodeId>, p: NodeId) returns (a: seq<NodeId>, v: seq<NodeId>)
    requires WellFormed(r.dom) && Parent(r.dom, t) == Some(p) && Distinct(c) && r.thrown.None?
    ensures var w := Kids(r.dom, p);
      var j := IndexOf(w, t) + 1;
      && j <= |w| && AfterReady(r, t, c, false, p, a, v)
      && FixedStage(r, t, c) == Fill(r, After(Front(v)), t, c, false, |c|)
      && Strip(a, c) == Strip(w[..j], c) && Strip(v, c) == Strip(w[j..], c)
  {
    var d := r.dom;
    var w := Kids(d, p);
    var j := IndexOf(w, t) + 1;
    assert Distinct(w) by {
      ParentsChildren(d, t, p);
    }
    var i := FirstOutside(w[j..], c);
    a, v := w[..j] + w[j..][..i], w[j..][i..];
    OutsideSplit(w, j, c, i, a, v);
    OutsideReady(r, t, c, p, a, v);
    FixedLoop(r, t, c, p, Front(v));
  }

  /** The corrected stage is the loop with the sibling it reads. */
  lemma FixedLoop(r: Run, t: NodeId, c: seq<NodeId>, p: NodeId, next: Option<NodeId>)
    requires r.thrown.None? && Parent(r.dom, t) == Some(p) && SiblingOutside(r.dom, p, t, c) == next
    ensures FixedStage(r, t, c) == Fill(r, After(next), t, c, false, |c|)
  {
  }

  /** The library's stage is the loop with the sibling it reads. */
  lemma LibraryLoop(r: Run, t: NodeId, c: seq<NodeId>, p: NodeId, next: Option<NodeId>)
    requires r.thrown.None? && Parent(r.dom, t) == Some(p) && ChildAfter(r.dom, p, t) == next
    ensures Stage(r, InsertingAfter, t, c, false) == Fill(r, After(next), t, c, false, |c|)
  {
  }

  /** The loop of the corrected stage, from the split at the first child outside `c`. */
  lemma FixedFill(r: Run, t: NodeId, c: seq<NodeId>, p: NodeId, a: seq<NodeId>, v: seq<NodeId>)
    requires AfterReady(r, t, c, false, p, a, v)
    ensures var r' := Fill(r, After(Front(v)), t, c, false, |c|);
      r'.thrown.None? ==> r'.made == r.made + c && Kids(r'.dom, p) == Strip(a, c) + c + Strip(v, c)
  {
    FillAfterKids(r, t, c, false, |c|, p, a, v);
    FillOriginals(r, After(Front(v)), t, c, |c|);
    FillMade(r, After(Front(v)), t, c, false, |c|);
    assert c[..|c|] == c;
  }

  /** The intended reading differs from the library's only when the sibling it reads is a
      content node. */
  lemma FixedAgrees(r: Run, t: NodeId, c: seq<NodeId>, p: NodeId)
    requires Parent(r.dom, t) == Some(p)
    requires ChildAfter(r.dom, p, t).Some? ==> ChildAfter(r.dom, p, t).value !in c
    ensures FixedStage(r, t, c) == Stage(r, InsertingAfter, t, c, false)
  {
    var next := ChildAfter(r.dom, p, t);
    if r.thrown.None? {
      SameSibling(r.dom, t, c, p);
      FixedLoop(r, t, c, p, next);
      LibraryLoop(r, t, c, p, next);
    }
  }

  /** Both reads give the same sibling when the library's is not a content node. */
  lemma SameSibling(d: Dom, t: NodeId, c: seq<NodeId>, p: NodeId)
    requires ChildAfter(d, p, t).Some? ==> ChildAfter(d, p, t).value !in c
    ensures SiblingOutside(d, p, t, c) == ChildAfter(d, p, t)
  {
    var w := Kids(d, p);
    var j := IndexOf(w, t) + 1;
    if j < |w| {
      assert w[j..][0] == w[j];
      StripHead(w[j..], c);
    } else {
      assert w[j..] == [];
    }
  }
}
