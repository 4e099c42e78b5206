/** What one pass of the inner loop does to the document: the facts every later proof is
    built from. */
module Steps {
  import opened DomTree
  import opened Engine

  /** The ids the mode reads are elements of the document. */
  ghost predicate ModeIn(d: Dom, mode: Mode, t: NodeId)
  {
    t in d.nodes && (mode.After? && mode.next.Some? ==> mode.next.value in d.nodes)
  }

  /** The node a step places: the content node itself, or the id its clone receives. */
  function Placed(d: Dom, x: NodeId, copy: bool): NodeId
  {
    if copy then d.next else x
  }

  /** The document a step works on once the clone, if any, exists. */
  function Prepared(d: Dom, x: NodeId, copy: bool): Dom
    requires copy ==> x in d.nodes
  {
    if copy then Clone(d, x) else d
  }

  /** Preparing keeps every element as it was and adds only fresh ones. */
  lemma PreparedFrame(d: Dom, x: NodeId, copy: bool)
    requires WellFormed(d) && x in d.nodes
    ensures var d1, n := Prepared(d, x, copy), Placed(d, x, copy);
      && WellFormed(d1) && n in d1.nodes && d.next <= d1.next
      && (copy ==> n !in d.nodes && d.next < d1.next && Parent(d1, n) == None)
      && (!copy ==> d1 == d)
      && Tag(d1, n) == Tag(d, x) && Html(d1, n) == Html(d, x)
      && (forall y :: y in d.nodes ==> y in d1.nodes && d1.nodes[y] == d.nodes[y])
  {
    if copy {
      CloneFrame(d, x);
      CloneWellFormed(d, x);
    }
  }

  /** A pass that starts without an exception is one host call on the prepared document:
      the node it pushes is the one it puts, whether the call succeeds or throws. */
  lemma {:induction false} StepPut(r: Run, mode: Mode, t: NodeId, x: NodeId, copy: bool)
    requires r.thrown.None? && (copy ==> x in r.dom.nodes)
    ensures var d1, n := Prepared(r.dom, x, copy), Placed(r.dom, x, copy);
      Step(r, mode, t, x, copy) == match Put(d1, mode, t, n)
        case Ok(d2) => Run(d2, r.made + [n], None)
        case Err(e) => Run(d1, r.made + [n], Some(e))
    decreases if copy then 1 else 0
  {
    if copy {
      StepPut(Run(Clone(r.dom, x), r.made, None), mode, t, r.dom.next, false);
    }
  }

  /** A pass that starts from a thrown exception changes nothing. */
  lemma StepThrown(r: Run, mode: Mode, t: NodeId, x: NodeId, copy: bool)
    ensures r.thrown.Some? ==> Step(r, mode, t, x, copy) == r
  {
  }

  /** A pass that does not throw started from an element of the document, and pushes the
      node it placed. */
  lemma StepMade(r: Run, mode: Mode, t: NodeId, x: NodeId, copy: bool)
    ensures var r' := Step(r, mode, t, x, copy);
      r'.thrown.None? ==> r.thrown.None? && x in r.dom.nodes && r'.made == r.made + [Placed(r.dom, x, copy)]
  {
    if r.thrown.None? && (copy ==> x in r.dom.nodes) {
      StepPut(r, mode, t, x, copy);
      var d1, n := Prepared(r.dom, x, copy), Placed(r.dom, x, copy);
      if Step(r, mode, t, x, copy).thrown.None? {
        PreInsertFails(d1, Receiver(d1, mode, t).value, n, Anchor(d1, mode, t));
      }
    }
  }

  /** A pass that does not throw hands out ids only when it copies. */
  lemma StepNext(r: Run, mode: Mode, t: NodeId, x: NodeId, copy: bool)
    ensures var r' := Step(r, mode, t, x, copy);
      r'.thrown.None? ==> (if copy then r.dom.next < r'.dom.next else r'.dom.next == r.dom.next)
  {
    if Step(r, mode, t, x, copy).thrown.None? {
      StepMade(r, mode, t, x, copy);
      StepPut(r, mode, t, x, copy);
      if copy {
        CloneFrame(r.dom, x);
      }
    }
  }

  /** A pass that does not throw keeps the document well formed and every element with its
      tag and markup; only a copying pass hands out ids. */
  lemma StepFrame(r: Run, mode: Mode, t: NodeId, x: NodeId, copy: bool)
    requires WellFormed(r.dom)
    ensures var r' := Step(r, mode, t, x, copy);
      r'.thrown.None? ==>
      && WellFormed(r'.dom) && r.dom.next <= r'.dom.next && (!copy ==> r'.dom.next == r.dom.next)
      && (forall y :: y in r.dom.nodes ==>
            y in r'.dom.nodes && Tag(r'.dom, y) == Tag(r.dom, y) && Html(r'.dom, y) == Html(r.dom, y))
  {
    if Step(r, mode, t, x, copy).thrown.None? {
      StepMade(r, mode, t, x, copy);
      StepPut(r, mode, t, x, copy);
      var d1, n := Prepared(r.dom, x, copy), Placed(r.dom, x, copy);
      PreparedFrame(r.dom, x, copy);
      PreInsertWellFormed(d1, Receiver(d1, mode, t).value, n, Anchor(d1, mode, t));
    }
  }

  /** The node a pass places is in the document with the tag and markup of the content node;
      a copy is a new id below the next one. */
  lemma StepPlaced(r: Run, mode: Mode, t: NodeId, x: NodeId, copy: bool)
    requires WellFormed(r.dom)
    ensures var r', n := Step(r, mode, t, x, copy), Placed(r.dom, x, copy);
      r'.thrown.None? ==>
      && n in r'.dom.nodes && Tag(r'.dom, n) == Tag(r.dom, x) && Html(r'.dom, n) == Html(r.dom, x)
      && (copy ==> n !in r.dom.nodes && n < r'.dom.next)
  {
    if Step(r, mode, t, x, copy).thrown.None? {
      StepMade(r, mode, t, x, copy);
      StepPut(r, mode, t, x, copy);
      var d1, n := Prepared(r.dom, x, copy), Placed(r.dom, x, copy);
      PreparedFrame(r.dom, x, copy);
      PreInsertWellFormed(d1, Receiver(d1, mode, t).value, n, Anchor(d1, mode, t));
    }
  }

  /** A pass that does not throw, as seen from one element `q` that existed before it: the
      placed node leaves every children list and enters the receiver's. */
  lemma StepKids(r: Run, mode: Mode, t: NodeId, x: NodeId, copy: bool, q: NodeId)
    requires WellFormed(r.dom) && ModeIn(r.dom, mode, t) && q in r.dom.nodes
    ensures Step(r, mode, t, x, copy).thrown.None? ==>
      && x in r.dom.nodes && Receiver(r.dom, mode, t).Some?
      && var d, d1, n := r.dom, Prepared(r.dom, x, copy), Placed(r.dom, x, copy);
         var p := Receiver(d, mode, t).value;
         Kids(Step(r, mode, t, x, copy).dom, q) ==
           if q == p then Splice(Strip(Kids(d, q), [n]), n, Reference(d1, n, Anchor(d, mode, t)))
           else Strip(Kids(d, q), [n])
  {
    if Step(r, mode, t, x, copy).thrown.None? {
      StepMade(r, mode, t, x, copy);
      StepPut(r, mode, t, x, copy);
      var d, d1, n := r.dom, Prepared(r.dom, x, copy), Placed(r.dom, x, copy);
      PreparedFrame(d, x, copy);
      assert Receiver(d1, mode, t) == Receiver(d, mode, t) && Anchor(d1, mode, t) == Anchor(d, mode, t);
      PreInsertWellFormed(d1, Receiver(d1, mode, t).value, n, Anchor(d1, mode, t));
    }
  }

  /** A pass that does not throw, as seen from the parent links: only the placed node moves,
      to the receiver. */
  lemma StepParent(r: Run, mode: Mode, t: NodeId, x: NodeId, copy: bool, y: NodeId)
    requires WellFormed(r.dom) && ModeIn(r.dom, mode, t) && (y in r.dom.nodes || y == Placed(r.dom, x, copy))
    ensures Step(r, mode, t, x, copy).thrown.None? ==>
      && Receiver(r.dom, mode, t).Some?
      && Parent(Step(r, mode, t, x, copy).dom, y) ==
           if y == Placed(r.dom, x, copy) then Receiver(r.dom, mode, t) else Parent(r.dom, y)
  {
    if Step(r, mode, t, x, copy).thrown.None? {
      StepMade(r, mode, t, x, copy);
      StepPut(r, mode, t, x, copy);
      var d, d1, n := r.dom, Prepared(r.dom, x, copy), Placed(r.dom, x, copy);
      PreparedFrame(d, x, copy);
      assert Receiver(d1, mode, t) == Receiver(d, mode, t) && Anchor(d1, mode, t) == Anchor(d, mode, t);
      PreInsertWellFormed(d1, Receiver(d1, mode, t).value, n, Anchor(d1, mode, t));
    }
  }

  /** `appendChild`: the placed node ends the target's children. */
  lemma StepLast(r: Run, t: NodeId, x: NodeId, copy: bool)
    requires WellFormed(r.dom) && t in r.dom.nodes
    ensures var n := Placed(r.dom, x, copy);
      Step(r, Last, t, x, copy).thrown.None? ==>
      Kids(Step(r, Last, t, x, copy).dom, t) == Strip(Kids(r.dom, t), [n]) + [n]
  {
    StepKids(r, Last, t, x, copy, t);
  }

  /** `insertBefore(node, firstElementChild)`: the placed node starts the target's children. */
  lemma StepFirst(r: Run, t: NodeId, x: NodeId, copy: bool)
    requires WellFormed(r.dom) && t in r.dom.nodes
    ensures var n := Placed(r.dom, x, copy);
      Step(r, First, t, x, copy).thrown.None? ==>
      Kids(Step(r, First, t, x, copy).dom, t) == [n] + Strip(Kids(r.dom, t), [n])
  {
    if Step(r, First, t, x, copy).thrown.None? {
      StepKids(r, First, t, x, copy, t);
      StepMade(r, First, t, x, copy);
      var d1, n := Prepared(r.dom, x, copy), Placed(r.dom, x, copy);
      PreparedFrame(r.dom, x, copy);
      assert Kids(d1, t) == Kids(r.dom, t);
      FirstSplice(d1, t, n);
    }
  }

  /** `appendChild` once more on children that already end with the nodes `b` placed before:
      a new node `n` joins them at the end. */
  lemma StepLastKids(r: Run, t: NodeId, x: NodeId, copy: bool, k: seq<NodeId>, b: seq<NodeId>)
    requires WellFormed(r.dom) && t in r.dom.nodes && Kids(r.dom, t) == Strip(k, b) + b
    ensures var r', n := Step(r, Last, t, x, copy), Placed(r.dom, x, copy);
      r'.thrown.None? && n !in b ==> Kids(r'.dom, t) == Strip(k, b + [n]) + (b + [n])
  {
    var n := Placed(r.dom, x, copy);
    StepLast(r, t, x, copy);
    if n !in b {
      StripMore(k, b, n, b);
      assert Strip(k, b + [n]) + b + [n] == Strip(k, b + [n]) + (b + [n]);
    }
  }

  /** `insertBefore(node, firstElementChild)` once more on children that start with the nodes
      `b` placed before, last placed first: a new node `n` goes in front of them. */
  lemma StepFirstKids(r: Run, t: NodeId, x: NodeId, copy: bool, k: seq<NodeId>, b: seq<NodeId>)
    requires WellFormed(r.dom) && t in r.dom.nodes && Kids(r.dom, t) == Reversed(b) + Strip(k, b)
    ensures var r', n := Step(r, First, t, x, copy), Placed(r.dom, x, copy);
      r'.thrown.None? && n !in b ==> Kids(r'.dom, t) == Reversed(b + [n]) + Strip(k, b + [n])
  {
    var n := Placed(r.dom, x, copy);
    StepFirst(r, t, x, copy);
    if n !in b {
      StripFront(k, b, n);
    }
  }

  /** `insertBefore(node, next)` with the sibling read before the loop: the placed node goes
      just before it in the parent's children. */
  lemma StepBefore(r: Run, t: NodeId, x: NodeId, copy: bool, p: NodeId, v: NodeId)
    requires WellFormed(r.dom) && ModeIn(r.dom, After(Some(v)), t) && Parent(r.dom, v) == Some(p)
    requires v != Placed(r.dom, x, copy)
    ensures var n := Placed(r.dom, x, copy);
      Step(r, After(Some(v)), t, x, copy).thrown.None? ==>
      Kids(Step(r, After(Some(v)), t, x, copy).dom, p) == Splice(Strip(Kids(r.dom, p), [n]), n, Some(v))
  {
    StepKids(r, After(Some(v)), t, x, copy, p);
    assert p in r.dom.nodes;
  }

  /** `parentNode.appendChild(node)` when there was no next sibling: the placed node ends the
      parent's children. */
  lemma StepAtEnd(r: Run, t: NodeId, x: NodeId, copy: bool, p: NodeId)
    requires WellFormed(r.dom) && t in r.dom.nodes && Parent(r.dom, t) == Some(p)
    ensures var n := Placed(r.dom, x, copy);
      Step(r, After(None), t, x, copy).thrown.None? ==>
      Kids(Step(r, After(None), t, x, copy).dom, p) == Strip(Kids(r.dom, p), [n]) + [n]
  {
    StepKids(r, After(None), t, x, copy, p);
    assert p in r.dom.nodes;
  }

  /** The first element of a list, if any. */
  function Front(s: seq<NodeId>): (r: Option<NodeId>)
    ensures r.Some? <==> s != []
  {
    if s == [] then None else Some(s[0])
  }

  /** `insertAfter` once more on a parent whose children are `a`, the nodes `b` placed
      before, and `c`, where `c` starts with the sibling read before the loop: a new node `n`
      joins the placed nodes. */
  lemma StepAfterKids(r: Run, t: NodeId, x: NodeId, copy: bool, p: NodeId, a: seq<NodeId>, c: seq<NodeId>, b: seq<NodeId>)
    requires WellFormed(r.dom) && ModeIn(r.dom, After(Front(c)), t) && Parent(r.dom, t) == Some(p)
    requires c != [] ==> Parent(r.dom, c[0]) == Some(p)
    requires Kids(r.dom, p) == Strip(a, b) + b + Strip(c, b)
    requires c != [] ==> c[0] !in a && c[0] !in b
    ensures var r', n := Step(r, After(Front(c)), t, x, copy), Placed(r.dom, x, copy);
      r'.thrown.None? && n !in b && (c != [] ==> c[0] != n) ==>
      Kids(r'.dom, p) == Strip(a, b + [n]) + (b + [n]) + Strip(c, b + [n])
  {
    var n := Placed(r.dom, x, copy);
    if n !in b && (c != [] ==> c[0] != n) {
      if c == [] {
        StepAtEnd(r, t, x, copy, p);
        AppendAround(a, b, n);
      } else {
        StepBefore(r, t, x, copy, p, c[0]);
        SpliceAround(a, b, c, n);
      }
    }
  }

  /** The element that receives the nodes of a loop stays `p`: for `insertAfter`, both the
      target and the sibling read before the loop keep `p` as parent. */
  ghost predicate Steady(d: Dom, mode: Mode, t: NodeId, p: NodeId)
  {
    && ModeIn(d, mode, t)
    && Receiver(d, mode, t) == Some(p)
    && (mode.After? ==> Parent(d, t) == Some(p) && (mode.next.Some? ==> Parent(d, mode.next.value) == Some(p)))
  }

  lemma StepSteady(r: Run, mode: Mode, t: NodeId, x: NodeId, copy: bool, p: NodeId)
    requires WellFormed(r.dom) && Steady(r.dom, mode, t, p)
    ensures Step(r, mode, t, x, copy).thrown.None? ==> Steady(Step(r, mode, t, x, copy).dom, mode, t, p)
  {
    if Step(r, mode, t, x, copy).thrown.None? {
      StepFrame(r, mode, t, x, copy);
      StepParent(r, mode, t, x, copy, t);
      if mode.After? && mode.next.Some? {
        StepParent(r, mode, t, x, copy, mode.next.value);
      }
    }
  }

  /** `insertBefore(n, firstElementChild)` always makes `n` the first child: when `n` already
      is the first child, the reference moves on to its next sibling and nothing changes. */
  lemma FirstSplice(d: Dom, t: NodeId, n: NodeId)
    requires Linked(d) && t in d.nodes
    ensures Splice(Strip(Kids(d, t), [n]), n, Reference(d, n, FirstElementChild(d, t))) == [n] + Strip(Kids(d, t), [n])
  {
    var k := Kids(d, t);
    if k != [] {
      assert Distinct(k);
      if k[0] == n {
        assert n in Kids(d, t);
        assert Parent(d, n) == Some(t);
        FirstIsNode(k, n, Reference(d, n, FirstElementChild(d, t)));
      } else {
        FirstIsOther(k, n);
      }
    }
  }

  lemma FirstIsNode(k: seq<NodeId>, n: NodeId, ref: Option<NodeId>)
    requires Distinct(k) && k != [] && k[0] == n
    requires ref == (if |k| > 1 then Some(k[1]) else None)
    ensures Splice(Strip(k, [n]), n, ref) == [n] + Strip(k, [n])
  {
    var s := Strip(k, [n]);
    assert s == k[1..] by {
      assert k == [n] + k[1..];
      StripAppend([n], k[1..], [n]);
      assert Strip([n], [n]) == [];
      StripNothing(k[1..], [n]);
    }
    if |k| > 1 {
      SpliceFront(s, n);
    }
  }

  lemma FirstIsOther(k: seq<NodeId>, n: NodeId)
    requires k != [] && k[0] != n
    ensures Splice(Strip(k, [n]), n, Some(k[0])) == [n] + Strip(k, [n])
  {
    var s := Strip(k, [n]);
    assert s[0] == k[0] by {
      assert k == [k[0]] + k[1..];
      StripAppend([k[0]], k[1..], [n]);
      assert Strip([k[0]], [n]) == [k[0]];
    }
    SpliceFront(s, n);
  }

}
