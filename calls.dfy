/** The three calls as a caller sees them: what `append`/`prepend` and `insertAfter` hand
    back for each kind of argument, and when they throw. */
module Calls {
  import opened DomTree
  import opened Engine
  import opened Targets
  import opened Operations

  /** `append`/`prepend` with nodes, from a well-formed document: the result is a new
      collection or an exception, never the collection itself. The new collection holds
      `|ts| * |c|` nodes, the ones placed, target by target: the content nodes for the first
      target and new clones, in increasing id order, for every later one. The document stays
      well formed and keeps every element with its tag and markup. */
  lemma AppendNodes(d: Dom, ts: seq<NodeId>, content: Content, prepend: bool, construct: string -> seq<NodeId>)
    requires WellFormed(d) && ResolveAppend(content, construct).Nodes?
    ensures var c, e := ResolveAppend(content, construct).nodes, AppendSpec(d, ts, content, prepend, construct);
      && (e.out.Made? || e.out.Threw?)
      && (e.out.Made? ==>
          && e.out.nodes == Batches(Run(d, [], None), Appending(prepend), ts, c, |ts|)
          && |e.out.nodes| == |ts| * |c|
          && (|ts| > 0 ==> |c| <= |e.out.nodes| && e.out.nodes[..|c|] == c)
          && Rising(e.out.nodes, |c|, d.next, e.dom.next)
          && WellFormed(e.dom)
          && (forall y :: y in d.nodes ==>
                y in e.dom.nodes && Tag(e.dom, y) == Tag(d, y) && Html(e.dom, y) == Html(d, y)))
  {
    var c := ResolveAppend(content, construct).nodes;
    StagesDone(d, Appending(prepend), ts, c);
  }

  /** `insertAfter` with nodes: the same as AppendNodes. */
  lemma InsertAfterNodes(d: Dom, ts: seq<NodeId>, content: Content, construct: string -> seq<NodeId>)
    requires WellFormed(d) && ResolveInsertAfter(content, construct).Nodes?
    ensures var c, e := ResolveInsertAfter(content, construct).nodes, InsertAfterSpec(d, ts, content, construct);
      && (e.out.Made? || e.out.Threw?)
      && (e.out.Made? ==>
          && e.out.nodes == Batches(Run(d, [], None), InsertingAfter, ts, c, |ts|)
          && |e.out.nodes| == |ts| * |c|
          && (|ts| > 0 ==> |c| <= |e.out.nodes| && e.out.nodes[..|c|] == c)
          && Rising(e.out.nodes, |c|, d.next, e.dom.next)
          && WellFormed(e.dom)
          && (forall y :: y in d.nodes ==>
                y in e.dom.nodes && Tag(e.dom, y) == Tag(d, y) && Html(e.dom, y) == Html(d, y)))
  {
    var c := ResolveInsertAfter(content, construct).nodes;
    StagesDone(d, InsertingAfter, ts, c);
  }

  /** `append`/`prepend` with an empty array or an empty string: the wrapped entry is not a
      node, so the first insertion throws, before anything changes; with no targets the loop
      never runs and an empty collection comes back. */
  lemma AppendRefused(d: Dom, ts: seq<NodeId>, content: Content, prepend: bool, construct: string -> seq<NodeId>)
    requires content == Elements([]) || content == Text("")
    ensures var e := AppendSpec(d, ts, content, prepend, construct);
      e.dom == d && e.out == if ts == [] then Made([]) else Threw(NotANode)
  {
  }

  /** `insertAfter` with an empty array: the first target's parent is read before the
      insertion is refused, so a detached first target throws the TypeError of the null
      parent instead. */
  lemma InsertAfterRefused(d: Dom, ts: seq<NodeId>, construct: string -> seq<NodeId>)
    ensures var e := InsertAfterSpec(d, ts, Elements([]), construct);
      && e.dom == d
      && e.out == if ts == [] then Made([]) else if Parent(d, ts[0]).None? then Threw(NullParent) else Threw(NotANode)
  {
  }

  /** `insertAfter` on a collection whose first element has no parent throws the TypeError of
      the null `parentNode` before changing anything, whatever the argument. */
  lemma InsertAfterDetached(d: Dom, ts: seq<NodeId>, content: Content, construct: string -> seq<NodeId>)
    requires ts != [] && Parent(d, ts[0]).None?
    ensures InsertAfterSpec(d, ts, content, construct) == Effect(d, Threw(NullParent))
  {
    if ResolveInsertAfter(content, construct).Nodes? {
      var c := ResolveInsertAfter(content, construct).nodes;
      var r0 := Run(d, [], None);
      assert Stages(r0, InsertingAfter, ts, c, 1) == Run(d, [], Some(NullParent));
      StagesThrown(r0, InsertingAfter, ts, c, 1, |ts|);
    }
  }

  /** With an empty collection nothing changes: `append`/`prepend` hand back the collection
      for markup and an empty collection otherwise; `insertAfter` always an empty one. */
  lemma NoTargets(d: Dom, content: Content, prepend: bool, construct: string -> seq<NodeId>)
    ensures var e := AppendSpec(d, [], content, prepend, construct);
      e.dom == d && e.out == if content.Text? && '/' in content.s then Same else Made([])
    ensures InsertAfterSpec(d, [], content, construct) == Effect(d, Made([]))
  {
  }

  /** `insertAfter` never treats a string as markup: every string, '/' or not, goes to the
      constructor, and the call behaves as if the constructed nodes had been passed. */
  lemma InsertAfterText(d: Dom, ts: seq<NodeId>, s: string, construct: string -> seq<NodeId>)
    requires construct(s) != []
    ensures InsertAfterSpec(d, ts, Text(s), construct) == InsertAfterSpec(d, ts, Elements(construct(s)), construct)
  {
  }

  /** `insertAfter` with a string the constructor makes nothing of. Unlike an empty array, the
      empty collection is not wrapped: the loops run with no content, nothing changes, and the
      call hands back an empty collection, or the null-parent TypeError when some target is
      detached. */
  lemma InsertAfterNothing(d: Dom, ts: seq<NodeId>, s: string, construct: string -> seq<NodeId>)
    requires construct(s) == []
    ensures var e := InsertAfterSpec(d, ts, Text(s), construct);
      && e.dom == d
      && e.out == if forall i :: 0 <= i < |ts| ==> Parent(d, ts[i]).Some? then Made([]) else Threw(NullParent)
  {
    EmptyStages(d, ts, |ts|);
  }

  /** The outer loop with no content only reads each target's parent. */
  lemma {:induction false} EmptyStages(d: Dom, ts: seq<NodeId>, k: nat)
    requires k <= |ts|
    ensures Stages(Run(d, [], None), InsertingAfter, ts, [], k)
      == Run(d, [], if forall i :: 0 <= i < k ==> Parent(d, ts[i]).Some? then None else Some(NullParent))
  {
    if k > 0 {
      EmptyStages(d, ts, k - 1);
    }
  }
}
