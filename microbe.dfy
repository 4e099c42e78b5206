/** Microbe's `append`, `prepend`, `insertAfter` and `remove` as the library runs them: loops
    over the collection that call the host document, proved to do what the functions of
    `Engine` say. */
module MicrobeDom {
  import opened DomTree
  import opened Engine
  import opened Host
  import opened Steps
  import opened Passes
  import opened Targets
  import opened Removal

  /** The module-level `_events` memo, and the calls of `off` it has led to: each entry is
      the document as `off` found it. */
  class Events {
    var seen: bool
    ghost var offCalls: seq<Dom>

    constructor ()
      ensures !seen && offCalls == []
    {
      seen, offCalls := false, [];
    }
  }

  /** A Microbe collection: its elements, in order, in a shared document. */
  class Microbe {
    const doc: Document
    const events: Events
    const elements: seq<NodeId>

    constructor (doc: Document, events: Events, elements: seq<NodeId>)
      ensures this.doc == doc && this.events == events && this.elements == elements
    {
      this.doc, this.events, this.elements := doc, events, elements;
    }

    /** `_appendHTML`: every element's markup gets `s` in front (prepend) or at the end. */
    method AppendHtml(s: string, prepend: bool)
      modifies doc
      ensures doc.Tree() == WithMarkup(old(doc.Tree()), elements, s, prepend, |elements|)
    {
      ghost var d0 := doc.Tree();
      var k := 0;
      while k < |elements|
        invariant 0 <= k <= |elements|
        invariant doc.Tree() == WithMarkup(d0, elements, s, prepend, k)
      {
        var el := elements[k];
        if prepend {
          doc.SetInnerHtml(el, s + doc.InnerHtml(el));
        } else {
          doc.SetInnerHtml(el, doc.InnerHtml(el) + s);
        }
        k := k + 1;
      }
    }

    /** `_append`: `parentEl.appendChild(elm)`. */
    method AppendTo(p: NodeId, n: NodeId) returns (err: Option<DomError>)
      modifies doc
      ensures var r := Put(old(doc.Tree()), Last, p, n);
        && (r.Ok? ==> err == None && doc.Tree() == r.value)
        && (r.Err? ==> err == Some(r.error) && doc.Tree() == old(doc.Tree()))
    {
      err := doc.InsertBefore(p, n, None);
    }

    /** `_prepend`: `parentEl.insertBefore(elm, parentEl.firstElementChild)`. */
    method PrependTo(p: NodeId, n: NodeId) returns (err: Option<DomError>)
      modifies doc
      ensures var r := Put(old(doc.Tree()), First, p, n);
        && (r.Ok? ==> err == None && doc.Tree() == r.value)
        && (r.Err? ==> err == Some(r.error) && doc.Tree() == old(doc.Tree()))
    {
      var first := doc.FirstChild(p);
      err := doc.InsertBefore(p, n, first);
    }

    /** The placement in `_insertAfter`: `nextEle.parentNode.insertBefore(node, nextEle)` when
        there is a next sibling, `_elm.parentNode.appendChild(node)` otherwise; a null
        `parentNode` is a TypeError. */
    method PutAfter(t: NodeId, next: Option<NodeId>, n: NodeId) returns (err: Option<DomError>)
      modifies doc
      ensures var r := Put(old(doc.Tree()), After(next), t, n);
        && (r.Ok? ==> err == None && doc.Tree() == r.value)
        && (r.Err? ==> err == Some(r.error) && doc.Tree() == old(doc.Tree()))
    {
      var holder := if next.Some? then next.value else t;
      var p := doc.ParentNode(holder);
      if p.None? {
        err := Some(NullParent);
      } else {
        err := doc.InsertBefore(p.value, n, next);
      }
    }

    /** One pass of an inner loop: `node = i === 0 ? x : x.cloneNode(true)`, push it, put it. */
    method Pass(mode: Mode, t: NodeId, x: NodeId, copy: bool, made: seq<NodeId>) returns (made': seq<NodeId>, err: Option<DomError>)
      modifies doc
      ensures Step(Run(old(doc.Tree()), made, None), mode, t, x, copy) == Run(doc.Tree(), made', err)
    {
      ghost var r := Run(doc.Tree(), made, None);
      if !copy || x in r.dom.nodes {
        StepPut(r, mode, t, x, copy);
      }
      var node := x;
      if copy {
        var ok;
        node, ok := doc.CloneNode(x);
        if !ok {
          return made, Some(NotFound);
        }
      }
      made' := made + [node];
      match mode
      case Last => err := AppendTo(t, node);
      case First => err := PrependTo(t, node);
      case After(next) => err := PutAfter(t, next, node);
    }

    /** An inner loop: one pass per content node, ended early by an exception. */
    method PlaceAll(mode: Mode, t: NodeId, c: seq<NodeId>, copy: bool, made: seq<NodeId>) returns (made': seq<NodeId>, err: Option<DomError>)
      modifies doc
      ensures Fill(Run(old(doc.Tree()), made, None), mode, t, c, copy, |c|) == Run(doc.Tree(), made', err)
    {
      ghost var r := Run(doc.Tree(), made, None);
      made', err := made, None;
      var j := 0;
      while j < |c| && err.None?
        invariant 0 <= j <= |c|
        invariant Fill(r, mode, t, c, copy, j) == Run(doc.Tree(), made', err)
      {
        made', err := Pass(mode, t, c[j], copy, made');
        j := j + 1;
      }
      if err.Some? {
        FillThrown(r, mode, t, c, copy, j, |c|);
      }
    }

    /** `append(content, prepend)`: the markup path, or the nested loops that put the content
        nodes into the first element and fresh deep clones into every later one. */
    method Append(content: Content, prepend: bool, construct: string -> seq<NodeId>) returns (out: Outcome)
      modifies doc
      ensures Effect(doc.Tree(), out) == AppendSpec(old(doc.Tree()), elements, content, prepend, construct)
    {
      ghost var d0 := doc.Tree();
      match ResolveAppend(content, construct)
      case Markup(s) =>
        AppendHtml(s, prepend);
        out := Same;
      case NotNodes =>
        out := if elements == [] then Made([]) else Threw(NotANode);
      case Nodes(c) =>
        ghost var r0, op := Run(d0, [], None), Appending(prepend);
        var mode := if prepend then First else Last;
        var made: seq<NodeId> := [];
        var err: Option<DomError> := None;
        var i := 0;
        while i < |elements| && err.None?
          invariant 0 <= i <= |elements|
          invariant Stages(r0, op, elements, c, i) == Run(doc.Tree(), made, err)
        {
          made, err := PlaceAll(mode, elements[i], c, i > 0, made);
          i := i + 1;
        }
        if err.Some? {
          StagesThrown(r0, op, elements, c, i, |elements|);
          out := Threw(err.value);
        } else {
          out := Made(made);
        }
    }

    /** `prepend(content)`: `append` with `prepend` set. */
    method Prepend(content: Content, construct: string -> seq<NodeId>) returns (out: Outcome)
      modifies doc
      ensures Effect(doc.Tree(), out) == AppendSpec(old(doc.Tree()), elements, content, true, construct)
    {
      out := Append(content, true, construct);
    }
 
    /** `_insertAfter(_elm, i)`: read the parent's children (a TypeError when the parent is
        null), take the element after `_elm` once, then run the inner loop. */
    method InsertAfterOne(t: NodeId, i: nat, c: seq<NodeId>, made: seq<NodeId>) returns (made': seq<NodeId>, err: Option<DomError>)
      modifies doc
      ensures Stage(Run(old(doc.Tree()), made, None), InsertingAfter, t, c, i > 0) == Run(doc.Tree(), made', err)
    {
      var p := doc.ParentNode(t);
      if p.None? {
        return made, Some(NullParent);
      }
      var arr := doc.Children(p.value);
      var nextIndex := IndexOf(arr, t) + 1;
      var nextEle := if nextIndex < |arr| then Some(arr[nextIndex]) else None;
      made', err := PlaceAll(After(nextEle), t, c, i > 0, made);
    }

    /** `insertAfter(content)`: every string goes to the constructor, anything without a length
        is wrapped, and each element gets the content right after it. */
    method InsertAfter(content: Content, construct: string -> seq<NodeId>) returns (out: Outcome)
      modifies doc
      ensures Effect(doc.Tree(), out) == InsertAfterSpec(old(doc.Tree()), elements, content, construct)
    {
      ghost var d0 := doc.Tree();
      var resolved := ResolveInsertAfter(content, construct);
      if resolved.NotNodes? {
        if elements == [] {
          out := Made([]);
        } else if doc.ParentNode(elements[0]).None? {
          out := Threw(NullParent);
        } else {
          out := Threw(NotANode);
        }
      } else {
        var c := resolved.nodes;
        ghost var r0 := Run(d0, [], None);
        var made: seq<NodeId> := [];
        var err: Option<DomError> := None;
        var i := 0;
        while i < |elements| && err.None?
          invariant 0 <= i <= |elements|
          invariant Stages(r0, InsertingAfter, elements, c, i) == Run(doc.Tree(), made, err)
        {
          made, err := InsertAfterOne(elements[i], i, c, made);
          i := i + 1;
        }
        if err.Some? {
          StagesThrown(r0, InsertingAfter, elements, c, i, |elements|);
          out := Threw(err.value);
        } else {
          out := Made(made);
        }
      }
    }

    /** `remove()`: `_events = _events || this.off`, then `this.off()` when the memo is set (a
        TypeError when `off` is missing now), then `remove()` on every element. `hasOff` says
        whether the collection has an `off` method; `polyfill` whether `Element.remove` is the
        polyfill. */
    method Remove(polyfill: bool, hasOff: bool) returns (out: Outcome)
      modifies doc, events
      ensures events.seen == (old(events.seen) || hasOff)
      ensures events.seen && !hasOff ==>
        out == Threw(NotCallable) && doc.Tree() == old(doc.Tree()) && events.offCalls == old(events.offCalls)
      ensures !(events.seen && !hasOff) ==>
        && events.offCalls == old(events.offCalls) + (if events.seen then [old(doc.Tree())] else [])
        && Effect(doc.Tree(), out) == RemoveSpec(old(doc.Tree()), elements, polyfill)
    {
      ghost var d0 := doc.Tree();
      events.seen := events.seen || hasOff;
      if events.seen {
        if !hasOff {
          return Threw(NotCallable);
        }
        events.offCalls := events.offCalls + [doc.Tree()];
      }
      var err: Option<DomError> := None;
      var i := 0;
      while i < |elements| && err.None?
        invariant 0 <= i <= |elements|
        invariant Removals(d0, elements, polyfill, i) == Run(doc.Tree(), [], err)
        modifies doc
      {
        err := doc.RemoveElement(elements[i], polyfill);
        i := i + 1;
      }
      if err.Some? {
        RemovalsThrown(d0, elements, polyfill, i, |elements|);
        out := Threw(err.value);
      } else {
        out := Same;
      }
    }
  }
}
