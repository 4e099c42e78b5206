/** The host document as the library calls it: an object whose state the DOM methods change
    in place. Each method does what the corresponding function of `DomTree` says. */
module Host {
  import opened DomTree

  class Document {
    /** Every element by id, and the id the next clone receives. */
    var nodes: map<NodeId, Node>
    var next: nat

    /** The document as a value. */
    function Tree(): Dom
      reads this
    {
      Dom(nodes, next)
    }

    constructor (d: Dom)
      ensures Tree() == d
    {
      nodes, next := d.nodes, d.next;
    }

    /** `el.parentNode` (null for a detached element). */
    function ParentNode(x: NodeId): (r: Option<NodeId>)
      reads this
      ensures r == Parent(Tree(), x)
    {
      if x in nodes then nodes[x].parent else None
    }

    /** `el.children`, element children only. */
    function Children(p: NodeId): (r: seq<NodeId>)
      reads this
      ensures r == Kids(Tree(), p)
    {
      if p in nodes then nodes[p].kids else []
    }

    /** `el.firstElementChild`. */
    function FirstChild(p: NodeId): (r: Option<NodeId>)
      reads this
      ensures r == FirstElementChild(Tree(), p)
    {
      var k := Children(p);
      if k == [] then None else Some(k[0])
    }

    /** `el.innerHTML` as a string. */
    function InnerHtml(x: NodeId): (r: string)
      reads this
      ensures r == Html(Tree(), x)
    {
      if x in nodes then nodes[x].html else ""
    }

    /** `el.innerHTML = html`. */
    method SetInnerHtml(x: NodeId, html: string)
      modifies this
      ensures Tree() == SetHtml(old(Tree()), x, html)
    {
      if x in nodes {
        nodes := nodes[x := nodes[x].(html := html)];
      }
    }

    /** `p.insertBefore(n, child)`; `p.appendChild(n)` when `child` is None. On an exception
        the document is as it was. */
    method InsertBefore(p: NodeId, n: NodeId, child: Option<NodeId>) returns (err: Option<DomError>)
      modifies this
      ensures PreInsert(old(Tree()), p, n, child).Ok? ==> err == None && Tree() == PreInsert(old(Tree()), p, n, child).value
      ensures PreInsert(old(Tree()), p, n, child).Err? ==> err == Some(PreInsert(old(Tree()), p, n, child).error) && Tree() == old(Tree())
    {
      match PreInsert(Tree(), p, n, child)
      case Ok(d) =>
        nodes, next := d.nodes, d.next;
        err := None;
      case Err(e) =>
        err := Some(e);
    }

    /** `x.cloneNode(true)`: a detached deep copy under fresh ids; `ok` is false, and nothing
        changes, when `x` is not an element. */
    method CloneNode(x: NodeId) returns (n: NodeId, ok: bool)
      modifies this
      ensures ok <==> x in old(Tree()).nodes
      ensures ok ==> n == old(next) && Tree() == Clone(old(Tree()), x)
      ensures !ok ==> Tree() == old(Tree())
    {
      n, ok := next, x in nodes;
      if ok {
        var d := Clone(Tree(), x);
        nodes, next := d.nodes, d.next;
      }
    }

    /** `x.remove()`: the host's own method, or the polyfill that dereferences
        `parentElement`. */
    method RemoveElement(x: NodeId, polyfill: bool) returns (err: Option<DomError>)
      modifies this
      ensures polyfill && Parent(old(Tree()), x).None? ==> err == Some(NullParent) && Tree() == old(Tree())
      ensures !(polyfill && Parent(old(Tree()), x).None?) ==> err == None && Tree() == Detach(old(Tree()), x)
    {
      if polyfill && ParentNode(x).None? {
        err := Some(NullParent);
      } else {
        var d := Detach(Tree(), x);
        nodes, next := d.nodes, d.next;
        err := None;
      }
    }
  }
}
