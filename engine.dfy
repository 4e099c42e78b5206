/** The insertion engine of Microbe's `src/dom.js`, stated over the document value of
    `DomTree`: how the argument of `append`, `prepend` and `insertAfter` is resolved, where each
    node is put, and the run of the nested loops, target by target and node by node. The
    methods in `MicrobeDom` are proved to follow these functions; the lemmas here state what the
    functions promise. */
module Engine {
  import opened DomTree

  // ---------------------------------------------------------------------------
  // Arguments and results

  /** The argument as the caller passes it. */
  datatype Content =
    | Element(node: NodeId)          // one element: it has no `length`, so it is wrapped
    | Elements(nodes: seq<NodeId>)   // an array of elements or a Microbe collection
    | Text(s: string)                // a selector, an element creation string or markup

  /** The argument once resolved, before the loops run. */
  datatype Resolved =
    | Markup(html: string)           // `append`/`prepend` only: a string containing '/'
    | Nodes(nodes: seq<NodeId>)
    | NotNodes                       // a one-entry list whose entry is not a node

  /** What an operation hands back: the same collection, a new collection of the inserted
      nodes, or the exception that ended it. */
  datatype Outcome = Same | Made(nodes: seq<NodeId>) | Threw(error: DomError)

  /** The document after an operation, and its outcome. */
  datatype Effect = Effect(dom: Dom, out: Outcome)

  /** Resolution in `append`/`prepend`. The emptiness test runs first, so an empty array or an
      empty string is wrapped into a one-entry list whose entry is not a node; otherwise a
      string with a '/' is markup and any other string goes to the Microbe constructor,
      `construct`. */
  function ResolveAppend(content: Content, construct: string -> seq<NodeId>): (r: Resolved)
    ensures r.Markup? <==> content.Text? && '/' in content.s
    ensures r.Markup? ==> r.html == content.s
    ensures r.NotNodes? <==> content == Elements([]) || content == Text("")
    ensures content.Element? ==> r == Nodes([content.node])
    ensures content.Text? && content.s != [] && '/' !in content.s ==> r == Nodes(construct(content.s))
    ensures content.Elements? && content.nodes != [] ==> r == Nodes(content.nodes)
  {
    match content
    case Element(n) => Nodes([n])
    case Elements(ns) => if ns == [] then NotNodes else Nodes(ns)
    case Text(s) =>
      if s == [] then NotNodes
      else if '/' in s then Markup(s)
      else Nodes(construct(s))
  }

  /** Resolution in `insertAfter`: every string, markup or not, goes to the constructor, and
      only a non-string without length is wrapped. */
  function ResolveInsertAfter(content: Content, construct: string -> seq<NodeId>): (r: Resolved)
    ensures !r.Markup?
    ensures r.NotNodes? <==> content == Elements([])
    ensures content.Text? ==> r == Nodes(construct(content.s))
    ensures content.Element? ==> r == Nodes([content.node])
    ensures content.Elements? && content.nodes != [] ==> r == Nodes(content.nodes)
  {
    match content
    case Element(n) => Nodes([n])
    case Elements(ns) => if ns == [] then NotNodes else Nodes(ns)
    case Text(s) => Nodes(construct(s))
  }

  // ---------------------------------------------------------------------------
  // Placing one node

  /** Where a node goes relative to the current target: as its last child (`appendChild`), in
      front of its first element child (`insertBefore(node, firstElementChild)`), or into the
      target's parent in front of the sibling computed before the loop, or at the end of that
      parent when there was none. */
  datatype Mode = Last | First | After(next: Option<NodeId>)

  /** The element that receives the node; None when a `parentNode` read comes back null. */
  function Receiver(d: Dom, mode: Mode, t: NodeId): Option<NodeId>
  {
    match mode
    case Last => Some(t)
    case First => Some(t)
    case After(next) => if next.Some? then Parent(d, next.value) else Parent(d, t)
  }

  /** The reference child handed to `insertBefore` (None for `appendChild`). */
  function Anchor(d: Dom, mode: Mode, t: NodeId): Option<NodeId>
  {
    match mode
    case Last => None
    case First => FirstElementChild(d, t)
    case After(next) => next
  }

  /** One host call that puts `n` in place. */
  function Put(d: Dom, mode: Mode, t: NodeId, n: NodeId): Result<Dom>
  {
    match Receiver(d, mode, t)
    case None => Err(NullParent)
    case Some(p) => PreInsert(d, p, n, Anchor(d, mode, t))
  }

  /** The element after `t` among `p`'s children, read as `children[indexOf(t) + 1]`. */
  function ChildAfter(d: Dom, p: NodeId, t: NodeId): (r: Option<NodeId>)
    ensures r.Some? ==> r.value in Kids(d, p)
    ensures t in Kids(d, p) ==> (r.Some? <==> IndexOf(Kids(d, p), t) + 1 < |Kids(d, p)|)
    ensures r.Some? && t in Kids(d, p) ==> r.value == Kids(d, p)[IndexOf(Kids(d, p), t) + 1]
  {
    var w := Kids(d, p);
    var k := IndexOf(w, t) + 1;
    if k < |w| then Some(w[k]) else None
  }

  // ---------------------------------------------------------------------------
  // The loops

  /** The state of a run: the document, the nodes pushed so far, and the exception, if one
      was thrown. */
  datatype Run = Run(dom: Dom, made: seq<NodeId>, thrown: Option<DomError>)

  /** One pass of the inner loop: nothing once an exception was thrown, a `Pass` otherwise. */
  function Step(r: Run, mode: Mode, t: NodeId, x: NodeId, copy: bool): Run
    decreases if copy then 1 else 0, 1
  {
    if r.thrown.Some? then r else Pass(r.dom, r.made, mode, t, x, copy)
  }

  /** `node = i === 0 ? x : x.cloneNode(true)`, push it, put it. A pass that copies clones `x`
      and then places the clone as pass 0 places an original. */
  function Pass(d: Dom, made: seq<NodeId>, mode: Mode, t: NodeId, x: NodeId, copy: bool): Run
    decreases if copy then 1 else 0, 0
  {
    if copy then
      if x in d.nodes then Step(Run(Clone(d, x), made, None), mode, t, d.next, false)
      else Run(d, made, Some(NotFound))
    else match Put(d, mode, t, x)
      case Ok(d2) => Run(d2, made + [x], None)
      case Err(e) => Run(d, made + [x], Some(e))
  }

  /** The inner loop over the first `m` content nodes for one target. */
  function Fill(r: Run, mode: Mode, t: NodeId, c: seq<NodeId>, copy: bool, m: nat): Run
    requires m <= |c|
  {
    if m == 0 then r else Step(Fill(r, mode, t, c, copy, m - 1), mode, t, c[m - 1], copy)
  }

  datatype Op = Appending(prepend: bool) | InsertingAfter

  /** The whole inner loop for one target. For `insertAfter` the target's parent is read
      first (a detached target throws before any node is placed) and the next sibling is
      computed once, before the loop. */
  function Stage(r: Run, op: Op, t: NodeId, c: seq<NodeId>, copy: bool): Run
  {
    match op
    case Appending(prepend) => Fill(r, if prepend then First else Last, t, c, copy, |c|)
    case InsertingAfter =>
      if r.thrown.Some? then r
      else match Parent(r.dom, t)
        case None => Run(r.dom, r.made, Some(NullParent))
        case Some(p) => Fill(r, After(ChildAfter(r.dom, p, t)), t, c, copy, |c|)
  }

  /** The outer loop over the first `k` targets; only target 0 receives the originals. */
  function Stages(r: Run, op: Op, ts: seq<NodeId>, c: seq<NodeId>, k: nat): Run
    requires k <= |ts|
  {
    if k == 0 then r else Stage(Stages(r, op, ts, c, k - 1), op, ts[k - 1], c, k - 1 > 0)
  }

  function Finish(r: Run): Effect
  {
    Effect(r.dom, if r.thrown.Some? then Threw(r.thrown.value) else Made(r.made))
  }

  // ---------------------------------------------------------------------------
  // The operations

  /** `_appendHTML`: the markup goes in front of (prepend) or after each target's markup. */
  function WithMarkup(d: Dom, ts: seq<NodeId>, s: string, prepend: bool, k: nat): Dom
    requires k <= |ts|
  {
    if k == 0 then d
    else
      var d1 := WithMarkup(d, ts, s, prepend, k - 1);
      SetHtml(d1, ts[k - 1], if prepend then s + Html(d1, ts[k - 1]) else Html(d1, ts[k - 1]) + s)
  }

  /** `append(content, prepend)` on the collection `ts`. A non-node entry is refused by the
      first `appendChild`/`insertBefore`. */
  function AppendSpec(d: Dom, ts: seq<NodeId>, content: Content, prepend: bool, construct: string -> seq<NodeId>): Effect
  {
    match ResolveAppend(content, construct)
    case Markup(s) => Effect(WithMarkup(d, ts, s, prepend, |ts|), Same)
    case NotNodes => if ts == [] then Effect(d, Made([])) else Effect(d, Threw(NotANode))
    case Nodes(c) => Finish(Stages(Run(d, [], None), Appending(prepend), ts, c, |ts|))
  }

  /** `insertAfter(content)` on the collection `ts`. */
  function InsertAfterSpec(d: Dom, ts: seq<NodeId>, content: Content, construct: string -> seq<NodeId>): Effect
  {
    match ResolveInsertAfter(content, construct)
    case Markup(_) => Effect(d, Same)
    case NotNodes =>
      if ts == [] then Effect(d, Made([]))
      else if Parent(d, ts[0]).None? then Effect(d, Threw(NullParent))
      else Effect(d, Threw(NotANode))
    case Nodes(c) => Finish(Stages(Run(d, [], None), InsertingAfter, ts, c, |ts|))
  }

  /** `element.remove()`: the native method detaches and does nothing without a parent; the
      polyfill reads `parentElement` and throws when it is null. */
  function RemoveOne(d: Dom, t: NodeId, polyfill: bool): Result<Dom>
  {
    if polyfill && Parent(d, t).None? then Err(NullParent) else Ok(Detach(d, t))
  }

  /** The loop of `remove` over the first `k` targets. */
  function Removals(d: Dom, ts: seq<NodeId>, polyfill: bool, k: nat): Run
    requires k <= |ts|
  {
    if k == 0 then Run(d, [], None)
    else
      var r := Removals(d, ts, polyfill, k - 1);
      if r.thrown.Some? then r
      else match RemoveOne(r.dom, ts[k - 1], polyfill)
        case Ok(d1) => Run(d1, [], None)
        case Err(e) => Run(r.dom, [], Some(e))
  }

  /** `remove()` once `off` has been dealt with. */
  function RemoveSpec(d: Dom, ts: seq<NodeId>, polyfill: bool): Effect
  {
    var r := Removals(d, ts, polyfill, |ts|);
    Effect(r.dom, if r.thrown.Some? then Threw(r.thrown.value) else Same)
  }
}
