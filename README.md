# Microbe DOM insertion and removal, modelled in Dafny

Microbe is a small jQuery-like library: a `Microbe` object is an ordered collection of DOM
elements, and its methods act on every element of the collection in turn. This project
models the insertion and removal engine of `src/dom.js`:

- `append(content, prepend)` and `prepend(content)`: the argument is resolved (an element,
  an array of elements, a string that is markup, or a string handed to the Microbe
  constructor); markup is added to every element's `innerHTML`; otherwise the content nodes
  are put into the first element and fresh deep clones into every later one, each pass
  pushing the node it is about to place, and a new collection of all placed nodes is
  handed back;
- `insertAfter(content)`: the same nested loops, putting the nodes right after each element
  in its parent, before the sibling read once before the inner loop;
- `remove()`: the module-level `_events` memo and the call of `off`, then `remove()` on
  every element, either the host's own `Element.remove` or the polyfill that goes through
  `parentElement`.

The document is a value (`DomTree.Dom`): a map from element ids to a tag, a markup string,
a parent and an ordered list of element children, plus the next id a clone receives.
`DomTree` gives the DOM methods the library calls (`insertBefore`/`appendChild` as
pre-insertion, `cloneNode(true)`, `Element.remove`, `innerHTML`), and proves that each keeps
a well-formed document well formed (parents and children agree, no element is listed
twice, no element is its own ancestor). `Host.Document` is the mutable document the
library calls, with one method per DOM call, each proved to do what the `DomTree` function
says.

`Engine` states what the library computes as functions (`AppendSpec`, `InsertAfterSpec`,
`RemoveSpec`), outcome and resulting document together: `Same` when the collection itself
is returned, `Made(nodes)` for a new collection, `Threw(error)` for an exception. The
methods of `MicrobeDom.Microbe` are the library's loops over `Host.Document`, and each is
proved to end in the state and outcome the matching function gives. The lemmas in `Steps`,
`Passes`, `Targets`, `Operations`, `Calls`, `Markup` and `Removal` state what those
functions promise: which nodes are handed back, where they end up in each element's
children, that clones are fresh copies, when each call throws, and what removal leaves.
`AfterOrder` shows what `insertAfter` does when the content holds the target's own next
sibling, where the content order is lost (see "Findings"), and proves the order kept by a
corrected sibling read. The methods and `Engine` keep the sibling read as the library
writes it; the corrected stage is stated beside it and not used by them.

The Microbe constructor, called on strings that are not markup, is a parameter
`construct: string -> seq<NodeId>`: the ids of the elements it finds or creates, elements of
the document, attached or not.

An empty array or an empty string as argument is modelled as the code behaves, not as its
intent: `!_el.length` holds, the argument is wrapped as `[ _el ]`, the wrapped value is not
a node, and the first insertion throws a TypeError (`Engine.Resolved.NotNodes`, stated in
`Calls.AppendRefused` and `Calls.InsertAfterRefused`).

## Model

| member | source | states |
|---|---|---|
| Engine.ResolveAppend | src/dom.js:94-110 | A string with a '/' is markup; an empty array or empty string is wrapped and is no node; a single element becomes a one-element list; any other string goes to the constructor; arrays are kept as they are |
| Engine.ResolveInsertAfter | src/dom.js:177-184 | Every string goes to the constructor, '/' or not; no argument is ever markup; only an empty array is no node; a single element is wrapped |
| Engine.ChildAfter | src/dom.js:155-158 | The sibling read is `children[indexOf(t) + 1]`: present exactly when the target is not the last child, and then that child |
| MicrobeDom.Microbe.AppendHtml | src/dom.js:39-56 | `_appendHTML` leaves the document as `WithMarkup` says: every element's markup gets the string in front (prepend) or at the end, one element after the other |
| MicrobeDom.Microbe.AppendTo | src/dom.js:69-72 | `_append` is `appendChild`: the document becomes the pre-insertion at the end, or stays as it was when it throws, with that exception |
| MicrobeDom.Microbe.PrependTo | src/dom.js:85-89 | `_prepend` reads `firstElementChild` and inserts before it: pre-insertion at the front, or no change and the exception |
| MicrobeDom.Microbe.PutAfter | src/dom.js:166-173 | Inserts before the sibling read before the loop, through that sibling's current parent, or appends to the target's current parent; a null parent is a TypeError and changes nothing |
| MicrobeDom.Microbe.Pass | src/dom.js:117-128 | One pass: the original node for the first target, a deep clone otherwise; it is pushed before it is placed; the run ends as `Engine.Step` says |
| MicrobeDom.Microbe.PlaceAll | src/dom.js:115-129 | The inner loop over the content, stopped by the first exception, ends as `Engine.Fill` says |
| MicrobeDom.Microbe.Append | src/dom.js:92-133 | `append` ends in exactly the document and outcome `AppendSpec` gives: the markup path, the refused argument, or the nested loops handing back the placed nodes or the first exception |
| MicrobeDom.Microbe.Prepend | src/dom.js:207-210 | `prepend` is `append` with `prepend` set |
| MicrobeDom.Microbe.InsertAfterOne | src/dom.js:153-175 | `_insertAfter` reads the parent's children (TypeError on a null parent), reads the next sibling once, then runs the inner loop; it ends as `Engine.Stage` says |
| MicrobeDom.Microbe.InsertAfter | src/dom.js:149-193 | `insertAfter` ends in exactly the document and outcome `InsertAfterSpec` gives |
| MicrobeDom.Microbe.Remove | src/dom.js:251-266 | The `_events` memo becomes set once a collection with `off` is seen; with the memo set, `off` is called (once, on the current document) or, missing, throws before anything is removed; then the removals end as `RemoveSpec` says |
| MicrobeDom.Events.constructor | src/dom.js:253 | The memo starts unset with no call of `off` recorded |
| Host.Document.InsertBefore | src/dom.js:88 | `insertBefore`/`appendChild` change the document as pre-insertion says, or throw its exception and change nothing |
| Host.Document.CloneNode | src/dom.js:117 | `cloneNode(true)` adds a copy of the subtree under fresh ids and returns the copy's root, the first fresh id |
| Host.Document.SetInnerHtml | src/dom.js:48-52 | Assigning `innerHTML` replaces that element's markup string and nothing else |
| Host.Document.RemoveElement | src/dom.js:276-282 | The polyfill throws on an element without a parent and changes nothing; otherwise, and always for the native method, the element is detached |
| Host.Document.ParentNode | src/dom.js:155 | `parentNode` is the element's parent in the document, none for a detached one |
| Host.Document.FirstChild | src/dom.js:87 | `firstElementChild` is the first of the element's children, none when it has none |
| DomTree.PreInsertFails | src/dom.js:71 | Pre-insertion throws exactly when the parent or node is unknown, the parent is inside the node's subtree (HierarchyRequestError) or the reference is not a child of the parent (NotFoundError) |
| DomTree.PreInsertWellFormed | src/dom.js:168 | A successful insertion keeps the document well formed, keeps every id, tag and markup, takes the node out of every children list and splices it into the new parent's, before the reference, and sets its parent |
| DomTree.CloneWellFormed | src/dom.js:162 | A deep clone keeps the document well formed |
| DomTree.CloneIsCopy | src/dom.js:162 | The clone is an exact copy: every element of the subtree has a fresh copy with its tag and markup, the copies of its children in order, and the copy of its parent (none for the root); two different elements never share a copy |
| DomTree.DetachWellFormed | src/dom.js:262 | Removing an element keeps the document well formed, takes it out of every children list, clears its parent and changes nothing else |
| Steps.StepLastKids | src/dom.js:69-72 | Appending once more: the new node joins the end of the children, after the nodes placed before |
| Steps.StepFirstKids | src/dom.js:85-89 | Prepending once more: the new node goes in front of the nodes placed before, so they end in reverse order |
| Passes.FillMade | src/dom.js:117-119 | Every pass that does not throw pushes exactly the node it places |
| Passes.FillFresh | src/dom.js:117 | With cloning, every placed node is a new element with an id above every earlier one, in increasing order |
| Passes.FillCopies | src/dom.js:117 | With cloning, the node placed for content node `k` has that node's tag and markup |
| Passes.FillLastKids | src/dom.js:115-128 | `append`'s inner loop leaves the target's children ending with the placed nodes, in order, preceded by the rest of its children |
| Passes.FillFirstKids | src/dom.js:115-128 | `prepend`'s inner loop leaves the target's children starting with the placed nodes in reverse order |
| Passes.FillAfterKids | src/dom.js:158-174 | `insertAfter`'s inner loop puts the placed nodes, in order, between the children up to the target and the children after it |
| Targets.StagesMade | src/dom.js:113-132 | The outer loop that does not throw hands back the placed nodes target by target, `|c|` per target |
| Targets.AfterSplit | src/dom.js:155-158 | The target's parent's children split just after the target; the sibling read is the first child after the split and the receiver stays the same parent |
| Operations.StagesDone | src/dom.js:113-132 | Without an exception, `|ts| * |c|` nodes come back: the content nodes first, then fresh ids in increasing order; the document stays well formed and keeps every element's tag and markup |
| Operations.StagesCopies | src/dom.js:117 | Every later target receives copies with the tags and markup of the content nodes, and they are in the final document |
| Operations.AppendKids | src/dom.js:113-130 | After `append`/`prepend` on distinct targets, a target's children are its old children less the content nodes followed by its batch (preceded by it, reversed, for `prepend`); any other element keeps its children less the content nodes |
| Operations.AfterKidsAt | src/dom.js:153-190 | After `insertAfter`, a target's parent holds the target's batch right after the target, in order; the first batch is the content nodes, taken from wherever they were |
| Operations.AfterKidsOther | src/dom.js:153-190 | After `insertAfter`, an element that is no target's parent keeps its children less the content nodes |
| Operations.AfterReceiver | src/dom.js:155 | The parent read for each target is the one it had before the call, whatever the earlier targets received |
| Calls.AppendNodes | src/dom.js:92-133 | `append`/`prepend` with nodes return a new collection or throw, never the collection itself; the new one holds every placed node, the content first and fresh clones after |
| Calls.InsertAfterNodes | src/dom.js:149-193 | The same for `insertAfter` |
| Calls.AppendRefused | src/dom.js:96-99 | An empty array or empty string is wrapped and throws at the first insertion without changing anything; with no targets an empty collection comes back |
| Calls.InsertAfterRefused | src/dom.js:181-184 | An empty array throws at the first target: the null-parent TypeError for a detached target, otherwise the not-a-node one; no targets give an empty collection |
| Calls.InsertAfterDetached | src/dom.js:155 | A detached first target throws the null-parent TypeError before anything changes, whatever the argument |
| Calls.NoTargets | src/dom.js:104 | With no targets nothing changes: markup returns the collection, anything else an empty one |
| Calls.InsertAfterText | src/dom.js:177-180 | `insertAfter` with any string the constructor turns into at least one element, '/' or not, behaves as with those elements |
| Calls.InsertAfterNothing | src/dom.js:177-184 | A string the constructor turns into no element is not wrapped, unlike an empty array: nothing changes, and the call hands back an empty collection, or the null-parent TypeError when some target is detached |
| Markup.AppendMarkup | src/dom.js:39-56 | Markup returns the collection itself and keeps the tree, tags and ids; each element's markup gains the string once per time it is listed, in front for `prepend`, at the end otherwise |
| Markup.WithMarkupHtml | src/dom.js:42-54 | After the first `k` edits, an element's markup has gained one copy of the string per listing among the first `k` targets |
| Removal.RemovalsNative | src/dom.js:260-263 | The native removals never throw; the removed targets lose their parent and leave every children list; nothing else changes |
| Removal.RemovalsPolyfill | src/dom.js:276-282 | The polyfill throws exactly when some target has no parent when its turn comes (no parent to begin with, or listed twice); until then it does what the native method does |
| AfterOrder.SiblingOrderBroken | src/dom.js:155-173 | On children [1, 2] of element 0, `insertAfter([2, 3])` on element 1 succeeds, hands back [2, 3] and leaves 0's children as [1, 3, 2]: the content order is not kept |
| AfterOrder.FillSiblingKids | src/dom.js:158-173 | With the sibling `v` read before the loop, every placed node other than `v` goes right in front of `v`, and `v` itself stays where it is |
| AfterOrder.SiblingStays | src/dom.js:155-173 | For the first target with a next sibling `v`, the parent ends with the children up to the target, the content nodes other than `v` in order, then `v`, then the rest, all without the content nodes |
| AfterOrder.FirstOutside | src/dom.js:158 | The index of the first child after the target that is not a content node: every child before it is one |
| AfterOrder.FixedAfterKids | src/dom.js:155-173 | With the sibling read past the content nodes, the first target's stage pushes exactly the content, and the parent ends with the children up to the target, the content in order, then the rest, the content nodes taken out of both parts, whichever children the content holds |
| AfterOrder.FixedAgrees | src/dom.js:155-158 | The corrected stage is the library's own whenever the sibling the library reads is not a content node |
| Removal.RemoveNative | src/dom.js:251-266 | `remove()` with the native method returns the collection, every target ends detached and out of every children list |
| Removal.RemovePolyfill | src/dom.js:251-282 | `remove()` with the polyfill throws the TypeError exactly when the targets are not all attached and distinct, and otherwise does what the native method does |

## Left out

- `Microbe.ready` (src/dom.js:222-241): it only waits for the browser's load event; clocks and events are not modelled.
- The Microbe constructor is a parameter (`construct`), and `this.constructor(elementArray)` is the outcome `Made(nodes)`; selector matching and element creation are not modelled.
- `off` is not modelled beyond its presence: `MicrobeDom.Events` records each call with the document it found; what `off` does to event handlers is left out.
- Patching `Element.prototype` is not modelled; whether `remove` is the polyfill is the `polyfill` parameter.
- Markup is an opaque string: assigning `innerHTML` does not parse it into children, and the markup of an element does not follow changes to its children.
- Only element children are modelled: text nodes, comments, document fragments and the document node are not, so `children` and `childNodes` coincide.
- An argument whose `length` is a non-zero number but which is not an array (for example an element with a `length` property, or a string-like object) is not modelled; arrays, Microbe collections and node lists are all `Content.Elements`.
- Live collections are not modelled: the collection a method runs over is the list of ids it held when the call began.
- Ids that name no element are refused by the model's DOM as NotFoundError; a browser has no such ids.
- The document after an exception is given by the `Engine` functions and the methods' contracts, but the lemmas say nothing about it beyond that.
- Passes.FillLastKids: requires distinct content nodes for the originals; with `append([X, X])` the library pushes X twice and X ends once, at the end of the children, which is not stated.
- Passes.FillFirstKids: requires distinct content nodes for the originals; with `prepend([X, X])` the library pushes X twice and X ends once, at the front of the children, which is not stated.
- Passes.FillAfterKids: requires that the sibling read before the loop is not a content node; when it is, the library leaves it in place and puts the other content nodes in front of it, which `AfterOrder.FillSiblingKids` states instead.
- Operations.AfterReceiver: requires that no target is a content node; such a target is moved by the first stage, so the parent the library reads for it later is its new one, which is not stated.
- Operations.AppendKids: requires the targets and the content nodes to be distinct and every target to be an element; with repeated targets a later batch moves the first one, which is not stated.
- Operations.AfterKidsAt: requires distinct content, targets that are not content nodes, and a parent shared with no other target; several targets under one parent are not stated. It also requires that the first target's next sibling is not a content node: there the library breaks the content order, as `AfterOrder.SiblingStays` states (see "Findings").
- Operations.AfterKidsOther: requires targets that are not content nodes.
- Calls.AppendNodes: requires a well-formed document.

## Findings

| source | as written | input that shows it | evidently intended | confidence | as-written member | corrected member |
|---|---|---|---|---|---|---|
| src/dom.js:155-173 | The next sibling is read once, before the loop, and every node goes in front of it; when the sibling is itself a content node it stays put and the content after it in the argument lands before it | children [T, S] of one parent, `insertAfter([S, X])` on T gives [T, X, S] | the content follows the target in argument order: [T, S, X] | medium, not executed | AfterOrder.SiblingOrderBroken, AfterOrder.SiblingStays | AfterOrder.FixedAfterKids |
