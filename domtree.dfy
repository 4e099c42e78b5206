/** The host document that the insertion engine edits: element nodes with a tag, an opaque
    markup string, a parent and an ordered list of element children, addressed by id.
    The mutation algorithms follow section 4.2.3 ("Mutation algorithms") of the WHATWG
    DOM Standard, restricted to element children. */
module DomTree {

  type NodeId = nat

  datatype Option<T> = None | Some(value: T)

  /** One element of the document. */
  datatype Node = Node(tag: string, html: string, parent: Option<NodeId>, kids: seq<NodeId>)

  /** The document: every element by id, and the id the next allocated element receives. */
  datatype Dom = Dom(nodes: map<NodeId, Node>, next: nat)

  /** The exceptions the host raises from the operations used here. */
  datatype DomError =
    | HierarchyRequest   // the inserted node is an inclusive ancestor of the new parent
    | NotFound           // the reference child is not a child of the parent
    | NullParent         // a `parentNode` read returned null and was dereferenced
    | NotANode           // a value that is not a node was passed where a node is expected
    | NotCallable        // a method that the object does not have was called

  datatype Result<T> = Ok(value: T) | Err(error: DomError)

  // ---------------------------------------------------------------------------
  // Sequences of ids

  predicate Distinct(s: seq<NodeId>)
  {
    forall i, j :: 0 <= i < j < |s| ==> s[i] != s[j]
  }

  /** Position of the first occurrence of `x`, or -1 (JavaScript's `indexOf`). */
  function IndexOf(s: seq<NodeId>, x: NodeId): (k: int)
    ensures -1 <= k < |s|
    ensures k == -1 <==> x !in s
    ensures 0 <= k ==> s[k] == x && x !in s[..k]
  {
    if s == [] then -1
    else if s[0] == x then 0
    else
      var k := IndexOf(s[1..], x);
      assert s[1..][..if k < 0 then 0 else k] == s[1..if k < 0 then 1 else k + 1];
      if k == -1 then -1 else k + 1
  }

  lemma IndexOfDistinct(s: seq<NodeId>, i: nat)
    requires Distinct(s) && i < |s|
    ensures IndexOf(s, s[i]) == i
  {
  }

  /** `s` back to front. */
  function Reversed(s: seq<NodeId>): (r: seq<NodeId>)
    ensures |r| == |s| && forall y :: y in r <==> y in s
  {
    if s == [] then [] else [s[|s| - 1]] + Reversed(s[..|s| - 1])
  }

  lemma ReversedSnoc(s: seq<NodeId>, x: NodeId)
    ensures Reversed(s + [x]) == [x] + Reversed(s)
  {
    assert (s + [x])[..|s|] == s;
  }

  /** `s` without the elements that occur in `xs`, order kept. */
  function Strip(s: seq<NodeId>, xs: seq<NodeId>): (r: seq<NodeId>)
    ensures forall y :: y in r <==> y in s && y !in xs
    ensures |r| <= |s|
  {
    if s == [] then [] else (if s[0] in xs then [] else [s[0]]) + Strip(s[1..], xs)
  }

  lemma {:induction false} StripAppend(a: seq<NodeId>, b: seq<NodeId>, xs: seq<NodeId>)
    ensures Strip(a + b, xs) == Strip(a, xs) + Strip(b, xs)
  {
    if a == [] {
      assert a + b == b;
    } else {
      assert (a + b)[1..] == a[1..] + b;
      StripAppend(a[1..], b, xs);
    }
  }

  lemma {:induction false} StripNothing(s: seq<NodeId>, xs: seq<NodeId>)
    requires forall y :: y in s ==> y !in xs
    ensures Strip(s, xs) == s
  {
    if s != [] {
      StripNothing(s[1..], xs);
    }
  }

  lemma {:induction false} StripTwice(s: seq<NodeId>, xs: seq<NodeId>, ys: seq<NodeId>)
    ensures Strip(Strip(s, xs), ys) == Strip(s, xs + ys)
  {
    if s != [] {
      StripTwice(s[1..], xs, ys);
      StripAppend(if s[0] in xs then [] else [s[0]], Strip(s[1..], xs), ys);
    }
  }

  lemma {:induction false} StripDistinct(s: seq<NodeId>, xs: seq<NodeId>)
    requires Distinct(s)
    ensures Distinct(Strip(s, xs))
  {
    if s != [] {
      StripDistinct(s[1..], xs);
      assert s[0] !in s[1..];
    }
  }

  /** Taking one more element `n` out of a stripped list followed by a tail without `n`. */
  lemma StripMore(k: seq<NodeId>, b: seq<NodeId>, n: NodeId, tail: seq<NodeId>)
    requires n !in tail
    ensures Strip(Strip(k, b) + tail, [n]) == Strip(k, b + [n]) + tail
  {
    StripAppend(Strip(k, b), tail, [n]);
    StripTwice(k, b, [n]);
    StripNothing(tail, [n]);
  }

  /** Putting one more element `n` in front of `Reversed(b) + Strip(k, b)` and taking it out
      of the rest, when `n` is not in `b`. */
  lemma StripFront(k: seq<NodeId>, b: seq<NodeId>, n: NodeId)
    requires n !in b
    ensures [n] + Strip(Reversed(b) + Strip(k, b), [n]) == Reversed(b + [n]) + Strip(k, b + [n])
  {
    var rb, t := Reversed(b), Strip(k, b + [n]);
    assert Strip(rb + Strip(k, b), [n]) == rb + t by {
      StripAppend(rb, Strip(k, b), [n]);
      StripNothing(rb, [n]);
      StripTwice(k, b, [n]);
    }
    ReversedSnoc(b, n);
    ConsJoin(n, rb, t);
  }

  /** Regrouping a concatenation around one element. */
  lemma ConsJoin(x: NodeId, r: seq<NodeId>, t: seq<NodeId>)
    ensures [x] + (r + t) == ([x] + r) + t
  {
  }

  lemma Join(a: seq<NodeId>, b: seq<NodeId>, s: seq<NodeId>)
    ensures (a + b) + s == a + (b + s)
  {
  }

  lemma SnocJoin(a: seq<NodeId>, b: seq<NodeId>, x: NodeId, s: seq<NodeId>)
    ensures (a + b) + [x] + s == a + (b + [x]) + s
  {
  }

  /** An element not taken out stays at the front. */
  lemma StripHead(s: seq<NodeId>, xs: seq<NodeId>)
    requires s != [] && s[0] !in xs
    ensures Strip(s, xs) != [] && Strip(s, xs)[0] == s[0]
  {
  }

  /** Taking one more element `n` out of `Strip(a, b) + b + Strip(c, b)`, when `n` is not in `b`. */
  lemma StripAround(a: seq<NodeId>, b: seq<NodeId>, c: seq<NodeId>, n: NodeId)
    requires n !in b
    ensures Strip(Strip(a, b) + b + Strip(c, b), [n]) == Strip(a, b + [n]) + b + Strip(c, b + [n])
  {
    StripAppend(Strip(a, b) + b, Strip(c, b), [n]);
    StripAppend(Strip(a, b), b, [n]);
    StripTwice(a, b, [n]);
    StripTwice(c, b, [n]);
    StripNothing(b, [n]);
  }

  /** `s` with `x` put just before `ref`, or at the end when there is no reference. */
  function Splice(s: seq<NodeId>, x: NodeId, ref: Option<NodeId>): (r: seq<NodeId>)
    ensures |r| == |s| + 1
    ensures forall y :: y in r <==> y in s || y == x
  {
    if ref.Some? && ref.value in s then
      var k := IndexOf(s, ref.value);
      assert s == s[..k] + s[k..];
      s[..k] + [x] + s[k..]
    else s + [x]
  }

  lemma {:induction false} IndexOfAppend(a: seq<NodeId>, b: seq<NodeId>, x: NodeId)
    requires x !in a && x in b
    ensures IndexOf(a + b, x) == |a| + IndexOf(b, x)
  {
    if a == [] {
      assert a + b == b;
    } else {
      assert (a + b)[1..] == a[1..] + b;
      IndexOfAppend(a[1..], b, x);
    }
  }

  /** Splicing before the first element of a tail puts `x` just in front of the tail. */
  lemma SpliceBefore(a: seq<NodeId>, b: seq<NodeId>, x: NodeId)
    requires b != [] && b[0] !in a
    ensures Splice(a + b, x, Some(b[0])) == a + [x] + b
  {
    IndexOfAppend(a, b, b[0]);
    assert IndexOf(b, b[0]) == 0;
    assert (a + b)[..|a|] == a && (a + b)[|a|..] == b;
  }

  /** The list `a`, then the placed nodes `b`, then `c`, each without the placed nodes: one
      more node `n` put in front of the first element of `c` joins the placed nodes. */
  lemma SpliceAround(a: seq<NodeId>, b: seq<NodeId>, c: seq<NodeId>, n: NodeId)
    requires n !in b && c != [] && c[0] !in a && c[0] !in b && c[0] != n
    ensures Splice(Strip(Strip(a, b) + b + Strip(c, b), [n]), n, Some(c[0]))
         == Strip(a, b + [n]) + (b + [n]) + Strip(c, b + [n])
  {
    var front, s := Strip(a, b + [n]) + b, Strip(c, b + [n]);
    assert Strip(Strip(a, b) + b + Strip(c, b), [n]) == front + s by {
      StripAround(a, b, c, n);
    }
    assert s != [] && s[0] == c[0] by {
      StripHead(c, b + [n]);
    }
    assert c[0] !in front;
    SpliceBefore(front, s, n);
    SnocJoin(Strip(a, b + [n]), b, n, s);
  }

  /** The same when `c` is empty: one more node `n` put at the end joins the placed nodes. */
  lemma AppendAround(a: seq<NodeId>, b: seq<NodeId>, n: NodeId)
    requires n !in b
    ensures Strip(Strip(a, b) + b + Strip([], b), [n]) + [n] == Strip(a, b + [n]) + (b + [n]) + Strip([], b + [n])
  {
    StripAround(a, b, [], n);
  }

  /** Splicing before the first element puts `x` in front. */
  lemma SpliceFront(s: seq<NodeId>, x: NodeId)
    requires s != []
    ensures Splice(s, x, Some(s[0])) == [x] + s
  {
    assert IndexOf(s, s[0]) == 0;
    assert s[..0] + [x] + s[0..] == [x] + s;
  }

  lemma SpliceDistinct(s: seq<NodeId>, x: NodeId, ref: Option<NodeId>)
    requires Distinct(s) && x !in s
    ensures Distinct(Splice(s, x, ref))
  {
    if ref.Some? && ref.value in s {
      InsertAtDistinct(s, x, IndexOf(s, ref.value));
    }
  }

  lemma InsertAtDistinct(s: seq<NodeId>, x: NodeId, k: nat)
    requires Distinct(s) && x !in s && k <= |s|
    ensures Distinct(s[..k] + [x] + s[k..])
  {
    var r := s[..k] + [x] + s[k..];
    assert forall i :: 0 <= i < k ==> r[i] == s[i];
    assert r[k] == x;
    assert forall i :: k < i < |r| ==> r[i] == s[i - 1];
  }

  // ---------------------------------------------------------------------------
  // Reading the document

  function Kids(d: Dom, x: NodeId): seq<NodeId>
  {
    if x in d.nodes then d.nodes[x].kids else []
  }

  function Parent(d: Dom, x: NodeId): Option<NodeId>
  {
    if x in d.nodes then d.nodes[x].parent else None
  }

  function Tag(d: Dom, x: NodeId): string
  {
    if x in d.nodes then d.nodes[x].tag else ""
  }

  function Html(d: Dom, x: NodeId): string
  {
    if x in d.nodes then d.nodes[x].html else ""
  }

  /** `firstElementChild`. */
  function FirstElementChild(d: Dom, p: NodeId): (r: Option<NodeId>)
    ensures r.Some? <==> Kids(d, p) != []
    ensures r.Some? ==> r.value == Kids(d, p)[0]
  {
    if Kids(d, p) == [] then None else Some(Kids(d, p)[0])
  }

  /** `nextElementSibling`: the element after `x` in its parent's children. */
  function NextElementSibling(d: Dom, x: NodeId): Option<NodeId>
  {
    match Parent(d, x)
    case None => None
    case Some(q) =>
      var k := IndexOf(Kids(d, q), x);
      if 0 <= k && k + 1 < |Kids(d, q)| then Some(Kids(d, q)[k + 1]) else None
  }

  // ---------------------------------------------------------------------------
  // Well-formedness

  /** Every child is an element that names its parent. */
  ghost predicate ChildrenKnowParent(d: Dom)
  {
    forall p, c :: p in d.nodes && c in Kids(d, p) ==> c in d.nodes && Parent(d, c) == Some(p)
  }

  /** Every parent is an element that lists the child. */
  ghost predicate ParentKnowsChild(d: Dom)
  {
    forall c {:trigger Parent(d, c)} :: c in d.nodes && Parent(d, c).Some? ==>
      Parent(d, c).value in d.nodes && c in Kids(d, Parent(d, c).value)
  }

  /** No child appears twice in a children list. */
  ghost predicate KidsDistinct(d: Dom)
  {
    forall p :: p in d.nodes ==> Distinct(Kids(d, p))
  }

  ghost predicate Linked(d: Dom)
  {
    ChildrenKnowParent(d) && ParentKnowsChild(d) && KidsDistinct(d)
  }

  /** `rank` strictly decreases from every parent to each of its children. */
  ghost predicate Ranked(d: Dom, rank: NodeId -> nat)
  {
    forall c {:trigger Parent(d, c)} :: c in d.nodes && Parent(d, c).Some? ==> rank(c) < rank(Parent(d, c).value)
  }

  /** No element is its own ancestor. */
  ghost predicate Acyclic(d: Dom)
  {
    exists rank: NodeId -> nat :: Ranked(d, rank)
  }

  /** Every element has an id below the next one to be handed out. */
  ghost predicate Allocated(d: Dom)
  {
    forall x :: x in d.nodes ==> x < d.next
  }

  ghost predicate WellFormed(d: Dom)
  {
    && Allocated(d)
    && Linked(d)
    && Acyclic(d)
  }

  // ---------------------------------------------------------------------------
  // Subtrees

  /** The children of the elements of `p`. */
  ghost function Below(d: Dom, p: seq<NodeId>): set<NodeId>
  {
    if p == [] then {} else Below(d, p[..|p| - 1]) + Elems(Kids(d, p[|p| - 1]))
  }

  lemma {:induction false} BelowHas(d: Dom, p: seq<NodeId>, j: nat, c: NodeId)
    requires j < |p| && c in Kids(d, p[j])
    ensures c in Below(d, p)
  {
    if j < |p| - 1 {
      BelowHas(d, p[..|p| - 1], j, c);
    }
  }

  lemma {:induction false} BelowWitness(d: Dom, p: seq<NodeId>, c: NodeId) returns (j: nat)
    requires c in Below(d, p)
    ensures j < |p| && c in Kids(d, p[j])
  {
    var front := p[..|p| - 1];
    if c in Below(d, front) {
      j := BelowWitness(d, front, c);
    } else {
      j := |p| - 1;
    }
  }

  /** Every element of `seen` after the first is a child of an earlier one. */
  ghost predicate Rooted(d: Dom, seen: seq<NodeId>)
  {
    forall i :: 0 < i < |seen| ==> seen[i] in Below(d, seen[..i])
  }

  /** The children of `seen[..done]` that are elements of `d` are all in `seen`. */
  ghost predicate ClosedBelow(d: Dom, seen: seq<NodeId>, done: nat)
    requires done <= |seen|
  {
    forall i, c :: 0 <= i < done && c in Kids(d, seen[i]) && c in d.nodes ==> c in seen
  }

  /** The search state of `Reach`: `seen` holds distinct elements of `d`, rooted at `seen[0]`;
      the children of `seen[..done]`, and the first `k` children of `seen[done]`, are in `seen`. */
  ghost predicate Explored(d: Dom, seen: seq<NodeId>, done: nat, k: nat)
  {
    && 0 < |seen| && done <= |seen| && Distinct(seen)
    && (forall i :: 0 <= i < |seen| ==> seen[i] in d.nodes)
    && Rooted(d, seen)
    && ClosedBelow(d, seen, done)
    && (done < |seen| ==>
          && k <= |Kids(d, seen[done])|
          && forall m :: 0 <= m < k && Kids(d, seen[done])[m] in d.nodes ==> Kids(d, seen[done])[m] in seen)
  }

  function Elems(s: seq<NodeId>): set<NodeId>
  {
    set x | x in s
  }

  lemma CardinalityDrop(keys: set<NodeId>, seen: seq<NodeId>, c: NodeId)
    requires c in keys && c !in seen
    ensures |keys - Elems(seen + [c])| < |keys - Elems(seen)|
  {
    var before := keys - Elems(seen);
    var after := keys - Elems(seen + [c]);
    assert after + {c} == before;
    assert c !in after;
  }

  lemma ExploredFinish(d: Dom, seen: seq<NodeId>, done: nat)
    requires done < |seen| && Explored(d, seen, done, |Kids(d, seen[done])|)
    ensures Explored(d, seen, done + 1, 0)
  {
    forall i, c | 0 <= i < done + 1 && c in Kids(d, seen[i]) && c in d.nodes
      ensures c in seen
    {
      if i == done {
        var m :| 0 <= m < |Kids(d, seen[done])| && Kids(d, seen[done])[m] == c;
      }
    }
  }

  lemma ExploredSkip(d: Dom, seen: seq<NodeId>, done: nat, k: nat)
    requires done < |seen| && Explored(d, seen, done, k) && k < |Kids(d, seen[done])|
    requires Kids(d, seen[done])[k] in d.nodes ==> Kids(d, seen[done])[k] in seen
    ensures Explored(d, seen, done, k + 1)
  {
  }

  lemma ExploredAdd(d: Dom, seen: seq<NodeId>, done: nat, k: nat)
    requires done < |seen| && Explored(d, seen, done, k) && k < |Kids(d, seen[done])|
    requires Kids(d, seen[done])[k] in d.nodes && Kids(d, seen[done])[k] !in seen
    ensures Explored(d, seen + [Kids(d, seen[done])[k]], done, k + 1)
  {
    var c := Kids(d, seen[done])[k];
    var seen' := seen + [c];
    assert seen'[done] == seen[done];
    forall i | 0 < i < |seen'| ensures seen'[i] in Below(d, seen'[..i]) {
      if i == |seen| {
        assert seen'[..i] == seen;
        BelowHas(d, seen, done, c);
      } else {
        assert seen'[..i] == seen[..i];
      }
    }
    assert Rooted(d, seen');
    assert ClosedBelow(d, seen', done) by {
      forall i, c' | 0 <= i < done && c' in Kids(d, seen'[i]) && c' in d.nodes ensures c' in seen' {
        assert seen'[i] == seen[i];
      }
    }
  }

  /** Breadth-first search of the children relation from `seen`: `seen[..done]` have had
      their children scanned. */
  function Reach(d: Dom, seen: seq<NodeId>, done: nat): (r: seq<NodeId>)
    requires done <= |seen|
    decreases |d.nodes.Keys - Elems(seen)|, |seen| - done, 1, 0
  {
    if done == |seen| then seen else Scan(d, seen, done, 0)
  }

  /** Scanning the children of `seen[done]` from the `k`-th on, adding those not yet seen. */
  function Scan(d: Dom, seen: seq<NodeId>, done: nat, k: nat): (r: seq<NodeId>)
    requires done < |seen| && k <= |Kids(d, seen[done])|
    decreases |d.nodes.Keys - Elems(seen)|, |seen| - done, 0, |Kids(d, seen[done])| - k
  {
    if k == |Kids(d, seen[done])| then Reach(d, seen, done + 1)
    else if Kids(d, seen[done])[k] in d.nodes && Kids(d, seen[done])[k] !in seen then
      var c := Kids(d, seen[done])[k];
      CardinalityDrop(d.nodes.Keys, seen, c);
      Scan(d, seen + [c], done, k + 1)
    else
      Scan(d, seen, done, k + 1)
  }

  /** The search ends with every child of every element found. */
  lemma {:induction false} ReachExplored(d: Dom, seen: seq<NodeId>, done: nat)
    requires done <= |seen| && Explored(d, seen, done, 0)
    ensures seen <= Reach(d, seen, done) && Explored(d, Reach(d, seen, done), |Reach(d, seen, done)|, 0)
    decreases |d.nodes.Keys - Elems(seen)|, |seen| - done, 1, 0
  {
    if done < |seen| {
      ScanExplored(d, seen, done, 0);
    }
  }

  lemma {:induction false} ScanExplored(d: Dom, seen: seq<NodeId>, done: nat, k: nat)
    requires done < |seen| && k <= |Kids(d, seen[done])| && Explored(d, seen, done, k)
    ensures seen <= Scan(d, seen, done, k) && Explored(d, Scan(d, seen, done, k), |Scan(d, seen, done, k)|, 0)
    decreases |d.nodes.Keys - Elems(seen)|, |seen| - done, 0, |Kids(d, seen[done])| - k
  {
    if k == |Kids(d, seen[done])| {
      ExploredFinish(d, seen, done);
      ReachExplored(d, seen, done + 1);
      assert Scan(d, seen, done, k) == Reach(d, seen, done + 1);
    } else if Kids(d, seen[done])[k] in d.nodes && Kids(d, seen[done])[k] !in seen {
      var c := Kids(d, seen[done])[k];
      CardinalityDrop(d.nodes.Keys, seen, c);
      ExploredAdd(d, seen, done, k);
      ScanExplored(d, seen + [c], done, k + 1);
      assert Scan(d, seen, done, k) == Scan(d, seen + [c], done, k + 1);
      assert seen <= seen + [c];
    } else {
      ExploredSkip(d, seen, done, k);
      ScanExplored(d, seen, done, k + 1);
      assert Scan(d, seen, done, k) == Scan(d, seen, done, k + 1);
    }
  }

  /** The elements of the subtree rooted at `n`, `n` first. */
  function Subtree(d: Dom, n: NodeId): (s: seq<NodeId>)
    ensures n in d.nodes ==> 0 < |s| && s[0] == n && Distinct(s) && forall i :: 0 <= i < |s| ==> s[i] in d.nodes
    ensures n !in d.nodes ==> s == []
  {
    if n in d.nodes then
      var r := Reach(d, [n], 0);
      ReachExplored(d, [n], 0);
      assert r[0] == [n][0];
      r
    else []
  }

  lemma SubtreeExplored(d: Dom, n: NodeId)
    requires n in d.nodes
    ensures Explored(d, Subtree(d, n), |Subtree(d, n)|, 0)
  {
    ReachExplored(d, [n], 0);
  }

  /** Every element after the first of `n`'s subtree has its parent earlier in the subtree. */
  lemma SubtreeParents(d: Dom, n: NodeId)
    requires Linked(d) && n in d.nodes
    ensures forall i :: 0 < i < |Subtree(d, n)| ==>
      Parent(d, Subtree(d, n)[i]).Some? && Parent(d, Subtree(d, n)[i]).value in Subtree(d, n)[..i]
  {
    var s := Subtree(d, n);
    SubtreeExplored(d, n);
    forall i | 0 < i < |s|
      ensures Parent(d, s[i]).Some? && Parent(d, s[i]).value in s[..i]
    {
      assert Rooted(d, s);
      var j := BelowWitness(d, s[..i], s[i]);
      assert s[..i][j] == s[j];
      assert s[j] in d.nodes;
      assert Parent(d, s[i]) == Some(s[j]);
      assert s[..i][j] == s[j];
    }
  }

  /** `n`'s subtree holds every child of each of its elements. */
  lemma SubtreeClosed(d: Dom, n: NodeId)
    requires Linked(d) && n in d.nodes
    ensures forall x, c :: x in Subtree(d, n) && c in Kids(d, x) ==> c in Subtree(d, n)
  {
    var s := Subtree(d, n);
    SubtreeExplored(d, n);
    assert ClosedBelow(d, s, |s|);
    forall x, c | x in s && c in Kids(d, x) ensures c in s {
      var i :| 0 <= i < |s| && s[i] == x;
      assert x in d.nodes;
      assert ChildrenKnowParent(d);
      assert c in d.nodes && c in Kids(d, s[i]);
    }
  }

  /** Ranks never increase going down `n`'s subtree. */
  lemma SubtreeRanks(d: Dom, n: NodeId, rank: NodeId -> nat)
    requires Linked(d) && Ranked(d, rank) && n in d.nodes
    ensures forall x :: x in Subtree(d, n) ==> rank(x) <= rank(n)
  {
    var s := Subtree(d, n);
    SubtreeParents(d, n);
    forall x | x in s ensures rank(x) <= rank(n) {
      var i :| 0 <= i < |s| && s[i] == x;
      RankBelowRoot(d, s, rank, i);
    }
  }

  /** So `n` is not a child of any element of its own subtree. */
  lemma SubtreeRootNotChild(d: Dom, n: NodeId)
    requires Linked(d) && Acyclic(d) && n in d.nodes
    ensures forall x :: x in Subtree(d, n) ==> n !in Kids(d, x)
  {
    var rank :| Ranked(d, rank);
    var s := Subtree(d, n);
    SubtreeRanks(d, n, rank);
    forall x | x in s ensures n !in Kids(d, x) {
      assert rank(x) <= rank(n);
      RankedChild(d, rank, x, n);
    }
  }

  lemma RankedChild(d: Dom, rank: NodeId -> nat, p: NodeId, c: NodeId)
    requires ChildrenKnowParent(d) && Ranked(d, rank) && p in d.nodes
    ensures c in Kids(d, p) ==> rank(c) < rank(p)
  {
    if c in Kids(d, p) {
      assert c in d.nodes && Parent(d, c) == Some(p);
    }
  }

  lemma {:induction false} RankBelowRoot(d: Dom, s: seq<NodeId>, rank: NodeId -> nat, i: nat)
    requires Linked(d) && Ranked(d, rank) && i < |s|
    requires forall j :: 0 <= j < |s| ==> s[j] in d.nodes
    requires forall j :: 0 < j < |s| ==> Parent(d, s[j]).Some? && Parent(d, s[j]).value in s[..j]
    ensures rank(s[i]) <= rank(s[0])
  {
    if i > 0 {
      var q := Parent(d, s[i]).value;
      var j :| 0 <= j < i && s[..i][j] == q;
      RankBelowRoot(d, s, rank, j);
    }
  }

  // ---------------------------------------------------------------------------
  // Mutation algorithms

  /** Removes `n` from its parent's children and clears its parent (a no-op without one). */
  function Detach(d: Dom, n: NodeId): Dom
  {
    match Parent(d, n)
    case None => d
    case Some(q) =>
      var d1 := if q in d.nodes then d.(nodes := d.nodes[q := d.nodes[q].(kids := Strip(d.nodes[q].kids, [n]))]) else d;
      d1.(nodes := d1.nodes[n := d1.nodes[n].(parent := None)])
  }

  /** Makes `n` a child of `p`, just before `ref` (at the end when there is none). */
  function Link(d: Dom, p: NodeId, n: NodeId, ref: Option<NodeId>): Dom
    requires p in d.nodes && n in d.nodes
  {
    var d1 := d.(nodes := d.nodes[p := d.nodes[p].(kids := Splice(d.nodes[p].kids, n, ref))]);
    d1.(nodes := d1.nodes[n := d1.nodes[n].(parent := Some(p))])
  }

  /** "Pre-insert" `n` into `p` before `child` (`insertBefore`; `appendChild` when `child` is
      None): check validity, skip `n` itself as the reference, take `n` from its old parent,
      insert. Ids that are not in the document are never handed out by the host; they are
      refused as not found. */
  function PreInsert(d: Dom, p: NodeId, n: NodeId, child: Option<NodeId>): Result<Dom>
  {
    if p !in d.nodes || n !in d.nodes then Err(NotFound)
    else if p in Subtree(d, n) then Err(HierarchyRequest)
    else if child.Some? && Parent(d, child.value) != Some(p) then Err(NotFound)
    else Ok(Link(Detach(d, n), p, n, Reference(d, n, child)))
  }

  /** When pre-insertion throws, and which exception. */
  lemma PreInsertFails(d: Dom, p: NodeId, n: NodeId, child: Option<NodeId>)
    ensures var r := PreInsert(d, p, n, child);
      && (r.Err? <==> p !in d.nodes || n !in d.nodes || p in Subtree(d, n)
                      || (child.Some? && Parent(d, child.value) != Some(p)))
      && (r.Err? && p in d.nodes && n in d.nodes && p in Subtree(d, n) ==> r.error == HierarchyRequest)
      && (r.Err? && p in d.nodes && n in d.nodes && p !in Subtree(d, n) ==> r.error == NotFound)
  {
  }

  /** Assigning `innerHTML`: the markup string is replaced; it is not parsed into children. */
  function SetHtml(d: Dom, x: NodeId, html: string): (r: Dom)
    ensures r.nodes.Keys == d.nodes.Keys && r.next == d.next
    ensures forall y :: y in d.nodes ==>
      r.nodes[y] == if y == x then d.nodes[y].(html := html) else d.nodes[y]
  {
    if x in d.nodes then d.(nodes := d.nodes[x := d.nodes[x].(html := html)]) else d
  }

  lemma SetHtmlWellFormed(d: Dom, x: NodeId, html: string)
    requires WellFormed(d)
    ensures WellFormed(SetHtml(d, x, html))
    ensures forall y :: Kids(SetHtml(d, x, html), y) == Kids(d, y) && Parent(SetHtml(d, x, html), y) == Parent(d, y)
    ensures forall y :: Tag(SetHtml(d, x, html), y) == Tag(d, y)
    ensures forall y :: Html(SetHtml(d, x, html), y) == if y == x && x in d.nodes then html else Html(d, y)
  {
    var r := SetHtml(d, x, html);
    forall y
      ensures Kids(r, y) == Kids(d, y) && Parent(r, y) == Parent(d, y) && Tag(r, y) == Tag(d, y)
    {
    }
    SameShapeWellFormed(d, r);
  }

  /** A tree whose elements keep their ids, parents and children is as well formed as before. */
  lemma SameShapeWellFormed(d: Dom, r: Dom)
    requires WellFormed(d) && r.nodes.Keys == d.nodes.Keys && r.next == d.next
    requires forall y :: Kids(r, y) == Kids(d, y) && Parent(r, y) == Parent(d, y)
    ensures WellFormed(r)
  {
    assert ChildrenKnowParent(r);
    assert ParentKnowsChild(r);
    assert KidsDistinct(r);
    assert Allocated(r);
    var rank :| Ranked(d, rank);
    assert Ranked(r, rank);
  }

  /** Assigning `innerHTML` to `x` changes the markup of `x` alone. */
  lemma SetHtmlHtml(d: Dom, x: NodeId, html: string, y: NodeId)
    ensures Html(SetHtml(d, x, html), y) == if y == x && x in d.nodes then html else Html(d, y)
  {
  }

  /** Where the reference child points once `n` has been taken out. */
  function Reference(d: Dom, n: NodeId, child: Option<NodeId>): Option<NodeId>
  {
    if child == Some(n) then NextElementSibling(d, n) else child
  }

  lemma DetachAccess(d: Dom, n: NodeId)
    requires ChildrenKnowParent(d) && n in d.nodes
    ensures Detach(d, n).nodes.Keys == d.nodes.Keys && Detach(d, n).next == d.next
    ensures forall x :: Tag(Detach(d, n), x) == Tag(d, x) && Html(Detach(d, n), x) == Html(d, x)
    ensures forall q :: Kids(Detach(d, n), q) == Strip(Kids(d, q), [n])
    ensures forall x :: Parent(Detach(d, n), x) == if x == n then None else Parent(d, x)
  {
    forall q: NodeId ensures Kids(Detach(d, n), q) == Strip(Kids(d, q), [n]) {
      DetachKids(d, n, q);
    }
  }

  lemma DetachKids(d: Dom, n: NodeId, q: NodeId)
    requires ChildrenKnowParent(d) && n in d.nodes
    ensures Kids(Detach(d, n), q) == Strip(Kids(d, q), [n])
  {
    if Parent(d, n) != Some(q) {
      assert n in Kids(d, q) ==> q in d.nodes && Parent(d, n) == Some(q);
      StripNothing(Kids(d, q), [n]);
    }
  }

  lemma DetachLinked(d: Dom, n: NodeId)
    requires Linked(d) && n in d.nodes
    ensures Linked(Detach(d, n))
  {
    DetachAccess(d, n);
    RemovalLinked(d, Detach(d, n), n);
  }

  /** `remove()` keeps the document well formed, for any id: one outside the document has no
      parent, and Detach leaves the document as it was. */
  lemma DetachWellFormed(d: Dom, n: NodeId)
    requires WellFormed(d)
    ensures WellFormed(Detach(d, n))
    ensures Detach(d, n).nodes.Keys == d.nodes.Keys && Detach(d, n).next == d.next
    ensures forall x :: Tag(Detach(d, n), x) == Tag(d, x) && Html(Detach(d, n), x) == Html(d, x)
    ensures forall q :: Kids(Detach(d, n), q) == Strip(Kids(d, q), [n])
    ensures forall x :: Parent(Detach(d, n), x) == if x == n then None else Parent(d, x)
  {
    if n in d.nodes {
      DetachAccess(d, n);
      DetachLinked(d, n);
      var rank :| Ranked(d, rank);
      assert Ranked(Detach(d, n), rank);
    } else {
      forall q ensures Kids(Detach(d, n), q) == Strip(Kids(d, q), [n]) {
        StripNothing(Kids(d, q), [n]);
      }
    }
  }

  /** Taking `n` out of every children list and clearing its parent keeps the links. */
  lemma RemovalLinked(d: Dom, r: Dom, n: NodeId)
    requires Linked(d) && r.nodes.Keys == d.nodes.Keys
    requires forall q :: Kids(r, q) == Strip(Kids(d, q), [n])
    requires forall x :: Parent(r, x) == if x == n then None else Parent(d, x)
    ensures Linked(r)
  {
    RemovalChildren(d, r, n);
    RemovalParents(d, r, n);
    assert KidsDistinct(r) by {
      forall q | q in r.nodes ensures Distinct(Kids(r, q)) {
        assert KidsDistinct(d);
        StripDistinct(Kids(d, q), [n]);
      }
    }
  }

  lemma RemovalChildren(d: Dom, r: Dom, n: NodeId)
    requires ChildrenKnowParent(d) && r.nodes.Keys == d.nodes.Keys
    requires forall q :: Kids(r, q) == Strip(Kids(d, q), [n])
    requires forall x :: Parent(r, x) == if x == n then None else Parent(d, x)
    ensures ChildrenKnowParent(r)
  {
    forall q, c | q in r.nodes && c in Kids(r, q)
      ensures c in r.nodes && Parent(r, c) == Some(q)
    {
      assert q in d.nodes;
      RemovalChild(d, r, n, q, c);
    }
  }

  /** One edge of RemovalChildren. */
  lemma RemovalChild(d: Dom, r: Dom, n: NodeId, q: NodeId, c: NodeId)
    requires ChildrenKnowParent(d) && r.nodes.Keys == d.nodes.Keys && q in d.nodes
    requires Kids(r, q) == Strip(Kids(d, q), [n]) && c in Kids(r, q)
    requires Parent(r, c) == if c == n then None else Parent(d, c)
    ensures c in r.nodes && Parent(r, c) == Some(q)
  {
    assert c in Kids(d, q) && c != n;
  }

  lemma RemovalParents(d: Dom, r: Dom, n: NodeId)
    requires Linked(d) && r.nodes.Keys == d.nodes.Keys
    requires forall q :: Kids(r, q) == Strip(Kids(d, q), [n])
    requires forall x :: Parent(r, x) == if x == n then None else Parent(d, x)
    ensures ParentKnowsChild(r)
  {
    forall c | c in r.nodes && Parent(r, c).Some?
      ensures Parent(r, c).value in r.nodes && c in Kids(r, Parent(r, c).value)
    {
      assert c != n && Parent(r, c) == Parent(d, c);
      var q := Parent(d, c).value;
      assert ParentKnowsChild(d);
      assert q in d.nodes && c in Kids(d, q);
      assert c in Strip(Kids(d, q), [n]);
    }
  }

  lemma LinkAccess(d: Dom, p: NodeId, n: NodeId, ref: Option<NodeId>)
    requires p in d.nodes && n in d.nodes && p != n
    ensures Link(d, p, n, ref).nodes.Keys == d.nodes.Keys && Link(d, p, n, ref).next == d.next
    ensures forall x :: Tag(Link(d, p, n, ref), x) == Tag(d, x) && Html(Link(d, p, n, ref), x) == Html(d, x)
    ensures forall q :: Kids(Link(d, p, n, ref), q) == if q == p then Splice(Kids(d, p), n, ref) else Kids(d, q)
    ensures forall x :: Parent(Link(d, p, n, ref), x) == if x == n then Some(p) else Parent(d, x)
  {
  }

  lemma LinkLinked(d: Dom, p: NodeId, n: NodeId, ref: Option<NodeId>)
    requires Linked(d) && p in d.nodes && n in d.nodes && p != n && Parent(d, n) == None
    ensures Linked(Link(d, p, n, ref))
  {
    LinkAccess(d, p, n, ref);
    AdditionLinked(d, Link(d, p, n, ref), p, n, ref);
  }

  /** Splicing a parentless `n` into `p`'s children and naming `p` its parent keeps the links. */
  lemma AdditionLinked(d: Dom, r: Dom, p: NodeId, n: NodeId, ref: Option<NodeId>)
    requires Linked(d) && p in d.nodes && n in d.nodes && p != n && Parent(d, n) == None
    requires r.nodes.Keys == d.nodes.Keys
    requires forall q :: Kids(r, q) == if q == p then Splice(Kids(d, p), n, ref) else Kids(d, q)
    requires forall x :: Parent(r, x) == if x == n then Some(p) else Parent(d, x)
    ensures Linked(r)
  {
    AdditionChildren(d, r, p, n, ref);
    AdditionParents(d, r, p, n, ref);
    AdditionDistinct(d, r, p, n, ref);
  }

  lemma AdditionChildren(d: Dom, r: Dom, p: NodeId, n: NodeId, ref: Option<NodeId>)
    requires ChildrenKnowParent(d) && p in d.nodes && n in d.nodes && p != n && Parent(d, n) == None
    requires r.nodes.Keys == d.nodes.Keys
    requires forall q :: Kids(r, q) == if q == p then Splice(Kids(d, p), n, ref) else Kids(d, q)
    requires forall x :: Parent(r, x) == if x == n then Some(p) else Parent(d, x)
    ensures ChildrenKnowParent(r)
  {
    forall q, c | q in r.nodes && c in Kids(r, q)
      ensures c in r.nodes && Parent(r, c) == Some(q)
    {
      assert q in d.nodes;
      AdditionChild(d, r, p, n, ref, q, c);
    }
  }

  /** One edge of AdditionChildren. */
  lemma AdditionChild(d: Dom, r: Dom, p: NodeId, n: NodeId, ref: Option<NodeId>, q: NodeId, c: NodeId)
    requires ChildrenKnowParent(d) && n in d.nodes && Parent(d, n) == None
    requires r.nodes.Keys == d.nodes.Keys && q in d.nodes
    requires Kids(r, q) == (if q == p then Splice(Kids(d, p), n, ref) else Kids(d, q)) && c in Kids(r, q)
    requires Parent(r, c) == if c == n then Some(p) else Parent(d, c)
    ensures c in r.nodes && Parent(r, c) == Some(q)
  {
    if c != n {
      assert c in Kids(d, q);
    } else {
      assert n !in Kids(d, q) by {
        assert n in Kids(d, q) ==> Parent(d, n) == Some(q);
      }
    }
  }

  lemma AdditionParents(d: Dom, r: Dom, p: NodeId, n: NodeId, ref: Option<NodeId>)
    requires Linked(d) && p in d.nodes && n in d.nodes && p != n && Parent(d, n) == None
    requires r.nodes.Keys == d.nodes.Keys
    requires forall q :: Kids(r, q) == if q == p then Splice(Kids(d, p), n, ref) else Kids(d, q)
    requires forall x :: Parent(r, x) == if x == n then Some(p) else Parent(d, x)
    ensures ParentKnowsChild(r)
  {
    forall c | c in r.nodes && Parent(r, c).Some?
      ensures Parent(r, c).value in r.nodes && c in Kids(r, Parent(r, c).value)
    {
      if c != n {
        assert Parent(r, c) == Parent(d, c);
        var q := Parent(d, c).value;
        assert ParentKnowsChild(d);
        assert q in d.nodes && c in Kids(d, q);
        assert c in Kids(r, q);
      } else {
        assert Parent(r, c) == Some(p);
        assert c in Splice(Kids(d, p), n, ref);
      }
    }
  }

  lemma AdditionDistinct(d: Dom, r: Dom, p: NodeId, n: NodeId, ref: Option<NodeId>)
    requires Linked(d) && p in d.nodes && n in d.nodes && p != n && Parent(d, n) == None
    requires r.nodes.Keys == d.nodes.Keys
    requires forall q :: Kids(r, q) == if q == p then Splice(Kids(d, p), n, ref) else Kids(d, q)
    requires forall x :: Parent(r, x) == if x == n then Some(p) else Parent(d, x)
    ensures KidsDistinct(r)
  {
    assert n !in Kids(d, p) by {
      assert ChildrenKnowParent(d);
      assert n in Kids(d, p) ==> Parent(d, n) == Some(p);
    }
    assert KidsDistinct(d);
    SpliceDistinct(Kids(d, p), n, ref);
    forall q | q in r.nodes ensures Distinct(Kids(r, q)) {
      if q != p { assert Kids(r, q) == Kids(d, q); }
    }
  }

  /** Moving `n` under a parent outside its subtree keeps the document acyclic: the elements
      outside the subtree are lifted above all ranks of the subtree. */
  lemma MoveAcyclic(d: Dom, r: Dom, n: NodeId, p: NodeId)
    requires Linked(d) && Acyclic(d) && n in d.nodes && p in d.nodes && p !in Subtree(d, n)
    requires r.nodes.Keys == d.nodes.Keys
    requires forall x :: x != n ==> Parent(r, x) == Parent(d, x)
    requires Parent(r, n) == Some(p)
    ensures Acyclic(r)
  {
    var rank :| Ranked(d, rank);
    var s := Subtree(d, n);
    var lifted := (x: NodeId) => if x in s then rank(x) else rank(x) + rank(n) + 1;
    forall c | c in r.nodes && Parent(r, c).Some?
      ensures lifted(c) < lifted(Parent(r, c).value)
    {
      if c == n {
        assert Parent(r, c) == Some(p) && p !in s && n in s;
      } else {
        MoveEdge(d, rank, n, c);
      }
    }
    assert Ranked(r, lifted);
  }

  /** An edge that did not move keeps its order under the lifted rank of MoveAcyclic. */
  lemma MoveEdge(d: Dom, rank: NodeId -> nat, n: NodeId, c: NodeId)
    requires Linked(d) && Ranked(d, rank) && n in d.nodes && c in d.nodes && c != n
    requires Parent(d, c).Some?
    ensures var s := Subtree(d, n); var q := Parent(d, c).value;
      (if c in s then rank(c) else rank(c) + rank(n) + 1) < (if q in s then rank(q) else rank(q) + rank(n) + 1)
  {
    var s := Subtree(d, n);
    var q := Parent(d, c).value;
    assert rank(c) < rank(q);
    if c !in s {
      assert c in Kids(d, q);
      SubtreeClosed(d, n);
    }
  }

  lemma PreInsertWellFormed(d: Dom, p: NodeId, n: NodeId, child: Option<NodeId>)
    requires WellFormed(d) && PreInsert(d, p, n, child).Ok?
    ensures WellFormed(PreInsert(d, p, n, child).value)
    ensures PreInsert(d, p, n, child).value.nodes.Keys == d.nodes.Keys
    ensures PreInsert(d, p, n, child).value.next == d.next
    ensures forall x :: Tag(PreInsert(d, p, n, child).value, x) == Tag(d, x)
    ensures forall x :: Html(PreInsert(d, p, n, child).value, x) == Html(d, x)
    ensures forall q :: (Kids(PreInsert(d, p, n, child).value, q) ==
      if q == p then Splice(Strip(Kids(d, p), [n]), n, Reference(d, n, child)) else Strip(Kids(d, q), [n]))
    ensures forall x :: Parent(PreInsert(d, p, n, child).value, x) == if x == n then Some(p) else Parent(d, x)
  {
    var d1 := Detach(d, n);
    DetachLinked(d, n);
    DetachAccess(d, n);
    assert n in Subtree(d, n);
    LinkLinked(d1, p, n, Reference(d, n, child));
    LinkAccess(d1, p, n, Reference(d, n, child));
    var r := PreInsert(d, p, n, child).value;
    MoveAcyclic(d, r, n, p);
  }

  // ---------------------------------------------------------------------------
  // Deep clone (`cloneNode(true)`)

  /** The renaming of a copy of the distinct elements `s`: `s[i]` becomes `base + i`. */
  function Renaming(s: seq<NodeId>, base: nat): (ren: map<NodeId, NodeId>)
    requires Distinct(s)
    ensures forall i :: 0 <= i < |s| ==> s[i] in ren && ren[s[i]] == base + i
  {
    if s == [] then map[]
    else
      var front := s[..|s| - 1];
      assert forall i :: 0 <= i < |front| ==> front[i] == s[i] && s[i] != s[|s| - 1];
      Renaming(front, base)[s[|s| - 1] := base + |s| - 1]
  }

  function CopyId(ren: map<NodeId, NodeId>, x: NodeId): NodeId
  {
    if x in ren then ren[x] else x
  }

  function CopyIds(ren: map<NodeId, NodeId>, xs: seq<NodeId>): (r: seq<NodeId>)
    ensures |r| == |xs| && forall k :: 0 <= k < |xs| ==> r[k] == CopyId(ren, xs[k])
  {
    if xs == [] then [] else [CopyId(ren, xs[0])] + CopyIds(ren, xs[1..])
  }

  /** The copy of `s[i]`: its tag and markup, its children renamed, and its parent renamed
      except for the root of the copy, which has none. */
  /** A parent link after renaming. */
  function RenamedParent(ren: map<NodeId, NodeId>, p: Option<NodeId>): Option<NodeId>
  {
    if p.Some? then Some(CopyId(ren, p.value)) else None
  }

  function CopyNode(d: Dom, s: seq<NodeId>, ren: map<NodeId, NodeId>, i: nat): Node
    requires i < |s| && s[i] in d.nodes
  {
    var x := d.nodes[s[i]];
    var parent := if i == 0 then None else RenamedParent(ren, x.parent);
    Node(x.tag, x.html, parent, CopyIds(ren, x.kids))
  }

  /** The copies of `s[..m]`, at `base`, `base + 1`, ... */
  function CopyMap(d: Dom, s: seq<NodeId>, ren: map<NodeId, NodeId>, base: nat, m: nat): (r: map<NodeId, Node>)
    requires m <= |s| && forall i :: 0 <= i < |s| ==> s[i] in d.nodes
  {
    if m == 0 then map[] else CopyMap(d, s, ren, base, m - 1)[base + m - 1 := CopyNode(d, s, ren, m - 1)]
  }

  /** The copies of `s[..m]` sit exactly at `base` .. `base + m - 1`. */
  lemma {:induction false} CopyMapAccess(d: Dom, s: seq<NodeId>, ren: map<NodeId, NodeId>, base: nat, m: nat)
    requires m <= |s| && forall i :: 0 <= i < |s| ==> s[i] in d.nodes
    ensures var r := CopyMap(d, s, ren, base, m);
      && (forall y {:trigger y in r} :: y in r <==> base <= y < base + m)
      && (forall i {:trigger CopyNode(d, s, ren, i)} :: 0 <= i < m ==> r[base + i] == CopyNode(d, s, ren, i))
  {
    if m > 0 {
      CopyMapAccess(d, s, ren, base, m - 1);
    }
  }

  /** The renaming used by `Clone(d, n)`. */
  function CloneRenaming(d: Dom, n: NodeId): map<NodeId, NodeId>
    requires n in d.nodes
  {
    Renaming(Subtree(d, n), d.next)
  }

  /** `cloneNode(true)` on `n`: its subtree is copied to fresh ids from `d.next` on, in the
      order of `Subtree`, so the copy of `n` is `d.next`. */
  function Clone(d: Dom, n: NodeId): Dom
    requires n in d.nodes
  {
    var s := Subtree(d, n);
    Dom(CopyMap(d, s, CloneRenaming(d, n), d.next, |s|) + d.nodes, d.next + |s|)
  }

  /** The clone adds exactly the ids `d.next` .. `r.next - 1`, keeps every element, and its
      root is a parentless copy of `n`. */
  lemma CloneFrame(d: Dom, n: NodeId)
    requires n in d.nodes
    ensures var r := Clone(d, n);
      && r.next == d.next + |Subtree(d, n)| && d.next < r.next
      && (forall y {:trigger y in r.nodes} :: y in r.nodes <==> y in d.nodes || d.next <= y < r.next)
      && (forall x :: x in d.nodes ==> x in r.nodes && r.nodes[x] == d.nodes[x])
      && (Allocated(d) ==> Parent(r, d.next) == None && Tag(r, d.next) == Tag(d, n) && Html(r, d.next) == Html(d, n))
  {
    var s := Subtree(d, n);
    var r := Clone(d, n);
    CopyMapAccess(d, s, CloneRenaming(d, n), d.next, |s|);
    assert Allocated(d) ==> d.next !in d.nodes && r.nodes[d.next] == CopyNode(d, s, CloneRenaming(d, n), 0);
  }

  /** The facts about a subtree that copying relies on. */
  ghost predicate TreeShape(d: Dom, s: seq<NodeId>)
  {
    && 0 < |s| && Distinct(s)
    && (forall i :: 0 <= i < |s| ==> s[i] in d.nodes)
    && (forall x, c :: x in s && c in Kids(d, x) ==> c in s && c != s[0])
    && (forall i {:trigger Parent(d, s[i])} :: 0 < i < |s| ==> Parent(d, s[i]).Some? && Parent(d, s[i]).value in s)
  }

  lemma SubtreeShape(d: Dom, n: NodeId)
    requires WellFormed(d) && n in d.nodes
    ensures TreeShape(d, Subtree(d, n)) && Subtree(d, n)[0] == n
  {
    var s := Subtree(d, n);
    SubtreeClosed(d, n);
    SubtreeRootNotChild(d, n);
    SubtreeParents(d, n);
    forall i | 0 < i < |s| ensures Parent(d, s[i]).Some? && Parent(d, s[i]).value in s {
      assert s[..i] <= s;
    }
  }

  /** `r` is `d` plus copies of `s` at `base`, `base + 1`, ..., renamed by `ren`. */
  ghost predicate CopiedAt(d: Dom, r: Dom, s: seq<NodeId>, ren: map<NodeId, NodeId>, base: nat)
    requires forall i :: 0 <= i < |s| ==> s[i] in d.nodes
  {
    && (forall i :: 0 <= i < |s| ==> s[i] in ren && ren[s[i]] == base + i)
    && (forall y :: y in r.nodes ==> y in d.nodes || base <= y < base + |s|)
    && (forall x :: x in d.nodes ==> x < base && x in r.nodes && r.nodes[x] == d.nodes[x])
    && (forall i {:trigger CopyNode(d, s, ren, i)} :: 0 <= i < |s| ==>
          base + i in r.nodes && r.nodes[base + i] == CopyNode(d, s, ren, i))
  }

  lemma CloneCopied(d: Dom, n: NodeId)
    requires Allocated(d) && n in d.nodes
    ensures forall i :: 0 <= i < |Subtree(d, n)| ==> Subtree(d, n)[i] in d.nodes
    ensures CopiedAt(d, Clone(d, n), Subtree(d, n), CloneRenaming(d, n), d.next)
  {
    var s := Subtree(d, n);
    var ren := CloneRenaming(d, n);
    assert Clone(d, n) == Dom(CopyMap(d, s, ren, d.next, |s|) + d.nodes, d.next + |s|);
    MapCopied(d, s, ren, d.next);
  }

  lemma MapCopied(d: Dom, s: seq<NodeId>, ren: map<NodeId, NodeId>, base: nat)
    requires forall i :: 0 <= i < |s| ==> s[i] in d.nodes && s[i] in ren && ren[s[i]] == base + i
    requires forall x :: x in d.nodes ==> x < base
    ensures CopiedAt(d, Dom(CopyMap(d, s, ren, base, |s|) + d.nodes, base + |s|), s, ren, base)
  {
    var copies := CopyMap(d, s, ren, base, |s|);
    var r := Dom(copies + d.nodes, base + |s|);
    CopyMapAccess(d, s, ren, base, |s|);
    forall i | 0 <= i < |s| ensures base + i in r.nodes && r.nodes[base + i] == CopyNode(d, s, ren, i) {
      assert base + i !in d.nodes;
      assert base + i in copies && copies[base + i] == CopyNode(d, s, ren, i);
    }
  }

  /** Reading the copy: copies read as the copied elements, renamed. */
  lemma CopyAccess(d: Dom, r: Dom, s: seq<NodeId>, ren: map<NodeId, NodeId>, base: nat, i: nat)
    requires TreeShape(d, s) && CopiedAt(d, r, s, ren, base) && i < |s|
    ensures base + i in r.nodes && base + i !in d.nodes
    ensures Kids(r, base + i) == CopyIds(ren, Kids(d, s[i]))
    ensures Tag(r, base + i) == Tag(d, s[i]) && Html(r, base + i) == Html(d, s[i])
    ensures Parent(r, base + i) == if i == 0 then None else RenamedParent(ren, Parent(d, s[i]))
  {
    assert s[i] in d.nodes;
    var cn := CopyNode(d, s, ren, i);
    assert base + i in r.nodes;
    assert r.nodes[base + i] == cn;
    assert base + i !in d.nodes;
  }

  lemma CopyChildren(d: Dom, r: Dom, s: seq<NodeId>, ren: map<NodeId, NodeId>, base: nat)
    requires ChildrenKnowParent(d) && TreeShape(d, s) && CopiedAt(d, r, s, ren, base)
    ensures ChildrenKnowParent(r)
  {
    forall p, c | p in r.nodes && c in Kids(r, p) ensures c in r.nodes && Parent(r, c) == Some(p) {
      if p in d.nodes {
        assert Kids(r, p) == Kids(d, p);
        assert c in d.nodes && Parent(d, c) == Some(p);
      } else {
        CopyChild(d, r, s, ren, base, p, c);
      }
    }
  }

  lemma CopyChild(d: Dom, r: Dom, s: seq<NodeId>, ren: map<NodeId, NodeId>, base: nat, p: NodeId, c: NodeId)
    requires ChildrenKnowParent(d) && TreeShape(d, s) && CopiedAt(d, r, s, ren, base)
    requires p in r.nodes && p !in d.nodes && c in Kids(r, p)
    ensures c in r.nodes && Parent(r, c) == Some(p)
  {
    var i := p - base;
    assert 0 <= i < |s| && p == base + i;
    CopyAccess(d, r, s, ren, base, i);
    var ks := CopyIds(ren, Kids(d, s[i]));
    assert c in ks;
    var k :| 0 <= k < |ks| && ks[k] == c;
    var x := Kids(d, s[i])[k];
    assert c == CopyId(ren, x);
    assert x in s && x != s[0];
    var j :| 0 <= j < |s| && s[j] == x;
    assert c == base + j && j != 0;
    CopyAccess(d, r, s, ren, base, j);
    assert s[i] in d.nodes && x in Kids(d, s[i]);
    assert Parent(d, s[j]) == Some(s[i]);
    assert Parent(r, base + j) == Some(CopyId(ren, s[i]));
    assert CopyId(ren, s[i]) == p;
  }

  lemma CopyParents(d: Dom, r: Dom, s: seq<NodeId>, ren: map<NodeId, NodeId>, base: nat)
    requires ParentKnowsChild(d) && TreeShape(d, s) && CopiedAt(d, r, s, ren, base)
    ensures ParentKnowsChild(r)
  {
    forall c | c in r.nodes && Parent(r, c).Some?
      ensures Parent(r, c).value in r.nodes && c in Kids(r, Parent(r, c).value)
    {
      if c in d.nodes {
        assert Parent(r, c) == Parent(d, c);
        var q := Parent(d, c).value;
        assert q in d.nodes && Kids(r, q) == Kids(d, q);
      } else {
        CopyParent(d, r, s, ren, base, c);
      }
    }
  }

  lemma CopyParent(d: Dom, r: Dom, s: seq<NodeId>, ren: map<NodeId, NodeId>, base: nat, c: NodeId)
    requires ParentKnowsChild(d) && TreeShape(d, s) && CopiedAt(d, r, s, ren, base)
    requires c in r.nodes && c !in d.nodes && Parent(r, c).Some?
    ensures Parent(r, c).value in r.nodes && c in Kids(r, Parent(r, c).value)
  {
    var j := c - base;
    assert 0 <= j < |s| && c == base + j;
    CopyAccess(d, r, s, ren, base, j);
    assert j != 0;
    assert Parent(d, s[j]).Some? && Parent(d, s[j]).value in s;
    var q := Parent(d, s[j]).value;
    var i :| 0 <= i < |s| && s[i] == q;
    assert Parent(r, c) == Some(CopyId(ren, q));
    assert CopyId(ren, q) == base + i;
    CopyAccess(d, r, s, ren, base, i);
    assert s[j] in d.nodes && s[j] in Kids(d, q);
    var k :| 0 <= k < |Kids(d, q)| && Kids(d, q)[k] == s[j];
    var ks := CopyIds(ren, Kids(d, q));
    assert Kids(r, base + i) == ks;
    assert ks[k] == CopyId(ren, s[j]) == c;
  }

  lemma CopyDistinct(d: Dom, r: Dom, s: seq<NodeId>, ren: map<NodeId, NodeId>, base: nat)
    requires KidsDistinct(d) && TreeShape(d, s) && CopiedAt(d, r, s, ren, base)
    ensures KidsDistinct(r)
  {
    forall p | p in r.nodes ensures Distinct(Kids(r, p)) {
      if p in d.nodes {
        assert Kids(r, p) == Kids(d, p);
      } else {
        CopyKidsDistinct(d, r, s, ren, base, p - base);
      }
    }
  }

  lemma CopyKidsDistinct(d: Dom, r: Dom, s: seq<NodeId>, ren: map<NodeId, NodeId>, base: nat, i: nat)
    requires KidsDistinct(d) && TreeShape(d, s) && CopiedAt(d, r, s, ren, base) && i < |s|
    ensures Distinct(Kids(r, base + i))
  {
    CopyAccess(d, r, s, ren, base, i);
    var ks := Kids(d, s[i]);
    assert Distinct(ks);
    var cs := CopyIds(ren, ks);
    forall a, b | 0 <= a < b < |cs| ensures cs[a] != cs[b] {
      assert ks[a] in s && ks[b] in s && ks[a] != ks[b];
      var ja :| 0 <= ja < |s| && s[ja] == ks[a];
      var jb :| 0 <= jb < |s| && s[jb] == ks[b];
      assert cs[a] == base + ja && cs[b] == base + jb;
    }
  }

  lemma CopyAcyclic(d: Dom, r: Dom, s: seq<NodeId>, ren: map<NodeId, NodeId>, base: nat)
    requires Linked(d) && Acyclic(d) && TreeShape(d, s) && CopiedAt(d, r, s, ren, base)
    ensures Acyclic(r)
  {
    var rank :| Ranked(d, rank);
    var copied := CopiedRank(rank, s, base);
    forall c | c in r.nodes && Parent(r, c).Some? ensures copied(c) < copied(Parent(r, c).value) {
      CopyRanked(d, r, s, ren, base, rank, c);
    }
    assert Ranked(r, copied);
  }

  /** The rank of a copy is the rank of what it copies. */
  function CopiedRank(rank: NodeId -> nat, s: seq<NodeId>, base: nat): NodeId -> nat
  {
    (y: NodeId) => CopiedRankAt(rank, s, base, y)
  }

  function CopiedRankAt(rank: NodeId -> nat, s: seq<NodeId>, base: nat, y: NodeId): nat
  {
    if base <= y < base + |s| then rank(s[y - base]) else rank(y)
  }

  lemma CopyRanked(d: Dom, r: Dom, s: seq<NodeId>, ren: map<NodeId, NodeId>, base: nat, rank: NodeId -> nat, c: NodeId)
    requires ParentKnowsChild(d) && Ranked(d, rank) && TreeShape(d, s) && CopiedAt(d, r, s, ren, base)
    requires c in r.nodes && Parent(r, c).Some?
    ensures CopiedRankAt(rank, s, base, c) < CopiedRankAt(rank, s, base, Parent(r, c).value)
  {
    if c in d.nodes {
      OldRanked(d, r, s, ren, base, rank, c);
    } else {
      var j := c - base;
      assert 0 <= j < |s| && c == base + j;
      CopyAccess(d, r, s, ren, base, j);
      var i := CopyEdge(d, r, s, ren, base, rank, j);
      assert CopiedRankAt(rank, s, base, base + i) == rank(s[i]);
    }
  }

  lemma OldRanked(d: Dom, r: Dom, s: seq<NodeId>, ren: map<NodeId, NodeId>, base: nat, rank: NodeId -> nat, c: NodeId)
    requires ParentKnowsChild(d) && Ranked(d, rank) && TreeShape(d, s) && CopiedAt(d, r, s, ren, base)
    requires c in d.nodes && Parent(d, c).Some?
    ensures Parent(r, c) == Parent(d, c)
    ensures CopiedRankAt(rank, s, base, c) < CopiedRankAt(rank, s, base, Parent(d, c).value)
  {
    assert r.nodes[c] == d.nodes[c];
    var q := Parent(d, c).value;
    assert q in d.nodes && c < base && q < base;
    assert rank(c) < rank(q);
  }

  lemma CopyEdge(d: Dom, r: Dom, s: seq<NodeId>, ren: map<NodeId, NodeId>, base: nat, rank: NodeId -> nat, j: nat)
    returns (i: nat)
    requires Ranked(d, rank) && TreeShape(d, s) && CopiedAt(d, r, s, ren, base) && 0 < j < |s|
    ensures i < |s| && Parent(r, base + j) == Some(base + i) && rank(s[j]) < rank(s[i])
  {
    CopyAccess(d, r, s, ren, base, j);
    var q := Parent(d, s[j]).value;
    i :| 0 <= i < |s| && s[i] == q;
    assert CopyId(ren, q) == base + i;
    assert s[j] in d.nodes && Parent(d, s[j]).Some?;
    assert rank(s[j]) < rank(q);
  }

  /** A deep clone leaves a well-formed document well formed. */
  lemma CloneWellFormed(d: Dom, n: NodeId)
    requires WellFormed(d) && n in d.nodes
    ensures WellFormed(Clone(d, n))
  {
    var s := Subtree(d, n);
    var r := Clone(d, n);
    var ren := CloneRenaming(d, n);
    SubtreeShape(d, n);
    CloneCopied(d, n);
    CopyChildren(d, r, s, ren, d.next);
    CopyParents(d, r, s, ren, d.next);
    CopyDistinct(d, r, s, ren, d.next);
    CopyAcyclic(d, r, s, ren, d.next);
  }

  /** The clone is an exact copy of `n`'s subtree: each element `x` of it has a fresh copy with
      the same tag and markup, whose children are the copies of `x`'s children, in order, and
      whose parent is the copy of `x`'s parent (none for the copy of `n`). */
  lemma CloneIsCopy(d: Dom, n: NodeId, x: NodeId)
    requires WellFormed(d) && n in d.nodes && x in Subtree(d, n)
    ensures var r, ren := Clone(d, n), CloneRenaming(d, n);
      && x in ren && d.next <= ren[x] < r.next && ren[x] in r.nodes && ren[x] !in d.nodes
      && Tag(r, ren[x]) == Tag(d, x) && Html(r, ren[x]) == Html(d, x)
      && Kids(r, ren[x]) == CopyIds(ren, Kids(d, x))
      && Parent(r, ren[x]) == (if x == n then None else RenamedParent(ren, Parent(d, x)))
      && (x != n ==> Parent(d, x).Some?)
      && (forall y :: y in Subtree(d, n) && y != x ==> y in ren && ren[y] != ren[x])
  {
    SubtreeShape(d, n);
    CloneCopied(d, n);
    CopyOf(d, Clone(d, n), Subtree(d, n), CloneRenaming(d, n), d.next, x);
    forall y | y in Subtree(d, n) && y != x
      ensures y in CloneRenaming(d, n) && CloneRenaming(d, n)[y] != CloneRenaming(d, n)[x]
    {
      CopyApart(d, Clone(d, n), Subtree(d, n), CloneRenaming(d, n), d.next, x, y);
    }
  }

  /** Two elements of the copied subtree get different copies. */
  lemma CopyApart(d: Dom, r: Dom, s: seq<NodeId>, ren: map<NodeId, NodeId>, base: nat, x: NodeId, y: NodeId)
    requires TreeShape(d, s) && CopiedAt(d, r, s, ren, base) && x in s && y in s && x != y
    ensures x in ren && y in ren && ren[x] != ren[y]
  {
    var i :| 0 <= i < |s| && s[i] == x;
    var k :| 0 <= k < |s| && s[k] == y;
    assert ren[x] == base + i && ren[y] == base + k;
  }

  lemma CopyOf(d: Dom, r: Dom, s: seq<NodeId>, ren: map<NodeId, NodeId>, base: nat, x: NodeId)
    requires TreeShape(d, s) && CopiedAt(d, r, s, ren, base) && x in s
    ensures && x in ren && base <= ren[x] < base + |s| && ren[x] in r.nodes && ren[x] !in d.nodes
      && Tag(r, ren[x]) == Tag(d, x) && Html(r, ren[x]) == Html(d, x)
      && Kids(r, ren[x]) == CopyIds(ren, Kids(d, x))
      && Parent(r, ren[x]) == (if x == s[0] then None else RenamedParent(ren, Parent(d, x)))
      && (x != s[0] ==> Parent(d, x).Some?)
  {
    var i :| 0 <= i < |s| && s[i] == x;
    assert ren[x] == base + i;
    CopyAccess(d, r, s, ren, base, i);
    assert x == s[0] <==> i == 0;
  }
}
