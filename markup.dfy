/** `_appendHTML`: `append`/`prepend` with a string holding a '/' edits the markup of every
    target and leaves the tree alone. */
module Markup {
  import opened DomTree
  import opened Engine

  /** `s` written `n` times over. */
  function Repeat(s: string, n: nat): (r: string)
    ensures |r| == n * |s|
  {
    if n == 0 then [] else s + Repeat(s, n - 1)
  }

  /** One more copy can go at either end. */
  lemma {:induction false} RepeatSnoc(s: string, n: nat, n1: nat)
    requires n1 == n + 1
    ensures Repeat(s, n) + s == Repeat(s, n1)
  {
    if n > 0 {
      RepeatSnoc(s, n - 1, n);
      assert Repeat(s, n) + s == s + (Repeat(s, n - 1) + s);
    }
  }

  /** The markup edits of the first `k` targets keep the tree, the tags and the ids. */
  lemma {:induction false} WithMarkupFrame(d: Dom, ts: seq<NodeId>, s: string, prepend: bool, k: nat)
    requires WellFormed(d) && k <= |ts|
    ensures var r := WithMarkup(d, ts, s, prepend, k);
      && WellFormed(r) && r.nodes.Keys == d.nodes.Keys && r.next == d.next
      && (forall y :: Kids(r, y) == Kids(d, y) && Parent(r, y) == Parent(d, y) && Tag(r, y) == Tag(d, y))
  {
    if k > 0 {
      var k0 := k - 1;
      WithMarkupFrame(d, ts, s, prepend, k0);
      var r0 := WithMarkup(d, ts, s, prepend, k0);
      var x := ts[k0];
      SetHtmlWellFormed(r0, x, if prepend then s + Html(r0, x) else Html(r0, x) + s);
    }
  }

  /** Through the markup edits of the first `k` targets, an element's markup gains one copy of
      `s` for every time it is listed among them, in front for `prepend` and after otherwise. */
  lemma {:induction false} WithMarkupHtml(d: Dom, ts: seq<NodeId>, s: string, prepend: bool, k: nat, y: NodeId)
    requires k <= |ts| && y in d.nodes
    ensures var n := multiset(ts[..k])[y];
      Html(WithMarkup(d, ts, s, prepend, k), y) ==
        if prepend then Repeat(s, n) + Html(d, y) else Html(d, y) + Repeat(s, n)
  {
    if k > 0 {
      var k0 := k - 1;
      var x, n, n1 := ts[k0], multiset(ts[..k0])[y], multiset(ts[..k])[y];
      var r0 := WithMarkup(d, ts, s, prepend, k0);
      WithMarkupHtml(d, ts, s, prepend, k0, y);
      assert y in r0.nodes by {
        WithMarkupKeys(d, ts, s, prepend, k0);
      }
      var html := if prepend then s + Html(r0, x) else Html(r0, x) + s;
      assert WithMarkup(d, ts, s, prepend, k) == SetHtml(r0, x, html);
      SetHtmlHtml(r0, x, html, y);
      CountSnoc(ts, k0, k, y);
      if x == y {
        GainOne(s, Html(d, y), n, n1);
      } else {
        assert n1 == n;
      }
    }
  }

  /** One more copy of `s` next to `n` copies, at the front or at the end. */
  lemma GainOne(s: string, h: string, n: nat, n1: nat)
    requires n1 == n + 1
    ensures s + (Repeat(s, n) + h) == Repeat(s, n1) + h
    ensures (h + Repeat(s, n)) + s == h + Repeat(s, n1)
  {
    RepeatSnoc(s, n, n1);
    assert s + (Repeat(s, n) + h) == (s + Repeat(s, n)) + h;
    assert (h + Repeat(s, n)) + s == h + (Repeat(s, n) + s);
  }

  /** Listing `ts[k]` once more adds one to its count and leaves the others. */
  lemma CountSnoc(ts: seq<NodeId>, k: nat, k1: nat, y: NodeId)
    requires k < |ts| && k1 == k + 1
    ensures multiset(ts[..k1])[y] == multiset(ts[..k])[y] + if ts[k] == y then 1 else 0
  {
    assert ts[..k1] == ts[..k] + [ts[k]];
  }

  /** The markup edits keep the ids. */
  lemma {:induction false} WithMarkupKeys(d: Dom, ts: seq<NodeId>, s: string, prepend: bool, k: nat)
    requires k <= |ts|
    ensures WithMarkup(d, ts, s, prepend, k).nodes.Keys == d.nodes.Keys
  {
    if k > 0 {
      WithMarkupKeys(d, ts, s, prepend, k - 1);
    }
  }

  /** `append`/`prepend` with markup: the collection itself is handed back; the tree, the
      tags and the ids stay; every target's markup gains the string once per listing, in
      front for `prepend` and at the end otherwise. */
  lemma AppendMarkup(d: Dom, ts: seq<NodeId>, s: string, prepend: bool, construct: string -> seq<NodeId>)
    requires WellFormed(d) && '/' in s
    ensures var e := AppendSpec(d, ts, Text(s), prepend, construct);
      && e.out == Same
      && WellFormed(e.dom) && e.dom.nodes.Keys == d.nodes.Keys && e.dom.next == d.next
      && (forall y :: Kids(e.dom, y) == Kids(d, y) && Parent(e.dom, y) == Parent(d, y) && Tag(e.dom, y) == Tag(d, y))
      && (forall y :: y in d.nodes ==>
            Html(e.dom, y) == if prepend then Repeat(s, multiset(ts)[y]) + Html(d, y)
                              else Html(d, y) + Repeat(s, multiset(ts)[y]))
  {
    var e := AppendSpec(d, ts, Text(s), prepend, construct);
    WithMarkupFrame(d, ts, s, prepend, |ts|);
    assert ts[..|ts|] == ts;
    forall y | y in d.nodes
      ensures Html(e.dom, y) == if prepend then Repeat(s, multiset(ts)[y]) + Html(d, y)
                                else Html(d, y) + Repeat(s, multiset(ts)[y])
    {
      WithMarkupHtml(d, ts, s, prepend, |ts|, y);
    }
  }
}
