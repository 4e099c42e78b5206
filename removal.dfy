/** What `remove()` does to a document: `Element.remove` on every target, in order, either the
    host's own (a no-op on an element without a parent) or the polyfill that goes through
    `parentElement` (a TypeError on an element without one). */
module Removal {
  import opened DomTree
  import opened Engine

  /** The polyfill gets through every target: each has a parent when its turn comes, which
      holds exactly when each has one to begin with and none is listed twice. */
  predicate Attached(d: Dom, ts: seq<NodeId>)
  {
    Distinct(ts) && forall i :: 0 <= i < |ts| ==> Parent(d, ts[i]).Some?
  }

  /** The native removals: no exception; the first `k` targets lose their parent and leave
      every children list, and nothing else changes. */
  lemma {:induction false} RemovalsNative(d: Dom, ts: seq<NodeId>, k: nat)
    requires WellFormed(d) && k <= |ts|
    ensures var r := Removals(d, ts, false, k);
      && r.thrown == None && r.made == []
      && WellFormed(r.dom) && r.dom.nodes.Keys == d.nodes.Keys && r.dom.next == d.next
      && (forall x :: Tag(r.dom, x) == Tag(d, x) && Html(r.dom, x) == Html(d, x))
      && (forall q :: Kids(r.dom, q) == Strip(Kids(d, q), ts[..k]))
      && (forall x :: Parent(r.dom, x) == if x in ts[..k] then None else Parent(d, x))
  {
    if k == 0 {
      forall q ensures Kids(d, q) == Strip(Kids(d, q), ts[..0]) {
        StripNothing(Kids(d, q), []);
      }
    } else {
      var k0 := k - 1;
      RemovalsNative(d, ts, k0);
      var r := Removals(d, ts, false, k0);
      DetachWellFormed(r.dom, ts[k0]);
      assert ts[..k] == ts[..k0] + [ts[k0]];
      forall q ensures Strip(Strip(Kids(d, q), ts[..k0]), [ts[k0]]) == Strip(Kids(d, q), ts[..k]) {
        StripTwice(Kids(d, q), ts[..k0], [ts[k0]]);
      }
    }
  }

  /** The polyfill removals: they throw exactly when the targets so far are not Attached, the
      exception is always the TypeError of a null `parentElement`, and the document is then the
      one the native removals leave after the targets before the failing one. Without an
      exception the polyfill does what the native method does. */
  lemma {:induction false} RemovalsPolyfill(d: Dom, ts: seq<NodeId>, k: nat)
    requires WellFormed(d) && k <= |ts|
    ensures var r := Removals(d, ts, true, k);
      && (r.thrown == None <==> Attached(d, ts[..k]))
      && (r.thrown == None ==> r == Removals(d, ts, false, k))
      && (r.thrown.Some? ==> r.thrown == Some(NullParent))
      && (r.thrown.Some? ==> exists i :: (0 <= i < k
                                           && Attached(d, ts[..i]) && !Attached(d, ts[..i + 1])
                                           && r.dom == Removals(d, ts, false, i).dom))
  {
    if k > 0 {
      var k0 := k - 1;
      RemovalsPolyfill(d, ts, k0);
      var r := Removals(d, ts, true, k0);
      if r.thrown == None {
        RemovalsNative(d, ts, k0);
        AttachedSnoc(d, ts[..k0], ts[k0]);
        assert ts[..k] == ts[..k0] + [ts[k0]];
        if Removals(d, ts, true, k).thrown.Some? {
          assert Attached(d, ts[..k0]) && !Attached(d, ts[..k0 + 1]);
        }
      } else {
        assert !Attached(d, ts[..k]) by {
          AttachedPrefix(d, ts[..k], k0);
          assert ts[..k][..k0] == ts[..k0];
        }
      }
    }
  }

  /** `remove()` with the host's own `Element.remove`: it never throws; every target ends
      without a parent and out of every children list; the ids, tags and markup stay. */
  lemma RemoveNative(d: Dom, ts: seq<NodeId>)
    requires WellFormed(d)
    ensures var e := RemoveSpec(d, ts, false);
      && e.out == Same && WellFormed(e.dom)
      && e.dom.nodes.Keys == d.nodes.Keys && e.dom.next == d.next
      && (forall x :: Tag(e.dom, x) == Tag(d, x) && Html(e.dom, x) == Html(d, x))
      && (forall q :: Kids(e.dom, q) == Strip(Kids(d, q), ts))
      && (forall x :: Parent(e.dom, x) == if x in ts then None else Parent(d, x))
  {
    RemovalsNative(d, ts, |ts|);
    assert ts[..|ts|] == ts;
  }

  /** `remove()` with the polyfill: it throws the TypeError exactly when some target has no
      parent or is listed twice, and otherwise does what the native method does. */
  lemma RemovePolyfill(d: Dom, ts: seq<NodeId>)
    requires WellFormed(d)
    ensures RemoveSpec(d, ts, true).out == Threw(NullParent) <==> !Attached(d, ts)
    ensures RemoveSpec(d, ts, true).out != Threw(NullParent) ==> RemoveSpec(d, ts, true) == RemoveSpec(d, ts, false)
  {
    RemovalsPolyfill(d, ts, |ts|);
    RemovalsNative(d, ts, |ts|);
    assert ts[..|ts|] == ts;
  }

  /** Once an exception is thrown the remaining removals change nothing. */
  lemma {:induction false} RemovalsThrown(d: Dom, ts: seq<NodeId>, polyfill: bool, j: nat, k: nat)
    requires j <= k <= |ts| && Removals(d, ts, polyfill, j).thrown.Some?
    ensures Removals(d, ts, polyfill, k) == Removals(d, ts, polyfill, j)
    decreases k
  {
    if j < k {
      RemovalsThrown(d, ts, polyfill, j, k - 1);
    }
  }

  /** Appending one target keeps the polyfill going when the target has a parent and was not
      listed before. */
  lemma AttachedSnoc(d: Dom, ts: seq<NodeId>, t: NodeId)
    ensures Attached(d, ts + [t]) <==> Attached(d, ts) && t !in ts && Parent(d, t).Some?
  {
    var s := ts + [t];
    if Attached(d, s) {
      forall i | 0 <= i < |ts| ensures ts[i] != t && Parent(d, ts[i]).Some? {
        assert s[i] == ts[i] && s[|ts|] == t;
      }
      forall i, j | 0 <= i < j < |ts| ensures ts[i] != ts[j] {
        assert s[i] == ts[i] && s[j] == ts[j];
      }
      assert Parent(d, s[|ts|]).Some?;
    }
    if Attached(d, ts) && t !in ts && Parent(d, t).Some? {
      forall i | 0 <= i < |s| ensures Parent(d, s[i]).Some? {
        if i < |ts| { assert s[i] == ts[i]; }
      }
      forall i, j | 0 <= i < j < |s| ensures s[i] != s[j] {
        assert s[i] == ts[i];
        if j < |ts| { assert s[j] == ts[j]; } else { assert ts[i] in ts; }
      }
    }
  }

  lemma AttachedPrefix(d: Dom, ts: seq<NodeId>, k: nat)
    requires k <= |ts|
    ensures Attached(d, ts) ==> Attached(d, ts[..k])
  {
    forall i | 0 <= i < k ensures ts[..k][i] == ts[i] {
    }
  }
}
