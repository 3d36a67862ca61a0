// Recycling a subtree of the DOM (`recollectNodeTree`, `removeChildren`
// and the part of `unmountComponent` they reach): which components are
// unmounted, which refs are called with null, and which nodes are detached.
// The subtree is a value; its mutations are recorded as a list of effects.

module Recycle {
  import opened JsValues

  /** A DOM node as recycling sees it: its identity, whether it carries an
      attribute cache (`ATTR_KEY`), the chain of components it is the base
      of (`_component`, then that component's `_component`, ...), and its
      children in document order. */
  datatype Tree = Tree(id: nat, cache: bool, owner: seq<nat>, kids: seq<Tree>)

  datatype Effect =
    | Unmount(cid: nat)          // `beforeUnmount`, `_disable = true`, `uninstall`, `base = null`
    | RefNull(nid: nat)          // `applyRef(node[ATTR_KEY].ref, null)`
    | Detach(nid: nat)           // `removeNode(node)`
    | Pooled(cid: nat)           // `nextBase = base` and `collectComponent`
    | ComponentRefNull(cid: nat) // `applyRef(component.__ref, null)`

  /** `recollectNodeTree(node, unmountOnly)`. */
  function RecollectEffects(t: Tree, unmountOnly: bool): seq<Effect>
    decreases t, |t.owner| + 1
  {
    if |t.owner| > 0 then UnmountEffects(t.owner, t)
    else
      (if t.cache then [RefNull(t.id)] else []) +
      (if !unmountOnly || !t.cache then [Detach(t.id)] else []) +
      ChildrenEffects(t.kids)
  }

  /** `unmountComponent(chain[0])` for a component whose base is `base`:
      an inner component is unmounted first; the innermost one recycles
      the base itself. */
  function UnmountEffects(chain: seq<nat>, base: Tree): seq<Effect>
    requires |chain| > 0
    decreases base, |chain|
  {
    [Unmount(chain[0])] +
    (if |chain| > 1 then UnmountEffects(chain[1..], base)
     else
       (if base.cache then [RefNull(base.id)] else []) +
       [Detach(base.id), Pooled(chain[0])] +
       ChildrenEffects(base.kids)) +
    [ComponentRefNull(chain[0])]
  }

  /** `removeChildren(node)`: from the last child to the first, each one
      recollected with `unmountOnly` set. */
  function ChildrenEffects(kids: seq<Tree>): seq<Effect>
    decreases kids, 0
  {
    if kids == [] then []
    else RecollectEffects(kids[|kids| - 1], true) + ChildrenEffects(kids[..|kids| - 1])
  }

  // ----- the recursion as the source runs it -----

  method Recollect(t: Tree, unmountOnly: bool) returns (log: seq<Effect>)
    ensures log == RecollectEffects(t, unmountOnly)
    decreases t, |t.owner| + 1
  {
    if |t.owner| > 0 {
      log := UnmountComponent(t.owner, t);
    } else {
      log := [];
      if t.cache {
        log := log + [RefNull(t.id)];
      }
      if !unmountOnly || !t.cache {
        log := log + [Detach(t.id)];
      }
      var rest := RemoveChildren(t.kids);
      log := log + rest;
    }
  }

  method UnmountComponent(chain: seq<nat>, base: Tree) returns (log: seq<Effect>)
    requires |chain| > 0
    ensures log == UnmountEffects(chain, base)
    decreases base, |chain|
  {
    log := [Unmount(chain[0])];
    if |chain| > 1 {
      var inner := UnmountComponent(chain[1..], base);
      log := log + inner;
    } else {
      if base.cache {
        log := log + [RefNull(base.id)];
      }
      log := log + [Detach(base.id), Pooled(chain[0])];
      var rest := RemoveChildren(base.kids);
      log := log + rest;
    }
    log := log + [ComponentRefNull(chain[0])];
  }

  /** The `lastChild` / `previousSibling` walk of `removeChildren`. */
  method RemoveChildren(kids: seq<Tree>) returns (log: seq<Effect>)
    ensures log == ChildrenEffects(kids)
    decreases kids, 0
  {
    log := [];
    var n := |kids|;
    assert kids[..n] == kids;
    while n > 0
      invariant 0 <= n <= |kids|
      invariant log + ChildrenEffects(kids[..n]) == ChildrenEffects(kids)
    {
      assert kids[..n][..n - 1] == kids[..n - 1];
      var part := Recollect(kids[n - 1], true);
      log := log + part;
      n := n - 1;
    }
    assert kids[..0] == [];
  }

  // ----- the nodes and components of a subtree -----

  ghost function Nodes(t: Tree): set<Tree>
    decreases t, 1
  {
    {t} + NodesOf(t.kids)
  }

  ghost function NodesOf(kids: seq<Tree>): set<Tree>
    decreases kids, 0
  {
    if kids == [] then {} else NodesOf(kids[..|kids| - 1]) + Nodes(kids[|kids| - 1])
  }

  ghost function DetachedIds(log: seq<Effect>): set<nat> {
    set e | e in log && e.Detach? :: e.nid
  }

  ghost function RefNullIds(log: seq<Effect>): set<nat> {
    set e | e in log && e.RefNull? :: e.nid
  }

  ghost function UnmountedIds(log: seq<Effect>): set<nat> {
    set e | e in log && e.Unmount? :: e.cid
  }

  /** A descendant goes with the detached subtree unless it has no cache or
      is a component's base; the root itself also goes when `unmountOnly`
      is false. */
  ghost predicate DetachedAlone(n: Tree) {
    !n.cache || |n.owner| > 0
  }

  /** Recycling a subtree detaches the root (unless only unmounting a
      cached plain node) and exactly those descendants that have no cache
      or are a component's base. */
  lemma {:induction false} DetachedNodes(t: Tree, unmountOnly: bool)
    ensures DetachedIds(RecollectEffects(t, unmountOnly)) ==
      (if !unmountOnly || DetachedAlone(t) then {t.id} else {}) +
      (set n | n in NodesOf(t.kids) && DetachedAlone(n) :: n.id)
    decreases t, |t.owner| + 1
  {
    var log := RecollectEffects(t, unmountOnly);
    ChildrenDetached(t.kids);
    if |t.owner| > 0 {
      UnmountDetached(t.owner, t);
    } else {
      var head := (if t.cache then [RefNull(t.id)] else []) +
                  (if !unmountOnly || !t.cache then [Detach(t.id)] else []);
      assert log == head + ChildrenEffects(t.kids);
      DetachedConcat(head, ChildrenEffects(t.kids));
    }
  }

  lemma {:induction false} UnmountDetached(chain: seq<nat>, base: Tree)
    requires |chain| > 0
    ensures DetachedIds(UnmountEffects(chain, base)) ==
      {base.id} + (set n | n in NodesOf(base.kids) && DetachedAlone(n) :: n.id)
    decreases base, |chain|
  {
    ChildrenDetached(base.kids);
    var mid := if |chain| > 1 then UnmountEffects(chain[1..], base)
               else (if base.cache then [RefNull(base.id)] else []) +
                    [Detach(base.id), Pooled(chain[0])] + ChildrenEffects(base.kids);
    if |chain| > 1 {
      UnmountDetached(chain[1..], base);
    } else {
      var head := (if base.cache then [RefNull(base.id)] else []) + [Detach(base.id), Pooled(chain[0])];
      DetachedConcat(head, ChildrenEffects(base.kids));
    }
    DetachedConcat([Unmount(chain[0])], mid);
    DetachedConcat([Unmount(chain[0])] + mid, [ComponentRefNull(chain[0])]);
  }

  lemma {:induction false} ChildrenDetached(kids: seq<Tree>)
    ensures DetachedIds(ChildrenEffects(kids)) == set n | n in NodesOf(kids) && DetachedAlone(n) :: n.id
    decreases kids, 0
  {
    if kids != [] {
      var last := kids[|kids| - 1];
      var init := kids[..|kids| - 1];
      DetachedNodes(last, true);
      ChildrenDetached(init);
      DetachedConcat(RecollectEffects(last, true), ChildrenEffects(init));
      assert Nodes(last) == {last} + NodesOf(last.kids);
    }
  }

  lemma DetachedConcat(a: seq<Effect>, b: seq<Effect>)
    ensures DetachedIds(a + b) == DetachedIds(a) + DetachedIds(b)
  {
    assert forall e :: e in a + b <==> e in a || e in b;
  }

  /** Every node with an attribute cache in the subtree has its ref called
      with null, and no other node does. */
  lemma {:induction false} RefsCleared(t: Tree, unmountOnly: bool)
    ensures RefNullIds(RecollectEffects(t, unmountOnly)) == set n | n in Nodes(t) && n.cache :: n.id
    decreases t, |t.owner| + 1
  {
    ChildrenRefsCleared(t.kids);
    if |t.owner| > 0 {
      UnmountRefsCleared(t.owner, t);
    } else {
      var head := (if t.cache then [RefNull(t.id)] else []) +
                  (if !unmountOnly || !t.cache then [Detach(t.id)] else []);
      RefNullConcat(head, ChildrenEffects(t.kids));
    }
  }

  lemma {:induction false} UnmountRefsCleared(chain: seq<nat>, base: Tree)
    requires |chain| > 0
    ensures RefNullIds(UnmountEffects(chain, base)) == set n | n in Nodes(base) && n.cache :: n.id
    decreases base, |chain|
  {
    ChildrenRefsCleared(base.kids);
    var mid := if |chain| > 1 then UnmountEffects(chain[1..], base)
               else (if base.cache then [RefNull(base.id)] else []) +
                    [Detach(base.id), Pooled(chain[0])] + ChildrenEffects(base.kids);
    if |chain| > 1 {
      UnmountRefsCleared(chain[1..], base);
    } else {
      var head := (if base.cache then [RefNull(base.id)] else []) + [Detach(base.id), Pooled(chain[0])];
      RefNullConcat(head, ChildrenEffects(base.kids));
    }
    RefNullConcat([Unmount(chain[0])], mid);
    RefNullConcat([Unmount(chain[0])] + mid, [ComponentRefNull(chain[0])]);
  }

  lemma {:induction false} ChildrenRefsCleared(kids: seq<Tree>)
    ensures RefNullIds(ChildrenEffects(kids)) == set n | n in NodesOf(kids) && n.cache :: n.id
    decreases kids, 0
  {
    if kids != [] {
      var last := kids[|kids| - 1];
      var init := kids[..|kids| - 1];
      RefsCleared(last, true);
      ChildrenRefsCleared(init);
      RefNullConcat(RecollectEffects(last, true), ChildrenEffects(init));
    }
  }

  lemma RefNullConcat(a: seq<Effect>, b: seq<Effect>)
    ensures RefNullIds(a + b) == RefNullIds(a) + RefNullIds(b)
  {
    assert forall e :: e in a + b <==> e in a || e in b;
  }

  /** Every component whose base lies in the subtree is unmounted, and no
      other component is. */
  lemma {:induction false} ComponentsUnmounted(t: Tree, unmountOnly: bool)
    ensures UnmountedIds(RecollectEffects(t, unmountOnly)) == set n, c | n in Nodes(t) && c in n.owner :: c
    decreases t, |t.owner| + 1
  {
    ChildrenUnmounted(t.kids);
    if |t.owner| > 0 {
      UnmountUnmounted(t.owner, t);
      assert forall c :: c in t.owner ==> c in t.owner[..];
    } else {
      var head := (if t.cache then [RefNull(t.id)] else []) +
                  (if !unmountOnly || !t.cache then [Detach(t.id)] else []);
      UnmountedConcat(head, ChildrenEffects(t.kids));
    }
  }

  lemma {:induction false} UnmountUnmounted(chain: seq<nat>, base: Tree)
    requires |chain| > 0
    ensures UnmountedIds(UnmountEffects(chain, base)) ==
      (set c | c in chain) + set n, c | n in NodesOf(base.kids) && c in n.owner :: c
    decreases base, |chain|
  {
    ChildrenUnmounted(base.kids);
    var mid := if |chain| > 1 then UnmountEffects(chain[1..], base)
               else (if base.cache then [RefNull(base.id)] else []) +
                    [Detach(base.id), Pooled(chain[0])] + ChildrenEffects(base.kids);
    if |chain| > 1 {
      UnmountUnmounted(chain[1..], base);
      assert (set c | c in chain) == {chain[0]} + set c | c in chain[1..];
    } else {
      var head := (if base.cache then [RefNull(base.id)] else []) + [Detach(base.id), Pooled(chain[0])];
      UnmountedConcat(head, ChildrenEffects(base.kids));
      assert (set c | c in chain) == {chain[0]};
    }
    UnmountedConcat([Unmount(chain[0])], mid);
    UnmountedConcat([Unmount(chain[0])] + mid, [ComponentRefNull(chain[0])]);
  }

  lemma {:induction false} ChildrenUnmounted(kids: seq<Tree>)
    ensures UnmountedIds(ChildrenEffects(kids)) == set n, c | n in NodesOf(kids) && c in n.owner :: c
    decreases kids, 0
  {
    if kids != [] {
      var last := kids[|kids| - 1];
      var init := kids[..|kids| - 1];
      ComponentsUnmounted(last, true);
      ChildrenUnmounted(init);
      UnmountedConcat(RecollectEffects(last, true), ChildrenEffects(init));
    }
  }

  lemma UnmountedConcat(a: seq<Effect>, b: seq<Effect>)
    ensures UnmountedIds(a + b) == UnmountedIds(a) + UnmountedIds(b)
  {
    assert forall e :: e in a + b <==> e in a || e in b;
  }

  // ----- no node is detached twice -----

  /** The ids of the subtree, root first. */
  ghost function IdList(t: Tree): seq<nat>
    decreases t, 1
  {
    [t.id] + IdListOf(t.kids)
  }

  ghost function IdListOf(kids: seq<Tree>): seq<nat>
    decreases kids, 0
  {
    if kids == [] then [] else IdListOf(kids[..|kids| - 1]) + IdList(kids[|kids| - 1])
  }

  /** The nodes detached, in order. */
  ghost function DetachSeq(log: seq<Effect>): seq<nat> {
    if log == [] then []
    else DetachSeq(log[..|log| - 1]) + (if log[|log| - 1].Detach? then [log[|log| - 1].nid] else [])
  }

  lemma {:induction false} DetachSeqConcat(a: seq<Effect>, b: seq<Effect>)
    ensures DetachSeq(a + b) == DetachSeq(a) + DetachSeq(b)
    decreases |b|
  {
    if b != [] {
      var b' := b[..|b| - 1];
      assert (a + b)[..|a + b| - 1] == a + b';
      DetachSeqConcat(a, b');
    } else {
      assert a + b == a;
    }
  }

  /** Each node is detached at most as often as it occurs in the subtree. */
  lemma {:induction false} DetachedAtMostOnce(t: Tree, unmountOnly: bool)
    ensures multiset(DetachSeq(RecollectEffects(t, unmountOnly))) <= multiset(IdList(t))
    decreases t, |t.owner| + 1
  {
    ChildrenDetachedAtMostOnce(t.kids);
    if |t.owner| > 0 {
      UnmountDetachedAtMostOnce(t.owner, t);
    } else {
      var head := (if t.cache then [RefNull(t.id)] else []) +
                  (if !unmountOnly || !t.cache then [Detach(t.id)] else []);
      DetachSeqConcat(head, ChildrenEffects(t.kids));
      DetachSeqHead(t.cache, !unmountOnly || !t.cache, t.id);
    }
  }

  lemma DetachSeqHead(refNull: bool, detach: bool, id: nat)
    ensures DetachSeq((if refNull then [RefNull(id)] else []) + (if detach then [Detach(id)] else [])) ==
      (if detach then [id] else [])
  {
    var a: seq<Effect> := if refNull then [RefNull(id)] else [];
    var b: seq<Effect> := if detach then [Detach(id)] else [];
    DetachSeqConcat(a, b);
    if refNull {
      assert a[..0] == [];
    }
    if detach {
      assert b[..0] == [];
    }
  }

  lemma {:induction false} UnmountDetachedAtMostOnce(chain: seq<nat>, base: Tree)
    requires |chain| > 0
    ensures multiset(DetachSeq(UnmountEffects(chain, base))) <= multiset(IdList(base))
    decreases base, |chain|
  {
    var mid := if |chain| > 1 then UnmountEffects(chain[1..], base)
               else (if base.cache then [RefNull(base.id)] else []) +
                    [Detach(base.id), Pooled(chain[0])] + ChildrenEffects(base.kids);
    assert UnmountEffects(chain, base) == [Unmount(chain[0])] + mid + [ComponentRefNull(chain[0])];
    WrapDetach(chain[0], mid);
    if |chain| > 1 {
      UnmountDetachedAtMostOnce(chain[1..], base);
    } else {
      ChildrenDetachedAtMostOnce(base.kids);
      BaseDetach(chain[0], base);
    }
  }

  /** The unmount and ref events around a component's own effects detach nothing. */
  lemma WrapDetach(c: nat, mid: seq<Effect>)
    ensures DetachSeq([Unmount(c)] + mid + [ComponentRefNull(c)]) == DetachSeq(mid)
  {
    var u := [Unmount(c)];
    var r := [ComponentRefNull(c)];
    DetachSeqConcat(u, mid);
    DetachSeqConcat(u + mid, r);
    assert u[..0] == [] && r[..0] == [];
  }

  /** The innermost component's base node is detached once, before its children. */
  lemma BaseDetach(c: nat, base: Tree)
    ensures DetachSeq((if base.cache then [RefNull(base.id)] else []) + [Detach(base.id), Pooled(c)]
                      + ChildrenEffects(base.kids)) == [base.id] + DetachSeq(ChildrenEffects(base.kids))
  {
    var pre: seq<Effect> := if base.cache then [RefNull(base.id)] else [];
    var head := pre + [Detach(base.id), Pooled(c)];
    DetachSeqConcat(head, ChildrenEffects(base.kids));
    DetachSeqConcat(pre, [Detach(base.id), Pooled(c)]);
    DetachSeqConcat(pre, []);
    assert [Detach(base.id), Pooled(c)][..1] == [Detach(base.id)];
    assert [Detach(base.id)][..0] == [];
    if base.cache {
      assert pre[..0] == [];
    }
    assert DetachSeq(head) == [base.id];
  }

  lemma {:induction false} ChildrenDetachedAtMostOnce(kids: seq<Tree>)
    ensures multiset(DetachSeq(ChildrenEffects(kids))) <= multiset(IdListOf(kids))
    decreases kids, 0
  {
    if kids != [] {
      var last := kids[|kids| - 1];
      var init := kids[..|kids| - 1];
      DetachedAtMostOnce(last, true);
      ChildrenDetachedAtMostOnce(init);
      DetachSeqConcat(RecollectEffects(last, true), ChildrenEffects(init));
    }
  }

  /** When the ids of the subtree are distinct, no node is detached twice. */
  lemma DetachedOnce(t: Tree, unmountOnly: bool, x: nat)
    requires forall y :: multiset(IdList(t))[y] <= 1
    ensures multiset(DetachSeq(RecollectEffects(t, unmountOnly)))[x] <= 1
  {
    DetachedAtMostOnce(t, unmountOnly);
  }
}
