// The component recycler: unmounted components are filed under their
// constructor's `name` (`collectComponent`), and `createComponent` takes
// back the most recently filed one of exactly the same constructor to
// reuse its detached DOM node (`nextBase`).

module Pool {
  import opened JsValues

  /** A component constructor: its identity, its `name` property (which
      two constructors may share) and whether its prototype has `render`. */
  datatype CtorRef = CtorRef(id: nat, name: string, hasRender: bool)

  /** A filed component: its identity, its constructor and its `nextBase`. */
  datatype Pooled = Pooled(cid: nat, ctor: CtorRef, nextBase: Option<nat>)

  /** How a new instance renders: its class's own `render`, or `doRender`,
      which calls the constructor as a pure function component. */
  datatype RenderKind = OwnRender | DoRender

  /** What `createComponent` sets on the instance it makes. */
  datatype Instance = Instance(ctor: CtorRef, render: RenderKind, nextBase: Option<nat>,
                               scopedCssAttr: Value)

  /** `components[name]`, an absent list read as empty. */
  function Lookup(pool: map<string, seq<Pooled>>, name: string): seq<Pooled> {
    if name in pool then pool[name] else []
  }

  /** The index of the last component of `list` built by `ctor`. */
  function LastMatch(list: seq<Pooled>, ctor: CtorRef): (r: Option<nat>)
    ensures r.Some? ==> r.value < |list| && list[r.value].ctor == ctor
    ensures r.Some? ==> forall j :: r.value < j < |list| ==> list[j].ctor != ctor
    ensures r.None? ==> forall j :: 0 <= j < |list| ==> list[j].ctor != ctor
    decreases |list|
  {
    if list == [] then None
    else if list[|list| - 1].ctor == ctor then Some(|list| - 1)
    else LastMatch(list[..|list| - 1], ctor)
  }

  /** The pool after `collectComponent(c)`. */
  function Collect(pool: map<string, seq<Pooled>>, c: Pooled): map<string, seq<Pooled>> {
    pool[c.ctor.name := Lookup(pool, c.ctor.name) + [c]]
  }

  /** The component `createComponent(ctor)` reuses, if any, and the pool
      after it is spliced out. */
  function Take(pool: map<string, seq<Pooled>>, ctor: CtorRef): (Option<Pooled>, map<string, seq<Pooled>>) {
    if ctor.name !in pool then (None, pool)
    else
      var list := pool[ctor.name];
      match LastMatch(list, ctor)
      case None => (None, pool)
      case Some(i) => (Some(list[i]), pool[ctor.name := list[..i] + list[i + 1..]])
  }

  /** Only a component of exactly the requested constructor is reused, and
      only its own list changes, losing just that component. */
  lemma TakeExact(pool: map<string, seq<Pooled>>, ctor: CtorRef)
    ensures var (found, after) := Take(pool, ctor);
      && (found.Some? ==> found.value.ctor == ctor && found.value in Lookup(pool, ctor.name))
      && (found.None? <==> forall c :: c in Lookup(pool, ctor.name) ==> c.ctor != ctor)
      && (forall n :: n != ctor.name ==> Lookup(after, n) == Lookup(pool, n))
      && multiset(Lookup(pool, ctor.name)) ==
           multiset(Lookup(after, ctor.name)) + (if found.Some? then multiset{found.value} else multiset{})
  {
    var (found, after) := Take(pool, ctor);
    if ctor.name in pool {
      var list := pool[ctor.name];
      match LastMatch(list, ctor)
      case None =>
        forall c | c in list ensures c.ctor != ctor {
          var j :| 0 <= j < |list| && list[j] == c;
        }
      case Some(i) =>
        assert list == list[..i] + [list[i]] + list[i + 1..];
    }
  }

  /** A component collected and then asked for again by its constructor is
      the one handed back, and the pool is as it was. */
  lemma CollectThenTake(pool: map<string, seq<Pooled>>, c: Pooled)
    ensures var (found, after) := Take(Collect(pool, c), c.ctor);
      found == Some(c) && forall n :: Lookup(after, n) == Lookup(pool, n)
  {
    var list := Lookup(pool, c.ctor.name) + [c];
    assert LastMatch(list, c.ctor) == Some(|list| - 1);
    assert list[..|list| - 1] + list[|list|..] == Lookup(pool, c.ctor.name);
  }

  /** Constructors that share a `name` share a list, but a request for one
      never reuses a component of the other. */
  lemma SharedNameNotConfused(a: Pooled, ctor: CtorRef)
    requires a.ctor.name == ctor.name && a.ctor != ctor
    ensures Take(Collect(map[], a), ctor) == (None, Collect(map[], a))
  {
    assert Lookup(Collect(map[], a), ctor.name) == [a];
  }

  class ComponentPool {
    var components: map<string, seq<Pooled>>

    constructor()
      ensures components == map[]
    {
      components := map[];
    }

    /** `collectComponent(c)`. */
    method CollectComponent(c: Pooled)
      modifies this
      ensures components == Collect(old(components), c)
    {
      var name := c.ctor.name;
      if name in components {
        components := components[name := components[name] + [c]];
      } else {
        assert Lookup(components, name) + [c] == [c];
        components := components[name := [c]];
      }
    }

    /** `createComponent(ctor, …, vnode)`: a new instance, given the
        `nextBase` of the last filed component of the same constructor,
        which leaves the pool; `vnodeCss` is `vnode.css` when a vnode is
        passed. */
    method CreateComponent(ctor: CtorRef, vnodeCss: Option<Value>) returns (inst: Instance)
      modifies this
      ensures components == Take(old(components), ctor).1
      ensures inst.ctor == ctor && (inst.render == OwnRender <==> ctor.hasRender)
      ensures inst.scopedCssAttr == (if vnodeCss.Some? then vnodeCss.value else Undefined)
      ensures inst.nextBase == match Take(old(components), ctor).0
                               case Some(c) => c.nextBase
                               case None => None
    {
      inst := Instance(ctor, if ctor.hasRender then OwnRender else DoRender, None,
                       if vnodeCss.Some? then vnodeCss.value else Undefined);
      if ctor.name in components {
        var list := components[ctor.name];
        var i := |list|;
        while i > 0
          invariant 0 <= i <= |list| && components == old(components)
          invariant forall j :: i <= j < |list| ==> list[j].ctor != ctor
        {
          i := i - 1;
          if list[i].ctor == ctor {
            inst := inst.(nextBase := list[i].nextBase);
            components := components[ctor.name := list[..i] + list[i + 1..]];
            return;
          }
        }
      }
    }
  }
}
