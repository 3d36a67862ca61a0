// Component props and the update decision: the props a component vnode
// yields (`getNodeProps`), the check that decides whether an update can be
// skipped (`shallowComparison`), the bookkeeping of `setComponentProps`,
// and the parts of `renderComponent` around the render itself (the skip
// branch, the mount queue and the render callbacks). User hooks, the
// render call and the DOM diff are opaque events.

module Lifecycle {
  import opened JsValues
  import opened Scheduler

  const NO_RENDER: nat := 0
  const SYNC_RENDER: nat := 1
  const FORCE_RENDER: nat := 2
  const ASYNC_RENDER: nat := 3

  // ----- getNodeProps -----

  /** The `for (i in defaultProps)` loop: every default whose prop reads
      `undefined` is copied in. */
  function FillDefaults(props: map<string, Value>, defaults: map<string, Value>): (r: map<string, Value>)
    ensures r.Keys == props.Keys + defaults.Keys
    ensures forall k :: k in r ==> r[k] == (if Get(props, k) == Undefined && k in defaults then defaults[k] else props[k])
  {
    map k | k in props.Keys + defaults.Keys ::
      if Get(props, k) == Undefined && k in defaults then defaults[k] else props[k]
  }

  /** `getNodeProps(vnode)`: a copy of the attributes, `children` set to the
      vnode's child array (`childrenId` is that array's identity), then the
      constructor's `defaultProps` (absent when `undefined`) filled in. */
  function GetNodeProps(vnode: VNode, childrenId: nat, defaultProps: Option<map<string, Value>>): (props: map<string, Value>)
    ensures "children" in props && props["children"] == Arr(childrenId, vnode.children)
    ensures forall k :: (k != "children" && vnode.attributes.Some? && k in vnode.attributes.value &&
                         vnode.attributes.value[k] != Undefined) ==> Get(props, k) == vnode.attributes.value[k]
    ensures forall k :: k != "children" && (vnode.attributes.None? || Get(vnode.attributes.value, k) == Undefined) ==>
              Get(props, k) == (if defaultProps.Some? then Get(defaultProps.value, k) else Undefined)
  {
    var own := (if vnode.attributes.Some? then vnode.attributes.value else map[])["children" := Arr(childrenId, vnode.children)];
    if defaultProps.Some? then FillDefaults(own, defaultProps.value) else own
  }

  /** Filling in the same defaults twice changes nothing more. */
  lemma FillDefaultsIdempotent(props: map<string, Value>, defaults: map<string, Value>)
    ensures FillDefaults(FillDefaults(props, defaults), defaults) == FillDefaults(props, defaults)
  {
  }

  // ----- shallowComparison -----

  /** `shallowComparison(prev, next)` is truthy: a prop that was set is
      now `null` or missing, either child list is non-empty, a prop other
      than `children` is an object, function or `null`, or a primitive prop
      differs from its previous value under `!=`. Both prop objects carry a
      `children` array, as props from `getNodeProps` do. */
  predicate ShallowDiffers(prev: map<string, Value>, next: map<string, Value>)
    requires Get(prev, "children").Arr? && Get(next, "children").Arr?
  {
    || (exists name :: name in prev && Nullish(Get(next, name)) && !Nullish(prev[name]))
    || |Get(prev, "children").elems| > 0 || |Get(next, "children").elems| > 0
    || (exists name :: name in next && name != "children" && Changed(next[name], Get(prev, name)))
  }

  /** The test of the second `for…in` loop on one prop. */
  predicate Changed(now: Value, before: Value) {
    IsObjectOrFunction(now) || !LooseEquals(now, before)
  }

  /** `shallowComparison`, loop by loop; `for…in` visits the keys in some
      order, and the answer does not depend on it. */
  method ShallowComparison(prev: map<string, Value>, next: map<string, Value>) returns (differs: bool)
    requires Get(prev, "children").Arr? && Get(next, "children").Arr?
    ensures differs == ShallowDiffers(prev, next)
  {
    var todo := prev.Keys;
    while todo != {}
      invariant todo <= prev.Keys
      invariant forall name :: name in prev && name !in todo ==> !(Nullish(Get(next, name)) && !Nullish(prev[name]))
      decreases todo
    {
      var name :| name in todo;
      if Nullish(Get(next, name)) && !Nullish(prev[name]) {
        return true;
      }
      todo := todo - {name};
    }
    if |prev["children"].elems| > 0 || |next["children"].elems| > 0 {
      return true;
    }
    todo := next.Keys;
    while todo != {}
      invariant todo <= next.Keys
      invariant forall name :: name in next && name !in todo && name != "children" ==> !Changed(next[name], Get(prev, name))
      decreases todo
    {
      var name :| name in todo;
      if name != "children" {
        var v := next[name];
        if IsObjectOrFunction(v) {
          return true;
        } else if !LooseEquals(v, Get(prev, name)) {
          return true;
        }
      }
      todo := todo - {name};
    }
    return false;
  }

  /** Unchanged primitive props without children never count as a change,
      whatever their types. */
  lemma SamePrimitivePropsDoNotDiffer(props: map<string, Value>)
    requires Get(props, "children").Arr? && props["children"].elems == []
    requires forall name :: name in props && name != "children" ==> !IsObjectOrFunction(props[name])
    ensures !ShallowDiffers(props, props)
  {
    forall name | name in props && name != "children"
      ensures !Changed(props[name], Get(props, name))
    {
      LooseEqualsReflexive(props[name]);
    }
  }

  lemma LooseEqualsReflexive(v: Value)
    requires v.Undefined? || v.Bool? || v.Num? || v.Str?
    ensures LooseEquals(v, v)
  {
  }

  /** An object-valued prop always counts as a change, even when it is the
      very same object as before. */
  lemma ObjectPropAlwaysDiffers(prev: map<string, Value>, next: map<string, Value>, name: string)
    requires Get(prev, "children").Arr? && Get(next, "children").Arr?
    requires name != "children" && name in next && (next[name].Obj? || next[name].Func? || next[name].Null?)
    ensures ShallowDiffers(prev, next)
  {
    assert Changed(next[name], Get(prev, name));
  }

  /** `==` sees through types: the number 1 where the string "1" was is
      not a change. */
  lemma LooseEqualityHidesTypeChange()
    ensures !ShallowDiffers(map["n" := Str("1"), "children" := Arr(0, [])],
                            map["n" := Num(1), "children" := Arr(1, [])])
  {
    var prev := map["n" := Str("1"), "children" := Arr(0, [])];
    var next := map["n" := Num(1), "children" := Arr(1, [])];
    assert ToNumber("1") == Some(1) by {
      assert DigitsValue("1") == 1 by { assert "1"[..0] == []; }
    }
    forall name | name in next && name != "children" ensures !Changed(next[name], Get(prev, name)) {
      assert name == "n";
    }
  }

  // ----- setComponentProps -----

  /** The props a component keeps: `ref` and `key` are deleted when truthy. */
  function StripRefKey(props: map<string, Value>): (r: map<string, Value>)
    ensures r.Keys <= props.Keys
    ensures forall k :: k in r ==> r[k] == props[k]
    ensures forall k :: k in props ==> (k !in r <==> (k == "ref" || k == "key") && Truthy(props[k]))
  {
    var a := if Truthy(Get(props, "ref")) then props - {"ref"} else props;
    if Truthy(Get(a, "key")) then a - {"key"} else a
  }

  /** How a props update is rendered. */
  datatype RenderMode = NoRender | RenderNow | Enqueue

  /** The dispatch at the end of `setComponentProps`: never for
      `NO_RENDER`; synchronously for `SYNC_RENDER`, unless synchronous
      updates are switched off with `false`, and before the first mount;
      otherwise through the render queue. */
  function Dispatch(opts: nat, syncComponentUpdates: Value, mounted: bool): (mode: RenderMode)
    ensures mode == NoRender <==> opts == NO_RENDER
    ensures mode == Enqueue <==> opts != NO_RENDER && opts != SYNC_RENDER && syncComponentUpdates == Bool(false) && mounted
  {
    if opts == NO_RENDER then NoRender
    else if opts == SYNC_RENDER || syncComponentUpdates != Bool(false) || !mounted then RenderNow
    else Enqueue
  }

  /** The context after `setComponentProps`: a truthy context that is not
      the current one replaces it. */
  function NextContext(newContext: Value, context: Value): Value {
    if Truthy(newContext) && !StrictEquals(newContext, context) then newContext else context
  }

  /** The first context replaced since the last render is the one kept. */
  function NextPrevContext(newContext: Value, context: Value, prevContext: Value): Value {
    if Truthy(newContext) && !StrictEquals(newContext, context) && !Truthy(prevContext) then context else prevContext
  }

  /** The install hooks on a first mount (or with `mountAll`), else
      `receiveProps` when the component has it. */
  function InstallOrReceive(mounted: bool, mountAll: bool, receivesProps: bool): seq<Event> {
    if !mounted || mountAll then [Install] else if receivesProps then [ReceiveProps] else []
  }

  /** The hooks and the dispatch `setComponentProps` performs, in order. */
  function PropsEvents(mounted: bool, mountAll: bool, receivesProps: bool, opts: nat,
                       syncComponentUpdates: Value, ref: Value): seq<Event>
  {
    InstallOrReceive(mounted, mountAll, receivesProps)
    + (if opts == NO_RENDER then [] else [Render(Dispatch(opts, syncComponentUpdates, mounted))])
    + (if Truthy(ref) then [AttachRef(ref)] else [])
  }

  /** An opaque call the model records. */
  datatype Event =
    | Install          // `beforeInstall`, `install` and the observe proxy
    | ReceiveProps
    | Render(mode: RenderMode)
    | AttachRef(ref: Value)
    | BeforeUpdate
    | Updated
    | Callback(id: nat)

  class Component {
    const cid: nat
    const ctor: nat
    const css: Option<string>
    const store: bool            // `component.store` is truthy
    const receivesProps: bool    // the component defines `receiveProps`
    var disable: bool            // `_disable`
    var ref: Value               // `__ref`
    var key: Value               // `__key`
    var base: Option<nat>
    var nextBase: Option<nat>
    var props: map<string, Value>
    var prevProps: Option<map<string, Value>>
    var data: Value
    var prevState: Value
    var context: Value
    var prevContext: Value
    var renderCallbacks: seq<nat>

    constructor(cid: nat, ctor: nat, css: Option<string>, store: bool, receivesProps: bool,
                props: map<string, Value>, data: Value)
      ensures this.cid == cid && this.ctor == ctor && this.css == css && this.store == store
      ensures this.receivesProps == receivesProps && this.props == props && this.data == data
      ensures !disable && base.None? && nextBase.None? && prevProps.None? && renderCallbacks == []
      ensures ref == Undefined && key == Undefined && context == Undefined
      ensures prevState == Undefined && prevContext == Undefined
    {
      this.cid := cid;
      this.ctor := ctor;
      this.css := css;
      this.store := store;
      this.receivesProps := receivesProps;
      this.props := props;
      this.data := data;
      disable := false;
      ref := Undefined;
      key := Undefined;
      base := None;
      nextBase := None;
      prevProps := None;
      prevState := Undefined;
      context := Undefined;
      prevContext := Undefined;
      renderCallbacks := [];
    }

    /** `setComponentProps(component, props, opts, context, mountAll)`. A
        disabled component ignores the call; otherwise `ref` and `key` move
        to the component, the first previous props and context are kept,
        the new ones installed, and the render dispatched. */
    method SetComponentProps(newProps: map<string, Value>, opts: nat, newContext: Value, mountAll: bool,
                             syncComponentUpdates: Value) returns (events: seq<Event>)
      modifies this
      ensures old(disable) ==> events == [] && unchanged(this)
      ensures !old(disable) ==>
        && !disable
        && ref == Get(newProps, "ref") && key == Get(newProps, "key")
        && props == StripRefKey(newProps)
        && prevProps == (if old(prevProps).Some? then old(prevProps) else Some(old(props)))
        && context == NextContext(newContext, old(context))
        && prevContext == NextPrevContext(newContext, old(context), old(prevContext))
        && base == old(base) && nextBase == old(nextBase) && data == old(data) && prevState == old(prevState)
        && renderCallbacks == old(renderCallbacks)
        && events == PropsEvents(old(base).Some?, mountAll, receivesProps, opts, syncComponentUpdates, ref)
    {
      if disable {
        return [];
      }
      events := AcceptProps(newProps, opts, newContext, mountAll, syncComponentUpdates);
    }

    /** `setComponentProps` past its `_disable` guard. */
    method AcceptProps(newProps: map<string, Value>, opts: nat, newContext: Value, mountAll: bool,
                       syncComponentUpdates: Value) returns (events: seq<Event>)
      requires !disable
      modifies this
      ensures !disable
      ensures ref == Get(newProps, "ref") && key == Get(newProps, "key")
      ensures props == StripRefKey(newProps)
      ensures prevProps == (if old(prevProps).Some? then old(prevProps) else Some(old(props)))
      ensures context == NextContext(newContext, old(context))
      ensures prevContext == NextPrevContext(newContext, old(context), old(prevContext))
      ensures base == old(base) && nextBase == old(nextBase) && data == old(data) && prevState == old(prevState)
      ensures renderCallbacks == old(renderCallbacks)
      ensures events == PropsEvents(old(base).Some?, mountAll, receivesProps, opts, syncComponentUpdates, ref)
    {
      disable := true;
      ref := Get(newProps, "ref");
      key := Get(newProps, "key");
      var p := StripRefKey(newProps);
      var mounted := base.Some?;
      AdoptContext(newContext);
      if prevProps.None? {
        prevProps := Some(props);
      }
      props := p;
      disable := false;
      events := PropsEvents(mounted, mountAll, receivesProps, opts, syncComponentUpdates, ref);
    }

    /** The context step of `setComponentProps`. */
    method AdoptContext(newContext: Value)
      modifies this
      ensures context == NextContext(newContext, old(context))
      ensures prevContext == NextPrevContext(newContext, old(context), old(prevContext))
      ensures disable == old(disable) && ref == old(ref) && key == old(key) && props == old(props)
      ensures prevProps == old(prevProps) && base == old(base) && nextBase == old(nextBase)
      ensures data == old(data) && prevState == old(prevState) && renderCallbacks == old(renderCallbacks)
    {
      if Truthy(newContext) && !StrictEquals(newContext, context) {
        if !Truthy(prevContext) {
          prevContext := context;
        }
        context := newContext;
      }
    }

    /** The props `renderComponent` compares against: `prevProps || props`. */
    function PreviousProps(): map<string, Value>
      reads this
    {
      if prevProps.Some? then prevProps.value else props
    }

    /** `renderComponent(component, opts, mountAll)` around the render: a
        disabled component is left alone; an update whose props compare
        equal (and without a store or `FORCE_RENDER`) is skipped with the
        current props, data and context kept; the previous values are then
        cleared, the component is queued for `installed` on first mount (or
        when `mountAll`), `updated` runs after a real update, and the
        render callbacks run, last added first. `newBase` is the node the
        opaque render and diff produce. */
    method RenderComponent(opts: nat, mountAll: bool, newBase: Option<nat>, mounts: MountQueue)
        returns (skip: bool, events: seq<Event>)
      requires Get(PreviousProps(), "children").Arr? && Get(props, "children").Arr?
      modifies this, mounts
      ensures old(disable) ==> !skip && events == [] && unchanged(this) && unchanged(mounts)
      ensures !old(disable) ==>
        && skip == Skips(store, opts, old(base).Some?, old(PreviousProps()), old(props))
        && props == old(props) && data == old(data) && context == old(context)
        && disable == old(disable) && ref == old(ref) && key == old(key)
        && prevProps.None? && prevState == Null && prevContext == Null && nextBase.None?
        && base == (if skip then old(base) else newBase)
        && mounts.mounts == (if old(base).None? || mountAll then [Mounted(cid, ctor, css)] else []) + old(mounts.mounts)
        && renderCallbacks == []
        && events == (if old(base).Some? && !skip then [BeforeUpdate] else [])
                     + (if skip then [] else [Render(RenderNow)])
                     + (if old(base).Some? && !mountAll && !skip then [Updated] else [])
                     + CallbacksOf(Reverse(old(renderCallbacks)))
    {
      if disable {
        return false, [];
      }
      var isUpdate := base.Some?;
      skip := ShouldSkip(opts);
      prevProps := None;
      prevState := Null;
      prevContext := Null;
      nextBase := None;
      if !skip {
        base := newBase;
      }
      if !isUpdate || mountAll {
        mounts.Unshift(Mounted(cid, ctor, css));
      }
      var called := DrainRenderCallbacks();
      // the hooks around the render, in the order they run
      events := (if isUpdate && !skip then [BeforeUpdate] else [])
                + (if skip then [] else [Render(RenderNow)])
                + (if isUpdate && !mountAll && !skip then [Updated] else [])
                + CallbacksOf(called);
    }

    /** The decision at the head of an update: an unforced update of a
        component without a store whose props are shallowly equal is skipped. */
    method ShouldSkip(opts: nat) returns (skip: bool)
      requires Get(PreviousProps(), "children").Arr? && Get(props, "children").Arr?
      ensures skip == Skips(store, opts, base.Some?, PreviousProps(), props)
    {
      skip := false;
      if base.Some? {
        var differs := ShallowComparison(PreviousProps(), props);
        skip := !(store || opts == FORCE_RENDER || differs);
      }
    }

    /** `while (_renderCallbacks.length) _renderCallbacks.pop().call(…)`. */
    method DrainRenderCallbacks() returns (called: seq<nat>)
      modifies this
      ensures renderCallbacks == [] && called == Reverse(old(renderCallbacks))
      ensures props == old(props) && data == old(data) && context == old(context) && base == old(base)
      ensures prevProps == old(prevProps) && prevState == old(prevState) && prevContext == old(prevContext)
      ensures nextBase == old(nextBase) && disable == old(disable) && ref == old(ref) && key == old(key)
    {
      called := [];
      while renderCallbacks != []
        invariant |called| + |renderCallbacks| == |old(renderCallbacks)|
        invariant renderCallbacks == old(renderCallbacks)[..|renderCallbacks|]
        invariant forall i :: 0 <= i < |called| ==> called[i] == old(renderCallbacks)[|old(renderCallbacks)| - 1 - i]
        invariant props == old(props) && data == old(data) && context == old(context) && base == old(base)
        invariant prevProps == old(prevProps) && prevState == old(prevState) && prevContext == old(prevContext)
        invariant nextBase == old(nextBase) && disable == old(disable) && ref == old(ref) && key == old(key)
        decreases |renderCallbacks|
      {
        called := called + [renderCallbacks[|renderCallbacks| - 1]];
        renderCallbacks := renderCallbacks[..|renderCallbacks| - 1];
      }
    }
  }

  function CallbacksOf(ids: seq<nat>): (events: seq<Event>)
    ensures |events| == |ids| && forall i :: 0 <= i < |ids| ==> events[i] == Callback(ids[i])
  {
    seq(|ids|, i requires 0 <= i < |ids| => Callback(ids[i]))
  }

  /** Whether `renderComponent` skips the render of an update. */
  predicate Skips(store: bool, opts: nat, isUpdate: bool, previous: map<string, Value>, current: map<string, Value>)
    requires Get(previous, "children").Arr? && Get(current, "children").Arr?
  {
    isUpdate && !store && opts != FORCE_RENDER && !ShallowDiffers(previous, current)
  }

  /** An update is never skipped when some prop other than `children` now
      holds a primitive that is not loosely equal to its previous value. */
  lemma ChangedPropRenders(store: bool, opts: nat, isUpdate: bool,
                           prev: map<string, Value>, next: map<string, Value>, name: string)
    requires Get(prev, "children").Arr? && Get(next, "children").Arr?
    requires name != "children" && name in next && !IsObjectOrFunction(next[name]) && !LooseEquals(next[name], Get(prev, name))
    ensures !Skips(store, opts, isUpdate, prev, next)
  {
    assert Changed(next[name], Get(prev, name));
  }

  /** Nor is it skipped when a prop that held a value is now missing. */
  lemma DroppedPropRenders(store: bool, opts: nat, isUpdate: bool,
                           prev: map<string, Value>, next: map<string, Value>, name: string)
    requires Get(prev, "children").Arr? && Get(next, "children").Arr?
    requires name in prev && !Nullish(prev[name]) && name !in next
    ensures !Skips(store, opts, isUpdate, prev, next)
  {
    assert Nullish(Get(next, name));
  }

  /** Re-rendering a mounted component with the very same childless
      primitive props is skipped. */
  lemma SamePropsSkip(props: map<string, Value>, opts: nat)
    requires Get(props, "children").Arr? && props["children"].elems == []
    requires forall name :: name in props && name != "children" ==> !IsObjectOrFunction(props[name])
    requires opts != FORCE_RENDER
    ensures Skips(false, opts, true, props, props)
  {
    SamePrimitivePropsDoNotDiffer(props);
  }
}
