// The two queues of the renderer: the dirty-component queue `items`
// (`enqueueRender`, `rerender`) and the mount queue `mounts`
// (`mounts.unshift` in `renderComponent`, `flushMounts`). Components are
// named by numbers. The deferred call to `rerender` is counted, not run.

module Scheduler {
  import opened JsValues
  import opened Styles

  /** What the `k`th render enqueues; a render beyond the script enqueues
      nothing. */
  function SpawnOf(script: seq<seq<nat>>, k: nat): seq<nat> {
    if k < |script| then script[k] else []
  }

  /** The components renders `k` up to `n` enqueue. */
  function Spawned(script: seq<seq<nat>>, k: nat, n: nat): seq<nat>
    decreases n - k
  {
    if n <= k then [] else SpawnOf(script, k) + Spawned(script, k + 1, n)
  }

  /** The order in which `rerender` renders, when the `k`th render enqueues
      `script[k]`: always the last component of the queue next. */
  function RenderOrder(items: seq<nat>, script: seq<seq<nat>>, k: nat): seq<nat>
    decreases (if k < |script| then |script| - k else 0), |items|
  {
    if items == [] then []
    else [items[|items| - 1]] + RenderOrder(items[..|items| - 1] + SpawnOf(script, k), script, k + 1)
  }

  /** How many further `rerender` calls a flush defers: one each time a
      render enqueues into the queue it has just emptied. */
  function FlushSchedules(items: seq<nat>, script: seq<seq<nat>>, k: nat): nat
    decreases (if k < |script| then |script| - k else 0), |items|
  {
    if items == [] then 0
    else
      var here := if |items| == 1 && SpawnOf(script, k) != [] then 1 else 0;
      here + FlushSchedules(items[..|items| - 1] + SpawnOf(script, k), script, k + 1)
  }

  class RenderQueue {
    var items: seq<nat>
    var scheduled: nat   // calls to `rerender` deferred so far

    constructor()
      ensures items == [] && scheduled == 0
    {
      items := [];
      scheduled := 0;
    }

    /** `enqueueRender(c)`: no deduplication; a flush is scheduled only
        when the queue was empty. */
    method EnqueueRender(c: nat)
      modifies this
      ensures items == old(items) + [c]
      ensures scheduled == old(scheduled) + (if old(items) == [] then 1 else 0)
    {
      items := items + [c];
      if |items| == 1 {
        scheduled := scheduled + 1;
      }
    }

    /** The components one render enqueues, one `enqueueRender` each. */
    method EnqueueAll(cs: seq<nat>)
      modifies this
      ensures items == old(items) + cs
      ensures scheduled == old(scheduled) + (if old(items) == [] && cs != [] then 1 else 0)
    {
      var j := 0;
      while j < |cs|
        invariant 0 <= j <= |cs|
        invariant items == old(items) + cs[..j]
        invariant scheduled == old(scheduled) + (if old(items) == [] && j > 0 then 1 else 0)
      {
        EnqueueRender(cs[j]);
        j := j + 1;
      }
      assert cs[..j] == cs;
    }

    /** `rerender()`: pops until the queue is empty; the `k`th render
        enqueues `script[k]`, and those are rendered in the same flush. */
    method Rerender(script: seq<seq<nat>>) returns (rendered: seq<nat>)
      modifies this
      ensures items == []
      ensures rendered == RenderOrder(old(items), script, 0)
      ensures scheduled == old(scheduled) + FlushSchedules(old(items), script, 0)
    {
      rendered := [];
      var k := 0;
      while items != []
        invariant rendered + RenderOrder(items, script, k) == RenderOrder(old(items), script, 0)
        invariant scheduled + FlushSchedules(items, script, k) == old(scheduled) + FlushSchedules(old(items), script, 0)
        decreases (if k < |script| then |script| - k else 0), |items|
      {
        var p := items[|items| - 1];
        ghost var before, current := rendered, items;
        ghost var next := items[..|items| - 1] + SpawnOf(script, k);
        items := items[..|items| - 1];
        rendered := rendered + [p];
        if k < |script| {
          EnqueueAll(script[k]);
        } else {
          assert items + [] == items;
        }
        assert items == next;
        assert RenderOrder(current, script, k) == [p] + RenderOrder(next, script, k + 1);
        assert FlushSchedules(current, script, k)
          == (if |current| == 1 && SpawnOf(script, k) != [] then 1 else 0) + FlushSchedules(next, script, k + 1);
        assert before + ([p] + RenderOrder(next, script, k + 1)) == rendered + RenderOrder(next, script, k + 1);
        k := k + 1;
      }
    }
  }

  /** Every enqueued component, and every one enqueued during the flush,
      is rendered once per time it was enqueued: the `n - k` renders of a
      flush that starts at render `k` render the queue and what renders
      `k` to `n` enqueue. */
  lemma {:induction false} RenderOrderRendersAll(items: seq<nat>, script: seq<seq<nat>>, k: nat, n: nat)
    requires n == k + |RenderOrder(items, script, k)|
    ensures multiset(RenderOrder(items, script, k)) == multiset(items) + multiset(Spawned(script, k, n))
    decreases (if k < |script| then |script| - k else 0), |items|
  {
    if items != [] {
      var front, last := items[..|items| - 1], items[|items| - 1];
      var spawn := SpawnOf(script, k);
      var tail := RenderOrder(front + spawn, script, k + 1);
      var order := RenderOrder(items, script, k);
      assert order == [last] + tail;
      RenderOrderRendersAll(front + spawn, script, k + 1, n);
      var later := Spawned(script, k + 1, n);
      assert Spawned(script, k, n) == spawn + later;
      CountStep(items, spawn, tail, later, order);
    }
  }

  /** A flush defers at most one further `rerender` per render that
      enqueues something, so at most one per entry of the script. */
  lemma {:induction false} FlushSchedulesBound(items: seq<nat>, script: seq<seq<nat>>, k: nat)
    ensures FlushSchedules(items, script, k) <= (if k < |script| then |script| - k else 0)
    decreases (if k < |script| then |script| - k else 0), |items|
  {
    if items != [] {
      FlushSchedulesBound(items[..|items| - 1] + SpawnOf(script, k), script, k + 1);
    }
  }

  /** A flush whose renders enqueue nothing defers no further `rerender`. */
  lemma {:induction false} QuietFlushSchedulesNothing(items: seq<nat>, k: nat)
    ensures FlushSchedules(items, [], k) == 0
    decreases |items|
  {
    if items != [] {
      assert items[..|items| - 1] + SpawnOf([], k) == items[..|items| - 1];
      QuietFlushSchedulesNothing(items[..|items| - 1], k + 1);
    }
  }

  /** One pop in multiset terms: the popped component and the rest of the
      order account for the queue and everything enqueued. */
  lemma CountStep(items: seq<nat>, spawn: seq<nat>, tail: seq<nat>, later: seq<nat>, order: seq<nat>)
    requires items != [] && order == [items[|items| - 1]] + tail
    requires multiset(tail) == multiset(items[..|items| - 1] + spawn) + multiset(later)
    ensures multiset(order) == multiset(items) + multiset(spawn + later)
  {
    assert items == items[..|items| - 1] + [items[|items| - 1]];
  }

  /** With nothing enqueued during the flush the queue is drained last in,
      first out. */
  lemma {:induction false} RenderOrderWithoutSpawns(items: seq<nat>, k: nat)
    ensures RenderOrder(items, [], k) == Reverse(items)
    decreases |items|
  {
    if items != [] {
      RenderOrderWithoutSpawns(items[..|items| - 1], k + 1);
      assert items[..|items| - 1] + [] == items[..|items| - 1];
    }
  }

  /** A render that enqueues its own component again renders it again in
      the same flush (there is no dirty flag). */
  lemma RenderedTwice()
    ensures RenderOrder([7], [[7]], 0) == [7, 7]
  {
    assert RenderOrder([], [[7]], 2) == [];
    assert RenderOrder([7], [[7]], 1) == [7];
  }

  /** What `flushMounts` reads of a mounted component: its constructor and,
      when it has a `css` property, the style text it yields. */
  datatype Mounted = Mounted(cid: nat, ctor: nat, css: Option<string>)

  /** `c.css` is truthy: present and not the empty string. */
  predicate HasCss(m: Mounted) {
    m.css.Some? && m.css.value != ""
  }

  function Ids(ms: seq<Mounted>): (ids: seq<nat>)
    ensures |ids| == |ms|
    ensures forall i :: 0 <= i < |ms| ==> ids[i] == ms[i].cid
  {
    seq(|ms|, i requires 0 <= i < |ms| => ms[i].cid)
  }

  /** The constructor has a style name and a sheet under `_s` and that name. */
  ghost predicate Registered(cache: seq<CacheEntry>, mapping: set<string>, ctor: nat) {
    exists i :: 0 <= i < |cache| && cache[i].ctor == ctor && "_s" + cache[i].attrName in mapping
  }

  /** A registration survives a cache that only grows at its end and a
      mapping that only gains names. */
  lemma StaysRegistered(cache: seq<CacheEntry>, cache': seq<CacheEntry>, mapping: set<string>, mapping': set<string>,
                        all: seq<Mounted>, from: nat)
    requires cache <= cache' && mapping <= mapping'
    requires forall i :: from <= i < |all| && HasCss(all[i]) ==> Registered(cache, mapping, all[i].ctor)
    ensures forall i :: from <= i < |all| && HasCss(all[i]) ==> Registered(cache', mapping', all[i].ctor)
  {
    forall i | from <= i < |all| && HasCss(all[i])
      ensures Registered(cache', mapping', all[i].ctor)
    {
      var j :| 0 <= j < |cache| && cache[j].ctor == all[i].ctor && "_s" + cache[j].attrName in mapping;
      assert cache'[j] == cache[j];
    }
  }

  class MountQueue {
    var mounts: seq<Mounted>

    constructor()
      ensures mounts == []
    {
      mounts := [];
    }

    /** `mounts.unshift(component)`. */
    method Unshift(c: Mounted)
      modifies this
      ensures mounts == [c] + old(mounts)
    {
      mounts := [c] + mounts;
    }

    /** `flushMounts()`: pops from the end, so components leave in the
        order they were unshifted; each one's `installed` hook runs and its
        style sheet is registered under `_s` and its constructor's name. */
    method FlushMounts(styles: StyleRegistry, scopedStyle: bool) returns (installed: seq<nat>)
      requires styles.Valid()
      modifies this, styles
      ensures mounts == [] && styles.Valid()
      ensures installed == Ids(Reverse(old(mounts)))
      ensures forall m :: m in old(mounts) && HasCss(m) ==>
                Registered(styles.styleCache, styles.staticStyleMapping, m.ctor)
    {
      installed := [];
      ghost var all := mounts;
      while mounts != []
        invariant styles.Valid()
        invariant mounts == all[..|mounts|] && |installed| + |mounts| == |all|
        invariant forall i :: 0 <= i < |installed| ==> installed[i] == all[|all| - 1 - i].cid
        invariant forall i :: |mounts| <= i < |all| && HasCss(all[i]) ==>
                    Registered(styles.styleCache, styles.staticStyleMapping, all[i].ctor)
        decreases |mounts|
      {
        ghost var cache, mapping := styles.styleCache, styles.staticStyleMapping;
        var c := mounts[|mounts| - 1];
        mounts := mounts[..|mounts| - 1];
        installed := installed + [c.cid];
        if HasCss(c) {
          var name := styles.GetCtorName(c.ctor);
          styles.AddStyleToHead(c.css.value, "_s" + name, scopedStyle);
        }
        StaysRegistered(cache, styles.styleCache, mapping, styles.staticStyleMapping, all, |mounts| + 1);
      }
      forall m | m in old(mounts) && HasCss(m)
        ensures Registered(styles.styleCache, styles.staticStyleMapping, m.ctor)
      {
        var i :| 0 <= i < |all| && all[i] == m;
      }
    }
  }
}
