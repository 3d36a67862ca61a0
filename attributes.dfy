// `diffAttributes`: bringing an element's attribute cache in line with the
// attributes of its new virtual node, calling `setAccessor` for each name
// that changes. `setAccessor` itself is a host write and is only recorded.

module Attributes {
  import opened JsValues

  /** One `setAccessor(dom, name, old, value)` call. */
  datatype Call = Call(name: string, before: Value, after: Value)

  /** The first loop clears a cached name when the new attributes lack it
      (or hold `null`/`undefined` there) and its cached value is not
      nullish. */
  predicate Clears(prev: map<string, Value>, attrs: Option<map<string, Value>>, name: string)
    requires name in prev
  {
    !(attrs.Some? && !Nullish(Get(attrs.value, name))) && !Nullish(prev[name])
  }

  /** The cache after the first loop. */
  function Cleared(prev: map<string, Value>, attrs: Option<map<string, Value>>): (mid: map<string, Value>)
    ensures mid.Keys == prev.Keys
  {
    map name | name in prev :: if Clears(prev, attrs, name) then Undefined else prev[name]
  }

  /** `value` and `checked` are compared with the live DOM property, every
      other name with the cache. */
  function Compared(mid: map<string, Value>, dom: map<string, Value>, name: string): Value {
    if name == "value" || name == "checked" then Get(dom, name) else Get(mid, name)
  }

  /** The second loop writes a name of the new attributes, other than
      `children` and `innerHTML`, that is new to the cache or differs
      (under `!==`) from what it is compared with. */
  predicate Applies(mid: map<string, Value>, attrs: map<string, Value>, dom: map<string, Value>, name: string)
    requires name in attrs
  {
    name != "children" && name != "innerHTML" &&
    (name !in mid || !StrictEquals(attrs[name], Compared(mid, dom, name)))
  }

  /** The cache after the second loop. */
  function Applied(mid: map<string, Value>, attrs: Option<map<string, Value>>, dom: map<string, Value>): map<string, Value> {
    if attrs.None? then mid
    else
      var a := attrs.value;
      map name | name in mid.Keys + (set n | n in a && Applies(mid, a, dom, n)) ::
        if name in a && Applies(mid, a, dom, name) then a[name] else mid[name]
  }

  function DiffedCache(prev: map<string, Value>, attrs: Option<map<string, Value>>, dom: map<string, Value>): map<string, Value> {
    Applied(Cleared(prev, attrs), attrs, dom)
  }

  ghost function ClearCalls(prev: map<string, Value>, attrs: Option<map<string, Value>>): set<Call> {
    set name | name in prev && Clears(prev, attrs, name) :: Call(name, prev[name], Undefined)
  }

  ghost function ApplyCalls(mid: map<string, Value>, attrs: Option<map<string, Value>>, dom: map<string, Value>): set<Call> {
    if attrs.None? then {}
    else
      set name | name in attrs.value && Applies(mid, attrs.value, dom, name) ::
        Call(name, Get(mid, name), attrs.value[name])
  }

  ghost predicate DistinctNames(calls: seq<Call>) {
    forall i, j :: 0 <= i < j < |calls| ==> calls[i].name != calls[j].name
  }

  /** What one diff leaves in the cache under each name. A name the new
      attributes lack is cleared to `undefined` if it held a value; every
      other name except `children`, `innerHTML`, `value` and `checked` ends
      up strictly equal to its new value. */
  lemma DiffOutcome(prev: map<string, Value>, attrs: Option<map<string, Value>>, dom: map<string, Value>, name: string)
    ensures var d := DiffedCache(prev, attrs, dom);
      && ((attrs.None? || name !in attrs.value) ==>
            (name in d <==> name in prev) &&
            (name in prev ==> d[name] == if Nullish(prev[name]) then prev[name] else Undefined))
      && (attrs.Some? && name in attrs.value && name !in {"children", "innerHTML", "value", "checked"} ==>
            name in d && StrictEquals(d[name], attrs.value[name]))
  {
    var d := DiffedCache(prev, attrs, dom);
    var mid := Cleared(prev, attrs);
    if attrs.Some? && name in attrs.value && name !in {"children", "innerHTML", "value", "checked"} {
      var a := attrs.value;
      if !Applies(mid, a, dom, name) {
        assert d[name] == mid[name];
        StrictEqualsSymmetric(a[name], mid[name]);
      }
    }
  }

  lemma StrictEqualsSymmetric(a: Value, b: Value)
    requires StrictEquals(a, b)
    ensures StrictEquals(b, a)
  {
  }

  /** A name whose cached value is strictly equal to its new value sees no
      `setAccessor` call at all, nullish or not. */
  lemma UnchangedNotTouched(prev: map<string, Value>, a: map<string, Value>, dom: map<string, Value>, name: string)
    requires name in prev && name in a && name != "value" && name != "checked"
    requires StrictEquals(a[name], prev[name])
    ensures forall c :: c in ClearCalls(prev, Some(a)) ==> c.name != name
    ensures forall c :: c in ApplyCalls(Cleared(prev, Some(a)), Some(a), dom) ==> c.name != name
    ensures DiffedCache(prev, Some(a), dom)[name] == prev[name]
  {
  }

  /** Diffing the same attributes a second time calls `setAccessor` for
      nothing and leaves the cache as it is, provided the live `value` and
      `checked` already hold the new values. */
  lemma DiffIdempotent(prev: map<string, Value>, attrs: Option<map<string, Value>>, dom: map<string, Value>)
    requires attrs.Some? ==> forall n :: n in attrs.value && (n == "value" || n == "checked") ==>
               StrictEquals(attrs.value[n], Get(dom, n))
    ensures var d := DiffedCache(prev, attrs, dom);
      && ClearCalls(d, attrs) == {}
      && ApplyCalls(Cleared(d, attrs), attrs, dom) == {}
      && DiffedCache(d, attrs, dom) == d
  {
    var d := DiffedCache(prev, attrs, dom);
    var mid := Cleared(prev, attrs);
    forall n | n in d
      ensures !Clears(d, attrs, n)
    {
      if attrs.Some? && n in attrs.value {
        var a := attrs.value;
        if n in a && Applies(mid, a, dom, n) {
          assert d[n] == a[n];
        } else {
          assert d[n] == mid[n];
        }
      }
    }
    assert Cleared(d, attrs) == d;
    if attrs.Some? {
      var a := attrs.value;
      forall n | n in a
        ensures !Applies(d, a, dom, n)
      {
        if n != "children" && n != "innerHTML" {
          assert n in d;
          if n == "value" || n == "checked" {
          } else if Applies(mid, a, dom, n) {
            assert d[n] == a[n];
          } else {
            assert d[n] == mid[n];
            StrictEqualsSymmetric(a[n], mid[n]);
          }
        }
      }
      assert Applied(d, attrs, dom) == d;
    }
  }

  /** A name cached with a value and given `null` anew is written twice:
      cleared to `undefined` by the first loop, then set to `null` by the
      second, since `null !== undefined`. */
  lemma NullWrittenTwice()
    ensures var prev := map["a" := Num(1)];
      var attrs := Some(map["a" := Null]);
      && ClearCalls(prev, attrs) == {Call("a", Num(1), Undefined)}
      && ApplyCalls(Cleared(prev, attrs), attrs, map[]) == {Call("a", Undefined, Null)}
      && DiffedCache(prev, attrs, map[]) == map["a" := Null]
  {
    var prev := map["a" := Num(1)];
    var attrs := Some(map["a" := Null]);
    assert Clears(prev, attrs, "a");
    var mid := Cleared(prev, attrs);
    assert mid == map["a" := Undefined];
    assert Applies(mid, attrs.value, map[], "a");
  }

  /** The attribute cache of one element (`dom[ATTR_KEY]`). */
  class AttrCache {
    var cache: map<string, Value>

    constructor(initial: map<string, Value>)
      ensures cache == initial
    {
      cache := initial;
    }

    /** `diffAttributes(dom, attrs, old)` with `old` the cache and `dom`
        the live `value`/`checked` properties. Returns the `setAccessor`
        calls of the two loops, in the order they were made; each loop
        touches each name at most once. */
    method DiffAttributes(attrs: Option<map<string, Value>>, dom: map<string, Value>)
        returns (cleared: seq<Call>, applied: seq<Call>)
      modifies this
      ensures cache == DiffedCache(old(cache), attrs, dom)
      ensures DistinctNames(cleared) && forall c :: c in cleared <==> c in ClearCalls(old(cache), attrs)
      ensures DistinctNames(applied) &&
              forall c :: c in applied <==> c in ApplyCalls(Cleared(old(cache), attrs), attrs, dom)
    {
      cleared := ClearStale(attrs);
      applied := [];
      if attrs.Some? {
        applied := ApplyNew(attrs.value, dom);
      }
    }

    /** The first loop of `diffAttributes`. */
    method ClearStale(attrs: Option<map<string, Value>>) returns (cleared: seq<Call>)
      modifies this
      ensures cache == Cleared(old(cache), attrs)
      ensures DistinctNames(cleared) && forall c :: c in cleared <==> c in ClearCalls(old(cache), attrs)
    {
      ghost var start := cache;
      cleared := [];
      var names := cache.Keys;
      while names != {}
        invariant names <= start.Keys
        invariant cache == ClearedTo(start, attrs, start.Keys - names)
        invariant DistinctNames(cleared) && forall k :: 0 <= k < |cleared| ==> cleared[k].name !in names
        invariant forall c :: c in cleared <==> c in ClearCallsTo(start, attrs, start.Keys - names)
        decreases names
      {
        var name :| name in names;
        ghost var done := start.Keys - names;
        ClearStep(start, attrs, done, name);
        assert start.Keys - (names - {name}) == done + {name};
        if !(attrs.Some? && !Nullish(Get(attrs.value, name))) && !Nullish(cache[name]) {
          Record(cleared, Call(name, cache[name], Undefined), names);
          cleared := cleared + [Call(name, cache[name], Undefined)];
          cache := cache[name := Undefined];
        }
        names := names - {name};
      }
      assert start.Keys - names == start.Keys;
      ClearedAll(start, attrs);
    }

    /** The second loop of `diffAttributes`. */
    method ApplyNew(a: map<string, Value>, dom: map<string, Value>) returns (applied: seq<Call>)
      modifies this
      ensures cache == Applied(old(cache), Some(a), dom)
      ensures DistinctNames(applied) && forall c :: c in applied <==> c in ApplyCalls(old(cache), Some(a), dom)
    {
      ghost var mid := cache;
      applied := [];
      var names := a.Keys;
      while names != {}
        invariant names <= a.Keys
        invariant cache == AppliedTo(mid, a, dom, a.Keys - names)
        invariant DistinctNames(applied) && forall k :: 0 <= k < |applied| ==> applied[k].name !in names
        invariant forall c :: c in applied <==> c in CallsTo(mid, a, dom, a.Keys - names)
        decreases names
      {
        var name :| name in names;
        ghost var done := a.Keys - names;
        AppliedStep(mid, a, dom, done, name);
        assert a.Keys - (names - {name}) == done + {name};
        var compared := if name == "value" || name == "checked" then Get(dom, name) else Get(cache, name);
        if name != "children" && name != "innerHTML" && (name !in cache || !StrictEquals(a[name], compared)) {
          Record(applied, Call(name, Get(cache, name), a[name]), names);
          applied := applied + [Call(name, Get(cache, name), a[name])];
          cache := cache[name := a[name]];
        }
        names := names - {name};
      }
      assert a.Keys - names == a.Keys;
      AppliedAll(mid, a, dom);
    }
  }

  /** The cache once the names in `done` have gone through the first loop. */
  function ClearedTo(start: map<string, Value>, attrs: Option<map<string, Value>>, done: set<string>): map<string, Value> {
    map n | n in start :: if n in done && Clears(start, attrs, n) then Undefined else start[n]
  }

  ghost function ClearCallsTo(start: map<string, Value>, attrs: Option<map<string, Value>>, done: set<string>): set<Call> {
    set n | n in start && n in done && Clears(start, attrs, n) :: Call(n, start[n], Undefined)
  }

  /** One more name through the first loop: it is cleared exactly when
      `Clears` holds of it, and until then it keeps its value. */
  lemma ClearStep(start: map<string, Value>, attrs: Option<map<string, Value>>, done: set<string>, name: string)
    requires name in start && name !in done
    ensures var cache := ClearedTo(start, attrs, done);
      && name in cache && cache[name] == start[name]
      && ClearedTo(start, attrs, done + {name}) ==
         (if Clears(start, attrs, name) then cache[name := Undefined] else cache)
      && ClearCallsTo(start, attrs, done + {name}) ==
         ClearCallsTo(start, attrs, done) + (if Clears(start, attrs, name) then {Call(name, start[name], Undefined)} else {})
  {
    var cache := ClearedTo(start, attrs, done);
    var next := ClearedTo(start, attrs, done + {name});
    if Clears(start, attrs, name) {
      assert next == cache[name := Undefined];
    } else {
      assert next == cache;
    }
  }

  lemma ClearedAll(start: map<string, Value>, attrs: Option<map<string, Value>>)
    ensures ClearedTo(start, attrs, start.Keys) == Cleared(start, attrs)
    ensures ClearCallsTo(start, attrs, start.Keys) == ClearCalls(start, attrs)
  {
  }

  /** A call recorded for a name not handled before keeps the names of
      the recorded calls distinct. */
  lemma Record(calls: seq<Call>, c: Call, names: set<string>)
    requires DistinctNames(calls) && forall k :: 0 <= k < |calls| ==> calls[k].name !in names
    requires c.name in names
    ensures DistinctNames(calls + [c])
    ensures forall k :: 0 <= k < |calls + [c]| ==> (calls + [c])[k].name !in names - {c.name}
    ensures forall x :: x in calls + [c] <==> x in calls || x == c
  {
  }

  /** The cache once the names in `done` have gone through the second loop. */
  function AppliedTo(mid: map<string, Value>, a: map<string, Value>, dom: map<string, Value>, done: set<string>): map<string, Value> {
    map name | name in mid.Keys + (set n | n in a && n in done && Applies(mid, a, dom, n)) ::
      if name in a && name in done && Applies(mid, a, dom, name) then a[name] else mid[name]
  }

  ghost function CallsTo(mid: map<string, Value>, a: map<string, Value>, dom: map<string, Value>, done: set<string>): set<Call> {
    set name | name in a && name in done && Applies(mid, a, dom, name) :: Call(name, Get(mid, name), a[name])
  }

  /** One more name through the second loop: it is written exactly when it
      applies, and what it is compared with is still its value before the loop. */
  lemma AppliedStep(mid: map<string, Value>, a: map<string, Value>, dom: map<string, Value>, done: set<string>, name: string)
    requires name in a && name !in done
    ensures var cache := AppliedTo(mid, a, dom, done);
      && (name in cache <==> name in mid) && Get(cache, name) == Get(mid, name)
      && AppliedTo(mid, a, dom, done + {name}) ==
         (if Applies(mid, a, dom, name) then cache[name := a[name]] else cache)
      && CallsTo(mid, a, dom, done + {name}) ==
         CallsTo(mid, a, dom, done) + (if Applies(mid, a, dom, name) then {Call(name, Get(mid, name), a[name])} else {})
  {
    CacheStep(mid, a, dom, done, name);
    CallsStep(mid, a, dom, done, name);
  }

  lemma CacheStep(mid: map<string, Value>, a: map<string, Value>, dom: map<string, Value>, done: set<string>, name: string)
    requires name in a && name !in done
    ensures var cache := AppliedTo(mid, a, dom, done);
      AppliedTo(mid, a, dom, done + {name}) == (if Applies(mid, a, dom, name) then cache[name := a[name]] else cache)
  {
    var cache := AppliedTo(mid, a, dom, done);
    var next := AppliedTo(mid, a, dom, done + {name});
    if Applies(mid, a, dom, name) {
      assert next.Keys == cache.Keys + {name};
      assert next == cache[name := a[name]];
    } else {
      assert next.Keys == cache.Keys;
      assert next == cache;
    }
  }

  lemma CallsStep(mid: map<string, Value>, a: map<string, Value>, dom: map<string, Value>, done: set<string>, name: string)
    requires name in a && name !in done
    ensures CallsTo(mid, a, dom, done + {name}) ==
            CallsTo(mid, a, dom, done) + (if Applies(mid, a, dom, name) then {Call(name, Get(mid, name), a[name])} else {})
  {
  }

  lemma AppliedAll(mid: map<string, Value>, a: map<string, Value>, dom: map<string, Value>)
    ensures AppliedTo(mid, a, dom, a.Keys) == Applied(mid, Some(a), dom)
    ensures CallsTo(mid, a, dom, a.Keys) == ApplyCalls(mid, Some(a), dom)
  {
  }
}
