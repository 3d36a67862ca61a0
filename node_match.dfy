// Keyed-then-positional matching of virtual children to the live children
// of an element (the bookkeeping half of `innerDiffNode`): the partition of
// live children into a key map and an unkeyed array, the per-child lookup,
// and the collection of leftovers to recycle. Live children are named by
// their index in the parent's child list at entry.

module NodeMatch {
  import opened JsValues

  /** What the matcher reads of a live child. */
  datatype LiveChild = LiveChild(
    hasCache: bool,                  // the attribute cache (`ATTR_KEY`) is set
    cacheKey: Value,                 // `key` in that cache
    ownerKey: Option<Value>,         // `__key` of the owning component, if any
    ctor: Option<nat>,               // `_componentConstructor`
    isText: bool,                    // a text node (`splitText` defined)
    blankText: bool,                 // its `nodeValue.trim()` is empty
    nodeName: string,
    normalizedNodeName: Option<string>)

  /** `isNamedNode`: the element has the given name, compared exactly with
      the name it was created under or case-insensitively with its DOM name. */
  predicate IsNamedNode(n: LiveChild, name: string) {
    n.normalizedNodeName == Some(name) || ToLower(n.nodeName) == ToLower(name)
  }

  /** Case never matters to `isNamedNode`. */
  lemma NamedNodeIgnoresCase(n: LiveChild, a: string, b: string)
    requires ToLower(a) == ToLower(b)
    requires n.normalizedNodeName != Some(a) && n.normalizedNodeName != Some(b)
    ensures IsNamedNode(n, a) <==> IsNamedNode(n, b)
  {
  }

  /** `isSameNodeType(node, vnode, hydrating)`; `mapping` is the registry of
      custom element names to component constructors. */
  predicate IsSameNodeType(n: LiveChild, v: Value, mapping: map<string, nat>, hydrating: bool)
    requires !Nullish(v)
  {
    if v.Str? || v.Num? then n.isText
    else if v.Node? && v.vnode.nodeName.Tag? then
      var name := v.vnode.nodeName.name;
      if name in mapping then hydrating || n.ctor == Some(mapping[name])
      else n.ctor.None? && IsNamedNode(n, name)
    else if v.Node? then hydrating || n.ctor == Some(v.vnode.nodeName.cid)
    else hydrating || n.ctor.None?
  }

  /** Hydration only ever widens the match: every node that has the same
      type as a virtual child outside hydration still has it during
      hydration. */
  lemma HydratingWidens(n: LiveChild, v: Value, mapping: map<string, nat>)
    requires !Nullish(v)
    ensures IsSameNodeType(n, v, mapping, false) ==> IsSameNodeType(n, v, mapping, true)
  {
  }

  /** Two unmapped tags that differ only in ASCII case match the same live
      nodes, unless a node was created under one of the two spellings. */
  lemma SameTypeIgnoresTagCase(n: LiveChild, v: Value, w: Value, mapping: map<string, nat>, hydrating: bool)
    requires v.Node? && v.vnode.nodeName.Tag? && w.Node? && w.vnode.nodeName.Tag?
    requires v.vnode.nodeName.name !in mapping && w.vnode.nodeName.name !in mapping
    requires ToLower(v.vnode.nodeName.name) == ToLower(w.vnode.nodeName.name)
    requires n.normalizedNodeName != Some(v.vnode.nodeName.name) && n.normalizedNodeName != Some(w.vnode.nodeName.name)
    ensures IsSameNodeType(n, v, mapping, hydrating) <==> IsSameNodeType(n, w, mapping, hydrating)
  {
    NamedNodeIgnoresCase(n, v.vnode.nodeName.name, w.vnode.nodeName.name);
  }

  /** The property name a key value becomes when used to index an object.
      Object-like keys are all taken to print as `[object Object]`. */
  function KeyName(v: Value): string
    requires !Nullish(v)
  {
    match v
    case Str(s) => s
    case Num(n) => IntToString(n)
    case Bool(b) => if b then "true" else "false"
    case _ => "[object Object]"
  }

  /** The key a live child is filed under, or `None` for `null`: only read
      when there are virtual children and the child has an attribute cache;
      a component-owned child uses its component's key. */
  function LiveKey(c: LiveChild, vlen: nat): Option<string> {
    if vlen == 0 || !c.hasCache then None
    else
      var k := if c.ownerKey.Some? then c.ownerKey.value else c.cacheKey;
      if Nullish(k) then None else Some(KeyName(k))
  }

  /** An unkeyed live child enters the unkeyed array when it has a cache,
      or is a text node (non-blank while hydrating), or any node while
      hydrating. */
  predicate Eligible(c: LiveChild, hydrating: bool) {
    c.hasCache || (if c.isText then (if hydrating then !c.blankText else true) else hydrating)
  }

  /** `vchild.key`, as a property name, or `None` when nullish. */
  function VKey(v: Value): Option<string>
    requires !Nullish(v)
  {
    var k := if v.Node? then v.vnode.key else if v.Obj? then FieldValue(v.fields, "key") else Undefined;
    if Nullish(k) then None else Some(KeyName(k))
  }

  /** The matcher's variables: `keyed` (an `undefined` entry is `None`),
      `keyedLen`, `children`, `min` and `childrenLen`. */
  datatype MatchState = MatchState(keyed: map<string, Option<nat>>, keyedLen: nat,
                                   children: seq<Option<nat>>, min: nat, childrenLen: nat)

  ghost function DefinedKeys(st: MatchState): set<string> {
    set k | k in st.keyed && st.keyed[k].Some?
  }

  ghost function KeyedNodes(st: MatchState): set<nat> {
    set k | k in st.keyed && st.keyed[k].Some? :: st.keyed[k].value
  }

  ghost function SlotNodes(st: MatchState): set<nat> {
    set j | 0 <= j < |st.children| && st.children[j].Some? :: st.children[j].value
  }

  /** The live children still available for matching. */
  ghost function Available(st: MatchState): set<nat> {
    KeyedNodes(st) + SlotNodes(st)
  }

  /** The key of every live child, as the partition reads it. */
  function KeysOf(live: seq<LiveChild>, vlen: nat): (keys: seq<Option<string>>)
    ensures |keys| == |live|
    ensures forall i :: 0 <= i < |live| ==> keys[i] == LiveKey(live[i], vlen)
  {
    seq(|live|, i requires 0 <= i < |live| => LiveKey(live[i], vlen))
  }

  function EligibleOf(live: seq<LiveChild>, hydrating: bool): (e: seq<bool>)
    ensures |e| == |live|
    ensures forall i :: 0 <= i < |live| ==> e[i] == Eligible(live[i], hydrating)
  {
    seq(|live|, i requires 0 <= i < |live| => Eligible(live[i], hydrating))
  }

  /** The invariant of the matcher's state, given the key of each live
      child. `min` may pass `childrenLen` by one: when the slot at `min` is
      also the last one, both adjust; no slot is defined then. */
  ghost predicate Valid(st: MatchState, keys: seq<Option<string>>) {
    && st.childrenLen <= |st.children|
    && st.min <= st.childrenLen + 1 && st.min <= |st.children|
    && (forall j :: 0 <= j < st.min ==> st.children[j].None?)
    && (forall j :: st.childrenLen <= j < |st.children| ==> st.children[j].None?)
    && (forall j :: 0 <= j < |st.children| && st.children[j].Some? ==>
          st.children[j].value < |keys| && keys[st.children[j].value].None?)
    && (forall j1, j2 :: 0 <= j1 < j2 < |st.children| && st.children[j1].Some? && st.children[j2].Some? ==>
          st.children[j1].value != st.children[j2].value)
    && (forall k :: k in st.keyed && st.keyed[k].Some? ==>
          st.keyed[k].value < |keys| && keys[st.keyed[k].value] == Some(k))
    && st.keyedLen >= |DefinedKeys(st)|
  }

  /** Everything available is a live child. */
  lemma AvailableBelow(st: MatchState, keys: seq<Option<string>>)
    requires Valid(st, keys)
    ensures forall x :: x in Available(st) ==> x < |keys|
  {
  }

  // ----- partition -----

  /** Filing live child `i`: under its key (replacing an earlier child with
      the same key, while `keyedLen` still counts both), or at the end of
      the unkeyed array when eligible, or nowhere. */
  function File(st: MatchState, key: Option<string>, eligible: bool, i: nat): MatchState {
    if key.Some? then st.(keyedLen := st.keyedLen + 1, keyed := st.keyed[key.value := Some(i)])
    else if eligible then st.(children := st.children + [Some(i)], childrenLen := st.childrenLen + 1)
    else st
  }

  /** The state after filing the first `n` live children. */
  function Filing(keys: seq<Option<string>>, elig: seq<bool>, n: nat): MatchState
    requires n <= |keys| == |elig|
  {
    if n == 0 then MatchState(map[], 0, [], 0, 0)
    else File(Filing(keys, elig, n - 1), keys[n - 1], elig[n - 1], n - 1)
  }

  /** The first loop of `innerDiffNode`: each live child is filed under its
      key or in the unkeyed array. */
  method Partition(live: seq<LiveChild>, vlen: nat, hydrating: bool) returns (st: MatchState)
    ensures st == Filing(KeysOf(live, vlen), EligibleOf(live, hydrating), |live|)
  {
    ghost var keys := KeysOf(live, vlen);
    ghost var elig := EligibleOf(live, hydrating);
    st := MatchState(map[], 0, [], 0, 0);
    var i := 0;
    while i < |live|
      invariant 0 <= i <= |live|
      invariant st == Filing(keys, elig, i)
    {
      var c := live[i];
      var key := LiveKey(c, vlen);
      if key.Some? {
        st := st.(keyedLen := st.keyedLen + 1, keyed := st.keyed[key.value := Some(i)]);
      } else if Eligible(c, hydrating) {
        st := st.(children := st.children + [Some(i)], childrenLen := st.childrenLen + 1);
      }
      i := i + 1;
    }
  }

  /** The complete partition is well formed; its unkeyed array holds, in
      order, every eligible unkeyed child; each key maps to the last child
      carrying it; and `keyedLen` exceeds the number of keys by the number
      of repeated keys. */
  lemma PartitionFacts(live: seq<LiveChild>, vlen: nat, hydrating: bool)
    ensures var keys := KeysOf(live, vlen);
      var st := Filing(keys, EligibleOf(live, hydrating), |live|);
      && Valid(st, keys)
      && st.min == 0 && st.childrenLen == |st.children|
      && UnkeyedFiled(st, keys, EligibleOf(live, hydrating), |live|)
      && KeyedFiled(st, keys, |live|)
      && st.keyedLen == |st.keyed.Keys| + Duplicates(keys, |live|)
  {
    var keys := KeysOf(live, vlen);
    var elig := EligibleOf(live, hydrating);
    FilingUnkeyed(keys, elig, |live|);
    FilingKeyed(keys, elig, |live|);
    FilingCount(keys, elig, |live|);
    FilingValid(keys, elig, |live|);
  }

  /** Filing keeps the matching state well formed. */
  lemma FilingValid(keys: seq<Option<string>>, elig: seq<bool>, n: nat)
    requires n <= |keys| == |elig|
    ensures Valid(Filing(keys, elig, n), keys)
  {
    var st := Filing(keys, elig, n);
    FilingUnkeyed(keys, elig, n);
    FilingKeyed(keys, elig, n);
    FilingCount(keys, elig, n);
    assert DefinedKeys(st) == st.keyed.Keys;
  }

  /** The unkeyed array holds, in increasing order, exactly the eligible
      unkeyed children among the first `n`. */
  ghost predicate UnkeyedFiled(st: MatchState, keys: seq<Option<string>>, elig: seq<bool>, n: nat)
    requires n <= |keys| == |elig|
  {
    && (forall j :: 0 <= j < |st.children| ==>
          && st.children[j].Some? && st.children[j].value < n
          && keys[st.children[j].value].None? && elig[st.children[j].value])
    && (forall j1, j2 :: 0 <= j1 < j2 < |st.children| ==> st.children[j1].value < st.children[j2].value)
    && (forall i :: 0 <= i < n && keys[i].None? && elig[i] ==> Some(i) in st.children)
  }

  /** Each key of the first `n` children maps to the last child carrying it. */
  ghost predicate KeyedFiled(st: MatchState, keys: seq<Option<string>>, n: nat)
    requires n <= |keys|
  {
    && (forall k :: k in st.keyed ==>
          && st.keyed[k].Some? && st.keyed[k].value < n
          && keys[st.keyed[k].value] == Some(k)
          && forall j :: st.keyed[k].value < j < n ==> keys[j] != Some(k))
    && (forall i :: 0 <= i < n && keys[i].Some? ==> keys[i].value in st.keyed)
  }

  lemma {:induction false} FilingUnkeyed(keys: seq<Option<string>>, elig: seq<bool>, n: nat)
    requires n <= |keys| == |elig|
    ensures var st := Filing(keys, elig, n);
      st.min == 0 && st.childrenLen == |st.children| && UnkeyedFiled(st, keys, elig, n)
  {
    if n > 0 {
      FilingUnkeyed(keys, elig, n - 1);
    }
  }

  lemma {:induction false} FilingKeyed(keys: seq<Option<string>>, elig: seq<bool>, n: nat)
    requires n <= |keys| == |elig|
    ensures KeyedFiled(Filing(keys, elig, n), keys, n)
  {
    if n > 0 {
      FilingKeyed(keys, elig, n - 1);
      var before := Filing(keys, elig, n - 1).keyed;
      var after := Filing(keys, elig, n).keyed;
      if keys[n - 1].Some? {
        var key := keys[n - 1].value;
        assert after == before[key := Some(n - 1)];
        forall k | k in after
          ensures && after[k].Some? && after[k].value < n
                  && keys[after[k].value] == Some(k)
                  && forall j :: after[k].value < j < n ==> keys[j] != Some(k)
        {
          if k != key {
            assert after[k] == before[k];
          }
        }
      } else {
        assert after == before;
      }
    }
  }

  /** The number of the first `n` children whose key already appeared at a
      lower index. */
  function Duplicates(keys: seq<Option<string>>, n: nat): nat
    requires n <= |keys|
  {
    if n == 0 then 0
    else
      Duplicates(keys, n - 1) +
      (if keys[n - 1].Some? && exists i :: 0 <= i < n - 1 && keys[i] == keys[n - 1] then 1 else 0)
  }

  /** `keyedLen` counts every keyed child, so it exceeds the number of keys
      by the number of repeated keys. */
  lemma {:induction false} FilingCount(keys: seq<Option<string>>, elig: seq<bool>, n: nat)
    requires n <= |keys| == |elig|
    ensures var st := Filing(keys, elig, n);
      st.keyedLen == |st.keyed.Keys| + Duplicates(keys, n)
  {
    if n > 0 {
      FilingCount(keys, elig, n - 1);
      FilingKeyed(keys, elig, n - 1);
      var st := Filing(keys, elig, n - 1);
      var key := keys[n - 1];
      if key.Some? {
        if key.value in st.keyed {
          assert st.keyed[key.value := Some(n - 1)].Keys == st.keyed.Keys;
        } else {
          assert forall i :: 0 <= i < n - 1 ==> keys[i] != key;
          assert st.keyed[key.value := Some(n - 1)].Keys == st.keyed.Keys + {key.value};
        }
      }
    }
  }

  ghost predicate DistinctKeys(keys: seq<Option<string>>) {
    forall i, j :: 0 <= i < j < |keys| && keys[i].Some? ==> keys[i] != keys[j]
  }

  /** No key repeats exactly when the duplicate count is zero, that is,
      exactly when `keyedLen` equals the number of filed keyed children. */
  lemma {:induction false} NoDuplicatesIffDistinct(keys: seq<Option<string>>, n: nat)
    requires n <= |keys|
    ensures Duplicates(keys, n) == 0 <==> DistinctKeys(keys[..n])
  {
    if n > 0 {
      NoDuplicatesIffDistinct(keys, n - 1);
      var pre := keys[..n - 1];
      var now := keys[..n];
      assert forall i :: 0 <= i < n ==> now[i] == keys[i];
      assert forall i :: 0 <= i < n - 1 ==> pre[i] == keys[i];
      if Duplicates(keys, n) == 0 {
        forall i, j | 0 <= i < j < n && now[i].Some?
          ensures now[i] != now[j]
        {
          if j < n - 1 {
            assert pre[i] == now[i] && pre[j] == now[j];
          }
        }
      } else if Duplicates(keys, n - 1) == 0 {
        var i :| 0 <= i < n - 1 && keys[i] == keys[n - 1] && keys[n - 1].Some?;
        assert now[i] == keys[i] && now[n - 1] == keys[n - 1];
      } else {
        assert !DistinctKeys(pre);
        var i, j :| 0 <= i < j < n - 1 && pre[i].Some? && pre[i] == pre[j];
        assert now[i] == pre[i] && now[j] == pre[j];
      }
    }
  }

  /** The children a complete partition leaves available: every eligible
      unkeyed child, and of each key only the last child carrying it. */
  ghost predicate Filed(keys: seq<Option<string>>, elig: seq<bool>, i: nat)
    requires i < |keys| == |elig|
  {
    if keys[i].None? then elig[i]
    else forall j :: i < j < |keys| ==> keys[j] != keys[i]
  }

  lemma PartitionAvailable(st: MatchState, keys: seq<Option<string>>, elig: seq<bool>)
    requires |keys| == |elig|
    requires UnkeyedFiled(st, keys, elig, |keys|) && KeyedFiled(st, keys, |keys|)
    ensures Available(st) == set i | 0 <= i < |keys| && Filed(keys, elig, i)
  {
    var filed := set i | 0 <= i < |keys| && Filed(keys, elig, i);
    forall x | x in Available(st)
      ensures x in filed
    {
      if x in KeyedNodes(st) {
        var k :| k in st.keyed && st.keyed[k].Some? && st.keyed[k].value == x;
      } else {
        var j :| 0 <= j < |st.children| && st.children[j].Some? && st.children[j].value == x;
      }
    }
    forall i | i in filed
      ensures i in Available(st)
    {
      if keys[i].None? {
        var j :| 0 <= j < |st.children| && st.children[j] == Some(i);
        assert i in SlotNodes(st);
      } else {
        var k := keys[i].value;
        assert k in st.keyed;
        var x := st.keyed[k].value;
        assert keys[x] == Some(k);
        assert x == i;
        assert i in KeyedNodes(st);
      }
    }
  }

  /** Of two live children with the same key only the later one is ever
      matched or recycled: the earlier one is no longer available once the
      partition is done, and nothing ever becomes available afterwards. */
  lemma ShadowedDuplicate(live: seq<LiveChild>, vlen: nat, hydrating: bool, st: MatchState, i: nat, j: nat)
    requires var keys := KeysOf(live, vlen);
      UnkeyedFiled(st, keys, EligibleOf(live, hydrating), |live|) && KeyedFiled(st, keys, |live|)
    requires i < j < |live| && LiveKey(live[i], vlen).Some? && LiveKey(live[i], vlen) == LiveKey(live[j], vlen)
    ensures i !in Available(st)
  {
    var keys := KeysOf(live, vlen);
    PartitionAvailable(st, keys, EligibleOf(live, hydrating));
    assert !Filed(keys, EligibleOf(live, hydrating), i);
  }

  // ----- matching one virtual child -----

  /** The unkeyed slots lie within the array and name live children. */
  predicate SlotsIn(st: MatchState, n: nat) {
    && st.childrenLen <= |st.children|
    && forall k :: 0 <= k < |st.children| && st.children[k].Some? ==> st.children[k].value < n
  }

  /** The first unkeyed slot from `j` on, below `childrenLen`, whose node
      has the same type as `vchild`. */
  function FirstSlot(live: seq<LiveChild>, st: MatchState, vchild: Value,
                     mapping: map<string, nat>, hydrating: bool, j: nat): (r: Option<nat>)
    requires !Nullish(vchild) && SlotsIn(st, |live|)
    ensures r.Some? ==>
              && j <= r.value < st.childrenLen && st.children[r.value].Some?
              && IsSameNodeType(live[st.children[r.value].value], vchild, mapping, hydrating)
    ensures forall k :: j <= k < (if r.Some? then r.value else st.childrenLen) && st.children[k].Some? ==>
              !IsSameNodeType(live[st.children[k].value], vchild, mapping, hydrating)
    decreases st.childrenLen - j
  {
    if j >= st.childrenLen then None
    else if st.children[j].Some? && IsSameNodeType(live[st.children[j].value], vchild, mapping, hydrating) then Some(j)
    else FirstSlot(live, st, vchild, mapping, hydrating, j + 1)
  }

  /** Clearing unkeyed slot `j` after its node was taken, moving
      `childrenLen` or `min` when the slot sat at either end. */
  function ClearSlot(st: MatchState, j: nat): MatchState
    requires j < |st.children|
  {
    st.(children := st.children[j := None],
        childrenLen := if j == st.childrenLen - 1 then st.childrenLen - 1 else st.childrenLen,
        min := if j == st.min then st.min + 1 else st.min)
  }

  /** One turn of the matching loop: the live child found for `vchild`, by
      key through `keyed` (consuming the entry), or else the first unkeyed
      slot from `min` on whose node has the same type; and the matcher's
      state afterwards. */
  function MatchStep(live: seq<LiveChild>, st: MatchState, vchild: Value,
                     mapping: map<string, nat>, hydrating: bool): (r: (Option<nat>, MatchState))
    requires !Nullish(vchild) && SlotsIn(st, |live|)
    ensures SlotsIn(r.1, |live|) && |r.1.children| == |st.children|
  {
    var key := VKey(vchild);
    if key.Some? then
      if st.keyedLen != 0 && key.value in st.keyed && st.keyed[key.value].Some? then
        (st.keyed[key.value], st.(keyed := st.keyed[key.value := None], keyedLen := st.keyedLen - 1))
      else (None, st)
    else if st.min < st.childrenLen then
      match FirstSlot(live, st, vchild, mapping, hydrating, st.min)
      case None => (None, st)
      case Some(j) => (st.children[j], ClearSlot(st, j))
    else (None, st)
  }

  /** A keyed virtual child takes exactly the child filed under its key, if
      any, and only that child leaves the available set. */
  lemma MatchStepKeyed(live: seq<LiveChild>, vlen: nat, st: MatchState, vchild: Value,
                       mapping: map<string, nat>, hydrating: bool)
    requires !Nullish(vchild) && VKey(vchild).Some?
    requires Valid(st, KeysOf(live, vlen))
    ensures var (child, st') := MatchStep(live, st, vchild, mapping, hydrating);
      && Valid(st', KeysOf(live, vlen))
      && (child.None? ==> st' == st)
      && (child.Some? ==> child.value in Available(st) && Available(st') == Available(st) - {child.value})
      && child == (if VKey(vchild).value in st.keyed then st.keyed[VKey(vchild).value] else None)
      && (child.Some? ==> KeysOf(live, vlen)[child.value] == VKey(vchild))
  {
    var keys := KeysOf(live, vlen);
    var key := VKey(vchild).value;
    if key in st.keyed && st.keyed[key].Some? {
      KeyedLenCounts(st, keys, st.keyed[key].value);
      KeyedConsumed(st, keys, key);
    }
  }

  /** An unkeyed virtual child takes the first slot from `min` on whose
      node has its type, and finds one exactly when such a slot exists;
      only that child leaves the available set. */
  lemma MatchStepUnkeyed(live: seq<LiveChild>, vlen: nat, st: MatchState, vchild: Value,
                         mapping: map<string, nat>, hydrating: bool)
    requires !Nullish(vchild) && VKey(vchild).None?
    requires Valid(st, KeysOf(live, vlen))
    ensures var (child, st') := MatchStep(live, st, vchild, mapping, hydrating);
      && Valid(st', KeysOf(live, vlen))
      && (child.None? ==> st' == st)
      && (child.Some? ==> child.value in Available(st) && Available(st') == Available(st) - {child.value})
    ensures var child := MatchStep(live, st, vchild, mapping, hydrating).0;
      child.Some? <==> exists j :: st.min <= j < st.childrenLen && st.children[j].Some? &&
                         IsSameNodeType(live[st.children[j].value], vchild, mapping, hydrating)
    ensures var child := MatchStep(live, st, vchild, mapping, hydrating).0;
      child.Some? ==>
        var at := FirstSlot(live, st, vchild, mapping, hydrating, st.min).value;
        && st.min <= at < st.childrenLen && st.children[at] == child
        && IsSameNodeType(live[child.value], vchild, mapping, hydrating)
        && (forall j :: 0 <= j < at && st.children[j].Some? ==>
              !IsSameNodeType(live[st.children[j].value], vchild, mapping, hydrating))
  {
    var keys := KeysOf(live, vlen);
    if st.min < st.childrenLen {
      var r := FirstSlot(live, st, vchild, mapping, hydrating, st.min);
      if r.Some? {
        SlotConsumed(st, keys, r.value, ClearSlot(st, r.value));
      }
    }
  }

  /** Either way, a turn keeps the state well formed and removes from the
      available set exactly the child it returns. */
  lemma MatchStepAvailable(live: seq<LiveChild>, vlen: nat, st: MatchState, vchild: Value,
                           mapping: map<string, nat>, hydrating: bool)
    requires !Nullish(vchild)
    requires Valid(st, KeysOf(live, vlen))
    ensures var (child, st') := MatchStep(live, st, vchild, mapping, hydrating);
      && Valid(st', KeysOf(live, vlen))
      && (child.None? ==> st' == st)
      && (child.Some? ==> child.value in Available(st) && Available(st') == Available(st) - {child.value})
  {
    if VKey(vchild).Some? {
      MatchStepKeyed(live, vlen, st, vchild, mapping, hydrating);
    } else {
      MatchStepUnkeyed(live, vlen, st, vchild, mapping, hydrating);
    }
  }

  /** The lookup for one virtual child, as the source performs it: the
      keyed test, then a scan of the unkeyed slots that stops at the first
      fit. */
  method MatchOne(live: seq<LiveChild>, st: MatchState, vchild: Value,
                  mapping: map<string, nat>, hydrating: bool)
      returns (child: Option<nat>, st': MatchState)
    requires !Nullish(vchild) && SlotsIn(st, |live|)
    ensures (child, st') == MatchStep(live, st, vchild, mapping, hydrating)
  {
    child, st' := None, st;
    var key := VKey(vchild);
    if key.Some? {
      if st.keyedLen != 0 && key.value in st.keyed && st.keyed[key.value].Some? {
        child := st.keyed[key.value];
        st' := st.(keyed := st.keyed[key.value := None], keyedLen := st.keyedLen - 1);
      }
    } else if st.min < st.childrenLen {
      var j := st.min;
      while j < st.childrenLen
        invariant st.min <= j <= st.childrenLen
        invariant FirstSlot(live, st, vchild, mapping, hydrating, j) ==
                  FirstSlot(live, st, vchild, mapping, hydrating, st.min)
      {
        var c := st.children[j];
        if c.Some? && IsSameNodeType(live[c.value], vchild, mapping, hydrating) {
          child := c;
          st' := ClearSlot(st, j);
          return;
        }
        j := j + 1;
      }
    }
  }

  /** `keyedLen` is positive while some child is still filed under a key,
      so the `keyedLen` tests before the lookup and before the leftover
      loop never skip a filed child. */
  lemma KeyedLenCounts(st: MatchState, keys: seq<Option<string>>, x: nat)
    requires Valid(st, keys) && x in KeyedNodes(st)
    ensures st.keyedLen > 0
  {
    var k :| k in st.keyed && st.keyed[k].Some? && st.keyed[k].value == x;
    assert k in DefinedKeys(st);
  }

  lemma KeyedConsumed(st: MatchState, keys: seq<Option<string>>, k: string)
    requires Valid(st, keys) && k in st.keyed && st.keyed[k].Some? && st.keyedLen > 0
    ensures var st' := st.(keyed := st.keyed[k := None], keyedLen := st.keyedLen - 1);
      && Valid(st', keys)
      && Available(st') == Available(st) - {st.keyed[k].value}
      && st.keyed[k].value in Available(st)
  {
    var st' := st.(keyed := st.keyed[k := None], keyedLen := st.keyedLen - 1);
    var x := st.keyed[k].value;
    assert DefinedKeys(st') == DefinedKeys(st) - {k};
    assert SlotNodes(st') == SlotNodes(st);
    forall y | y in KeyedNodes(st')
      ensures y in KeyedNodes(st) && y != x
    {
      var k' :| k' in st'.keyed && st'.keyed[k'].Some? && st'.keyed[k'].value == y;
      assert st.keyed[k'] == st'.keyed[k'];
    }
    forall y | y in KeyedNodes(st) && y != x
      ensures y in KeyedNodes(st')
    {
      var k' :| k' in st.keyed && st.keyed[k'].Some? && st.keyed[k'].value == y;
      assert st'.keyed[k'] == st.keyed[k'];
    }
    assert x in KeyedNodes(st);
    assert x !in SlotNodes(st);
  }

  lemma SlotConsumed(st: MatchState, keys: seq<Option<string>>, j: nat, st': MatchState)
    requires Valid(st, keys) && st.min <= j < st.childrenLen && st.children[j].Some?
    requires st' == st.(children := st.children[j := None],
                        childrenLen := if j == st.childrenLen - 1 then st.childrenLen - 1 else st.childrenLen,
                        min := if j == st.min then st.min + 1 else st.min)
    ensures Valid(st', keys)
    ensures Available(st') == Available(st) - {st.children[j].value}
    ensures st.children[j].value in Available(st)
  {
    var x := st.children[j].value;
    assert DefinedKeys(st') == DefinedKeys(st);
    assert KeyedNodes(st') == KeyedNodes(st);
    forall y | y in SlotNodes(st')
      ensures y in SlotNodes(st) && y != x
    {
      var j' :| 0 <= j' < |st'.children| && st'.children[j'].Some? && st'.children[j'].value == y;
      assert st.children[j'] == st'.children[j'];
    }
    forall y | y in SlotNodes(st) && y != x
      ensures y in SlotNodes(st')
    {
      var j' :| 0 <= j' < |st.children| && st.children[j'].Some? && st.children[j'].value == y;
      assert st'.children[j'] == st.children[j'];
    }
    assert x in SlotNodes(st);
    assert x !in KeyedNodes(st);
  }

  /** The slot at `min` can also be the last one: matching it lowers
      `childrenLen` and raises `min` past it, and no slot is left defined. */
  lemma MinPassesChildrenLen()
    ensures var st := MatchState(map[], 0, [None, None, Some(2)], 2, 3);
      && Valid(st, [None, None, None])
      && var st' := st.(children := st.children[2 := None], childrenLen := 2, min := 3);
         st'.min == st'.childrenLen + 1 && Valid(st', [None, None, None]) && Available(st') == {}
  {
    var st' := MatchState(map[], 0, [None, None, None], 3, 2);
    assert SlotNodes(st') == {};
    assert DefinedKeys(st') == {};
  }

  // ----- matching every virtual child -----

  /** The matcher run over the first `n` virtual children in order from
      state `st`: the live child each one receives, and the state
      afterwards. */
  function MatchAll(live: seq<LiveChild>, st: MatchState, vs: seq<Value>, n: nat,
                    mapping: map<string, nat>, hydrating: bool): (r: (seq<Option<nat>>, MatchState))
    requires n <= |vs| && forall j :: 0 <= j < |vs| ==> !Nullish(vs[j])
    requires SlotsIn(st, |live|)
    ensures |r.0| == n && SlotsIn(r.1, |live|) && |r.1.children| == |st.children|
  {
    if n == 0 then ([], st)
    else
      var prev := MatchAll(live, st, vs, n - 1, mapping, hydrating);
      var step := MatchStep(live, prev.1, vs[n - 1], mapping, hydrating);
      (prev.0 + [step.0], step.1)
  }

  /** The live child `innerDiffNode` matches with each virtual child, the
      matcher starting from the complete partition of `live`. */
  function Matches(live: seq<LiveChild>, vs: seq<Value>, mapping: map<string, nat>, hydrating: bool): (r: seq<Option<nat>>)
    requires forall j :: 0 <= j < |vs| ==> !Nullish(vs[j])
    ensures |r| == |vs|
  {
    FilingValid(KeysOf(live, |vs|), EligibleOf(live, hydrating), |live|);
    MatchAll(live, Filing(KeysOf(live, |vs|), EligibleOf(live, hydrating), |live|), vs, |vs|, mapping, hydrating).0
  }

  /** Matching fewer virtual children gives a prefix of the matches. */
  lemma {:induction false} MatchAllPrefix(live: seq<LiveChild>, st: MatchState, vs: seq<Value>,
                                          mapping: map<string, nat>, hydrating: bool, k: nat, n: nat)
    requires k <= n <= |vs| && forall j :: 0 <= j < |vs| ==> !Nullish(vs[j])
    requires SlotsIn(st, |live|)
    ensures MatchAll(live, st, vs, n, mapping, hydrating).0[..k] == MatchAll(live, st, vs, k, mapping, hydrating).0
  {
    if k < n {
      MatchAllPrefix(live, st, vs, mapping, hydrating, k, n - 1);
      var prev := MatchAll(live, st, vs, n - 1, mapping, hydrating).0;
      var last := MatchStep(live, MatchAll(live, st, vs, n - 1, mapping, hydrating).1, vs[n - 1], mapping, hydrating).0;
      assert MatchAll(live, st, vs, n, mapping, hydrating).0 == prev + [last];
      assert (prev + [last])[..k] == prev[..k];
    }
  }

  /** Virtual child `i` receives what one turn gives it in the state left by
      the children before it. */
  lemma MatchAllAt(live: seq<LiveChild>, st: MatchState, vs: seq<Value>,
                   mapping: map<string, nat>, hydrating: bool, i: nat)
    requires i < |vs| && forall j :: 0 <= j < |vs| ==> !Nullish(vs[j])
    requires SlotsIn(st, |live|)
    ensures MatchAll(live, st, vs, |vs|, mapping, hydrating).0[..i] == MatchAll(live, st, vs, i, mapping, hydrating).0
    ensures MatchAll(live, st, vs, |vs|, mapping, hydrating).0[i] ==
            MatchStep(live, MatchAll(live, st, vs, i, mapping, hydrating).1, vs[i], mapping, hydrating).0
  {
    MatchAllPrefix(live, st, vs, mapping, hydrating, i + 1, |vs|);
    MatchAllPrefix(live, st, vs, mapping, hydrating, i, |vs|);
    assert MatchAll(live, st, vs, |vs|, mapping, hydrating).0[i] == MatchAll(live, st, vs, |vs|, mapping, hydrating).0[..i + 1][i];
  }

  /** One turn of the matching loop, seen from the run so far: the child
      it returns was available and not matched before, and the run grows
      by that turn. */
  lemma MatchTurn(live: seq<LiveChild>, vlen: nat, st0: MatchState, vs: seq<Value>,
                  mapping: map<string, nat>, hydrating: bool, i: nat,
                  matched: seq<Option<nat>>, st: MatchState, m: Option<nat>, st': MatchState)
    requires i < |vs| && forall j :: 0 <= j < |vs| ==> !Nullish(vs[j])
    requires Valid(st0, KeysOf(live, vlen))
    requires (matched, st) == MatchAll(live, st0, vs, i, mapping, hydrating)
    requires (m, st') == MatchStep(live, st, vs[i], mapping, hydrating)
    ensures m.Some? ==> m.value < |live| && m !in matched
    ensures (matched + [m], st') == MatchAll(live, st0, vs, i + 1, mapping, hydrating)
  {
    MatchAllAvailable(live, vlen, st0, vs, i, mapping, hydrating);
    UseUp(live, vlen, st0, matched, st, vs[i], mapping, hydrating);
    AvailableBelow(st, KeysOf(live, vlen));
  }

  /** One turn of the matching loop as `innerDiffNode` runs it: after the
      first `i` virtual children, the lookup for child `i` extends the run
      by one, and the child it returns is live and not matched before. */
  method MatchNext(live: seq<LiveChild>, vlen: nat, st0: MatchState, vs: seq<Value>,
                   mapping: map<string, nat>, hydrating: bool, i: nat,
                   ghost matched: seq<Option<nat>>, st: MatchState)
      returns (m: Option<nat>, st': MatchState)
    requires i < |vs| && forall j :: 0 <= j < |vs| ==> !Nullish(vs[j])
    requires Valid(st0, KeysOf(live, vlen))
    requires (matched, st) == MatchAll(live, st0, vs, i, mapping, hydrating)
    ensures m.Some? ==> m.value < |live| && m !in matched
    ensures (matched + [m], st') == MatchAll(live, st0, vs, i + 1, mapping, hydrating)
  {
    m, st' := MatchOne(live, st, vs[i], mapping, hydrating);
    MatchTurn(live, vlen, st0, vs, mapping, hydrating, i, matched, st, m, st');
  }

  lemma {:induction false} MatchAllValid(live: seq<LiveChild>, vlen: nat, st: MatchState, vs: seq<Value>, n: nat,
                                         mapping: map<string, nat>, hydrating: bool)
    requires n <= |vs| && forall j :: 0 <= j < |vs| ==> !Nullish(vs[j])
    requires Valid(st, KeysOf(live, vlen))
    ensures Valid(MatchAll(live, st, vs, n, mapping, hydrating).1, KeysOf(live, vlen))
  {
    if n > 0 {
      MatchAllValid(live, vlen, st, vs, n - 1, mapping, hydrating);
      MatchStepAvailable(live, vlen, MatchAll(live, st, vs, n - 1, mapping, hydrating).1, vs[n - 1], mapping, hydrating);
    }
  }

  /** The bookkeeping of a run of the matcher from `st0` that has matched
      `matched` and reached `st`: the state is well formed, a child is
      matched at most once and is then no longer available, and every child
      available at the start is either matched or still available. */
  ghost predicate Accounted(st0: MatchState, matched: seq<Option<nat>>, st: MatchState, keys: seq<Option<string>>) {
    && Valid(st, keys)
    && (forall x :: Some(x) in matched ==> x !in Available(st))
    && (forall j1, j2 :: 0 <= j1 < j2 < |matched| && matched[j1].Some? ==> matched[j1] != matched[j2])
    && (forall x :: x in Available(st0) <==> x in Available(st) || Some(x) in matched)
  }

  /** One more turn keeps the bookkeeping: the child it returns was
      available and had not been matched before. */
  lemma UseUp(live: seq<LiveChild>, vlen: nat, st0: MatchState, matched: seq<Option<nat>>, st: MatchState,
              v: Value, mapping: map<string, nat>, hydrating: bool)
    requires !Nullish(v) && Accounted(st0, matched, st, KeysOf(live, vlen))
    ensures var (m, st') := MatchStep(live, st, v, mapping, hydrating);
      && (m.Some? ==> m.value in Available(st) && m !in matched)
      && Accounted(st0, matched + [m], st', KeysOf(live, vlen))
  {
    var (m, st') := MatchStep(live, st, v, mapping, hydrating);
    MatchStepAvailable(live, vlen, st, v, mapping, hydrating);
    var ms := matched + [m];
    forall j1, j2 | 0 <= j1 < j2 < |ms| && ms[j1].Some?
      ensures ms[j1] != ms[j2]
    {
      if j2 == |matched| {
        assert ms[j1] in matched;
      }
    }
  }

  /** Across the whole run each child is matched at most once, and every
      child available at the start is either matched or still available. */
  lemma {:induction false} MatchAllAvailable(live: seq<LiveChild>, vlen: nat, st: MatchState, vs: seq<Value>, n: nat,
                                             mapping: map<string, nat>, hydrating: bool)
    requires n <= |vs| && forall j :: 0 <= j < |vs| ==> !Nullish(vs[j])
    requires Valid(st, KeysOf(live, vlen))
    ensures var r := MatchAll(live, st, vs, n, mapping, hydrating);
      Accounted(st, r.0, r.1, KeysOf(live, vlen))
  {
    if n > 0 {
      MatchAllAvailable(live, vlen, st, vs, n - 1, mapping, hydrating);
      var prev := MatchAll(live, st, vs, n - 1, mapping, hydrating);
      UseUp(live, vlen, st, prev.0, prev.1, vs[n - 1], mapping, hydrating);
      var step := MatchStep(live, prev.1, vs[n - 1], mapping, hydrating);
      assert MatchAll(live, st, vs, n, mapping, hydrating) == (prev.0 + [step.0], step.1);
    }
  }

  /** After the first `n` virtual children, key `k` is filed in `st`
      exactly as in `st0` until a virtual child carrying it came by, and
      has an empty entry from then on. */
  ghost predicate KeyState(st0: MatchState, st: MatchState, vs: seq<Value>, n: nat, k: string)
    requires n <= |vs| && forall j :: 0 <= j < |vs| ==> !Nullish(vs[j])
  {
    && (k in st.keyed <==> k in st0.keyed)
    && (k in st0.keyed ==> st.keyed[k] == if Carries(vs, n, k) then None else st0.keyed[k])
  }

  /** One turn empties the entry of the key the virtual child carries, if
      any, and leaves every other entry as it was. */
  lemma KeyedStep(live: seq<LiveChild>, vlen: nat, st0: MatchState, st: MatchState, vs: seq<Value>, n: nat,
                  mapping: map<string, nat>, hydrating: bool, k: string)
    requires 0 < n <= |vs| && forall j :: 0 <= j < |vs| ==> !Nullish(vs[j])
    requires Valid(st, KeysOf(live, vlen)) && KeyState(st0, st, vs, n - 1, k)
    ensures KeyState(st0, MatchStep(live, st, vs[n - 1], mapping, hydrating).1, vs, n, k)
  {
    if VKey(vs[n - 1]).Some? {
      MatchStepKeyed(live, vlen, st, vs[n - 1], mapping, hydrating);
    }
    CarriesStep(vs, n, k);
  }

  /** A key stays filed as it was until a virtual child carrying it comes
      by; from then on its entry is empty. */
  lemma {:induction false} KeyedAfter(live: seq<LiveChild>, vlen: nat, st: MatchState, vs: seq<Value>, n: nat,
                                      mapping: map<string, nat>, hydrating: bool, k: string)
    requires n <= |vs| && forall j :: 0 <= j < |vs| ==> !Nullish(vs[j])
    requires Valid(st, KeysOf(live, vlen))
    ensures KeyState(st, MatchAll(live, st, vs, n, mapping, hydrating).1, vs, n, k)
  {
    if n > 0 {
      KeyedAfter(live, vlen, st, vs, n - 1, mapping, hydrating, k);
      MatchAllValid(live, vlen, st, vs, n - 1, mapping, hydrating);
      var mid := MatchAll(live, st, vs, n - 1, mapping, hydrating).1;
      KeyedStep(live, vlen, st, mid, vs, n, mapping, hydrating, k);
      assert MatchAll(live, st, vs, n, mapping, hydrating).1 == MatchStep(live, mid, vs[n - 1], mapping, hydrating).1;
    }
  }

  /** One of the first `n` virtual children carries key `k`. */
  ghost predicate Carries(vs: seq<Value>, n: nat, k: string)
    requires n <= |vs| && forall j :: 0 <= j < |vs| ==> !Nullish(vs[j])
  {
    exists j :: 0 <= j < n && VKey(vs[j]) == Some(k)
  }

  lemma CarriesStep(vs: seq<Value>, n: nat, k: string)
    requires 0 < n <= |vs| && forall j :: 0 <= j < |vs| ==> !Nullish(vs[j])
    ensures Carries(vs, n, k) <==> Carries(vs, n - 1, k) || VKey(vs[n - 1]) == Some(k)
  {
  }

  /** After matching the first `n` virtual children, an unkeyed slot is
      empty exactly when the child it held was matched. */
  lemma {:induction false} SlotsAfter(live: seq<LiveChild>, vlen: nat, st: MatchState, vs: seq<Value>, n: nat,
                                      mapping: map<string, nat>, hydrating: bool)
    requires n <= |vs| && forall j :: 0 <= j < |vs| ==> !Nullish(vs[j])
    requires Valid(st, KeysOf(live, vlen))
    ensures var r := MatchAll(live, st, vs, n, mapping, hydrating);
      forall j :: 0 <= j < |st.children| ==>
        r.1.children[j] == if st.children[j] in r.0 then None else st.children[j]
  {
    if n > 0 {
      SlotsAfter(live, vlen, st, vs, n - 1, mapping, hydrating);
      MatchAllValid(live, vlen, st, vs, n - 1, mapping, hydrating);
      var prev := MatchAll(live, st, vs, n - 1, mapping, hydrating);
      SlotsStep(live, vlen, st, prev.1, prev.0, vs[n - 1], mapping, hydrating);
    }
  }

  /** One turn clears the slot of the child it returns and no other. */
  lemma SlotsStep(live: seq<LiveChild>, vlen: nat, st: MatchState, mid: MatchState, taken: seq<Option<nat>>,
                  v: Value, mapping: map<string, nat>, hydrating: bool)
    requires !Nullish(v) && Valid(st, KeysOf(live, vlen)) && Valid(mid, KeysOf(live, vlen))
    requires |mid.children| == |st.children|
    requires forall j :: 0 <= j < |st.children| ==>
               mid.children[j] == if st.children[j] in taken then None else st.children[j]
    ensures var step := MatchStep(live, mid, v, mapping, hydrating);
      forall j :: 0 <= j < |st.children| ==>
        step.1.children[j] == if st.children[j] in taken + [step.0] then None else st.children[j]
  {
    var step := MatchStep(live, mid, v, mapping, hydrating);
    if step.0.None? {
      MatchStepAvailable(live, vlen, mid, v, mapping, hydrating);
      forall j | 0 <= j < |st.children|
        ensures step.1.children[j] == if st.children[j] in taken + [step.0] then None else st.children[j]
      {
        assert st.children[j] in taken + [step.0] <==> st.children[j] in taken || st.children[j] == None;
      }
    } else if VKey(v).Some? {
      MatchStepKeyed(live, vlen, mid, v, mapping, hydrating);
      assert step.1.children == mid.children;
      forall j | 0 <= j < |st.children|
        ensures step.1.children[j] == if st.children[j] in taken + [step.0] then None else st.children[j]
      {
        assert st.children[j] != step.0;
        assert st.children[j] in taken + [step.0] <==> st.children[j] in taken;
      }
    } else {
      MatchStepUnkeyed(live, vlen, mid, v, mapping, hydrating);
      var at := FirstSlot(live, mid, v, mapping, hydrating, mid.min).value;
      assert step.1 == ClearSlot(mid, at);
      assert st.children[at] == step.0;
      forall j | 0 <= j < |st.children|
        ensures step.1.children[j] == if st.children[j] in taken + [step.0] then None else st.children[j]
      {
        if j != at {
          assert st.children[j] != step.0;
          assert st.children[j] in taken + [step.0] <==> st.children[j] in taken;
        }
      }
    }
  }

  /** A keyed virtual child receives the child filed under its key, unless
      an earlier virtual child carried the same key. */
  lemma MatchedKeyed(live: seq<LiveChild>, vlen: nat, st: MatchState, vs: seq<Value>,
                     mapping: map<string, nat>, hydrating: bool, i: nat)
    requires i < |vs| && forall j :: 0 <= j < |vs| ==> !Nullish(vs[j])
    requires Valid(st, KeysOf(live, vlen)) && VKey(vs[i]).Some?
    ensures var k := VKey(vs[i]).value;
      MatchAll(live, st, vs, |vs|, mapping, hydrating).0[i] ==
        if k !in st.keyed || exists j :: 0 <= j < i && VKey(vs[j]) == VKey(vs[i]) then None else st.keyed[k]
  {
    var k := VKey(vs[i]).value;
    MatchAllAt(live, st, vs, mapping, hydrating, i);
    MatchAllValid(live, vlen, st, vs, i, mapping, hydrating);
    KeyedAfter(live, vlen, st, vs, i, mapping, hydrating, k);
    MatchStepKeyed(live, vlen, MatchAll(live, st, vs, i, mapping, hydrating).1, vs[i], mapping, hydrating);
  }

  /** Slot `j` of `st` holds a child outside `taken` whose node has the
      type of `v`. */
  ghost predicate OpenFit(live: seq<LiveChild>, st: MatchState, taken: seq<Option<nat>>, j: int,
                          v: Value, mapping: map<string, nat>, hydrating: bool)
    requires !Nullish(v)
  {
    && 0 <= j < |st.children| && st.children[j].Some? && st.children[j] !in taken
    && st.children[j].value < |live|
    && IsSameNodeType(live[st.children[j].value], v, mapping, hydrating)
  }

  /** In the state left by the children before `i`, a slot holds a child
      of the right type exactly when it is an open fit. */
  lemma OpenFitBefore(live: seq<LiveChild>, vlen: nat, st: MatchState, vs: seq<Value>,
                      mapping: map<string, nat>, hydrating: bool, i: nat, j: int)
    requires i < |vs| && forall j :: 0 <= j < |vs| ==> !Nullish(vs[j])
    requires Valid(st, KeysOf(live, vlen)) && 0 <= j < |st.children|
    ensures var pre := MatchAll(live, st, vs, i, mapping, hydrating);
      OpenFit(live, st, pre.0, j, vs[i], mapping, hydrating) <==>
        pre.1.children[j].Some? && IsSameNodeType(live[pre.1.children[j].value], vs[i], mapping, hydrating)
    ensures var pre := MatchAll(live, st, vs, i, mapping, hydrating);
      pre.1.children[j].Some? ==> pre.1.children[j] == st.children[j]
  {
    SlotsAfter(live, vlen, st, vs, i, mapping, hydrating);
  }

  /** An unkeyed virtual child receives the child in the first slot that
      is still unmatched and has its type, and nothing when there is none. */
  lemma MatchedUnkeyed(live: seq<LiveChild>, vlen: nat, st: MatchState, vs: seq<Value>,
                       mapping: map<string, nat>, hydrating: bool, i: nat)
    requires i < |vs| && forall j :: 0 <= j < |vs| ==> !Nullish(vs[j])
    requires Valid(st, KeysOf(live, vlen)) && VKey(vs[i]).None?
    ensures var r := MatchAll(live, st, vs, |vs|, mapping, hydrating).0;
      r[i].Some? <==> exists j :: OpenFit(live, st, r[..i], j, vs[i], mapping, hydrating)
    ensures var r := MatchAll(live, st, vs, |vs|, mapping, hydrating).0;
      r[i].Some? ==> exists j :: OpenFit(live, st, r[..i], j, vs[i], mapping, hydrating) && st.children[j] == r[i] &&
                       forall j' :: 0 <= j' < j ==> !OpenFit(live, st, r[..i], j', vs[i], mapping, hydrating)
  {
    var r := MatchAll(live, st, vs, |vs|, mapping, hydrating).0;
    var pre := MatchAll(live, st, vs, i, mapping, hydrating);
    var mid := pre.1;
    MatchAllAt(live, st, vs, mapping, hydrating, i);
    MatchAllValid(live, vlen, st, vs, i, mapping, hydrating);
    MatchStepUnkeyed(live, vlen, mid, vs[i], mapping, hydrating);
    if r[i].Some? {
      var at := FirstSlot(live, mid, vs[i], mapping, hydrating, mid.min).value;
      OpenFitBefore(live, vlen, st, vs, mapping, hydrating, i, at);
      forall j' | 0 <= j' < at
        ensures !OpenFit(live, st, r[..i], j', vs[i], mapping, hydrating)
      {
        OpenFitBefore(live, vlen, st, vs, mapping, hydrating, i, j');
      }
      assert OpenFit(live, st, r[..i], at, vs[i], mapping, hydrating) && st.children[at] == r[i] &&
             forall j' :: 0 <= j' < at ==> !OpenFit(live, st, r[..i], j', vs[i], mapping, hydrating);
    } else if j :| OpenFit(live, st, r[..i], j, vs[i], mapping, hydrating) {
      OpenFitBefore(live, vlen, st, vs, mapping, hydrating, i, j);
      assert false;
    }
  }

  /** The live children a matcher starting from the complete partition
      can still give an unkeyed virtual child, once the children in
      `taken` are matched. */
  ghost predicate Spare(live: seq<LiveChild>, vlen: nat, hydrating: bool, taken: seq<Option<nat>>, x: int) {
    0 <= x < |live| && LiveKey(live[x], vlen).None? && Eligible(live[x], hydrating) && Some(x) !in taken
  }

  /** With the matcher starting from the complete partition: a keyed
      virtual child that repeats the key of an earlier one receives
      nothing; any other receives the last live child carrying its key, and
      nothing when no live child carries it. */
  lemma KeyedMatch(live: seq<LiveChild>, vs: seq<Value>, mapping: map<string, nat>, hydrating: bool, i: nat)
    requires forall j :: 0 <= j < |vs| ==> !Nullish(vs[j])
    requires i < |vs| && VKey(vs[i]).Some?
    ensures var m := Matches(live, vs, mapping, hydrating)[i];
      (exists j :: 0 <= j < i && VKey(vs[j]) == VKey(vs[i])) ==> m.None?
    ensures var m := Matches(live, vs, mapping, hydrating)[i];
      (forall j :: 0 <= j < i ==> VKey(vs[j]) != VKey(vs[i])) ==>
        && (m.Some? <==> exists x :: 0 <= x < |live| && LiveKey(live[x], |vs|) == VKey(vs[i]))
        && (m.Some? ==> && m.value < |live| && LiveKey(live[m.value], |vs|) == VKey(vs[i])
                        && forall y :: m.value < y < |live| ==> LiveKey(live[y], |vs|) != VKey(vs[i]))
  {
    var keys := KeysOf(live, |vs|);
    var elig := EligibleOf(live, hydrating);
    var st := Filing(keys, elig, |live|);
    FilingValid(keys, elig, |live|);
    FilingKeyed(keys, elig, |live|);
    MatchedKeyed(live, |vs|, st, vs, mapping, hydrating, i);
    assert Matches(live, vs, mapping, hydrating) == MatchAll(live, st, vs, |vs|, mapping, hydrating).0;
  }

  /** With the matcher starting from the complete partition: an unkeyed
      virtual child receives the lowest live child that is unkeyed, was
      placed in the unkeyed array, is not yet matched and has its type; and
      nothing when there is none. */
  lemma UnkeyedMatch(live: seq<LiveChild>, vs: seq<Value>, mapping: map<string, nat>, hydrating: bool, i: nat)
    requires forall j :: 0 <= j < |vs| ==> !Nullish(vs[j])
    requires i < |vs| && VKey(vs[i]).None?
    ensures var m := Matches(live, vs, mapping, hydrating);
      m[i].Some? <==> exists x :: Spare(live, |vs|, hydrating, m[..i], x) && IsSameNodeType(live[x], vs[i], mapping, hydrating)
    ensures var m := Matches(live, vs, mapping, hydrating);
      m[i].Some? ==>
        && Spare(live, |vs|, hydrating, m[..i], m[i].value)
        && IsSameNodeType(live[m[i].value], vs[i], mapping, hydrating)
        && forall y :: 0 <= y < m[i].value && Spare(live, |vs|, hydrating, m[..i], y) ==>
             !IsSameNodeType(live[y], vs[i], mapping, hydrating)
  {
    var keys := KeysOf(live, |vs|);
    var elig := EligibleOf(live, hydrating);
    var st := Filing(keys, elig, |live|);
    FilingValid(keys, elig, |live|);
    FilingUnkeyed(keys, elig, |live|);
    var m := Matches(live, vs, mapping, hydrating);
    assert m == MatchAll(live, st, vs, |vs|, mapping, hydrating).0;
    MatchedUnkeyed(live, |vs|, st, vs, mapping, hydrating, i);
    SpareFromSlots(live, |vs|, hydrating, st, m[..i], vs[i], mapping, m[i]);
  }

  /** The first open fit among the unkeyed slots of the complete partition
      is the lowest spare child of the type wanted. */
  lemma SpareFromSlots(live: seq<LiveChild>, vlen: nat, hydrating: bool, st: MatchState,
                       taken: seq<Option<nat>>, v: Value, mapping: map<string, nat>, mi: Option<nat>)
    requires UnkeyedFiled(st, KeysOf(live, vlen), EligibleOf(live, hydrating), |live|)
    requires !Nullish(v)
    requires mi.Some? <==> exists j :: OpenFit(live, st, taken, j, v, mapping, hydrating)
    requires mi.Some? ==> exists j :: OpenFit(live, st, taken, j, v, mapping, hydrating) && st.children[j] == mi &&
                            forall j' :: 0 <= j' < j ==> !OpenFit(live, st, taken, j', v, mapping, hydrating)
    ensures mi.Some? <==> exists x :: Spare(live, vlen, hydrating, taken, x) && IsSameNodeType(live[x], v, mapping, hydrating)
    ensures mi.Some? ==>
              && Spare(live, vlen, hydrating, taken, mi.value)
              && IsSameNodeType(live[mi.value], v, mapping, hydrating)
              && forall y :: 0 <= y < mi.value && Spare(live, vlen, hydrating, taken, y) ==>
                   !IsSameNodeType(live[y], v, mapping, hydrating)
  {
    if mi.Some? {
      var j :| OpenFit(live, st, taken, j, v, mapping, hydrating) && st.children[j] == mi &&
               forall j' :: 0 <= j' < j ==> !OpenFit(live, st, taken, j', v, mapping, hydrating);
      OpenFitSpare(live, vlen, hydrating, st, taken, v, mapping, j);
      var jx := SlotOfSpare(live, vlen, hydrating, st, taken, mi.value);
      forall y | 0 <= y < mi.value && Spare(live, vlen, hydrating, taken, y)
        ensures !IsSameNodeType(live[y], v, mapping, hydrating)
      {
        var j' := SlotOfSpare(live, vlen, hydrating, st, taken, y);
        OpenFitSpare(live, vlen, hydrating, st, taken, v, mapping, j');
      }
    } else if x :| Spare(live, vlen, hydrating, taken, x) && IsSameNodeType(live[x], v, mapping, hydrating) {
      var j := SlotOfSpare(live, vlen, hydrating, st, taken, x);
      OpenFitSpare(live, vlen, hydrating, st, taken, v, mapping, j);
      assert false;
    }
  }

  /** After the complete partition every spare child sits in an unkeyed
      slot, and the slots are in increasing order of live index. */
  lemma SlotOfSpare(live: seq<LiveChild>, vlen: nat, hydrating: bool, st: MatchState,
                    taken: seq<Option<nat>>, x: int) returns (j: nat)
    requires UnkeyedFiled(st, KeysOf(live, vlen), EligibleOf(live, hydrating), |live|)
    requires Spare(live, vlen, hydrating, taken, x)
    ensures j < |st.children| && st.children[j] == Some(x)
    ensures forall j' :: 0 <= j' < |st.children| && st.children[j'].value < x ==> j' < j
    ensures forall j' :: 0 <= j' < |st.children| && st.children[j'] == Some(x) ==> j' == j
  {
    assert Some(x) in st.children;
    j :| 0 <= j < |st.children| && st.children[j] == Some(x);
  }

  /** After the complete partition an unkeyed slot is an open fit exactly
      when its child is spare and has the type wanted. */
  lemma OpenFitSpare(live: seq<LiveChild>, vlen: nat, hydrating: bool, st: MatchState,
                     taken: seq<Option<nat>>, v: Value, mapping: map<string, nat>, j: int)
    requires UnkeyedFiled(st, KeysOf(live, vlen), EligibleOf(live, hydrating), |live|)
    requires !Nullish(v) && 0 <= j < |st.children|
    ensures OpenFit(live, st, taken, j, v, mapping, hydrating) <==>
              Spare(live, vlen, hydrating, taken, st.children[j].value) &&
              IsSameNodeType(live[st.children[j].value], v, mapping, hydrating)
  {
  }

  /** A keyed element child, as the matcher reads it. */
  function KeyedLive(key: string): LiveChild {
    LiveChild(true, Str(key), None, None, false, false, "DIV", Some("div"))
  }

  /** A keyed `div` virtual child. */
  function KeyedDiv(key: string): Value {
    Node(VNode(Tag("div"), [], None, Str(key)))
  }

  /** Moving the last keyed child to the front: live children keyed `a`,
      `b`, `c` and virtual children keyed `c`, `a`, `b` are matched by key,
      whatever their positions. */
  lemma ReorderExample(mapping: map<string, nat>, hydrating: bool)
    ensures Matches([KeyedLive("a"), KeyedLive("b"), KeyedLive("c")],
                    [KeyedDiv("c"), KeyedDiv("a"), KeyedDiv("b")], mapping, hydrating)
            == [Some(2), Some(0), Some(1)]
  {
    var live := [KeyedLive("a"), KeyedLive("b"), KeyedLive("c")];
    var vs := [KeyedDiv("c"), KeyedDiv("a"), KeyedDiv("b")];
    assert LiveKey(live[0], 3) == VKey(vs[1]) == Some("a");
    assert LiveKey(live[1], 3) == VKey(vs[2]) == Some("b");
    assert LiveKey(live[2], 3) == VKey(vs[0]) == Some("c");
    KeyedMatch(live, vs, mapping, hydrating, 0);
    KeyedMatch(live, vs, mapping, hydrating, 1);
    KeyedMatch(live, vs, mapping, hydrating, 2);
  }

  // ----- leftovers -----

  /** The last two loops of `innerDiffNode`: the children still filed under
      a key (skipped altogether when `keyedLen` is zero), then the slots
      from `childrenLen` down to `min`. Each available child is listed
      exactly once. */
  method Leftovers(st: MatchState, ghost keys: seq<Option<string>>) returns (recycled: seq<nat>)
    requires Valid(st, keys)
    ensures NoDuplicates(recycled)
    ensures forall x :: x in recycled <==> x in Available(st)
  {
    recycled := [];
    if st.keyedLen != 0 {
      var rest := st.keyed.Keys;
      while rest != {}
        invariant rest <= st.keyed.Keys
        invariant NoDuplicates(recycled)
        invariant forall x :: x in recycled <==>
                    exists k :: k in st.keyed && k !in rest && st.keyed[k] == Some(x)
        decreases rest
      {
        var k :| k in rest;
        if st.keyed[k].Some? {
          assert forall x :: x in recycled ==> x != st.keyed[k].value;
          recycled := recycled + [st.keyed[k].value];
        }
        rest := rest - {k};
      }
      forall x | x in KeyedNodes(st)
        ensures x in recycled
      {
        var k :| k in st.keyed && st.keyed[k].Some? && st.keyed[k].value == x;
      }
    } else if x :| x in KeyedNodes(st) {
      KeyedLenCounts(st, keys, x);
    }
    assert forall x :: x in recycled <==> x in KeyedNodes(st);
    ghost var keyedPart := recycled;
    var len: int := st.childrenLen;
    while st.min <= len
      invariant st.min - 1 <= len <= st.childrenLen
      invariant NoDuplicates(recycled)
      invariant |keyedPart| <= |recycled| && recycled[..|keyedPart|] == keyedPart
      invariant forall x :: x in recycled <==>
                  (x in KeyedNodes(st) || exists j :: len < j < |st.children| && st.children[j] == Some(x))
      decreases len - st.min
    {
      var c := if len < |st.children| then st.children[len] else None;
      if c.Some? {
        assert c.value !in KeyedNodes(st);
        assert forall x :: x in recycled ==> x != c.value;
        recycled := recycled + [c.value];
      }
      len := len - 1;
    }
    forall x | x in Available(st)
      ensures x in recycled
    {
      if x in SlotNodes(st) {
        var j :| 0 <= j < |st.children| && st.children[j] == Some(x);
      }
    }
  }
}
