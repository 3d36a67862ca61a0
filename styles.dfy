// The per-constructor style names (`getCtorName`) and the once-only
// registration of a style sheet (`addStyleToHead`). Constructors are named
// by numbers; the style text itself and its scoping are not interpreted.

module Styles {
  import opened JsValues

  datatype CacheEntry = CacheEntry(ctor: nat, attrName: string)

  /** One style sheet put into the document head: scoped to `attr` (through
      `addStyle`) or as is (through `addStyleWithoutId`). */
  datatype Injection = Injection(attr: string, style: string, scoped: bool)

  /** The name the `n`th constructor to ask receives. */
  function StyleName(n: nat): (name: string)
    ensures |name| > 1 && name[0] == 's'
  {
    "s" + IntToString(n)
  }

  /** Different counters give different names. */
  lemma StyleNameInjective(a: nat, b: nat)
    requires StyleName(a) == StyleName(b)
    ensures a == b
  {
    assert StyleName(a)[1..] == IntToString(a);
    assert StyleName(b)[1..] == IntToString(b);
    IntToStringInjective(a, b);
  }

  /** The names under which a sheet has been injected. */
  ghost function InjectedAttrs(injected: seq<Injection>): set<string> {
    set k | 0 <= k < |injected| :: injected[k].attr
  }

  class StyleRegistry {
    var styleCache: seq<CacheEntry>
    var styleId: nat
    var staticStyleMapping: set<string>
    var injected: seq<Injection>

    /** Entry `i` of the cache names constructor `i`'s style `s<i>`, each
        constructor has at most one entry, and every registered name has
        had exactly one sheet injected. */
    ghost predicate Valid()
      reads this
    {
      && styleId == |styleCache|
      && (forall i :: 0 <= i < |styleCache| ==> styleCache[i].attrName == StyleName(i))
      && (forall i, j :: 0 <= i < j < |styleCache| ==> styleCache[i].ctor != styleCache[j].ctor)
      && staticStyleMapping == InjectedAttrs(injected)
      && (forall i, j :: 0 <= i < j < |injected| ==> injected[i].attr != injected[j].attr)
    }

    constructor()
      ensures Valid() && styleCache == [] && injected == [] && staticStyleMapping == {}
    {
      styleCache := [];
      styleId := 0;
      staticStyleMapping := {};
      injected := [];
    }

    /** `getCtorName(ctor)`: the cached name of a known constructor, or a
        new name `s<styleId>` recorded for it. */
    method GetCtorName(ctor: nat) returns (attrName: string)
      requires Valid()
      modifies this
      ensures Valid()
      ensures staticStyleMapping == old(staticStyleMapping) && injected == old(injected)
      ensures exists i :: 0 <= i < |styleCache| && styleCache[i] == CacheEntry(ctor, attrName)
      ensures (exists i :: 0 <= i < |old(styleCache)| && old(styleCache)[i].ctor == ctor) ==>
                styleCache == old(styleCache)
      ensures (forall i :: 0 <= i < |old(styleCache)| ==> old(styleCache)[i].ctor != ctor) ==>
                styleCache == old(styleCache) + [CacheEntry(ctor, StyleName(old(styleId)))]
    {
      var i := 0;
      while i < |styleCache|
        invariant 0 <= i <= |styleCache|
        invariant forall j :: 0 <= j < i ==> styleCache[j].ctor != ctor
      {
        if styleCache[i].ctor == ctor {
          return styleCache[i].attrName;
        }
        i := i + 1;
      }
      attrName := StyleName(styleId);
      styleCache := styleCache + [CacheEntry(ctor, attrName)];
      styleId := styleId + 1;
    }

    /** `addStyleToHead(style, attr)`: a sheet goes in only the first time
        its name is seen, scoped when `scopedStyle` is on. */
    method AddStyleToHead(style: string, attr: string, scopedStyle: bool)
      requires Valid()
      modifies this
      ensures Valid()
      ensures styleCache == old(styleCache) && styleId == old(styleId)
      ensures staticStyleMapping == old(staticStyleMapping) + {attr}
      ensures injected == old(injected) +
                (if attr in old(staticStyleMapping) then [] else [Injection(attr, style, scopedStyle)])
    {
      if attr !in staticStyleMapping {
        injected := injected + [Injection(attr, style, scopedStyle)];
        staticStyleMapping := staticStyleMapping + {attr};
        assert InjectedAttrs(injected) == InjectedAttrs(old(injected)) + {attr} by {
          forall a | a in InjectedAttrs(injected) ensures a in InjectedAttrs(old(injected)) + {attr} {
            var k :| 0 <= k < |injected| && injected[k].attr == a;
            if k < |old(injected)| {
              assert old(injected)[k].attr == a;
            }
          }
          assert injected[|injected| - 1].attr == attr;
          forall a | a in InjectedAttrs(old(injected)) ensures a in InjectedAttrs(injected) {
            var k :| 0 <= k < |old(injected)| && old(injected)[k].attr == a;
            assert injected[k].attr == a;
          }
        }
      }
    }
  }

  /** Two constructors in the cache never share a style name. */
  lemma CtorNamesDistinct(cache: seq<CacheEntry>, i: nat, j: nat)
    requires forall k :: 0 <= k < |cache| ==> cache[k].attrName == StyleName(k)
    requires i < |cache| && j < |cache| && cache[i].attrName == cache[j].attrName
    ensures i == j
  {
    StyleNameInjective(i, j);
  }
}
