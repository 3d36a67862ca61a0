// Virtual-node construction: `h(nodeName, attributes, ...rest)`.
// An explicit stack flattens arbitrarily nested child arrays; booleans and
// nullish children become empty text and numbers their decimal text (for
// element tags), and adjacent text children merge into one string.

module Hyperscript {
  import opened JsValues

  // ----- reference definitions -----

  /** The depth-first, left-to-right flattening of nested arrays. */
  function Flat(vs: seq<Value>): seq<Value>
    decreases vs
  {
    if vs == [] then []
    else (if vs[0].Arr? then Flat(vs[0].elems) else [vs[0]]) + Flat(vs[1..])
  }

  /** What one popped stack entry contributes. */
  function FlatOne(v: Value): seq<Value> {
    if v.Arr? then Flat(v.elems) else [v]
  }

  /** The values a stack still yields, top (last element) first. */
  function StackRest(stack: seq<Value>): seq<Value> {
    if stack == [] then [] else FlatOne(stack[|stack| - 1]) + StackRest(stack[..|stack| - 1])
  }

  /** The number of array and non-array entries in a nested argument list:
      each pop from the stack lowers it. */
  function Size(vs: seq<Value>): nat
    decreases vs
  {
    if vs == [] then 0
    else (if vs[0].Arr? then 1 + Size(vs[0].elems) else 1) + Size(vs[1..])
  }

  /** The state of the fold over flattened children: the child list and
      whether the last child pushed was "simple" (text). */
  datatype Acc = Acc(children: seq<Value>, lastSimple: bool)

  ghost predicate AccWellFormed(a: Acc) {
    a.lastSimple ==> |a.children| > 0 && a.children[|a.children| - 1].Str?
  }

  /** Processing one flattened child: booleans become null; for an element
      tag, nullish becomes "", a number its decimal text, and any other
      non-string is not simple. A simple child following a simple child is
      appended to it. */
  function Step(nodeName: NodeName, a: Acc, x: Value): (r: Acc)
    requires AccWellFormed(a)
    ensures AccWellFormed(r)
  {
    var c := if x.Bool? then Null else x;
    var simple := nodeName.Tag? && (Nullish(c) || c.Num? || c.Str?);
    var c' := if !nodeName.Tag? then c
              else if Nullish(c) then Str("")
              else if c.Num? then Str(IntToString(c.n))
              else c;
    if simple && a.lastSimple then
      var last := a.children[|a.children| - 1];
      Acc(a.children[..|a.children| - 1] + [Str(last.s + c'.s)], true)
    else
      Acc(a.children + [c'], simple)
  }

  function Collect(nodeName: NodeName, xs: seq<Value>): (r: Acc)
    ensures AccWellFormed(r)
  {
    if xs == [] then Acc([], false)
    else Step(nodeName, Collect(nodeName, xs[..|xs| - 1]), xs[|xs| - 1])
  }

  /** The child values `h` starts from: the rest arguments, or else a
      non-nullish `attributes.children`. */
  function Inputs(attributes: Option<map<string, Value>>, rest: seq<Value>): seq<Value> {
    if |rest| > 0 then rest
    else if attributes.Some? && !Nullish(Get(attributes.value, "children"))
    then [attributes.value["children"]]
    else []
  }

  /** `attributes` after `h`: `children` is deleted only when it was non-nullish. */
  function StoredAttributes(attributes: Option<map<string, Value>>): Option<map<string, Value>> {
    if attributes.Some? && !Nullish(Get(attributes.value, "children"))
    then Some(attributes.value - {"children"})
    else attributes
  }

  // ----- the construction loop -----

  /** `for (i = xs.length; i--;) stack.push(xs[i])`: pushes `xs` last
      element first, so that popping yields them in order. */
  method PushReversed(stack: seq<Value>, xs: seq<Value>) returns (s: seq<Value>)
    ensures s == stack + Reverse(xs)
  {
    s := stack;
    var i := |xs|;
    while i > 0
      invariant 0 <= i <= |xs|
      invariant s == stack + Reverse(xs[i..])
    {
      i := i - 1;
      assert xs[i..][1..] == xs[i + 1..];
      s := s + [xs[i]];
    }
    assert xs[0..] == xs;
  }

  method H(nodeName: NodeName, attributes: Option<map<string, Value>>, rest: seq<Value>)
    returns (p: VNode)
    ensures p.nodeName == nodeName
    ensures p.children == Collect(nodeName, Flat(Inputs(attributes, rest))).children
    ensures p.attributes == StoredAttributes(attributes)
    ensures attributes.None? ==> p.attributes.None? && p.key == Undefined
    ensures attributes.Some? ==> p.key == Get(attributes.value, "key")
  {
    var stack := PushReversed([], rest);
    var attrs := attributes;
    if attributes.Some? && !Nullish(Get(attributes.value, "children")) {
      if |stack| == 0 {
        stack := stack + [attributes.value["children"]];
      }
      attrs := Some(attributes.value - {"children"});
    }
    ghost var all := Inputs(attributes, rest);
    InitialStack(attributes, rest, stack);

    var children: seq<Value> := [];
    var lastSimple := false;
    ghost var done: seq<Value> := [];
    while |stack| > 0
      invariant done + StackRest(stack) == Flat(all)
      invariant Acc(children, lastSimple) == Collect(nodeName, done)
      decreases Size(stack)
    {
      var child := stack[|stack| - 1];
      var below := stack[..|stack| - 1];
      SplitLast(stack);
      if child.Arr? {
        var pushed := PushReversed(below, child.elems);
        PopArray(below, child);
        stack := pushed;
      } else {
        PopValue(below, child, done);
        var acc := Step(nodeName, Acc(children, lastSimple), child);
        done := done + [child];
        children, lastSimple := acc.children, acc.lastSimple;
        stack := below;
      }
    }
    assert done + [] == done;
    p := VNode(nodeName, children, attrs,
               if attributes.None? then Undefined else Get(attributes.value, "key"));
  }

  /** The stack `h` starts from yields exactly the flattened inputs. */
  lemma InitialStack(attributes: Option<map<string, Value>>, rest: seq<Value>, stack: seq<Value>)
    requires |rest| > 0 ==> stack == Reverse(rest)
    requires |rest| == 0 && attributes.Some? && !Nullish(Get(attributes.value, "children")) ==>
               stack == [attributes.value["children"]]
    requires |rest| == 0 && !(attributes.Some? && !Nullish(Get(attributes.value, "children"))) ==> stack == []
    ensures StackRest(stack) == Flat(Inputs(attributes, rest))
  {
    var all := Inputs(attributes, rest);
    if |rest| > 0 {
      StackRestOfReverse(rest);
    } else if stack != [] {
      assert stack == [all[0]] && all[1..] == [];
      assert StackRest(stack) == FlatOne(all[0]) + StackRest([]);
      assert Flat(all) == FlatOne(all[0]) + Flat(all[1..]);
    }
  }

  lemma SplitLast(s: seq<Value>)
    requires |s| > 0
    ensures s == s[..|s| - 1] + [s[|s| - 1]]
  {
  }

  /** Popping an array and pushing its elements back to front yields the
      same values and lowers the size. */
  lemma PopArray(below: seq<Value>, child: Value)
    requires child.Arr?
    ensures StackRest(below + Reverse(child.elems)) == StackRest(below + [child])
    ensures Size(below + Reverse(child.elems)) < Size(below + [child])
  {
    StackRestAppend(below, Reverse(child.elems));
    StackRestOfReverse(child.elems);
    StackRestAppend(below, [child]);
    assert StackRest([child]) == FlatOne(child) + StackRest([]);
    SizeAppend(below, Reverse(child.elems));
    SizeOfReverse(child.elems);
    SizeAppend(below, [child]);
    assert Size([child]) == 1 + Size(child.elems) + Size([]);
  }

  /** Popping a non-array value yields it first and lowers the size. */
  lemma PopValue(below: seq<Value>, child: Value, done: seq<Value>)
    requires !child.Arr?
    ensures StackRest(below + [child]) == [child] + StackRest(below)
    ensures Size(below) < Size(below + [child])
    ensures (done + [child])[..|done|] == done && (done + [child])[|done|] == child
    ensures (done + [child]) + StackRest(below) == done + StackRest(below + [child])
  {
    StackRestAppend(below, [child]);
    assert StackRest([child]) == FlatOne(child) + StackRest([]);
    SizeAppend(below, [child]);
    assert Size([child]) == 1 + Size([]);
    assert (done + [child])[..|done|] == done;
  }

  // ----- stack and size algebra -----

  lemma {:induction false} StackRestAppend(a: seq<Value>, b: seq<Value>)
    ensures StackRest(a + b) == StackRest(b) + StackRest(a)
    decreases |b|
  {
    if b != [] {
      var b' := b[..|b| - 1];
      assert (a + b)[..|a + b| - 1] == a + b';
      StackRestAppend(a, b');
    } else {
      assert a + b == a;
    }
  }

  lemma {:induction false} StackRestOfReverse(es: seq<Value>)
    ensures StackRest(Reverse(es)) == Flat(es)
    decreases |es|
  {
    if es != [] {
      var r := Reverse(es);
      assert r[..|r| - 1] == Reverse(es[1..]);
      StackRestOfReverse(es[1..]);
    }
  }

  lemma {:induction false} SizeAppend(a: seq<Value>, b: seq<Value>)
    ensures Size(a + b) == Size(a) + Size(b)
    decreases |a|
  {
    if a != [] {
      assert (a + b)[1..] == a[1..] + b;
      SizeAppend(a[1..], b);
    } else {
      assert a + b == b;
    }
  }

  lemma {:induction false} SizeOfReverse(es: seq<Value>)
    ensures Size(Reverse(es)) == Size(es)
    decreases |es|
  {
    if es != [] {
      SizeOfReverse(es[1..]);
      SizeAppend(Reverse(es[1..]), [es[0]]);
      assert Size([es[0]]) == (if es[0].Arr? then 1 + Size(es[0].elems) else 1) + Size([]);
    }
  }

  // ----- what `h` promises about its output -----

  /** Flattening leaves no array among the children. */
  lemma {:induction false} FlatHasNoArrays(vs: seq<Value>)
    ensures forall k :: 0 <= k < |Flat(vs)| ==> !Flat(vs)[k].Arr?
    decreases vs
  {
    if vs != [] {
      if vs[0].Arr? {
        FlatHasNoArrays(vs[0].elems);
      }
      FlatHasNoArrays(vs[1..]);
    }
  }

  /** Flattening distributes over concatenation of argument lists. */
  lemma {:induction false} FlatAppend(a: seq<Value>, b: seq<Value>)
    ensures Flat(a + b) == Flat(a) + Flat(b)
    decreases |a|
  {
    if a != [] {
      assert (a + b)[1..] == a[1..] + b;
      FlatAppend(a[1..], b);
    } else {
      assert a + b == b;
    }
  }

  /** For an element tag, the children of a flat input are text or
      non-primitive values (never nullish, boolean, numeric or an array),
      no two adjacent children are both text, and `lastSimple` says whether
      the last child is text. */
  lemma {:induction false} ElementChildrenShape(name: string, xs: seq<Value>)
    requires forall k :: 0 <= k < |xs| ==> !xs[k].Arr?
    ensures var r := Collect(Tag(name), xs);
      && (forall k :: 0 <= k < |r.children| ==>
            r.children[k].Str? || r.children[k].Func? || r.children[k].Obj? || r.children[k].Node?)
      && (forall k :: 0 <= k < |r.children| - 1 ==> !(r.children[k].Str? && r.children[k + 1].Str?))
      && (|r.children| > 0 ==> (r.lastSimple <==> r.children[|r.children| - 1].Str?))
    decreases |xs|
  {
    if xs != [] {
      ElementChildrenShape(name, xs[..|xs| - 1]);
    }
  }

  /** For a component constructor nothing merges: each flattened child is
      kept in place, with booleans replaced by null. */
  lemma {:induction false} ComponentChildrenKept(cid: nat, xs: seq<Value>)
    ensures var r := Collect(Ctor(cid), xs);
      && !r.lastSimple
      && |r.children| == |xs|
      && forall k :: 0 <= k < |xs| ==> r.children[k] == (if xs[k].Bool? then Null else xs[k])
    decreases |xs|
  {
    if xs != [] {
      ComponentChildrenKept(cid, xs[..|xs| - 1]);
    }
  }

  /** The text a primitive child contributes to an element's merged text. */
  function TextOf(v: Value): string
    requires v.Undefined? || v.Null? || v.Bool? || v.Num? || v.Str?
  {
    if v.Num? then IntToString(v.n) else if v.Str? then v.s else ""
  }

  function ConcatText(xs: seq<Value>): string
    requires forall k :: 0 <= k < |xs| ==> xs[k].Undefined? || xs[k].Null? || xs[k].Bool? || xs[k].Num? || xs[k].Str?
  {
    if xs == [] then "" else ConcatText(xs[..|xs| - 1]) + TextOf(xs[|xs| - 1])
  }

  /** A run of primitive children of an element collapses into one string
      child: the concatenation of their texts. */
  lemma {:induction false} PrimitivesMerge(name: string, xs: seq<Value>)
    requires |xs| > 0
    requires forall k :: 0 <= k < |xs| ==> xs[k].Undefined? || xs[k].Null? || xs[k].Bool? || xs[k].Num? || xs[k].Str?
    ensures Collect(Tag(name), xs) == Acc([Str(ConcatText(xs))], true)
    decreases |xs|
  {
    var last := xs[|xs| - 1];
    var prefix := xs[..|xs| - 1];
    var c := if last.Bool? then Null else last;
    var c' := if Nullish(c) then Str("") else if c.Num? then Str(IntToString(c.n)) else c;
    assert c' == Str(TextOf(last));
    if |xs| > 1 {
      PrimitivesMerge(name, prefix);
      assert Collect(Tag(name), xs) == Step(Tag(name), Acc([Str(ConcatText(prefix))], true), last);
    } else {
      assert prefix == [];
      assert Collect(Tag(name), xs) == Step(Tag(name), Collect(Tag(name), prefix), last);
      assert ConcatText(xs) == ConcatText(prefix) + TextOf(last);
      assert ConcatText(prefix) + TextOf(last) == TextOf(last);
      assert [] + [c'] == [c'];
    }
  }

  /** `h('div', null, 'a', 1, 'b')` has the single child `'a1b'`. */
  lemma TextCoalescingExample()
    ensures Collect(Tag("div"), Flat(Inputs(None, [Str("a"), Num(1), Str("b")]))).children == [Str("a1b")]
  {
    var xs := [Str("a"), Num(1), Str("b")];
    assert Inputs(None, xs) == xs;
    FlatWithoutArrays(xs);
    PrimitivesMerge("div", xs);
    ExampleText();
  }

  lemma ExampleText()
    ensures ConcatText([Str("a"), Num(1), Str("b")]) == "a1b"
  {
    var xs := [Str("a"), Num(1), Str("b")];
    assert xs[..2] == [Str("a"), Num(1)] && xs[..2][..1] == [Str("a")] && xs[..2][..1][..0] == [];
    assert IntToString(1) == "1" by {
      assert NatToString(1) == [DigitChar(1)];
    }
    assert ConcatText([Str("a")]) == "a";
    assert ConcatText([Str("a"), Num(1)]) == "a1";
  }

  /** An argument list without arrays is already flat. */
  lemma {:induction false} FlatWithoutArrays(vs: seq<Value>)
    requires forall k :: 0 <= k < |vs| ==> !vs[k].Arr?
    ensures Flat(vs) == vs
    decreases |vs|
  {
    if vs != [] {
      FlatWithoutArrays(vs[1..]);
      assert vs == [vs[0]] + vs[1..];
    }
  }
}
