// The child list of one DOM element and the placement half of
// `innerDiffNode`: after a virtual child has been matched and diffed, its
// node is moved to the position of that virtual child, and the leftovers
// are recycled and detached. Nodes are named by numbers; the recursive diff
// of a matched node (`idiff`) is reduced to its effect on this list: it
// keeps the node, replaces it in place by a fresh one, or unmounts the
// component that owns it (which detaches it) and builds a fresh one.

module ChildDiff {
  import opened JsValues
  import opened NodeMatch

  /** `s` without `x` (the list after `x` is detached). */
  function Without(s: seq<nat>, x: nat): (r: seq<nat>)
    ensures forall y :: y in r <==> y in s && y != x
    ensures x !in s ==> r == s
  {
    if s == [] then []
    else if s[0] == x then Without(s[1..], x)
    else [s[0]] + Without(s[1..], x)
  }

  lemma {:induction false} WithoutNoDuplicates(s: seq<nat>, x: nat)
    requires NoDuplicates(s)
    ensures NoDuplicates(Without(s, x))
  {
    if s != [] {
      var t := s[1..];
      assert NoDuplicates(t) by {
        forall i, j | 0 <= i < j < |t|
          ensures t[i] != t[j]
        {
          assert t[i] == s[i + 1] && t[j] == s[j + 1];
        }
      }
      WithoutNoDuplicates(t, x);
      if s[0] != x {
        var r := Without(t, x);
        assert s[0] !in t by {
          forall j | 0 <= j < |t|
            ensures t[j] != s[0]
          {
            assert t[j] == s[j + 1];
          }
        }
        var w := [s[0]] + r;
        forall i, j | 0 <= i < j < |w|
          ensures w[i] != w[j]
        {
          if i == 0 {
            assert w[j] == r[j - 1] && r[j - 1] in r;
          } else {
            assert w[i] == r[i - 1] && w[j] == r[j - 1];
          }
        }
      }
    }
  }

  /** Detaching a node behind position `k` leaves the first `k` alone. */
  lemma {:induction false} WithoutKeepsPrefix(s: seq<nat>, x: nat, k: nat)
    requires k <= |s| && x !in s[..k]
    ensures |Without(s, x)| >= k && Without(s, x)[..k] == s[..k]
  {
    if k > 0 {
      assert s[0] == s[..k][0];
      WithoutKeepsPrefix(s[1..], x, k - 1);
      assert s[1..][..k - 1] == s[1..k];
      assert s[..k] == [s[0]] + s[1..k];
    }
  }

  /** The position of `x` in `s`. */
  function IndexOf(s: seq<nat>, x: nat): (p: nat)
    requires x in s
    ensures p < |s| && s[p] == x && x !in s[..p]
  {
    if s[0] == x then 0
    else
      var p := 1 + IndexOf(s[1..], x);
      assert s[..p] == [s[0]] + s[1..][..p - 1];
      p
  }

  /** The children of one element, in document order. */
  class ParentNode {
    var childNodes: seq<nat>

    constructor(nodes: seq<nat>)
      ensures childNodes == nodes
    {
      childNodes := nodes;
    }

    /** `appendChild`: a node already in the list moves to the end. */
    method AppendChild(x: nat)
      modifies this
      ensures childNodes == Without(old(childNodes), x) + [x]
    {
      childNodes := Without(childNodes, x) + [x];
    }

    /** `insertBefore(x, f)`: `x` leaves its old place and lands before `f`. */
    method InsertBefore(x: nat, f: nat)
      requires f in childNodes && x != f
      modifies this
      ensures var d := Without(old(childNodes), x);
        childNodes == d[..IndexOf(d, f)] + [x] + d[IndexOf(d, f)..]
    {
      var d := Without(childNodes, x);
      var p := IndexOf(d, f);
      childNodes := d[..p] + [x] + d[p..];
    }

    /** `removeNode`: detaches `x` if it is a child here. */
    method RemoveNode(x: nat)
      modifies this
      ensures childNodes == Without(old(childNodes), x)
    {
      childNodes := Without(childNodes, x);
    }

    /** `replaceChild(x, old)`: `x`, a node not yet in this list, takes the
        place of the node `y`. */
    method ReplaceChild(x: nat, y: nat)
      requires y in childNodes && x !in childNodes
      modifies this
      ensures childNodes == old(childNodes)[IndexOf(old(childNodes), y) := x]
    {
      childNodes := childNodes[IndexOf(childNodes, y) := x];
    }

    /** Placing the node of virtual child `i`: the first `i` children are
        already in place, and afterwards the node is the `i`th one. The only
        other node that can leave the list is the one that was `i`th, and
        only when the placed node came right after it. */
    method Place(i: nat, child: nat)
      requires NoDuplicates(childNodes) && i <= |childNodes| && child !in childNodes[..i]
      modifies this
      ensures PlacedAt(old(childNodes), childNodes, i, child)
      ensures childNodes == Placed(old(childNodes), i, child)
    {
      ghost var c := childNodes;
      if i == |childNodes| {
        AppendChild(child);
        AppendPlaces(c, i, child);
      } else {
        var f := childNodes[i];
        if child != f {
          if i + 1 < |childNodes| && child == childNodes[i + 1] {
            RemoveNode(f);
            RemovePlaces(c, i, child);
          } else {
            InsertBefore(child, f);
            InsertPlaces(c, i, child);
          }
        } else {
          assert c[..i + 1] == c[..i] + [child];
        }
      }
    }

    /** `innerDiffNode(dom, vchildren, ...)` over the element's children at
        entry `orig`, the facts the matcher reads about each of them, and
        the outcome of `idiff` for each virtual child: what it did with the
        node it was given, and the fresh node it would create.

        Returns the node placed for each virtual child, the live child each
        one matched (by index into `orig`), and the live children
        recycled. Every child the partition filed is matched or recycled,
        never both and never twice; the placed nodes come first, in the
        order of the virtual children; recycled nodes are detached, and so
        is every matched node `idiff` did not keep; what remains after the
        placed nodes are original children neither placed nor recycled.
        The whole list is `Layout`, the placements turn by turn, with the
        recycled nodes detached. */
    method InnerDiffNode(live: seq<LiveChild>, orig: seq<nat>, vchildren: seq<Value>,
                         mapping: map<string, nat>, hydrating: bool,
                         effects: seq<Effect>, created: seq<nat>)
        returns (results: seq<nat>, matched: seq<Option<nat>>, recycled: seq<nat>)
      requires childNodes == orig && NoDuplicates(orig) && |live| == |orig|
      requires forall v :: v in vchildren ==> !Nullish(v)
      requires |effects| == |created| == |vchildren|
      requires NoDuplicates(created) && forall y :: y in created ==> y !in orig
      modifies this
      ensures |results| == |vchildren| && Produced(results, matched, orig, effects, created)
      ensures matched == Matches(live, vchildren, mapping, hydrating)
      ensures forall i, j :: 0 <= i < j < |vchildren| && matched[i].Some? ==> matched[i] != matched[j]
      ensures NoDuplicates(recycled)
      ensures forall x :: x in recycled ==> Some(x) !in matched
      ensures forall x: nat :: (x in recycled || Some(x) in matched) <==>
                (x < |live| && Filed(KeysOf(live, |vchildren|), EligibleOf(live, hydrating), x))
      ensures NoDuplicates(childNodes)
      ensures |childNodes| >= |vchildren| && childNodes[..|vchildren|] == results
      ensures forall x :: x in recycled ==> orig[x] !in childNodes
      ensures forall y :: y in childNodes[|vchildren|..] ==> y in orig && y !in results
      ensures childNodes == WithoutAll(Layout(orig, matched, effects, created), NodesOf(orig, recycled))
      ensures forall j :: 0 <= j < |vchildren| && Stale(orig, matched[j], effects[j]).Some? ==>
                Stale(orig, matched[j], effects[j]).value !in childNodes
    {
      var vlen := |vchildren|;
      ghost var keys := KeysOf(live, vlen);
      var st := Partition(live, vlen, hydrating);
      PartitionFacts(live, vlen, hydrating);
      ghost var st0 := st;
      PartitionAvailable(st, keys, EligibleOf(live, hydrating));
      results, matched, st := MatchAndPlace(live, orig, vchildren, mapping, hydrating, effects, created, st);
      recycled := RecycleRest(orig, st, keys, results, matched, effects, created);
    }

    /** The last two loops of `innerDiffNode`, once every virtual child is
        placed: the children still available are recycled. */
    method RecycleRest(orig: seq<nat>, st: MatchState, ghost keys: seq<Option<string>>,
                       results: seq<nat>, ghost matched: seq<Option<nat>>,
                       ghost effects: seq<Effect>, ghost created: seq<nat>)
        returns (recycled: seq<nat>)
      requires Valid(st, keys) && |keys| == |orig|
      requires NoDuplicates(orig) && NoDuplicates(created) && forall y :: y in created ==> y !in orig
      requires Placing(results, matched, orig, effects, created)
      requires forall x :: Some(x) in matched ==> x !in Available(st)
      modifies this
      ensures NoDuplicates(recycled)
      ensures forall x :: x in recycled <==> x in Available(st)
      ensures forall x :: x in recycled ==> x < |orig|
      ensures Reconciled(orig, results, matched, effects, created, recycled)
    {
      AvailableBelow(st, keys);
      forall x | x in Available(st)
        ensures orig[x] !in results
      {
        NotPlacedYet(results, matched, orig, effects, created, Some(x));
      }
      ghost var placed := childNodes;
      recycled := RecycleLeftovers(orig, st, keys, |results|);
      forall y | y in childNodes[|results|..]
        ensures y in orig && y !in results
      {
        var p :| |results| <= p < |childNodes| && childNodes[p] == y;
      }
      forall j | 0 <= j < |matched| && Stale(orig, matched[j], effects[j]).Some?
        ensures Stale(orig, matched[j], effects[j]).value !in childNodes
      {
        assert Stale(orig, matched[j], effects[j]).value !in placed;
      }
    }

    /** The child list when `innerDiffNode` is done: the nodes handed back
        come first; recycled nodes and matched nodes `idiff` did not keep
        are detached; the rest are original children; and the whole list
        is `Layout` with the recycled nodes detached. */
    ghost predicate Reconciled(orig: seq<nat>, results: seq<nat>, matched: seq<Option<nat>>,
                               effects: seq<Effect>, created: seq<nat>, recycled: seq<nat>)
      requires Produced(results, matched, orig, effects, created)
      requires forall x :: x in recycled ==> x < |orig|
      reads this
    {
      && NoDuplicates(childNodes)
      && |childNodes| >= |results| && childNodes[..|results|] == results
      && (forall x :: x in recycled ==> orig[x] !in childNodes)
      && (forall y :: y in childNodes[|results|..] ==> y in orig && y !in results)
      && childNodes == WithoutAll(Layout(orig, matched, effects, created), NodesOf(orig, recycled))
      && forall j :: 0 <= j < |matched| && Stale(orig, matched[j], effects[j]).Some? ==>
           Stale(orig, matched[j], effects[j]).value !in childNodes
    }

    /** The second loop of `innerDiffNode`: each virtual child in turn is
        matched, diffed and placed at its own position. */
    method MatchAndPlace(live: seq<LiveChild>, orig: seq<nat>, vchildren: seq<Value>,
                         mapping: map<string, nat>, hydrating: bool,
                         effects: seq<Effect>, created: seq<nat>, st0: MatchState)
        returns (results: seq<nat>, matched: seq<Option<nat>>, st: MatchState)
      requires childNodes == orig && NoDuplicates(orig) && |live| == |orig|
      requires forall v :: v in vchildren ==> !Nullish(v)
      requires |effects| == |created| == |vchildren|
      requires NoDuplicates(created) && forall y :: y in created ==> y !in orig
      requires Valid(st0, KeysOf(live, |vchildren|))
      modifies this
      ensures Valid(st, KeysOf(live, |vchildren|))
      ensures (matched, st) == MatchAll(live, st0, vchildren, |vchildren|, mapping, hydrating)
      ensures |results| == |vchildren| && Produced(results, matched, orig, effects, created)
      ensures forall x :: Some(x) in matched ==> x !in Available(st)
      ensures forall i, j :: 0 <= i < j < |vchildren| && matched[i].Some? ==> matched[i] != matched[j]
      ensures forall x :: x in Available(st0) <==> x in Available(st) || Some(x) in matched
      ensures NoDuplicates(childNodes)
      ensures |childNodes| >= |vchildren| && childNodes[..|vchildren|] == results
      ensures forall y :: y in childNodes ==> y in orig || y in results
      ensures childNodes == Layout(orig, matched, effects, created)
      ensures forall j :: 0 <= j < |vchildren| && Stale(orig, matched[j], effects[j]).Some? ==>
                Stale(orig, matched[j], effects[j]).value !in childNodes
      ensures Placing(results, matched, orig, effects, created)
    {
      results, matched, st := PlaceAll(live, orig, vchildren, mapping, hydrating, effects, created, st0);
      MatchAllAvailable(live, |vchildren|, st0, vchildren, |vchildren|, mapping, hydrating);
    }

    /** The loop itself: the matches are those of `MatchAll`, and every
        node handed back is placed in order. */
    method PlaceAll(live: seq<LiveChild>, orig: seq<nat>, vchildren: seq<Value>,
                    mapping: map<string, nat>, hydrating: bool,
                    effects: seq<Effect>, created: seq<nat>, st0: MatchState)
        returns (results: seq<nat>, matched: seq<Option<nat>>, st: MatchState)
      requires childNodes == orig && NoDuplicates(orig) && |live| == |orig|
      requires forall j :: 0 <= j < |vchildren| ==> !Nullish(vchildren[j])
      requires |effects| == |created| == |vchildren|
      requires NoDuplicates(created) && forall y :: y in created ==> y !in orig
      requires Valid(st0, KeysOf(live, |vchildren|)) && SlotsIn(st0, |live|)
      modifies this
      ensures (matched, st) == MatchAll(live, st0, vchildren, |vchildren|, mapping, hydrating)
      ensures |results| == |vchildren| && Placing(results, matched, orig, effects, created)
    {
      var vlen := |vchildren|;
      st := st0;
      results, matched := [], [];
      ProgressStart(live, orig, vchildren, mapping, hydrating, effects, created, st0);
      var i := 0;
      while i < vlen
        invariant 0 <= i <= vlen
        invariant Progress(live, orig, vchildren, mapping, hydrating, effects, created, st0, i, results, matched, st)
      {
        var m, st', child := Turn(live, orig, vchildren, mapping, hydrating, effects, created, st0, i, results, matched, st);
        results, matched, st, i := results + [child], matched + [m], st', i + 1;
      }
    }

    /** The loop's state after `i` turns: the matches are MatchAll's, and the
        nodes handed back so far are placed in order. */
    ghost predicate Progress(live: seq<LiveChild>, orig: seq<nat>, vchildren: seq<Value>,
                             mapping: map<string, nat>, hydrating: bool,
                             effects: seq<Effect>, created: seq<nat>, st0: MatchState,
                             i: nat, results: seq<nat>, matched: seq<Option<nat>>, st: MatchState)
      requires forall j :: 0 <= j < |vchildren| ==> !Nullish(vchildren[j])
      requires SlotsIn(st0, |live|)
      reads this
    {
      && i <= |vchildren|
      && (matched, st) == MatchAll(live, st0, vchildren, i, mapping, hydrating)
      && |results| == i && Placing(results, matched, orig, effects, created)
    }

    lemma ProgressStart(live: seq<LiveChild>, orig: seq<nat>, vchildren: seq<Value>,
                        mapping: map<string, nat>, hydrating: bool,
                        effects: seq<Effect>, created: seq<nat>, st0: MatchState)
      requires forall j :: 0 <= j < |vchildren| ==> !Nullish(vchildren[j])
      requires SlotsIn(st0, |live|) && |effects| == |created|
      requires childNodes == orig && NoDuplicates(orig)
      ensures Progress(live, orig, vchildren, mapping, hydrating, effects, created, st0, 0, [], [], st0)
    {
    }

    /** One turn of the second loop: virtual child `i` is matched, and the
        node `idiff` hands back for it is placed at position `i`. */
    method Turn(live: seq<LiveChild>, orig: seq<nat>, vchildren: seq<Value>,
                mapping: map<string, nat>, hydrating: bool,
                effects: seq<Effect>, created: seq<nat>, st0: MatchState,
                i: nat, ghost results: seq<nat>, ghost matched: seq<Option<nat>>, st: MatchState)
        returns (m: Option<nat>, st': MatchState, child: nat)
      requires NoDuplicates(orig) && |live| == |orig|
      requires forall j :: 0 <= j < |vchildren| ==> !Nullish(vchildren[j])
      requires i == |results| < |effects| == |created| == |vchildren|
      requires NoDuplicates(created) && forall y :: y in created ==> y !in orig
      requires Valid(st0, KeysOf(live, |vchildren|)) && SlotsIn(st0, |live|)
      requires Progress(live, orig, vchildren, mapping, hydrating, effects, created, st0, i, results, matched, st)
      modifies this
      ensures m.Some? ==> m.value < |orig| && m !in matched
      ensures child == Outcome(orig, m, effects[i], created[i])
      ensures Progress(live, orig, vchildren, mapping, hydrating, effects, created, st0,
                       i + 1, results + [child], matched + [m], st')
    {
      m, st' := MatchNext(live, |vchildren|, st0, vchildren, mapping, hydrating, i, matched, st);
      child := PlaceTurn(i, orig, effects, created, results, matched, m);
    }

    /** The first `|results|` virtual children have been handled: `results`
        are the nodes handed back for them, placed in order at the front of
        the list, and every node in the list is original or handed back. */
    ghost predicate Placing(results: seq<nat>, matched: seq<Option<nat>>, orig: seq<nat>,
                            effects: seq<Effect>, created: seq<nat>)
      reads this
    {
      && Produced(results, matched, orig, effects, created)
      && childNodes == Layout(orig, matched, effects, created)
      && NoDuplicates(childNodes) && |childNodes| >= |results| && childNodes[..|results|] == results
      && (forall y :: y in childNodes ==> y in orig || y in results)
      && forall j :: 0 <= j < |matched| && Stale(orig, matched[j], effects[j]).Some? ==>
           Stale(orig, matched[j], effects[j]).value !in childNodes
    }

    /** The placing half of one turn of the second loop: the node `idiff`
        returns for the child matched (or the fresh one) goes to position
        `|results|`. */
    method PlaceTurn(i: nat, orig: seq<nat>, effects: seq<Effect>, created: seq<nat>,
                     ghost results: seq<nat>, ghost matched: seq<Option<nat>>, m: Option<nat>)
        returns (child: nat)
      requires i == |results| < |effects| == |created|
      requires NoDuplicates(orig) && NoDuplicates(created) && forall y :: y in created ==> y !in orig
      requires m.Some? ==> m.value < |orig| && m !in matched
      requires Placing(results, matched, orig, effects, created)
      modifies this
      ensures child == Outcome(orig, m, effects[|results|], created[|results|])
      ensures Placing(results + [child], matched + [m], orig, effects, created)
    {
      child := Outcome(orig, m, effects[i], created[i]);
      NotPlacedYet(results, matched, orig, effects, created, m);
      ghost var before := childNodes;
      PlaceOne(i, child, Stale(orig, m, effects[i]), effects[i].Replaced?, results, orig);
      ProducedGrows(results, matched, orig, effects, created, m);
      assert (matched + [m])[..i] == matched;
      forall j | 0 <= j < i + 1 && Stale(orig, (matched + [m])[j], effects[j]).Some?
        ensures Stale(orig, (matched + [m])[j], effects[j]).value !in childNodes
      {
        if j < i {
          var x := matched[j].value;
          assert matched[j] in matched && orig[x] !in before;
          if m.Some? && effects[i].Kept? {
            assert m.value != x;
          } else {
            assert created[i] in created;
          }
        }
      }
    }

    /** One step of the second loop on this list: when `idiff` did not keep
        the matched node `stale`, the fresh node takes its place (`inPlace`)
        or `stale` is detached; then the node is placed at position `i`. */
    method PlaceOne(i: nat, child: nat, stale: Option<nat>, inPlace: bool, ghost results: seq<nat>, ghost orig: seq<nat>)
      requires NoDuplicates(childNodes) && |childNodes| >= i && childNodes[..i] == results
      requires forall y :: y in childNodes ==> y in orig || y in results
      requires child !in results
      requires stale.Some? ==> stale.value !in results && child !in orig && stale.value != child
      modifies this
      ensures NoDuplicates(childNodes) && |childNodes| >= i + 1 && childNodes[..i + 1] == results + [child]
      ensures forall y :: y in childNodes ==> y in orig || y in results + [child]
      ensures forall y :: y in childNodes ==> y in old(childNodes) || y == child
      ensures stale.Some? ==> stale.value !in childNodes
      ensures childNodes == Placed(Prepared(old(childNodes), stale, inPlace, child), i, child)
    {
      if stale.Some? && stale.value in childNodes {
        if inPlace {
          // idiff puts its fresh node where the matched one was
          ReplacePlaces(childNodes, i, stale.value, child);
          ReplaceChild(child, stale.value);
        } else {
          // unmounting the owning component removed the matched node
          WithoutKeepsPrefix(childNodes, stale.value, i);
          WithoutNoDuplicates(childNodes, stale.value);
          RemoveNode(stale.value);
        }
      }
      ghost var before := childNodes;
      Place(i, child);
      assert childNodes[..i + 1] == before[..i] + [child];
    }

    /** The last two loops of `innerDiffNode`: every child still available
        is recycled once, and so detached. */
    method RecycleLeftovers(orig: seq<nat>, st: MatchState, ghost keys: seq<Option<string>>, n: nat)
        returns (recycled: seq<nat>)
      requires Valid(st, keys) && |keys| == |orig|
      requires NoDuplicates(childNodes) && n <= |childNodes|
      requires forall x :: x in Available(st) ==> x < |orig| && orig[x] !in childNodes[..n]
      modifies this
      ensures NoDuplicates(recycled)
      ensures forall x :: x in recycled <==> x in Available(st)
      ensures forall x :: x in recycled ==> orig[x] !in childNodes
      ensures NoDuplicates(childNodes)
      ensures |childNodes| >= n && childNodes[..n] == old(childNodes)[..n]
      ensures forall y :: y in childNodes ==> y in old(childNodes)
      ensures forall x :: x in recycled ==> x < |orig|
      ensures childNodes == WithoutAll(old(childNodes), NodesOf(orig, recycled))
    {
      recycled := Leftovers(st, keys);
      assert forall k :: 0 <= k < |recycled| ==> recycled[k] in Available(st);
      var detached := NodesOf(orig, recycled);
      DetachAll(detached, n);
      forall x | x in recycled
        ensures orig[x] !in childNodes
      {
        var k :| 0 <= k < |recycled| && recycled[k] == x;
        assert detached[k] == orig[x];
      }
    }

    /** The loop over the leftovers, as far as this list goes: each one is
        detached (`recollectNodeTree(child, false)` ends in `removeNode`). */
    method DetachAll(nodes: seq<nat>, n: nat)
      requires NoDuplicates(childNodes) && n <= |childNodes|
      requires forall y :: y in nodes ==> y !in childNodes[..n]
      modifies this
      ensures NoDuplicates(childNodes)
      ensures |childNodes| >= n && childNodes[..n] == old(childNodes)[..n]
      ensures forall y :: y in childNodes <==> y in old(childNodes) && y !in nodes
      ensures childNodes == WithoutAll(old(childNodes), nodes)
    {
      var k := 0;
      while k < |nodes|
        invariant 0 <= k <= |nodes|
        invariant childNodes == WithoutAll(old(childNodes), nodes[..k])
        invariant NoDuplicates(childNodes)
        invariant |childNodes| >= n && childNodes[..n] == old(childNodes)[..n]
        invariant forall y :: y in childNodes <==> y in old(childNodes) && y !in nodes[..k]
      {
        WithoutKeepsPrefix(childNodes, nodes[k], n);
        WithoutNoDuplicates(childNodes, nodes[k]);
        RemoveNode(nodes[k]);
        assert nodes[..k + 1] == nodes[..k] + [nodes[k]];
        assert nodes[..k + 1][..k] == nodes[..k];
        k := k + 1;
      }
      assert nodes[..k] == nodes;
    }
  }

  /** What `idiff` does with the live child it is given: keeps it, updated
      in place; replaces it by a fresh node in the same position
      (`replaceChild`); or, for a component of another constructor,
      unmounts the component owning it, which detaches it, and builds a
      fresh node that is not yet attached. */
  datatype Effect = Kept | Replaced | Unmounted

  /** The node `idiff` hands back for a virtual child: the matched live
      child when it was kept, otherwise the node it created. */
  function Outcome(orig: seq<nat>, m: Option<nat>, effect: Effect, created: nat): nat
    requires m.Some? ==> m.value < |orig|
  {
    if m.Some? && effect.Kept? then orig[m.value] else created
  }

  /** The matched node that `idiff` did not keep, if any: it leaves its
      place in the list. */
  function Stale(orig: seq<nat>, m: Option<nat>, effect: Effect): Option<nat>
    requires m.Some? ==> m.value < |orig|
  {
    if m.Some? && !effect.Kept? then Some(orig[m.value]) else None
  }

  /** The child list after the first `|matched|` turns of the second loop,
      starting from `orig`: turn `k` deals with the matched node `idiff`
      did not keep, then places the node handed back at position `k`. */
  function Layout(orig: seq<nat>, matched: seq<Option<nat>>, effects: seq<Effect>, created: seq<nat>): seq<nat>
    requires |matched| <= |effects| == |created|
    requires forall x :: Some(x) in matched ==> x < |orig|
    decreases |matched|
  {
    if matched == [] then orig
    else
      var k := |matched| - 1;
      var m := matched[k];
      assert m in matched;
      var c := Layout(orig, matched[..k], effects, created);
      var child := Outcome(orig, m, effects[k], created[k]);
      Placed(Prepared(c, Stale(orig, m, effects[k]), effects[k].Replaced?, child), k, child)
  }

  /** `s` with the nodes of `xs` detached one after another. */
  function WithoutAll(s: seq<nat>, xs: seq<nat>): seq<nat>
    decreases |xs|
  {
    if xs == [] then s else Without(WithoutAll(s, xs[..|xs| - 1]), xs[|xs| - 1])
  }

  /** The nodes of the live children at the indices `xs`. */
  function NodesOf(orig: seq<nat>, xs: seq<nat>): seq<nat>
    requires forall x :: x in xs ==> x < |orig|
  {
    seq(|xs|, k requires 0 <= k < |xs| => assert xs[k] in xs; orig[xs[k]])
  }

  /** `results` are the nodes handed back for the first virtual children. */
  ghost predicate Produced(results: seq<nat>, matched: seq<Option<nat>>, orig: seq<nat>,
                           effects: seq<Effect>, created: seq<nat>) {
    && |results| == |matched| <= |effects| == |created|
    && (forall x :: Some(x) in matched ==> x < |orig|)
    && forall j :: 0 <= j < |results| ==>
         results[j] == Outcome(orig, matched[j], effects[j], created[j])
  }

  lemma ProducedGrows(results: seq<nat>, matched: seq<Option<nat>>, orig: seq<nat>,
                      effects: seq<Effect>, created: seq<nat>, m: Option<nat>)
    requires Produced(results, matched, orig, effects, created) && |results| < |effects|
    requires m.Some? ==> m.value < |orig|
    ensures var i := |results|;
      Produced(results + [Outcome(orig, m, effects[i], created[i])], matched + [m], orig, effects, created)
  {
  }

  /** The node of a live child not matched so far, and every created node,
      have not been placed yet; so the node handed back is new to `results`. */
  lemma NotPlacedYet(results: seq<nat>, matched: seq<Option<nat>>, orig: seq<nat>,
                     effects: seq<Effect>, created: seq<nat>, m: Option<nat>)
    requires Produced(results, matched, orig, effects, created)
    requires NoDuplicates(orig) && NoDuplicates(created) && forall y :: y in created ==> y !in orig
    requires m.Some? ==> m.value < |orig| && m !in matched
    ensures m.Some? ==> orig[m.value] !in results
    ensures |results| < |created| ==> created[|results|] !in results && created[|results|] !in orig
  {
    forall j | 0 <= j < |results|
      ensures m.Some? ==> results[j] != orig[m.value]
      ensures |results| < |created| ==> results[j] != created[|results|]
    {
      if matched[j].Some? && effects[j].Kept? {
        assert matched[j] in matched;
        assert orig[matched[j].value] in orig;
      } else {
        assert created[j] in created;
      }
    }
  }

  lemma IndexOfFirst(s: seq<nat>, x: nat, p: nat)
    requires p < |s| && s[p] == x && x !in s[..p]
    ensures IndexOf(s, x) == p
  {
  }

  /** The list once `idiff` has dealt with the matched node `stale`: the
      fresh node `child` took its place, or it was detached. */
  function Prepared(c: seq<nat>, stale: Option<nat>, inPlace: bool, child: nat): seq<nat> {
    if stale.None? || stale.value !in c then c
    else if inPlace then c[IndexOf(c, stale.value) := child]
    else Without(c, stale.value)
  }

  /** The list after the second loop places `child` at position `i`:
      appended past the end; left alone when it is already there; the
      node at `i` removed when `child` comes right after it; otherwise
      moved to just before the node at `i`. */
  function Placed(c: seq<nat>, i: nat, child: nat): seq<nat> {
    if i >= |c| then Without(c, child) + [child]
    else if child == c[i] then c
    else if i + 1 < |c| && child == c[i + 1] then Without(c, c[i])
    else
      var d := Without(c, child);
      d[..IndexOf(d, c[i])] + [child] + d[IndexOf(d, c[i])..]
  }

  /** A keyed virtual child naming another component than the one owning
      its matched node: `idiff` unmounts that component, which detaches the
      node, and its fresh node is inserted before the first child, which
      stays. Replacing the node in place instead puts the fresh node right
      after the first child, which is then removed. */
  lemma UnmountedPlacementExample()
    ensures Placed(Prepared([1, 2, 3], Some(2), false, 9), 0, 9) == [9, 1, 3]
    ensures Placed(Prepared([1, 2, 3], Some(2), true, 9), 0, 9) == [9, 3]
  {
    assert Without([1, 2, 3], 2) == [1, 3] by {
      assert [1, 2, 3][1..] == [2, 3] && [2, 3][1..] == [3] && [3][1..] == [];
    }
    assert Without([1, 3], 9) == [1, 3] by {
      assert [1, 3][1..] == [3] && [3][1..] == [];
    }
    assert IndexOf([1, 2, 3], 2) == 1;
    assert [1, 2, 3][1 := 9] == [1, 9, 3];
    assert Without([1, 9, 3], 1) == [9, 3] by {
      assert [1, 9, 3][1..] == [9, 3] && [9, 3][1..] == [3] && [3][1..] == [];
    }
  }

  /** The whole second loop on small lists. With children `[1, 2, 3]`, a
      single virtual child matched with node 2, whose component `idiff`
      unmounts for a fresh node 9, leaves `[9, 1, 3]`: node 2 is gone and
      nodes 1 and 3 stay. With children `[1, 2]` and a single virtual child
      that keeps node 2, node 1 is removed because node 2 comes right after
      it, although nothing matched node 1. */
  lemma LayoutExamples()
    ensures Layout([1, 2, 3], [Some(1)], [Unmounted], [9]) == [9, 1, 3]
    ensures Layout([1, 2], [Some(1)], [Kept], [7]) == [2]
  {
    assert [Some(1)][..0] == [];
    UnmountedPlacementExample();
    assert Without([1, 2], 1) == [2] by {
      assert [1, 2][1..] == [2] && [2][1..] == [];
    }
  }

  /** What placing `child` at position `i` guarantees about the list. */
  ghost predicate PlacedAt(before: seq<nat>, after: seq<nat>, i: nat, child: nat) {
    && NoDuplicates(after)
    && |after| > i && i <= |before| && after[..i] == before[..i] && after[i] == child
    && (forall y :: y in after ==> y == child || y in before)
    && (forall y :: y in before && y !in after ==>
          y != child && i + 1 < |before| && y == before[i] && before[i + 1] == child)
  }

  lemma AppendPlaces(c: seq<nat>, i: nat, child: nat)
    requires NoDuplicates(c) && i == |c| && child !in c[..i]
    ensures PlacedAt(c, Without(c, child) + [child], i, child)
  {
    WithoutKeepsPrefix(c, child, i);
    WithoutNoDuplicates(c, child);
    assert c[..i] == c;
  }

  lemma RemovePlaces(c: seq<nat>, i: nat, child: nat)
    requires NoDuplicates(c) && i + 1 < |c| && c[i + 1] == child && child !in c[..i]
    ensures PlacedAt(c, Without(c, c[i]), i, child)
  {
    var f := c[i];
    assert c == c[..i] + [f] + c[i + 1..];
    assert f !in c[..i] && f !in c[i + 1..] by {
      forall j | 0 <= j < |c| && j != i
        ensures c[j] != f
      {
      }
    }
    WithoutSplit(c[..i], f, c[i + 1..]);
    WithoutNoDuplicates(c, f);
    var r := Without(c, f);
    assert r == c[..i] + c[i + 1..];
    assert r[..i] == c[..i];
    assert r[i] == c[i + 1];
  }

  lemma InsertPlaces(c: seq<nat>, i: nat, child: nat)
    requires NoDuplicates(c) && i < |c| && c[i] != child && child !in c[..i]
    ensures var d := Without(c, child);
      c[i] in d && PlacedAt(c, d[..IndexOf(d, c[i])] + [child] + d[IndexOf(d, c[i])..], i, child)
  {
    var f := c[i];
    assert child !in c[..i + 1] by {
      assert c[..i + 1] == c[..i] + [f];
    }
    var d := Without(c, child);
    WithoutKeepsPrefix(c, child, i + 1);
    WithoutNoDuplicates(c, child);
    assert d[..i] == c[..i + 1][..i];
    assert d[i] == f && f !in d[..i];
    IndexOfFirst(d, f, i);
    InsertAtPlaces(c, d, i, child);
  }

  lemma InsertAtPlaces(c: seq<nat>, d: seq<nat>, i: nat, child: nat)
    requires NoDuplicates(d) && child !in d && i < |d| && i < |c| && d[..i] == c[..i]
    requires forall y :: y in d <==> y in c && y != child
    ensures PlacedAt(c, d[..i] + [child] + d[i..], i, child)
  {
    InsertNoDuplicates(d, i, child);
    var r := d[..i] + [child] + d[i..];
    assert r[..i] == c[..i];
    assert d == d[..i] + d[i..];
  }

  lemma InsertNoDuplicates(d: seq<nat>, i: nat, x: nat)
    requires NoDuplicates(d) && i <= |d| && x !in d
    ensures NoDuplicates(d[..i] + [x] + d[i..])
  {
    var r := d[..i] + [x] + d[i..];
    forall a, b | 0 <= a < b < |r|
      ensures r[a] != r[b]
    {
      if a < i && b < i {
        assert r[a] == d[a] && r[b] == d[b];
      } else if a < i && b == i {
        assert r[a] == d[a];
      } else if a < i {
        assert r[a] == d[a] && r[b] == d[b - 1];
      } else if a == i {
        assert r[b] == d[b - 1];
      } else {
        assert r[a] == d[a - 1] && r[b] == d[b - 1];
      }
    }
  }

  lemma {:induction false} WithoutSplit(a: seq<nat>, x: nat, b: seq<nat>)
    requires x !in a && x !in b
    ensures Without(a + [x] + b, x) == a + b
  {
    if a == [] {
      assert ([x] + b)[1..] == b;
    } else {
      assert (a + [x] + b)[1..] == a[1..] + [x] + b;
      WithoutSplit(a[1..], x, b);
      assert a == [a[0]] + a[1..];
    }
  }

  /** `replaceChild` on a node behind the first `i` keeps them in place. */
  lemma ReplacePlaces(c: seq<nat>, i: nat, y: nat, x: nat)
    requires NoDuplicates(c) && i <= |c| && y in c && y !in c[..i] && x !in c
    ensures var r := c[IndexOf(c, y) := x];
      && NoDuplicates(r) && |r| == |c| && r[..i] == c[..i] && y !in r
      && forall z :: z in r ==> z == x || z in c
  {
    var p := IndexOf(c, y);
    assert p >= i;
    var r := c[p := x];
    assert r[..i] == c[..i];
    forall a, b | 0 <= a < b < |r|
      ensures r[a] != r[b]
    {
      if a != p && b != p {
        assert r[a] == c[a] && r[b] == c[b];
      } else if a == p {
        assert r[b] == c[b] && c[b] in c;
      } else {
        assert r[a] == c[a] && c[a] in c;
      }
    }
    forall z | z in r
      ensures z == x || z in c
    {
      var k :| 0 <= k < |r| && r[k] == z;
      if k != p {
        assert r[k] == c[k];
      }
    }
  }
}
