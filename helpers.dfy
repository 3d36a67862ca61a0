// String helpers of the library: `classNames`/`extractClass`, the HTML
// escaping of `encodeEntities`, and the two pieces of the observer that
// decide who hears of a change (`_getRootName`, `isInArray` and the filter
// in `onPropertyChanged`).

module Helpers {
  import opened JsValues

  /** `parts.join(sep)`. */
  function Join(parts: seq<string>, sep: string): (r: string)
    ensures parts == [] ==> r == ""
    ensures |parts| == 1 ==> r == parts[0]
  {
    if parts == [] then ""
    else if |parts| == 1 then parts[0]
    else parts[0] + sep + Join(parts[1..], sep)
  }

  lemma {:induction false} JoinAppend(a: seq<string>, b: seq<string>, sep: string)
    requires a != [] && b != []
    ensures Join(a + b, sep) == Join(a, sep) + sep + Join(b, sep)
    decreases |a|
  {
    if |a| == 1 {
      assert (a + b)[1..] == b;
    } else {
      JoinAppend(a[1..], b, sep);
      assert (a + b)[1..] == a[1..] + b;
    }
  }

  // ----- classNames / extractClass -----

  /** The classes one argument of `classNames` contributes: strings and
      numbers as themselves, a non-empty array as the joined result of its
      elements (when that is not empty), and any other object its own keys
      whose values are truthy. Falsy arguments, `true` and functions give
      nothing. */
  function ClassesOf(arg: Value): seq<string>
    decreases arg, 1
  {
    if !Truthy(arg) then []
    else match arg
      case Str(s) => [s]
      case Num(n) => [IntToString(n)]
      case Arr(_, xs) =>
        if xs == [] then []
        else
          var inner := Join(Classes(xs), " ");
          if inner != "" then [inner] else []
      case Obj(_, fields) => TruthyKeys(fields)
      case Node(v) =>
        (if v.nodeName.Tag? && v.nodeName.name == "" then [] else ["nodeName"]) + ["children"]
        + (if v.attributes.Some? then ["attributes"] else [])
        + (if Truthy(v.key) then ["key"] else [])
      case _ => []
  }

  /** The classes of each argument in turn. */
  function Classes(args: seq<Value>): seq<string>
    decreases args, 0
  {
    if args == [] then [] else ClassesOf(args[0]) + Classes(args[1..])
  }

  /** `for (key in arg) if (arg[key]) classes.push(key)` on a plain object. */
  function TruthyKeys(fields: seq<Field>): (keys: seq<string>)
    ensures forall k :: k in keys ==> exists f :: f in fields && f.name == k && Truthy(f.value)
  {
    if fields == [] then []
    else (if Truthy(fields[0].value) then [fields[0].name] else []) + TruthyKeys(fields[1..])
  }

  /** `classNames(...args)`. */
  function ClassNames(args: seq<Value>): string {
    Join(Classes(args), " ")
  }

  lemma {:induction false} ClassesAppend(a: seq<Value>, b: seq<Value>)
    ensures Classes(a + b) == Classes(a) + Classes(b)
    decreases |a|
  {
    if a == [] {
      assert a + b == b;
    } else {
      ClassesAppend(a[1..], b);
      assert (a + b)[0] == a[0] && (a + b)[1..] == a[1..] + b;
      assert Classes(a + b) == ClassesOf(a[0]) + (Classes(a[1..]) + Classes(b));
    }
  }

  /** Falsy arguments anywhere are ignored. */
  lemma FalsyArgumentIgnored(a: seq<Value>, x: Value, b: seq<Value>)
    requires !Truthy(x)
    ensures ClassNames(a + [x] + b) == ClassNames(a + b)
  {
    ClassesAppend(a + [x], b);
    ClassesAppend(a, [x]);
    ClassesAppend(a, b);
    assert [x][1..] == [];
    assert Classes([x]) == ClassesOf(x) + Classes([]);
    assert Classes(a + [x]) == Classes(a) + [];
    assert Classes(a + [x] + b) == Classes(a + b);
  }

  /** A nested array whose classes are not empty reads as if its elements
      were given in its place. */
  lemma NestedArrayFlattens(id: nat, xs: seq<Value>, rest: seq<Value>)
    requires ClassNames(xs) != ""
    ensures ClassNames([Arr(id, xs)] + rest) == ClassNames(xs + rest)
  {
    assert ([Arr(id, xs)] + rest)[1..] == rest;
    assert ClassesOf(Arr(id, xs)) == [ClassNames(xs)];
    ClassesAppend(xs, rest);
    if Classes(rest) != [] {
      JoinAppend([ClassNames(xs)], Classes(rest), " ");
      JoinAppend(Classes(xs), Classes(rest), " ");
    } else {
      assert Classes(xs) + Classes(rest) == Classes(xs);
    }
  }

  lemma ClassNamesExample()
    ensures ClassNames([Str("a"), Obj(0, [Field("b", Bool(true)), Field("c", Bool(false))]),
                        Arr(1, [Str("d"), Null]), Num(0), Num(7)]) == "a b d 7"
  {
    ExampleClasses();
    ExampleJoin();
  }

  lemma ExampleClasses()
    ensures Classes([Str("a"), Obj(0, [Field("b", Bool(true)), Field("c", Bool(false))]),
                     Arr(1, [Str("d"), Null]), Num(0), Num(7)]) == ["a", "b", "d", "7"]
  {
    var o := Obj(0, [Field("b", Bool(true)), Field("c", Bool(false))]);
    var args := [Str("a"), o, Arr(1, [Str("d"), Null]), Num(0), Num(7)];
    ExampleObject();
    ExampleArray();
    ExampleNumber();
    assert Classes(args[4..]) == ["7"] by {
      assert args[4..][1..] == [];
    }
    assert Classes(args[3..]) == ["7"] by {
      assert args[3..][1..] == args[4..];
    }
    assert Classes(args[2..]) == ["d", "7"] by {
      assert args[2..][1..] == args[3..];
    }
    assert Classes(args[1..]) == ["b", "d", "7"] by {
      assert args[1..][1..] == args[2..];
    }
  }

  lemma ExampleObject()
    ensures ClassesOf(Obj(0, [Field("b", Bool(true)), Field("c", Bool(false))])) == ["b"]
  {
    var fields := [Field("b", Bool(true)), Field("c", Bool(false))];
    assert fields[1..] == [Field("c", Bool(false))];
    assert fields[1..][1..] == [];
  }

  lemma ExampleArray()
    ensures ClassesOf(Arr(1, [Str("d"), Null])) == ["d"]
  {
    var inner := [Str("d"), Null];
    assert inner[1..] == [Null];
    assert inner[1..][1..] == [];
  }

  lemma ExampleNumber()
    ensures ClassesOf(Num(7)) == ["7"]
  {
    assert IntToString(7) == "7";
  }

  lemma ExampleJoin()
    ensures Join(["a", "b", "d", "7"], " ") == "a b d 7"
  {
    var cs := ["a", "b", "d", "7"];
    assert Join(cs[3..], " ") == "7";
    assert Join(cs[2..], " ") == "d 7" by { assert cs[2..][1..] == cs[3..]; }
    assert Join(cs[1..], " ") == "b d 7" by { assert cs[1..][1..] == cs[2..]; }
  }

  /** `extractClass(props, ...args)`: `props.class`, or failing that
      `props.className`, is moved (if truthy) in front of the arguments
      and deleted from `props`; with any arguments left the result is
      `{class: classNames(...)}`, else `undefined`. Returns the result and
      the props afterwards. */
  function ExtractClass(props: Option<map<string, Value>>, args: seq<Value>)
    : (r: (Option<map<string, Value>>, Option<map<string, Value>>))
    ensures props.None? ==> r.1 == props
    ensures r.0.Some? <==> (args != [] || (props.Some? && (Truthy(Get(props.value, "class")) || Truthy(Get(props.value, "className")))))
  {
    var (all, after) :=
      if props.None? then (args, props)
      else if Truthy(Get(props.value, "class")) then ([props.value["class"]] + args, Some(props.value - {"class"}))
      else if Truthy(Get(props.value, "className")) then ([props.value["className"]] + args, Some(props.value - {"className"}))
      else (args, props);
    (if all != [] then Some(map["class" := Str(ClassNames(all))]) else None, after)
  }

  /** `class` wins over `className`: only `class` is used and removed. */
  lemma ClassBeforeClassName(props: map<string, Value>, args: seq<Value>)
    requires Truthy(Get(props, "class")) && "className" in props
    ensures var (r, after) := ExtractClass(Some(props), args);
      && r == Some(map["class" := Str(ClassNames([props["class"]] + args))])
      && after == Some(props - {"class"}) && "className" in after.value
  {
  }

  // ----- encodeEntities -----

  /** `s.replace(/c/g, rep)` for a single character `c`. */
  function ReplaceAll(s: string, c: char, rep: string): (r: string)
    ensures c !in rep ==> c !in r
    ensures forall x :: x in r ==> x in s || x in rep
  {
    if s == [] then [] else (if s[0] == c then rep else [s[0]]) + ReplaceAll(s[1..], c, rep)
  }

  /** `encodeEntities(s)`: `&`, `<`, `>` and `"` replaced in that order. */
  function EncodeEntities(s: string): (r: string)
    ensures '<' !in r && '>' !in r && '"' !in r
  {
    ReplaceAll(ReplaceAll(ReplaceAll(ReplaceAll(s, '&', "&amp;"), '<', "&lt;"), '>', "&gt;"), '"', "&quot;")
  }

  /** The entity that stands for one character. */
  function Escape(c: char): string {
    if c == '&' then "&amp;"
    else if c == '<' then "&lt;"
    else if c == '>' then "&gt;"
    else if c == '"' then "&quot;"
    else [c]
  }

  /** Escaping character by character, the reference for `encodeEntities`. */
  function EscapeAll(s: string): string {
    if s == [] then [] else Escape(s[0]) + EscapeAll(s[1..])
  }

  lemma {:induction false} ReplaceAllAppend(a: string, b: string, c: char, rep: string)
    ensures ReplaceAll(a + b, c, rep) == ReplaceAll(a, c, rep) + ReplaceAll(b, c, rep)
    decreases |a|
  {
    if a == [] {
      assert a + b == b;
    } else {
      ReplaceAllAppend(a[1..], b, c, rep);
      assert (a + b)[0] == a[0] && (a + b)[1..] == a[1..] + b;
      var head := if a[0] == c then rep else [a[0]];
      assert ReplaceAll(a + b, c, rep) == head + (ReplaceAll(a[1..], c, rep) + ReplaceAll(b, c, rep));
    }
  }

  /** The four passes escape each character on its own: since `&` goes
      first, the `&` of a later entity is never escaped again. */
  lemma {:induction false} EncodeIsPerCharacter(s: string)
    ensures EncodeEntities(s) == EscapeAll(s)
    decreases |s|
  {
    if s != [] {
      var a, b := [s[0]], s[1..];
      assert s == a + b;
      var r1 := ReplaceAll(s, '&', "&amp;");
      ReplaceAllAppend(a, b, '&', "&amp;");
      var r2 := ReplaceAll(r1, '<', "&lt;");
      ReplaceAllAppend(ReplaceAll(a, '&', "&amp;"), ReplaceAll(b, '&', "&amp;"), '<', "&lt;");
      var a2, b2 := ReplaceAll(ReplaceAll(a, '&', "&amp;"), '<', "&lt;"), ReplaceAll(ReplaceAll(b, '&', "&amp;"), '<', "&lt;");
      ReplaceAllAppend(a2, b2, '>', "&gt;");
      var a3, b3 := ReplaceAll(a2, '>', "&gt;"), ReplaceAll(b2, '>', "&gt;");
      ReplaceAllAppend(a3, b3, '"', "&quot;");
      EncodeIsPerCharacter(b);
      EscapeOne(s[0]);
    }
  }

  lemma EscapeOne(c: char)
    ensures ReplaceAll(ReplaceAll(ReplaceAll(ReplaceAll([c], '&', "&amp;"), '<', "&lt;"), '>', "&gt;"), '"', "&quot;")
            == Escape(c)
  {
    var r1 := ReplaceAll([c], '&', "&amp;");
    var r2 := ReplaceAll(r1, '<', "&lt;");
    var r3 := ReplaceAll(r2, '>', "&gt;");
    var r4 := ReplaceAll(r3, '"', "&quot;");
    if c == '&' {
      EscapeAmp(r1, r2, r3, r4);
    } else if c == '<' {
      EscapeLt(r1, r2, r3, r4);
    } else if c == '>' {
      EscapeGt(r1, r2, r3, r4);
    } else {
      ReplaceAllSingle(c, '&', "&amp;");
      ReplaceAllSingle(c, '<', "&lt;");
      ReplaceAllSingle(c, '>', "&gt;");
      ReplaceAllSingle(c, '"', "&quot;");
    }
  }

  lemma EscapeAmp(r1: string, r2: string, r3: string, r4: string)
    requires r1 == ReplaceAll(['&'], '&', "&amp;") && r2 == ReplaceAll(r1, '<', "&lt;")
    requires r3 == ReplaceAll(r2, '>', "&gt;") && r4 == ReplaceAll(r3, '"', "&quot;")
    ensures r4 == "&amp;"
  {
    ReplaceAllSingle('&', '&', "&amp;");
    AmpFree();
  }

  lemma EscapeLt(r1: string, r2: string, r3: string, r4: string)
    requires r1 == ReplaceAll(['<'], '&', "&amp;") && r2 == ReplaceAll(r1, '<', "&lt;")
    requires r3 == ReplaceAll(r2, '>', "&gt;") && r4 == ReplaceAll(r3, '"', "&quot;")
    ensures r4 == "&lt;"
  {
    ReplaceAllSingle('<', '&', "&amp;");
    ReplaceAllSingle('<', '<', "&lt;");
    LtFree();
  }

  lemma EscapeGt(r1: string, r2: string, r3: string, r4: string)
    requires r1 == ReplaceAll(['>'], '&', "&amp;") && r2 == ReplaceAll(r1, '<', "&lt;")
    requires r3 == ReplaceAll(r2, '>', "&gt;") && r4 == ReplaceAll(r3, '"', "&quot;")
    ensures r4 == "&gt;"
  {
    ReplaceAllSingle('>', '&', "&amp;");
    ReplaceAllSingle('>', '<', "&lt;");
    ReplaceAllSingle('>', '>', "&gt;");
    GtFree();
  }

  /** The later replacements leave the earlier entities alone. */
  lemma AmpFree()
    ensures ReplaceAll("&amp;", '<', "&lt;") == "&amp;"
    ensures ReplaceAll("&amp;", '>', "&gt;") == "&amp;"
    ensures ReplaceAll("&amp;", '"', "&quot;") == "&amp;"
  {
    FreeOf5('&', 'a', 'm', 'p', ';', '<', "&lt;");
    FreeOf5('&', 'a', 'm', 'p', ';', '>', "&gt;");
    FreeOf5('&', 'a', 'm', 'p', ';', '"', "&quot;");
  }

  lemma LtFree()
    ensures ReplaceAll("&lt;", '>', "&gt;") == "&lt;"
    ensures ReplaceAll("&lt;", '"', "&quot;") == "&lt;"
  {
    FreeOf4('&', 'l', 't', ';', '>', "&gt;");
    FreeOf4('&', 'l', 't', ';', '"', "&quot;");
  }

  lemma GtFree()
    ensures ReplaceAll("&gt;", '"', "&quot;") == "&gt;"
  {
    FreeOf4('&', 'g', 't', ';', '"', "&quot;");
  }

  lemma FreeOf5(a: char, b: char, d: char, e: char, f: char, c: char, rep: string)
    requires c != a && c != b && c != d && c != e && c != f
    ensures ReplaceAll([a, b, d, e, f], c, rep) == [a, b, d, e, f]
  {
    ReplaceAllFree([a, b, d, e, f], c, rep);
  }

  lemma FreeOf4(a: char, b: char, d: char, e: char, c: char, rep: string)
    requires c != a && c != b && c != d && c != e
    ensures ReplaceAll([a, b, d, e], c, rep) == [a, b, d, e]
  {
    ReplaceAllFree([a, b, d, e], c, rep);
  }

  lemma ReplaceAllSingle(c: char, d: char, rep: string)
    ensures ReplaceAll([c], d, rep) == if c == d then rep else [c]
  {
    assert [c][1..] == [];
  }

  /** Replacing a character that does not occur changes nothing. */
  lemma {:induction false} ReplaceAllFree(s: string, c: char, rep: string)
    requires c !in s
    ensures ReplaceAll(s, c, rep) == s
    decreases |s|
  {
    if s != [] {
      ReplaceAllFree(s[1..], c, rep);
      assert s == [s[0]] + s[1..];
    }
  }

  /** Reading entities back, left to right. */
  function DecodeEntities(s: string): string
    decreases |s|
  {
    if s == [] then []
    else if |s| >= 5 && s[..5] == "&amp;" then "&" + DecodeEntities(s[5..])
    else if |s| >= 4 && s[..4] == "&lt;" then "<" + DecodeEntities(s[4..])
    else if |s| >= 4 && s[..4] == "&gt;" then ">" + DecodeEntities(s[4..])
    else if |s| >= 6 && s[..6] == "&quot;" then "\"" + DecodeEntities(s[6..])
    else [s[0]] + DecodeEntities(s[1..])
  }

  /** Encoding loses nothing: decoding gives the text back. */
  lemma EncodeDecode(s: string)
    ensures DecodeEntities(EncodeEntities(s)) == s
  {
    EncodeIsPerCharacter(s);
    DecodeEscaped(s);
  }

  lemma {:induction false} DecodeEscaped(s: string)
    ensures DecodeEntities(EscapeAll(s)) == s
    decreases |s|
  {
    if s != [] {
      DecodeEscaped(s[1..]);
      DecodeOne(s[0], EscapeAll(s[1..]));
      assert s == [s[0]] + s[1..];
    }
  }

  /** One escaped character is read back as itself. */
  lemma DecodeOne(c: char, rest: string)
    ensures DecodeEntities(Escape(c) + rest) == [c] + DecodeEntities(rest)
  {
    var t := Escape(c) + rest;
    if c == '&' {
      assert t[..5] == "&amp;" && t[5..] == rest;
    } else if c == '<' {
      assert t[..4] == "&lt;" && t[4..] == rest;
      assert !(|t| >= 5 && t[..5] == "&amp;") by { assert t[1] == 'l'; }
    } else if c == '>' {
      assert t[..4] == "&gt;" && t[4..] == rest;
      assert !(|t| >= 5 && t[..5] == "&amp;") by { assert t[1] == 'g'; }
      assert t[..4] != "&lt;" by { assert t[1] == 'g'; }
    } else if c == '"' {
      assert t[..6] == "&quot;" && t[6..] == rest;
      assert !(|t| >= 5 && t[..5] == "&amp;") by { assert t[1] == 'q'; }
      assert t[..4] != "&lt;" && t[..4] != "&gt;" by { assert t[1] == 'q'; }
    } else {
      assert t[0] == c && t[1..] == rest;
      assert !(|t| >= 5 && t[..5] == "&amp;") by { assert |t| >= 5 ==> t[..5][0] == c; }
      assert !(|t| >= 4 && (t[..4] == "&lt;" || t[..4] == "&gt;")) by { assert |t| >= 4 ==> t[..4][0] == c; }
      assert !(|t| >= 6 && t[..6] == "&quot;") by { assert |t| >= 6 ==> t[..6][0] == c; }
    }
  }

  // ----- the observer's change filter -----

  /** `s.split(sep)` for a one-character separator. */
  function Split(s: string, sep: char): (parts: seq<string>)
    ensures |parts| >= 1
    ensures forall i :: 0 <= i < |parts| ==> sep !in parts[i]
  {
    if s == [] then [""]
    else
      var rest := Split(s[1..], sep);
      if s[0] == sep then [""] + rest else [[s[0]] + rest[0]] + rest[1..]
  }

  /** Splitting and joining with the same separator round-trips. */
  lemma {:induction false} SplitJoin(s: string, sep: char)
    ensures Join(Split(s, sep), [sep]) == s
    decreases |s|
  {
    if s != [] {
      SplitJoin(s[1..], sep);
      var rest := Split(s[1..], sep);
      if s[0] == sep {
        JoinAppend([""], rest, [sep]);
      } else if |rest| > 1 {
        JoinAppend([rest[0]], rest[1..], [sep]);
        JoinAppend([[s[0]] + rest[0]], rest[1..], [sep]);
        assert rest == [rest[0]] + rest[1..];
      }
    }
  }

  /** `obaa._getRootName(prop, path)`: the property itself at the root
      (`#`), else the second `-`-separated segment of the path
      (`undefined` when there is none). */
  function GetRootName(prop: string, path: string): (r: Option<string>)
    ensures path == "#" ==> r == Some(prop)
    ensures path != "#" && r.Some? ==> '-' !in r.value
  {
    if path == "#" then Some(prop)
    else
      var parts := Split(path, '-');
      if |parts| > 1 then Some(parts[1]) else None
  }

  /** Below the root, the watched path `#-root-…` is attributed to `root`. */
  lemma RootOfNestedPath(prop: string, root: string, rest: string)
    requires '-' !in root && (rest == "" || rest[0] == '-')
    ensures GetRootName(prop, "#-" + root + rest) == Some(root)
  {
    var path := "#-" + root + rest;
    var tail := root + rest;
    assert path[1..] == "-" + tail && path[1..][1..] == tail;
    SplitPrefix(root, rest);
    var inner := Split(path[1..], '-');
    assert inner == [""] + Split(tail, '-');
    assert Split(path, '-') == [['#'] + inner[0]] + inner[1..];
  }

  lemma {:induction false} SplitPrefix(root: string, rest: string)
    requires '-' !in root && (rest == "" || rest[0] == '-')
    ensures Split(root + rest, '-')[0] == root
    decreases |root|
  {
    if root != [] {
      SplitPrefix(root[1..], rest);
      assert (root + rest)[1..] == root[1..] + rest;
    }
  }

  /** `obaa.isInArray(arr, item)`, scanning from the end with `===`. */
  method IsInArray(arr: seq<Value>, item: Value) returns (found: bool)
    ensures found <==> exists i :: 0 <= i < |arr| && StrictEquals(item, arr[i])
  {
    var i := |arr|;
    while i > 0
      invariant 0 <= i <= |arr|
      invariant forall j :: i <= j < |arr| ==> !StrictEquals(item, arr[j])
    {
      i := i - 1;
      if StrictEquals(item, arr[i]) {
        return true;
      }
    }
    return false;
  }

  /** A subscription: to every change (`all`) or to the listed root names. */
  datatype Handler = Handler(all: bool, eventPropArr: seq<Value>)

  /** Whether `handler` hears of a change under `rootName`: `None` when
      the test throws, which happens when the path has no root segment and
      the handler neither listens to all nor lists `undefined`. */
  function Hears(handler: Handler, rootName: Option<string>): Option<bool> {
    if handler.all then Some(true)
    else if exists i :: 0 <= i < |handler.eventPropArr| &&
                        StrictEquals(if rootName.Some? then Str(rootName.value) else Undefined, handler.eventPropArr[i])
    then Some(true)
    else if rootName.None? then None
    else Some(|rootName.value| >= 6 && rootName.value[..6] == "Array-")
  }

  /** The handlers from index `from` on, by index, that hear of a change,
      or `None` when one of the tests throws. */
  function Listeners(handlers: seq<Handler>, rootName: Option<string>, from: nat): Option<seq<nat>>
    requires from <= |handlers|
    decreases |handlers| - from
  {
    if from == |handlers| then Some([])
    else
      var heard := Hears(handlers[from], rootName);
      var rest := Listeners(handlers, rootName, from + 1);
      if heard.None? || rest.None? then None
      else Some((if heard.value then [from] else []) + rest.value)
  }

  /** The listeners found so far followed by those still to come. */
  function Combine(prefix: seq<nat>, rest: Option<seq<nat>>): Option<seq<nat>> {
    if rest.None? then None else Some(prefix + rest.value)
  }

  lemma CombineShift(prefix: seq<nat>, step: seq<nat>, rest: Option<seq<nat>>)
    ensures Combine(prefix, if rest.None? then None else Some(step + rest.value)) == Combine(prefix + step, rest)
  {
    if rest.Some? {
      assert prefix + (step + rest.value) == prefix + step + rest.value;
    }
  }

  /** The handler loop of `onPropertyChanged(prop, value, oldValue, …,
      path)`: nothing when the value is `===` the old one; otherwise the
      handlers that hear of it, in order, unless a test throws (the
      handlers before it have then already been called). */
  method NotifyHandlers(handlers: seq<Handler>, prop: string, value: Value, oldValue: Value, path: string)
      returns (called: seq<nat>, threw: bool)
    ensures StrictEquals(value, oldValue) ==> called == [] && !threw
    ensures !StrictEquals(value, oldValue) ==>
              (threw <==> Listeners(handlers, GetRootName(prop, path), 0).None?)
    ensures !StrictEquals(value, oldValue) && !threw ==>
              Listeners(handlers, GetRootName(prop, path), 0) == Some(called)
  {
    called := [];
    threw := false;
    if StrictEquals(value, oldValue) {
      return;
    }
    var rootName := GetRootName(prop, path);
    var key := if rootName.Some? then Str(rootName.value) else Undefined;
    var i := 0;
    assert Listeners(handlers, rootName, 0).Some? ==>
             [] + Listeners(handlers, rootName, 0).value == Listeners(handlers, rootName, 0).value;
    while i < |handlers|
      invariant 0 <= i <= |handlers|
      invariant Listeners(handlers, rootName, 0) == Combine(called, Listeners(handlers, rootName, i))
    {
      var handler := handlers[i];
      ghost var before := called;
      var listed := IsInArray(handler.eventPropArr, key);
      ghost var heard := Hears(handler, rootName);
      ghost var next := Listeners(handlers, rootName, i + 1);
      assert Listeners(handlers, rootName, i) ==
             if heard.None? || next.None? then None else Some((if heard.value then [i] else []) + next.value);
      if handler.all || listed {
        assert heard == Some(true);
        called := called + [i];
      } else if rootName.None? {
        assert heard == None;
        threw := true;
        return;
      } else if |rootName.value| >= 6 && rootName.value[..6] == "Array-" {
        assert heard == Some(true);
        called := called + [i];
      } else {
        assert heard == Some(false);
      }
      ghost var step := if heard.value then [i] else [];
      assert called == before + step;
      CombineShift(before, step, next);
      i := i + 1;
    }
    assert called + [] == called;
  }

  /** A change is never lost on a handler that listens to everything. */
  lemma AllHandlersHear(handlers: seq<Handler>, rootName: Option<string>, i: nat)
    requires i < |handlers| && handlers[i].all
    requires Listeners(handlers, rootName, 0).Some?
    ensures i in Listeners(handlers, rootName, 0).value
  {
    ListenersFrom(handlers, rootName, 0, i);
  }

  lemma {:induction false} ListenersFrom(handlers: seq<Handler>, rootName: Option<string>, from: nat, i: nat)
    requires from <= i < |handlers| && handlers[i].all
    requires Listeners(handlers, rootName, from).Some?
    ensures i in Listeners(handlers, rootName, from).value
    decreases i - from
  {
    if from < i {
      ListenersFrom(handlers, rootName, from + 1, i);
    }
  }
}
