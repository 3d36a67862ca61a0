// The JavaScript values the library handles, reduced to what its logic
// inspects: nullishness, truthiness, `typeof`, loose and strict equality,
// and the decimal text of integer numbers.

module JsValues {

  datatype Option<T> = None | Some(value: T)

  /** The type tag of a virtual node: an intrinsic element name, or a
      reference to a component constructor (identified by a number). */
  datatype NodeName = Tag(name: string) | Ctor(cid: nat)

  /** A JavaScript value. Objects, arrays and functions carry an identity so
      that `===` compares them by reference; a plain object also lists its own
      enumerable properties in enumeration order. Numbers are integers. */
  datatype Value =
    | Undefined
    | Null
    | Bool(b: bool)
    | Num(n: int)
    | Str(s: string)
    | Func(fid: nat)
    | Obj(oid: nat, fields: seq<Field>)
    | Arr(aid: nat, elems: seq<Value>)
    | Node(vnode: VNode)

  datatype Field = Field(name: string, value: Value)

  /** A virtual node as built by `h`: its type tag, its flat child list, its
      attribute object (absent when `h` was given none) and its key. */
  datatype VNode = VNode(nodeName: NodeName, children: seq<Value>,
                         attributes: Option<map<string, Value>>, key: Value)

  /** `v == null` in JavaScript. */
  predicate Nullish(v: Value) {
    v.Undefined? || v.Null?
  }

  /** JavaScript truthiness. */
  predicate Truthy(v: Value) {
    match v
    case Undefined => false
    case Null => false
    case Bool(b) => b
    case Num(n) => n != 0
    case Str(s) => s != ""
    case _ => true
  }

  /** `typeof v == 'function' || typeof v == 'object'`; note that
      `typeof null` is `'object'`. */
  predicate IsObjectOrFunction(v: Value) {
    v.Null? || v.Func? || v.Obj? || v.Arr? || v.Node?
  }

  /** A property read `o[name]` on a dictionary object: `undefined` when absent. */
  function Get(m: map<string, Value>, name: string): (r: Value)
    ensures name !in m ==> r == Undefined
    ensures name in m ==> r == m[name]
  {
    if name in m then m[name] else Undefined
  }

  /** A property read `o[name]` on a plain object listed field by field. */
  function FieldValue(fields: seq<Field>, name: string): (r: Value)
    ensures r != Undefined ==> exists k :: 0 <= k < |fields| && fields[k].name == name && fields[k].value == r
  {
    if fields == [] then Undefined
    else if fields[0].name == name then fields[0].value
    else FieldValue(fields[1..], name)
  }

  // ----- decimal text of integers (`String(n)`) -----

  function DigitChar(d: nat): (c: char)
    requires d < 10
    ensures '0' <= c <= '9'
  {
    "0123456789"[d]
  }

  function NatToString(n: nat): (s: string)
    ensures |s| > 0
    ensures forall i :: 0 <= i < |s| ==> '0' <= s[i] <= '9'
    decreases n
  {
    if n < 10 then [DigitChar(n)] else NatToString(n / 10) + [DigitChar(n % 10)]
  }

  /** `String(n)` for an integer-valued number. */
  function IntToString(n: int): (s: string)
    ensures |s| > 0
    ensures n >= 0 <==> s[0] != '-'
  {
    if n >= 0 then NatToString(n) else "-" + NatToString(-n)
  }

  /** Inverse of `NatToString` on digit strings. */
  function DigitsValue(s: string): (n: nat)
    requires forall i :: 0 <= i < |s| ==> '0' <= s[i] <= '9'
    decreases |s|
  {
    if s == [] then 0 else 10 * DigitsValue(s[..|s| - 1]) + (s[|s| - 1] - '0') as nat
  }

  lemma {:induction false} DigitsOfNat(n: nat)
    ensures DigitsValue(NatToString(n)) == n
    decreases n
  {
    var s := NatToString(n);
    if n >= 10 {
      DigitsOfNat(n / 10);
      assert s[..|s| - 1] == NatToString(n / 10);
    }
  }

  /** Different numbers never share a decimal text. */
  lemma IntToStringInjective(a: int, b: int)
    requires IntToString(a) == IntToString(b)
    ensures a == b
  {
    if a >= 0 {
      DigitsOfNat(a);
      DigitsOfNat(b);
    } else {
      assert IntToString(a)[1..] == NatToString(-a);
      assert IntToString(b)[1..] == NatToString(-b);
      DigitsOfNat(-a);
      DigitsOfNat(-b);
    }
  }

  /** `Number(s)` for the strings this model interprets: an optional sign
      followed by decimal digits (the empty string is 0). Every other string
      yields NaN, here `None`. */
  function ToNumber(s: string): (r: Option<int>)
    ensures s == "" ==> r == Some(0)
  {
    if s == "" then Some(0)
    else if s[0] == '-' && |s| > 1 && AllDigits(s[1..]) then Some(-(DigitsValue(s[1..]) as int))
    else if s[0] == '+' && |s| > 1 && AllDigits(s[1..]) then Some(DigitsValue(s[1..]))
    else if AllDigits(s) then Some(DigitsValue(s))
    else None
  }

  predicate AllDigits(s: string) {
    forall i :: 0 <= i < |s| ==> '0' <= s[i] <= '9'
  }

  /** Reading back the decimal text of an integer gives the integer. */
  lemma ToNumberOfIntToString(n: int)
    ensures ToNumber(IntToString(n)) == Some(n)
  {
    DigitsOfNat(if n >= 0 then n else -n);
    if n < 0 {
      assert IntToString(n)[1..] == NatToString(-n);
    }
  }

  function BoolToNumber(b: bool): int {
    if b then 1 else 0
  }

  /** The number a primitive converts to under `==`; `None` for NaN and for
      the values `==` does not convert this way. */
  function PrimitiveNumber(v: Value): Option<int> {
    match v
    case Bool(b) => Some(BoolToNumber(b))
    case Num(n) => Some(n)
    case Str(s) => ToNumber(s)
    case _ => None
  }

  /** JavaScript loose equality `a == b` where `a` is a primitive
      (undefined, boolean, number or string). Comparing a primitive with an
      object would call the object's conversion methods; the model treats
      that comparison as unequal. */
  predicate LooseEquals(a: Value, b: Value)
    requires a.Undefined? || a.Bool? || a.Num? || a.Str?
  {
    if a.Undefined? then Nullish(b)
    else if Nullish(b) || b.Func? || b.Obj? || b.Arr? || b.Node? then false
    else if a.Str? && b.Str? then a.s == b.s
    else PrimitiveNumber(a).Some? && PrimitiveNumber(a) == PrimitiveNumber(b)
  }

  /** JavaScript strict equality `a === b`: objects, arrays and functions
      by identity, primitives by value. Virtual nodes have no identity in
      this model and compare by value. */
  predicate StrictEquals(a: Value, b: Value) {
    match a
    case Func(f) => b.Func? && b.fid == f
    case Obj(o, _) => b.Obj? && b.oid == o
    case Arr(r, _) => b.Arr? && b.aid == r
    case _ => a == b
  }

  /** No element occurs twice. */
  ghost predicate NoDuplicates<T>(s: seq<T>) {
    forall i, j :: 0 <= i < j < |s| ==> s[i] != s[j]
  }

  /** `s` back to front. */
  function Reverse<T>(s: seq<T>): (r: seq<T>)
    ensures |r| == |s|
    ensures forall i :: 0 <= i < |s| ==> r[i] == s[|s| - 1 - i]
  {
    if s == [] then [] else Reverse(s[1..]) + [s[0]]
  }

  // ----- ASCII case folding (`toLowerCase`) -----

  function LowerChar(c: char): (r: char)
    ensures 'A' <= c <= 'Z' ==> r == c + ('a' - 'A') as char
    ensures !('A' <= c <= 'Z') ==> r == c
  {
    if 'A' <= c <= 'Z' then (c as int + 32) as char else c
  }

  /** `s.toLowerCase()` on ASCII letters. */
  function ToLower(s: string): (r: string)
    ensures |r| == |s|
    ensures forall i :: 0 <= i < |s| ==> r[i] == LowerChar(s[i])
  {
    seq(|s|, i requires 0 <= i < |s| => LowerChar(s[i]))
  }

  lemma ToLowerIdempotent(s: string)
    ensures ToLower(ToLower(s)) == ToLower(s)
  {
  }
}
