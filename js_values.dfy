/** JavaScript values as the library sees them: primitives, references to
    objects in a heap, and the conversions and enumerations the library applies
    to them (`!!v`, `String(v)`, `Object.entries`, `JSON.stringify`).

    Objects live in a heap, a map from object identities to property tables,
    so that two names for the same object are visible in the model: the
    library's merges write through such shared references. */
module JsValues {
  import opened JsStrings

  type ObjId = nat

  /** `PlainObject` is an object whose `constructor` is `Object` (an object
      literal); arrays and every other kind of object are told apart from it. */
  datatype Kind = PlainObject | ArrayObject | OtherObject

  datatype Value =
    | Undefined
    | Null
    | Bool(b: bool)
    | Num(n: int)
    | Str(s: string)
      /** An object in the heap. */
    | ObjRef(id: ObjId)
      /** A host object that the heap does not hold: a component or a DOM node. */
    | Host(hostId: nat)

  /** An object: its kind, its own enumerable keys in enumeration order, and
      their values. */
  datatype JsObject = JsObject(kind: Kind, keys: seq<string>, props: map<string, Value>)

  type Heap = map<ObjId, JsObject>

  /** The exceptions the modelled code can throw. */
  datatype JsError =
    | TypeError
    | RangeError
    | SyntaxError
    | InvalidCharacterError
    | Error(message: string)

  datatype Option<T> = None | Some(value: T)

  /** The completion of a call that may throw. */
  datatype Result<T> = Ok(value: T) | Throw(error: JsError)

  predicate Distinct<T(==)>(xs: seq<T>) {
    forall i, j :: 0 <= i < j < |xs| ==> xs[i] != xs[j]
  }

  /** The key list enumerates exactly the properties, each once. */
  predicate ObjWf(o: JsObject) {
    Distinct(o.keys) && (forall k :: k in o.props ==> k in o.keys) && (forall k :: k in o.keys ==> k in o.props)
  }

  predicate HeapWf(h: Heap) {
    forall id {:trigger ObjWf(h[id])} :: id in h ==> ObjWf(h[id])
  }

  /** `{}` */
  function EmptyObject(): JsObject {
    JsObject(PlainObject, [], map[])
  }

  /** `!!v` */
  predicate Truthy(v: Value) {
    match v
    case Undefined => false
    case Null => false
    case Bool(b) => b
    case Num(n) => n != 0
    case Str(s) => s != []
    case ObjRef(_) => true
    case Host(_) => true
  }

  /** `v && v.constructor == Object` */
  predicate IsPlain(h: Heap, v: Value) {
    v.ObjRef? && v.id in h && h[v.id].kind == PlainObject
  }

  /** `v == undefined || v == null` */
  predicate IsNil(v: Value) {
    v.Undefined? || v.Null?
  }

  /** `obj[k]` for an object in the heap; a missing key reads `undefined`. */
  function Get(h: Heap, id: ObjId, k: string): Value {
    if id in h && k in h[id].props then h[id].props[k] else Undefined
  }

  /** `o[k] = v` on an object: an existing key keeps its place, a new key
      goes last. */
  function PutObj(o: JsObject, k: string, v: Value): (r: JsObject)
    ensures r.kind == o.kind && r.props == o.props[k := v]
    ensures k in o.props ==> r.keys == o.keys
    ensures k !in o.props ==> r.keys == o.keys + [k]
  {
    JsObject(o.kind, if k in o.props then o.keys else o.keys + [k], o.props[k := v])
  }

  /** Setting a property keeps an object well formed. */
  lemma PutObjWf(o: JsObject, k: string, v: Value)
    requires ObjWf(o)
    ensures ObjWf(PutObj(o, k, v))
  {
  }

  /** `obj[k] = v` for an object in the heap. */
  function Put(h: Heap, id: ObjId, k: string, v: Value): (r: Heap)
    requires id in h
    ensures r.Keys == h.Keys && r[id] == PutObj(h[id], k, v)
    ensures forall x :: x in h && x != id ==> r[x] == h[x]
  {
    h[id := PutObj(h[id], k, v)]
  }

  /** `String(v)`. Objects render as `[object Object]`; the comma-joined
      rendering of arrays is not part of this model. */
  function ToJsString(v: Value): string {
    match v
    case Undefined => "undefined"
    case Null => "null"
    case Bool(b) => if b then "true" else "false"
    case Num(n) => IntToString(n)
    case Str(s) => s
    case ObjRef(_) => "[object Object]"
    case Host(_) => "[object Object]"
  }

  /** What a DOM string property (`value`, `innerText`, `innerHTML`) holds
      after `v` is assigned to it: `null` becomes the empty string, anything
      else its `String` rendering. */
  function DomString(v: Value): (r: string)
    ensures v.Str? ==> r == v.s
    ensures v.Null? ==> r == []
  {
    if v.Null? then [] else ToJsString(v)
  }

  predicate IsDigit(c: char) {
    '0' <= c <= '9'
  }

  /** The value of a run of decimal digits; none when the run is empty or
      holds anything else. */
  function DigitsValue(s: string): (r: Option<nat>)
    ensures r.Some? ==> s != [] && IsDigit(s[0])
  {
    if s == [] || !IsDigit(s[|s| - 1]) then None
    else if |s| == 1 then Some(s[0] as int - '0' as int)
    else
      match DigitsValue(s[..|s| - 1])
      case None => None
      case Some(v) => Some(10 * v + (s[|s| - 1] as int - '0' as int))
  }

  /** `Number(s)` where that is an integer written as an optional sign and
      decimal digits, white space around it ignored; an empty or all-space
      string is 0. `None` stands for every other string. */
  function IntegerOfString(s: string): Option<int> {
    SignedDigits(Trim(s))
  }

  /** An optional sign followed by decimal digits, or the empty string (0). */
  function SignedDigits(t: string): Option<int> {
    if t == [] then Some(0)
    else if t[0] == '-' then
      match DigitsValue(t[1..])
      case None => None
      case Some(v) => Some(-(v as int))
    else if t[0] == '+' then
      match DigitsValue(t[1..])
      case None => None
      case Some(v) => Some(v)
    else
      match DigitsValue(t)
      case None => None
      case Some(v) => Some(v)
  }

  /** `v == s` (loose equality) for a string `s`: strings compare as
      strings, numbers and booleans as numbers, `null` and `undefined` equal
      no string, and an object compares by its string rendering. */
  predicate LooseEqualsString(v: Value, s: string) {
    match v
    case Str(t) => t == s
    case Num(k) => IntegerOfString(s) == Some(k)
    case Bool(b) => IntegerOfString(s) == Some(if b then 1 else 0)
    case Undefined => false
    case Null => false
    case _ => ToJsString(v) == s
  }

  lemma DigitCharValue(d: nat)
    requires d < 10
    ensures IsDigit(DigitChar(d)) && DigitChar(d) as int - '0' as int == d
  {
    if d == 0 {} else if d == 1 {} else if d == 2 {} else if d == 3 {} else if d == 4 {}
    else if d == 5 {} else if d == 6 {} else if d == 7 {} else if d == 8 {} else {}
  }

  /** Reading back the decimal rendering of a natural number gives the
      number. */
  lemma {:induction false} DigitsOfNat(n: nat)
    ensures DigitsValue(NatToString(n)) == Some(n)
    decreases n
  {
    var s := NatToString(n);
    if n < 10 {
      DigitCharValue(n);
    } else {
      DigitsOfNat(n / 10);
      DigitCharValue(n % 10);
      assert s[..|s| - 1] == NatToString(n / 10);
      assert s[|s| - 1] == DigitChar(n % 10);
    }
  }

  lemma {:induction false} NatStringDigits(n: nat)
    ensures forall i :: 0 <= i < |NatToString(n)| ==> IsDigit(NatToString(n)[i])
    decreases n
  {
    DigitCharValue(n % 10);
    if n >= 10 {
      NatStringDigits(n / 10);
    }
  }

  lemma IntStringNoSpace(k: int)
    ensures NoSpace(IntToString(k))
  {
    var s := IntToString(k);
    var d := NatToString(if k < 0 then -k else k);
    NatStringDigits(if k < 0 then -k else k);
    forall i | 0 <= i < |s|
      ensures !IsJsSpace(s[i])
    {
      if k < 0 && i > 0 {
        assert s[i] == d[i - 1];
      }
    }
  }

  /** `Number(String(k)) == k`: the rendering of an integer reads back as
      that integer. */
  lemma IntegerOfIntString(k: int)
    ensures IntegerOfString(IntToString(k)) == Some(k)
  {
    IntStringNoSpace(k);
    TrimNoSpace(IntToString(k));
    if k < 0 {
      SignedNegative(-k);
    } else {
      SignedNatural(k);
    }
  }

  lemma SignedNegative(n: nat)
    requires n > 0
    ensures SignedDigits(IntToString(-(n as int))) == Some(-(n as int))
  {
    var d := NatToString(n);
    DigitsOfNat(n);
    var s := IntToString(-(n as int));
    assert s == "-" + d;
    assert s[0] == '-' && s[1..] == d;
  }

  lemma SignedNatural(n: nat)
    ensures SignedDigits(IntToString(n)) == Some(n)
  {
    DigitsOfNat(n);
  }

  /** The keys `for (key in v)` visits: an object's own keys, a string's
      indices, nothing for other primitives (and no exception for `null`). */
  function ForInKeys(h: Heap, v: Value): seq<string> {
    match v
    case ObjRef(id) => if id in h then h[id].keys else []
    case Str(s) => seq(|s|, i requires 0 <= i < |s| => IntToString(i))
    case _ => []
  }

  /** `v[keys[i]]` for the i-th key `for (key in v)` visits. */
  function ForInValue(h: Heap, v: Value, i: nat, k: string): Value {
    match v
    case ObjRef(id) => Get(h, id, k)
    case Str(s) => if i < |s| then Str([s[i]]) else Undefined
    case _ => Undefined
  }

  /** `Object.entries(v)`: throws for `null` and `undefined`. */
  function Entries(h: Heap, v: Value): (r: Result<seq<(string, Value)>>)
    ensures r.Throw? <==> IsNil(v)
    ensures v.ObjRef? && v.id in h ==> r == Ok(seq(|h[v.id].keys|, i requires 0 <= i < |h[v.id].keys| => (h[v.id].keys[i], Get(h, v.id, h[v.id].keys[i]))))
  {
    match v
    case Undefined => Throw(TypeError)
    case Null => Throw(TypeError)
    case ObjRef(id) =>
      if id in h then Ok(seq(|h[id].keys|, i requires 0 <= i < |h[id].keys| => (h[id].keys[i], Get(h, id, h[id].keys[i]))))
      else Ok([])
    case Str(s) => Ok(seq(|s|, i requires 0 <= i < |s| => (IntToString(i), Str([s[i]]))))
    case _ => Ok([])
  }

  /** The outcome of `JSON.stringify(v)`: a text, `undefined` (for
      `undefined` itself), or a `TypeError` for a circular structure. */
  datatype Serialized = Text(text: string) | NoText | Circular

  /** `JSON.stringify(v)`. Object members whose value serializes to nothing are
      skipped, array elements that do become `null`; an object met again on the
      path from the root is a cycle. A host object serializes as `{}`. */
  function Stringify(h: Heap, v: Value): Serialized {
    Ser(h, v, {})
  }

  function Ser(h: Heap, v: Value, path: set<ObjId>): Serialized
    decreases h.Keys - path, 0, 0
  {
    match v
    case Undefined => NoText
    case Null => Text("null")
    case Bool(b) => Text(if b then "true" else "false")
    case Num(n) => Text(IntToString(n))
    case Str(s) => Text(Quote(s))
    case Host(_) => Text("{}")
    case ObjRef(id) =>
      if id !in h then NoText
      else if id in path then Circular
      else
        var body := SerMembers(h, id, h[id].keys, path + {id});
        if body.CircularMember? then Circular
        else if h[id].kind == ArrayObject then Text("[" + Join(body.items, ",") + "]")
        else Text("{" + Join(body.items, ",") + "}")
  }

  datatype Members = Members(items: seq<string>) | CircularMember

  /** The serialized members of object `id` for the keys `ks`. */
  function SerMembers(h: Heap, id: ObjId, ks: seq<string>, path: set<ObjId>): Members
    requires id in h
    decreases h.Keys - path, 1, |ks|
  {
    if ks == [] then Members([])
    else
      var init := SerMembers(h, id, ks[..|ks| - 1], path);
      var k := ks[|ks| - 1];
      var item := Ser(h, Get(h, id, k), path);
      if init.CircularMember? || item.Circular? then CircularMember
      else if h[id].kind == ArrayObject then
        Members(init.items + [if item.Text? then item.text else "null"])
      else if item.Text? then Members(init.items + [Quote(k) + ":" + item.text])
      else init
  }

  /** A JSON string literal. */
  function Quote(s: string): string {
    "\"" + Escape(s) + "\""
  }

  function Escape(s: string): string {
    if s == [] then [] else EscapeChar(s[0]) + Escape(s[1..])
  }

  function HexDigit(d: nat): char
    requires d < 16
  {
    ['0', '1', '2', '3', '4', '5', '6', '7', '8', '9', 'a', 'b', 'c', 'd', 'e', 'f'][d]
  }

  function EscapeChar(c: char): string {
    if c == '"' then "\\\""
    else if c == '\\' then "\\\\"
    else if c == '\U{0008}' then "\\b"
    else if c == '\U{000C}' then "\\f"
    else if c == '\n' then "\\n"
    else if c == '\r' then "\\r"
    else if c == '\t' then "\\t"
    else if (c as int) < 0x20 then "\\u00" + [HexDigit((c as int) / 16), HexDigit((c as int) % 16)]
    else [c]
  }

  /** The heap of the running program. Objects are never freed; `next` is
      above every identity in use, so allocation is fresh. */
  class JsHeap {
    var objs: Heap
    var next: nat
    /** How many nested calls the host's stack admits before it throws a
        `RangeError`. */
    const limit: nat

    ghost predicate Valid()
      reads this
    {
      HeapWf(objs) && forall id :: id in objs ==> id < next
    }

    constructor (limit: nat)
      ensures Valid() && objs == map[] && this.limit == limit
    {
      objs := map[];
      next := 0;
      this.limit := limit;
    }

    /** Allocates `o` under a fresh identity. */
    method Alloc(o: JsObject) returns (id: ObjId)
      requires Valid() && ObjWf(o)
      modifies this
      ensures Valid()
      ensures id == old(next) && next == old(next) + 1
      ensures id !in old(objs) && objs == old(objs)[id := o]
    {
      id := next;
      objs := objs[id := o];
      next := next + 1;
    }
  }
}
