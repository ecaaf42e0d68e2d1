/** The built-in DOM directives' render callbacks (`src/directives.js`): each
    receives the node and the result of the directive's compiled expression
    and writes a property of the node only when it differs from what the
    result asks for. Every callback is a method on the document, specified by
    a function giving the node it leaves and a count of the writes it makes
    (each write is a DOM mutation); lemmas state what the node holds
    afterwards and that a second call with the same result writes nothing.

    The result of the compiled expression is a parameter; objects it refers
    to are read from the heap `h`. */
module Directives {
  import opened JsStrings
  import opened JsValues
  import opened Dom

  /** The node a callback leaves, how many writes it made, and the exception
      that stopped it, if any. */
  datatype Applied<T> = Applied(target: T, writes: nat, error: Option<JsError>)

  // ---------------------------------------------------------------------------
  // d-show

  const HiddenClass: string := "d-render-hidden"

  /** `classList.contains('d-render-hidden') !== shouldHide`, where
      `shouldHide` is `!result`. */
  predicate ShowWrites(n: NodeRec, result: Value) {
    HasClass(n, HiddenClass) == Truthy(result)
  }

  /** The node after the `d-show` callback. */
  function ShowNode(n: NodeRec, result: Value): NodeRec {
    if ShowWrites(n, result) then ToggleClass(n, HiddenClass, !Truthy(result)).value else n
  }

  /** After `d-show` the node is hidden exactly when the result is falsy; no
      other class and no other attribute or property changed. */
  lemma ShowEffect(n: NodeRec, result: Value)
    ensures var m := ShowNode(n, result);
            && HasClass(m, HiddenClass) == !Truthy(result)
            && (forall t :: t != HiddenClass ==> (HasClass(m, t) <==> HasClass(n, t)))
            && (forall a :: a != "class" ==> (a in m.attrs <==> a in n.attrs) && (a in n.attrs ==> m.attrs[a] == n.attrs[a]))
            && m == n.(attrs := m.attrs)
  {
    if ShowWrites(n, result) {
      ToggleEffect(n, HiddenClass, !Truthy(result));
    }
  }

  /** A second `d-show` with the same result does not write. */
  lemma ShowSettles(n: NodeRec, result: Value)
    ensures !ShowWrites(ShowNode(n, result), result)
    ensures ShowNode(ShowNode(n, result), result) == ShowNode(n, result)
  {
    ShowEffect(n, result);
  }

  /** The `d-show` callback; `wrote` says whether it toggled the class. */
  method Show(doc: Document, id: NodeId, result: Value) returns (wrote: bool)
    requires doc.Valid() && id in doc.nodes
    modifies doc
    ensures doc.Valid() && doc.next == old(doc.next)
    ensures wrote == ShowWrites(old(doc.nodes[id]), result)
    ensures doc.nodes == old(doc.nodes)[id := ShowNode(old(doc.nodes[id]), result)]
  {
    var n := doc.nodes[id];
    wrote := HasClass(n, HiddenClass) == Truthy(result);
    if wrote {
      doc.Update(id, ToggleClass(n, HiddenClass, !Truthy(result)).value);
    }
  }

  // ---------------------------------------------------------------------------
  // d-class

  /** `typeof v == 'object'`: `null`, objects, and the host's objects. */
  predicate IsObjectType(v: Value) {
    v.Null? || v.ObjRef? || v.Host?
  }

  /** One entry `[name, state]` of an object result: the class is toggled to
      `!!state` when its membership differs; `toggle` throws for an empty
      name or one with white space. */
  function ClassStep(n: NodeRec, name: string, state: Value): (r: Applied<NodeRec>)
    ensures r.writes <= 1
  {
    if HasClass(n, name) == Truthy(state) then Applied(n, 0, None)
    else
      match ToggleClass(n, name, Truthy(state))
      case Ok(m) => Applied(m, 1, None)
      case Throw(e) => Applied(n, 0, Some(e))
  }

  /** The entries of an object result in order, stopping at the first
      exception. */
  function ClassEntries(n: NodeRec, es: seq<(string, Value)>): (r: Applied<NodeRec>)
    ensures r.writes <= |es|
  {
    if es == [] then Applied(n, 0, None)
    else
      var a := ClassEntries(n, es[..|es| - 1]);
      if a.error.Some? then a
      else
        var b := ClassStep(a.target, es[|es| - 1].0, es[|es| - 1].1);
        Applied(b.target, a.writes + b.writes, b.error)
  }

  function Names(es: seq<(string, Value)>): (r: seq<string>)
    ensures |r| == |es| && forall i :: 0 <= i < |es| ==> r[i] == es[i].0
  {
    seq(|es|, i requires 0 <= i < |es| => es[i].0)
  }

  /** When no entry throws and the names are distinct, each named class is
      present exactly when its state is truthy, and every other class is as
      it was. */
  lemma {:induction false} ClassEntriesEffect(n: NodeRec, es: seq<(string, Value)>)
    requires Distinct(Names(es)) && ClassEntries(n, es).error.None?
    ensures var m := ClassEntries(n, es).target;
            && (forall i :: 0 <= i < |es| ==> (HasClass(m, es[i].0) <==> Truthy(es[i].1)))
            && (forall t :: t !in Names(es) ==> (HasClass(m, t) <==> HasClass(n, t)))
            && m == n.(attrs := m.attrs)
  {
    if es != [] {
      var init := es[..|es| - 1];
      var last := es[|es| - 1];
      assert Names(init) == Names(es)[..|es| - 1];
      ClassEntriesEffect(n, init);
      var a := ClassEntries(n, init);
      var m := ClassEntries(n, es).target;
      if HasClass(a.target, last.0) != Truthy(last.1) {
        ToggleEffect(a.target, last.0, Truthy(last.1));
      }
      forall i | 0 <= i < |es|
        ensures HasClass(m, es[i].0) <==> Truthy(es[i].1)
      {
        if i < |es| - 1 {
          assert Names(es)[i] != Names(es)[|es| - 1];
          assert es[i] == init[i];
        }
      }
      forall t | t !in Names(es)
        ensures HasClass(m, t) <==> HasClass(n, t)
      {
        assert t !in Names(init);
        assert t != last.0 by {
          assert Names(es)[|es| - 1] == last.0;
        }
      }
    }
  }

  /** A second pass over the same entries writes nothing. */
  lemma ClassEntriesSettle(n: NodeRec, es: seq<(string, Value)>)
    requires Distinct(Names(es)) && ClassEntries(n, es).error.None?
    ensures var m := ClassEntries(n, es).target;
            ClassEntries(m, es) == Applied(m, 0, None)
  {
    var m := ClassEntries(n, es).target;
    ClassEntriesEffect(n, es);
    ClassEntriesSettlePrefix(m, es, |es|);
    assert es[..|es|] == es;
  }

  lemma {:induction false} ClassEntriesSettlePrefix(m: NodeRec, es: seq<(string, Value)>, j: nat)
    requires j <= |es|
    requires forall i :: 0 <= i < |es| ==> (HasClass(m, es[i].0) <==> Truthy(es[i].1))
    ensures ClassEntries(m, es[..j]) == Applied(m, 0, None)
  {
    if j > 0 {
      ClassEntriesSettlePrefix(m, es, j - 1);
      assert es[..j][..j - 1] == es[..j - 1];
      assert es[..j][j - 1] == es[j - 1];
    }
  }

  /** Once an entry throws, the later entries are not looked at. */
  lemma {:induction false} ClassEntriesStop(n: NodeRec, es: seq<(string, Value)>, j: nat)
    requires j <= |es| && ClassEntries(n, es[..j]).error.Some?
    ensures ClassEntries(n, es) == ClassEntries(n, es[..j])
  {
    if j == |es| {
      assert es[..j] == es;
    } else {
      var init := es[..|es| - 1];
      assert init[..j] == es[..j];
      ClassEntriesStop(n, init, j);
    }
  }

  /** `${originalClassName || ''} ${result}`.trim(), the class name of the
      string form. */
  function ClassString(originalClassName: Value, result: Value): (s: string)
    ensures Trimmed(s)
  {
    var base := if Truthy(originalClassName) then ToJsString(originalClassName) else "";
    TrimEnds(base + " " + ToJsString(result));
    Trim(base + " " + ToJsString(result))
  }

  /** Neither leading nor trailing white space, as `trim` leaves a string. */
  predicate Trimmed(s: string) {
    s == [] || (!IsJsSpace(s[0]) && !IsJsSpace(s[|s| - 1]))
  }

  /** The `d-class` callback: an object result (or `null`, for which
      `Object.entries` throws) toggles classes entry by entry; any other
      result sets `className` to the original class name followed by the
      result, when it differs. */
  function ClassNode(h: Heap, n: NodeRec, result: Value, originalClassName: Value): (r: Applied<NodeRec>)
    ensures !IsObjectType(result) ==> r.error.None?
    ensures result.Null? ==> r == Applied(n, 0, Some(TypeError))
  {
    if IsObjectType(result) then
      match Entries(h, result)
      case Throw(e) => Applied(n, 0, Some(e))
      case Ok(es) => ClassEntries(n, es)
    else
      var s := ClassString(originalClassName, result);
      if ClassName(n) != s then Applied(n.(attrs := n.attrs["class" := s]), 1, None)
      else Applied(n, 0, None)
  }

  /** With a result that is not an object, the class name becomes the
      original class name and the result, and a second call writes nothing. */
  lemma ClassStringEffect(h: Heap, n: NodeRec, result: Value, originalClassName: Value)
    requires !IsObjectType(result)
    ensures var m := ClassNode(h, n, result, originalClassName).target;
            && ClassName(m) == ClassString(originalClassName, result)
            && ClassNode(h, m, result, originalClassName) == Applied(m, 0, None)
  {
  }

  /** Object keys are distinct, so the entry names of an object are. */
  lemma ObjectEntryNames(h: Heap, id: ObjId)
    requires id in h && ObjWf(h[id])
    ensures Entries(h, ObjRef(id)).Ok?
    ensures Distinct(Names(Entries(h, ObjRef(id)).value))
  {
    var es := Entries(h, ObjRef(id)).value;
    assert Names(es) == h[id].keys;
  }

  /** The `d-class` callback as a method; `writes` counts the writes. */
  method Class(doc: Document, id: NodeId, h: Heap, result: Value, originalClassName: Value)
    returns (writes: nat, err: Option<JsError>)
    requires doc.Valid() && id in doc.nodes
    modifies doc
    ensures doc.Valid() && doc.next == old(doc.next)
    ensures var r := ClassNode(h, old(doc.nodes[id]), result, originalClassName);
            doc.nodes == old(doc.nodes)[id := r.target] && writes == r.writes && err == r.error
  {
    var n := doc.nodes[id];
    writes, err := 0, None;
    if !IsObjectType(result) {
      var s := ClassString(originalClassName, result);
      if ClassName(n) != s {
        doc.Update(id, n.(attrs := n.attrs["class" := s]));
        writes := 1;
      }
      return;
    }
    var entries := Entries(h, result);
    if entries.Throw? {
      err := Some(entries.error);
      return;
    }
    writes, err := ClassObject(doc, id, entries.value);
  }

  /** The `Object.entries(result).forEach` loop of `d-class`. */
  method ClassObject(doc: Document, id: NodeId, es: seq<(string, Value)>) returns (writes: nat, err: Option<JsError>)
    requires doc.Valid() && id in doc.nodes
    modifies doc
    ensures doc.Valid() && doc.next == old(doc.next)
    ensures var r := ClassEntries(old(doc.nodes[id]), es);
            doc.nodes == old(doc.nodes)[id := r.target] && writes == r.writes && err == r.error
  {
    var n := doc.nodes[id];
    var cur := n;
    writes, err := 0, None;
    var i := 0;
    while i < |es|
      invariant i <= |es| && doc.Valid() && doc.next == old(doc.next)
      invariant ClassEntries(n, es[..i]) == Applied(cur, writes, None) && err.None?
      invariant doc.nodes == old(doc.nodes)[id := cur]
    {
      ClassEntriesNext(n, es, i);
      var w;
      cur, w, err := ClassEntry(doc, id, es[i].0, es[i].1, old(doc.nodes), cur);
      writes := writes + w;
      if err.Some? {
        ClassEntriesStop(n, es, i + 1);
        return;
      }
      i := i + 1;
    }
    assert es[..i] == es;
  }

  lemma ClassEntriesNext(n: NodeRec, es: seq<(string, Value)>, i: nat)
    requires i < |es| && ClassEntries(n, es[..i]).error.None?
    ensures var a := ClassEntries(n, es[..i]);
            var b := ClassStep(a.target, es[i].0, es[i].1);
            ClassEntries(n, es[..i + 1]) == Applied(b.target, a.writes + b.writes, b.error)
  {
    assert es[..i + 1][..i] == es[..i];
  }

  /** One entry of `d-class`. */
  method ClassEntry(doc: Document, id: NodeId, name: string, state: Value, ghost base: map<NodeId, NodeRec>, cur: NodeRec)
    returns (next: NodeRec, writes: nat, err: Option<JsError>)
    requires doc.Valid() && doc.nodes == base[id := cur]
    modifies doc
    ensures doc.Valid() && doc.next == old(doc.next)
    ensures var r := ClassStep(cur, name, state);
            next == r.target && writes == r.writes && err == r.error && doc.nodes == base[id := next]
  {
    var r := ClassStep(cur, name, state);
    next, writes, err := r.target, r.writes, r.error;
    if writes == 1 {
      doc.Update(id, next);
      UpdateTwice(base, id, cur, next);
    } else {
      assert next == cur;
    }
  }

  // ---------------------------------------------------------------------------
  // d-style and d-prop

  /** `obj[name]` on a property table: a missing name reads `undefined`. */
  function Lookup(m: map<string, Value>, name: string): Value {
    if name in m then m[name] else Undefined
  }

  /** The entries of a result written one by one into a property table, each
      only when `!==` the current value: the new table and the write count. */
  function PutEntries(m: map<string, Value>, es: seq<(string, Value)>): (r: (map<string, Value>, nat))
    ensures r.1 <= |es|
  {
    if es == [] then (m, 0)
    else
      var a := PutEntries(m, es[..|es| - 1]);
      var (name, value) := es[|es| - 1];
      if Lookup(a.0, name) != value then (a.0[name := value], a.1 + 1) else a
  }

  /** With distinct names, each named property holds its entry's value and
      no other property changed. */
  lemma {:induction false} PutEntriesEffect(m: map<string, Value>, es: seq<(string, Value)>)
    requires Distinct(Names(es))
    ensures var r := PutEntries(m, es).0;
            && (forall i :: 0 <= i < |es| ==> Lookup(r, es[i].0) == es[i].1)
            && (forall k :: k !in Names(es) ==> Lookup(r, k) == Lookup(m, k))
  {
    if es != [] {
      var init := es[..|es| - 1];
      assert Names(init) == Names(es)[..|es| - 1];
      PutEntriesEffect(m, init);
      var r := PutEntries(m, es).0;
      forall i | 0 <= i < |es| - 1
        ensures Lookup(r, es[i].0) == es[i].1
      {
        assert Names(es)[i] != Names(es)[|es| - 1];
        assert es[i] == init[i];
      }
      forall k | k !in Names(es)
        ensures Lookup(r, k) == Lookup(m, k)
      {
        assert k !in Names(init);
        assert Names(es)[|es| - 1] == es[|es| - 1].0;
      }
    }
  }

  /** A second pass over the same entries writes nothing. */
  lemma PutEntriesSettle(m: map<string, Value>, es: seq<(string, Value)>)
    requires Distinct(Names(es))
    ensures var r := PutEntries(m, es).0;
            PutEntries(r, es) == (r, 0)
  {
    PutEntriesEffect(m, es);
    PutEntriesSettlePrefix(PutEntries(m, es).0, es, |es|);
    assert es[..|es|] == es;
  }

  lemma {:induction false} PutEntriesSettlePrefix(r: map<string, Value>, es: seq<(string, Value)>, j: nat)
    requires j <= |es|
    requires forall i :: 0 <= i < |es| ==> Lookup(r, es[i].0) == es[i].1
    ensures PutEntries(r, es[..j]) == (r, 0)
  {
    if j > 0 {
      PutEntriesSettlePrefix(r, es, j - 1);
      assert es[..j][..j - 1] == es[..j - 1];
      assert es[..j][j - 1] == es[j - 1];
    }
  }

  /** Which property table of the node a callback writes: `node.style` or
      the node itself. */
  datatype Table = StyleTable | PropTable

  function TableOf(n: NodeRec, t: Table): map<string, Value> {
    match t
    case StyleTable => n.style
    case PropTable => n.props
  }

  function WithTable(n: NodeRec, t: Table, m: map<string, Value>): (r: NodeRec)
    ensures TableOf(r, t) == m
  {
    match t
    case StyleTable => n.(style := m)
    case PropTable => n.(props := m)
  }

  /** The `d-style` (`StyleTable`) and `d-prop` (`PropTable`) callbacks:
      `Object.entries(result)` throws for `null` and `undefined`, otherwise
      the entries are written into the table. */
  function EntriesNode(h: Heap, n: NodeRec, t: Table, result: Value): (r: Applied<NodeRec>)
    ensures r.error.Some? <==> IsNil(result)
    ensures r.error.Some? ==> r.error.value == TypeError && r.target == n && r.writes == 0
  {
    match Entries(h, result)
    case Throw(e) => Applied(n, 0, Some(e))
    case Ok(es) =>
      var p := PutEntries(TableOf(n, t), es);
      Applied(WithTable(n, t, p.0), p.1, None)
  }

  /** The `d-style`/`d-prop` callback as a method. */
  method WriteEntries(doc: Document, id: NodeId, h: Heap, t: Table, result: Value)
    returns (writes: nat, err: Option<JsError>)
    requires doc.Valid() && id in doc.nodes
    modifies doc
    ensures doc.Valid() && doc.next == old(doc.next)
    ensures var r := EntriesNode(h, old(doc.nodes[id]), t, result);
            doc.nodes == old(doc.nodes)[id := r.target] && writes == r.writes && err == r.error
  {
    writes, err := 0, None;
    var entries := Entries(h, result);
    if entries.Throw? {
      err := Some(entries.error);
      return;
    }
    writes := WriteTable(doc, id, t, entries.value);
  }

  /** The `Object.entries(result).forEach` loop of `d-style`/`d-prop`. */
  method WriteTable(doc: Document, id: NodeId, t: Table, es: seq<(string, Value)>) returns (writes: nat)
    requires doc.Valid() && id in doc.nodes
    modifies doc
    ensures doc.Valid() && doc.next == old(doc.next)
    ensures var n := old(doc.nodes[id]);
            var p := PutEntries(TableOf(n, t), es);
            doc.nodes == old(doc.nodes)[id := WithTable(n, t, p.0)] && writes == p.1
  {
    var n := doc.nodes[id];
    var m := TableOf(n, t);
    assert WithTable(n, t, m) == n;
    writes := 0;
    var i := 0;
    while i < |es|
      invariant i <= |es| && doc.Valid() && doc.next == old(doc.next)
      invariant PutEntries(TableOf(n, t), es[..i]) == (m, writes)
      invariant doc.nodes == old(doc.nodes)[id := WithTable(n, t, m)]
    {
      PutEntriesNext(TableOf(n, t), es, i);
      var wrote;
      m, wrote := PutEntry(doc, id, t, es[i].0, es[i].1, old(doc.nodes), n, m);
      if wrote {
        writes := writes + 1;
      }
      i := i + 1;
    }
    assert es[..i] == es;
  }

  lemma PutEntriesNext(m: map<string, Value>, es: seq<(string, Value)>, i: nat)
    requires i < |es|
    ensures var a := PutEntries(m, es[..i]);
            PutEntries(m, es[..i + 1]) ==
              if Lookup(a.0, es[i].0) != es[i].1 then (a.0[es[i].0 := es[i].1], a.1 + 1) else a
  {
    assert es[..i + 1][..i] == es[..i];
  }

  /** `if (node.style[name] !== value) node.style[name] = value` (or
      `node[name]`), on the node `n` whose table `t` is now `m`. */
  method PutEntry(doc: Document, id: NodeId, t: Table, name: string, value: Value,
                  ghost base: map<NodeId, NodeRec>, n: NodeRec, m: map<string, Value>)
    returns (m': map<string, Value>, wrote: bool)
    requires doc.Valid() && doc.nodes == base[id := WithTable(n, t, m)]
    modifies doc
    ensures doc.Valid() && doc.next == old(doc.next)
    ensures wrote == (Lookup(m, name) != value) && m' == (if wrote then m[name := value] else m)
    ensures doc.nodes == base[id := WithTable(n, t, m')]
  {
    wrote := Lookup(m, name) != value;
    m' := m;
    if wrote {
      m' := m[name := value];
      doc.Update(id, WithTable(n, t, m'));
      UpdateTwice(base, id, WithTable(n, t, m), WithTable(n, t, m'));
    }
  }

  // ---------------------------------------------------------------------------
  // d-disabled and d-readonly

  /** Which boolean property a callback writes. */
  datatype Flag = Disabled | ReadOnly

  function FlagOf(n: NodeRec, f: Flag): bool {
    match f
    case Disabled => n.disabled
    case ReadOnly => n.readOnly
  }

  /** `node.disabled !== !!result` (or `readOnly`). */
  predicate FlagWrites(n: NodeRec, f: Flag, result: Value) {
    FlagOf(n, f) != Truthy(result)
  }

  /** The node after `d-disabled` or `d-readonly`. */
  function FlagNode(n: NodeRec, f: Flag, result: Value): (m: NodeRec)
    ensures FlagOf(m, f) == Truthy(result)
    ensures !FlagWrites(m, f, result)
  {
    if !FlagWrites(n, f, result) then n
    else
      match f
      case Disabled => n.(disabled := Truthy(result))
      case ReadOnly => n.(readOnly := Truthy(result))
  }

  /** The `d-disabled`/`d-readonly` callback as a method. */
  method WriteFlag(doc: Document, id: NodeId, f: Flag, result: Value) returns (wrote: bool)
    requires doc.Valid() && id in doc.nodes
    modifies doc
    ensures doc.Valid() && doc.next == old(doc.next)
    ensures wrote == FlagWrites(old(doc.nodes[id]), f, result)
    ensures doc.nodes == old(doc.nodes)[id := FlagNode(old(doc.nodes[id]), f, result)]
  {
    var n := doc.nodes[id];
    wrote := FlagOf(n, f) != Truthy(result);
    if wrote {
      doc.Update(id, FlagNode(n, f, result));
    }
  }

  // ---------------------------------------------------------------------------
  // d-text, d-html and d-value

  /** Which string property a callback writes. */
  datatype Text = ValueText | InnerText | InnerHtml

  function TextOf(n: NodeRec, t: Text): string {
    match t
    case ValueText => n.value
    case InnerText => n.innerText
    case InnerHtml => n.innerHTML
  }

  function WithText(n: NodeRec, t: Text, s: string): (m: NodeRec)
    ensures TextOf(m, t) == s
  {
    match t
    case ValueText => n.(value := s)
    case InnerText => n.(innerText := s)
    case InnerHtml => n.(innerHTML := s)
  }

  /** The property a directive writes: `value` for `d-value`, and for `d-text`
      and `d-html` the `value` of an `input` or `textarea`, otherwise
      `innerText` or `innerHTML`. */
  function TextTarget(n: NodeRec, t: Text): Text {
    if t != ValueText && IsTextControl(n.kind) then ValueText else t
  }

  /** `node[prop] !== result`: the property's string against the raw result. */
  predicate TextWrites(n: NodeRec, t: Text, result: Value) {
    Str(TextOf(n, TextTarget(n, t))) != result
  }

  /** The node after the callback; the assignment stores the result as a DOM
      string. */
  function TextNode(n: NodeRec, t: Text, result: Value): NodeRec {
    if TextWrites(n, t, result) then WithText(n, TextTarget(n, t), DomString(result)) else n
  }

  /** With a string result the property ends equal to it, and a second call
      writes nothing. */
  lemma TextSettles(n: NodeRec, t: Text, result: Value)
    requires result.Str?
    ensures TextOf(TextNode(n, t, result), TextTarget(n, t)) == result.s
    ensures !TextWrites(TextNode(n, t, result), t, result)
  {
  }

  /** With a result that is not a string, `!==` never holds between it and
      the property's string: every call writes. */
  lemma TextAlwaysWrites(n: NodeRec, t: Text, result: Value)
    requires !result.Str?
    ensures TextWrites(n, t, result)
    ensures TextWrites(TextNode(n, t, result), t, result)
  {
  }

  /** The `d-text`/`d-html`/`d-value` callback as a method. */
  method WriteText(doc: Document, id: NodeId, t: Text, result: Value) returns (wrote: bool)
    requires doc.Valid() && id in doc.nodes
    modifies doc
    ensures doc.Valid() && doc.next == old(doc.next)
    ensures wrote == TextWrites(old(doc.nodes[id]), t, result)
    ensures doc.nodes == old(doc.nodes)[id := TextNode(old(doc.nodes[id]), t, result)]
  {
    var n := doc.nodes[id];
    var target := if t != ValueText && IsTextControl(n.kind) then ValueText else t;
    wrote := Str(TextOf(n, target)) != result;
    if wrote {
      doc.Update(id, WithText(n, target, DomString(result)));
    }
  }

  // ---------------------------------------------------------------------------
  // d-model's render hook

  /** What `d-model`'s render hook leaves, given `v`, the component's
      `state[key]`: a checkbox's `checked` becomes `!!v`, a radio button is
      checked exactly when `v == node.value`, and any other element's
      `value` becomes `v` as a string. The hook assigns without comparing. */
  function ModelNode(n: NodeRec, v: Value): (r: NodeRec)
    ensures r == n.(checked := r.checked, value := r.value)
  {
    match n.kind
    case CheckboxInput => n.(checked := Truthy(v))
    case RadioInput => n.(checked := LooseEqualsString(v, n.value))
    case _ => n.(value := DomString(v))
  }

  /** What `d-model`'s input handler stores under the key: the element's
      `:checked` state for a checkbox, its `value` otherwise. */
  function ModelEventValue(n: NodeRec): Value {
    if n.kind.CheckboxInput? then Bool(n.checked) else Str(n.value)
  }

  /** Two-way binding: once the handler has stored an element's input in
      the state, the render hook leaves the element as the user left it (a
      radio button reports its value when it becomes checked). */
  lemma ModelRoundTrip(n: NodeRec)
    requires n.kind.RadioInput? ==> n.checked
    ensures ModelNode(n, ModelEventValue(n)) == n
  {
  }

  /** Running the hook again with the same state changes nothing. */
  lemma ModelSettles(n: NodeRec, v: Value)
    ensures ModelNode(ModelNode(n, v), v) == ModelNode(n, v)
  {
  }

  /** Loose equality checks a radio button whose value is the decimal
      rendering of a number state, and leaves it unchecked for `null` and
      `undefined`. */
  lemma ModelRadioNumber(n: NodeRec, k: int)
    requires n.kind.RadioInput?
    ensures n.value == IntToString(k) ==> ModelNode(n, Num(k)).checked
    ensures !ModelNode(n, Null).checked && !ModelNode(n, Undefined).checked
  {
    IntegerOfIntString(k);
  }

  /** `d-model`'s render hook as a method: `node.checked = …` or
      `node.value = …`. */
  method ModelSync(doc: Document, id: NodeId, v: Value)
    requires doc.Valid() && id in doc.nodes
    modifies doc
    ensures doc.Valid() && doc.next == old(doc.next)
    ensures doc.nodes == old(doc.nodes)[id := ModelNode(old(doc.nodes[id]), v)]
  {
    var n := doc.nodes[id];
    if n.kind.CheckboxInput? {
      doc.Update(id, n.(checked := Truthy(v)));
    } else if n.kind.RadioInput? {
      doc.Update(id, n.(checked := LooseEqualsString(v, n.value)));
    } else {
      doc.Update(id, n.(value := DomString(v)));
    }
  }

  // ---------------------------------------------------------------------------
  // d-attr

  /** `node.getAttribute(name)` on an attribute table. */
  function AttrValue(attrs: map<string, string>, name: string): Value {
    if name in attrs then Str(attrs[name]) else Null
  }

  /** One entry of `d-attr` on the attribute table `attrs`: `getAttribute`
      and `setAttribute` both lowercase the name; an attribute that already
      reads as the value is left alone, otherwise a name `setAttribute`
      rejects throws `InvalidCharacterError`, and a valid one stores the
      value's string. */
  function AttrStep(attrs: map<string, string>, name: string, value: Value): (r: Applied<map<string, string>>)
    ensures r.error.Some? <==> AttrValue(attrs, AsciiLower(name)) != value && !ValidAttrName(name)
    ensures r.error.Some? ==> r.error.value == InvalidCharacterError && r.target == attrs && r.writes == 0
    ensures r.error.None? && r.writes == 0 ==> r.target == attrs
  {
    var l := AsciiLower(name);
    if AttrValue(attrs, l) == value then Applied(attrs, 0, None)
    else if !ValidAttrName(name) then Applied(attrs, 0, Some(InvalidCharacterError))
    else Applied(attrs[l := ToJsString(value)], 1, None)
  }

  /** The entries written as attributes in order, up to the first that
      throws. */
  function AttrEntries(attrs: map<string, string>, es: seq<(string, Value)>): (r: Applied<map<string, string>>)
    ensures r.writes <= |es|
    ensures r.error.Some? ==> r.error.value == InvalidCharacterError
  {
    if es == [] then Applied(attrs, 0, None)
    else
      var a := AttrEntries(attrs, es[..|es| - 1]);
      if a.error.Some? then a
      else
        var b := AttrStep(a.target, es[|es| - 1].0, es[|es| - 1].1);
        Applied(b.target, a.writes + b.writes, b.error)
  }

  /** The lowercased names of the entries. */
  function LowerNames(es: seq<(string, Value)>): (r: seq<string>)
    ensures |r| == |es| && forall i :: 0 <= i < |es| ==> r[i] == AsciiLower(es[i].0)
  {
    seq(|es|, i requires 0 <= i < |es| => AsciiLower(es[i].0))
  }

  /** When no entry throws, the lowercased names are distinct and the values
      strings, each attribute reads as its value under the lowercased name
      (`{ dataFoo: 'x' }` rewrites `datafoo`), and no other attribute
      changed. */
  lemma {:induction false} AttrEntriesEffect(attrs: map<string, string>, es: seq<(string, Value)>)
    requires Distinct(LowerNames(es)) && forall i :: 0 <= i < |es| ==> es[i].1.Str?
    requires AttrEntries(attrs, es).error.None?
    ensures var r := AttrEntries(attrs, es).target;
            && (forall i :: 0 <= i < |es| ==> AttrValue(r, AsciiLower(es[i].0)) == es[i].1)
            && (forall k :: k !in LowerNames(es) ==> AttrValue(r, k) == AttrValue(attrs, k))
  {
    if es != [] {
      var init := es[..|es| - 1];
      assert LowerNames(init) == LowerNames(es)[..|es| - 1];
      AttrEntriesEffect(attrs, init);
      var r := AttrEntries(attrs, es).target;
      forall i | 0 <= i < |es| - 1
        ensures AttrValue(r, AsciiLower(es[i].0)) == es[i].1
      {
        assert LowerNames(es)[i] != LowerNames(es)[|es| - 1];
        assert es[i] == init[i];
      }
      forall k | k !in LowerNames(es)
        ensures AttrValue(r, k) == AttrValue(attrs, k)
      {
        assert k !in LowerNames(init);
        assert LowerNames(es)[|es| - 1] == AsciiLower(es[|es| - 1].0);
      }
    }
  }

  /** After a run that throws nothing, a second run writes nothing and
      throws nothing. */
  lemma AttrEntriesSettle(attrs: map<string, string>, es: seq<(string, Value)>)
    requires Distinct(LowerNames(es)) && forall i :: 0 <= i < |es| ==> es[i].1.Str?
    requires AttrEntries(attrs, es).error.None?
    ensures var r := AttrEntries(attrs, es).target;
            AttrEntries(r, es) == Applied(r, 0, None)
  {
    AttrEntriesEffect(attrs, es);
    AttrEntriesSettlePrefix(AttrEntries(attrs, es).target, es, |es|);
    assert es[..|es|] == es;
  }

  lemma {:induction false} AttrEntriesSettlePrefix(r: map<string, string>, es: seq<(string, Value)>, j: nat)
    requires j <= |es|
    requires forall i :: 0 <= i < |es| ==> AttrValue(r, AsciiLower(es[i].0)) == es[i].1
    ensures AttrEntries(r, es[..j]) == Applied(r, 0, None)
  {
    if j > 0 {
      AttrEntriesSettlePrefix(r, es, j - 1);
      assert es[..j][..j - 1] == es[..j - 1];
      assert es[..j][j - 1] == es[j - 1];
    }
  }

  /** An entry whose value is neither a string nor `null` is written on every
      call that throws nothing: `getAttribute` only ever returns a string or
      `null`. */
  lemma {:induction false} AttrAlwaysWrites(attrs: map<string, string>, es: seq<(string, Value)>, i: nat)
    requires i < |es| && !es[i].1.Str? && !es[i].1.Null?
    ensures AttrEntries(attrs, es).error.None? ==> AttrEntries(attrs, es).writes > 0
  {
    var init := es[..|es| - 1];
    if i < |es| - 1 {
      assert init[i] == es[i];
      AttrAlwaysWrites(attrs, init, i);
    }
  }

  /** The first entry that throws ends the loop: the entries after it are
      never looked at. */
  lemma {:induction false} AttrEntriesStop(attrs: map<string, string>, es: seq<(string, Value)>, j: nat)
    requires j <= |es| && AttrEntries(attrs, es[..j]).error.Some?
    ensures AttrEntries(attrs, es) == AttrEntries(attrs, es[..j])
  {
    if j == |es| {
      assert es[..j] == es;
    } else {
      var init := es[..|es| - 1];
      assert init[..j] == es[..j];
      AttrEntriesStop(attrs, init, j);
    }
  }

  /** An entry with a name `setAttribute` rejects throws
      `InvalidCharacterError` unless an attribute already reads as its
      value: `{ '': 1 }` and `{ 'a b': 1 }` throw, `{ '': null }` does not,
      since `getAttribute('')` is `null`. */
  lemma AttrInvalidName(attrs: map<string, string>, name: string, value: Value)
    requires !ValidAttrName(name)
    ensures var r := AttrEntries(attrs, [(name, value)]);
            r.error == (if AttrValue(attrs, AsciiLower(name)) == value then None else Some(InvalidCharacterError))
            && r.target == attrs && r.writes == 0
  {
    assert [(name, value)][..0] == [];
  }

  /** The `d-attr` callback: `Object.entries` throws for `null` and
      `undefined`, otherwise the entries are written as attributes. */
  function AttrNode(h: Heap, n: NodeRec, result: Value): (r: Applied<NodeRec>)
    ensures IsNil(result) ==> r == Applied(n, 0, Some(TypeError))
    ensures !IsNil(result) ==> r.target == n.(attrs := r.target.attrs)
    ensures !IsNil(result) && r.error.Some? ==> r.error.value == InvalidCharacterError
  {
    match Entries(h, result)
    case Throw(e) => Applied(n, 0, Some(e))
    case Ok(es) =>
      var a := AttrEntries(n.attrs, es);
      Applied(n.(attrs := a.target), a.writes, a.error)
  }

  /** The `d-attr` callback as a method. */
  method WriteAttrs(doc: Document, id: NodeId, h: Heap, result: Value) returns (writes: nat, err: Option<JsError>)
    requires doc.Valid() && id in doc.nodes
    modifies doc
    ensures doc.Valid() && doc.next == old(doc.next)
    ensures var r := AttrNode(h, old(doc.nodes[id]), result);
            doc.nodes == old(doc.nodes)[id := r.target] && writes == r.writes && err == r.error
  {
    writes, err := 0, None;
    var entries := Entries(h, result);
    if entries.Throw? {
      err := Some(entries.error);
      return;
    }
    writes, err := WriteAttrList(doc, id, entries.value);
  }

  /** The `Object.entries(result).forEach` loop of `d-attr`; an entry that
      throws ends it. */
  method WriteAttrList(doc: Document, id: NodeId, es: seq<(string, Value)>) returns (writes: nat, err: Option<JsError>)
    requires doc.Valid() && id in doc.nodes
    modifies doc
    ensures doc.Valid() && doc.next == old(doc.next)
    ensures var n := old(doc.nodes[id]);
            var p := AttrEntries(n.attrs, es);
            doc.nodes == old(doc.nodes)[id := n.(attrs := p.target)] && writes == p.writes && err == p.error
  {
    var n := doc.nodes[id];
    var attrs := n.attrs;
    writes, err := 0, None;
    var i := 0;
    while i < |es|
      invariant i <= |es| && doc.Valid() && doc.next == old(doc.next)
      invariant AttrEntries(n.attrs, es[..i]) == Applied(attrs, writes, None)
      invariant doc.nodes == old(doc.nodes)[id := n.(attrs := attrs)]
    {
      AttrEntriesNext(n.attrs, es, i);
      var step := AttrEntry(doc, id, es[i].0, es[i].1, old(doc.nodes), n, attrs);
      if step.error.Some? {
        AttrEntriesStop(n.attrs, es, i + 1);
        err := step.error;
        return;
      }
      attrs, writes := step.target, writes + step.writes;
      i := i + 1;
    }
    assert es[..i] == es;
  }

  lemma AttrEntriesNext(attrs: map<string, string>, es: seq<(string, Value)>, i: nat)
    requires i < |es| && AttrEntries(attrs, es[..i]).error.None?
    ensures var a := AttrEntries(attrs, es[..i]);
            var b := AttrStep(a.target, es[i].0, es[i].1);
            AttrEntries(attrs, es[..i + 1]) == Applied(b.target, a.writes + b.writes, b.error)
  {
    assert es[..i + 1][..i] == es[..i];
  }

  /** `if (node.getAttribute(name) !== value) node.setAttribute(name, value)`,
      on the node `n` whose attributes are now `attrs`. */
  method AttrEntry(doc: Document, id: NodeId, name: string, value: Value,
                   ghost base: map<NodeId, NodeRec>, ghost n: NodeRec, attrs: map<string, string>)
    returns (step: Applied<map<string, string>>)
    requires doc.Valid() && doc.nodes == base[id := n.(attrs := attrs)]
    modifies doc
    ensures doc.Valid() && doc.next == old(doc.next)
    ensures step == AttrStep(attrs, name, value)
    ensures doc.nodes == base[id := n.(attrs := step.target)]
  {
    var l := AsciiLower(name);
    if AttrValue(attrs, l) == value {
      return Applied(attrs, 0, None);
    }
    if !ValidAttrName(name) {
      return Applied(attrs, 0, Some(InvalidCharacterError));
    }
    step := Applied(attrs[l := ToJsString(value)], 1, None);
    ghost var before := doc.nodes;
    doc.SetAttribute(id, l, ToJsString(value));
    assert before[id].(attrs := before[id].attrs[l := ToJsString(value)]) == n.(attrs := step.target);
    UpdateTwice(base, id, n.(attrs := attrs), n.(attrs := step.target));
  }

  lemma UpdateTwice<K, V>(m: map<K, V>, k: K, x: V, y: V)
    ensures m[k := x][k := y] == m[k := y]
  {
  }
}
