/** Mounting components on elements, from `src/component.js`: the registry
    of component classes (`Classes`, `registerComponents`), the part of the
    constructor that sets up the state, the mixins, the hooks and the refs,
    and `createComponent`, which mounts a component on an element once. */
module Mounting {
  import opened JsValues
  import opened Dom
  import opened Components

  // ---------------------------------------------------------------------------
  // Classes and registerComponents

  /** `Classes` after `registerComponents(...cls)`: each class is stored
      under its name, so a later class replaces an earlier one of the same
      name. */
  function Registered(classes: map<string, ClassDef>, cls: seq<ClassDef>): map<string, ClassDef>
  {
    if cls == [] then classes
    else Registered(classes, cls[..|cls| - 1])[cls[|cls| - 1].name := cls[|cls| - 1]]
  }

  /** A name is registered after the call exactly when it was before or one
      of the classes carries it; it then names the last class that carries
      it, or the class it named before when none does. */
  lemma {:induction false} RegisteredLookup(classes: map<string, ClassDef>, cls: seq<ClassDef>, name: string)
    ensures name in Registered(classes, cls) <==> name in classes || exists i :: 0 <= i < |cls| && cls[i].name == name
    ensures forall i :: 0 <= i < |cls| && cls[i].name == name && (forall j :: i < j < |cls| ==> cls[j].name != name) ==>
              name in Registered(classes, cls) && Registered(classes, cls)[name] == cls[i]
    ensures (forall i :: 0 <= i < |cls| ==> cls[i].name != name) && name in classes ==>
              name in Registered(classes, cls) && Registered(classes, cls)[name] == classes[name]
  {
    RegisteredHas(classes, cls, name);
    RegisteredLast(classes, cls, name);
    RegisteredKept(classes, cls, name);
  }

  lemma {:induction false} RegisteredHas(classes: map<string, ClassDef>, cls: seq<ClassDef>, name: string)
    ensures name in Registered(classes, cls) <==> name in classes || exists i :: 0 <= i < |cls| && cls[i].name == name
  {
    if cls != [] {
      var pre := cls[..|cls| - 1];
      RegisteredHas(classes, pre, name);
      if cls[|cls| - 1].name != name && !(name in classes) && exists i :: 0 <= i < |cls| && cls[i].name == name {
        var i :| 0 <= i < |cls| && cls[i].name == name;
        assert pre[i].name == name;
      }
      if exists i :: 0 <= i < |pre| && pre[i].name == name {
        var i :| 0 <= i < |pre| && pre[i].name == name;
        assert cls[i].name == name;
      }
    }
  }

  lemma {:induction false} RegisteredLast(classes: map<string, ClassDef>, cls: seq<ClassDef>, name: string)
    ensures forall i :: 0 <= i < |cls| && cls[i].name == name && (forall j :: i < j < |cls| ==> cls[j].name != name) ==>
              name in Registered(classes, cls) && Registered(classes, cls)[name] == cls[i]
  {
    if cls != [] {
      var pre := cls[..|cls| - 1];
      RegisteredLast(classes, pre, name);
      forall i | 0 <= i < |cls| && cls[i].name == name && (forall j :: i < j < |cls| ==> cls[j].name != name)
        ensures name in Registered(classes, cls) && Registered(classes, cls)[name] == cls[i]
      {
        if i < |cls| - 1 {
          assert pre[i].name == name;
          assert forall j :: i < j < |pre| ==> pre[j].name != name;
        }
      }
    }
  }

  lemma {:induction false} RegisteredKept(classes: map<string, ClassDef>, cls: seq<ClassDef>, name: string)
    ensures (forall i :: 0 <= i < |cls| ==> cls[i].name != name) && name in classes ==>
              name in Registered(classes, cls) && Registered(classes, cls)[name] == classes[name]
  {
    if cls != [] {
      var pre := cls[..|cls| - 1];
      RegisteredKept(classes, pre, name);
      if (forall i :: 0 <= i < |cls| ==> cls[i].name != name) && name in classes {
        assert forall i :: 0 <= i < |pre| ==> pre[i].name != name;
      }
    }
  }

  /** The classes a page has registered and the components mounted on its
      elements. */
  class Registry {
    /** `Classes`: the registered classes by name. */
    var classes: map<string, ClassDef>
    /** `node._dComponent` of every element that has one. */
    var mounted: map<NodeId, Component>

    /** Every registered class has well-formed tables and mixins. */
    predicate ClassesWf()
      reads this
    {
      forall k :: k in classes ==> ClassWf(classes[k])
    }

    constructor ()
      ensures classes == map[] && mounted == map[] && ClassesWf()
    {
      classes := map[];
      mounted := map[];
    }

    /** `registerComponents(...cls)`: every class stored under its name, in
        order. */
    method Register(cls: seq<ClassDef>)
      requires ClassesWf() && forall i :: 0 <= i < |cls| ==> ClassWf(cls[i])
      modifies this`classes
      ensures ClassesWf() && classes == Registered(old(classes), cls)
    {
      var i := 0;
      while i < |cls|
        invariant i <= |cls| && ClassesWf()
        invariant classes == Registered(old(classes), cls[..i])
      {
        assert cls[..i + 1][..i] == cls[..i];
        classes := classes[cls[i].name := cls[i]];
        i := i + 1;
      }
      assert cls[..i] == cls;
    }
  }

  // ---------------------------------------------------------------------------
  // The constructor: state, mixins, hooks, refs

  /** Lines 47-60 of the constructor: the value the state starts from, which
      is what the `d-state` expression evaluates to (`evaluated`) when the
      attribute `attr` is non-empty and a new `{}` otherwise, and its copy,
      which becomes the state. An expression that throws makes the
      constructor throw. */
  method StartState(heap: JsHeap, attr: Value, evaluated: Result<Value>) returns (r: Result<ObjId>)
    requires heap.Valid()
    modifies heap
    ensures heap.Valid()
    ensures Truthy(attr) && evaluated.Throw? ==>
              r == Throw(evaluated.error) && heap.objs == old(heap.objs) && heap.next == old(heap.next)
    ensures Truthy(attr) && evaluated.Ok? ==>
              r == Ok(old(heap.next)) && heap.next == old(heap.next) + 1
              && heap.objs == CloneAt(old(heap.objs), old(heap.next), evaluated.value, heap.limit).heap
    ensures !Truthy(attr) ==>
              var n := old(heap.next);
              r == Ok(n + 1) && heap.next == n + 2
              && heap.objs == old(heap.objs)[n := EmptyObject()][n + 1 := EmptyObject()]
  {
    var initial: Value;
    if Truthy(attr) {
      if evaluated.Throw? {
        return Throw(evaluated.error);
      }
      initial := evaluated.value;
    } else {
      var empty := heap.Alloc(EmptyObject());
      initial := ObjRef(empty);
      CloneCopies(heap.objs, heap.next, initial, heap.limit);
    }
    var s := Clone(heap, initial);
    r := Ok(s);
  }

  /** Lines 31-61 of the constructor of class `cls` on `element`: the
      instance's fields and identity attributes, then the state (from what
      the `d-state` expression evaluates to, `evaluated`) and the mixins
      (`extendInstance`). An exception makes the constructor throw. */
  method Construct(doc: Document, heap: JsHeap, element: NodeId, cls: ClassDef, evaluated: Result<Value>)
    returns (r: Result<Component>)
    requires doc.Valid() && heap.Valid() && element in doc.nodes && ClassWf(cls)
    modifies doc, heap
    ensures doc.Valid() && heap.Valid() && doc.next == old(doc.next)
    ensures doc.nodes == WithoutIdentity(old(doc.nodes), element)
    ensures Truthy(GetAttribute(old(doc.nodes)[element], "d-state")) && evaluated.Throw? ==>
              r == Throw(evaluated.error) && heap.objs == old(heap.objs) && heap.next == old(heap.next)
    ensures r.Throw? ==> r.error == RangeError || (evaluated.Throw? && r.error == evaluated.error)
    ensures r.Ok? ==>
              fresh(r.value) && r.value.Valid() && r.value.Repr == {r.value} && r.value.state.ObjRef? && old(heap.next) <= r.value.state.id
              && r.value.state.id in heap.objs && Constructed(r.value, element, cls) && r.value.refs == map[]
  {
    var attr := GetAttribute(doc.nodes[element], "d-state");
    var c := new Component(doc, element, cls);
    var err := Initialize(c, heap, attr, evaluated);
    r := if err.Some? then Throw(err.value) else Ok(c);
  }

  /** Lines 47-61 of the constructor, on the new instance `c`: its state
      (`StartState`), then its mixins (`extendInstance`). */
  method Initialize(c: Component, heap: JsHeap, attr: Value, evaluated: Result<Value>) returns (err: Option<JsError>)
    requires heap.Valid() && MixinsWf(c.mixins)
    requires c.renderHooks == [] && c.stateHooks == [] && c.specificDirectives == EmptyTable()
    modifies heap, c`state, c`renderHooks, c`stateHooks, c`specificDirectives, c`methods
    ensures heap.Valid()
    ensures Truthy(attr) && evaluated.Throw? ==>
              err == Some(evaluated.error) && heap.objs == old(heap.objs) && heap.next == old(heap.next)
    ensures err.Some? ==> err.value == RangeError || (evaluated.Throw? && err.value == evaluated.error)
    ensures err.None? ==>
              c.state.ObjRef? && old(heap.next) <= c.state.id && c.state.id in heap.objs
              && c.renderHooks == MixinRenderHooks(c.mixins) && c.stateHooks == MixinStateHooks(c.mixins)
              && c.specificDirectives == MixinTable(c.mixins) && c.methods == Lent(old(c.methods), MixinMembers(c.mixins))
  {
    var start := StartState(heap, attr, evaluated);
    if start.Throw? {
      return Some(start.error);
    }
    c.state := ObjRef(start.value);
    ghost var lent;
    err, lent := c.ExtendInstance(heap);
    SpreadOverEmpty(MixinTable(c.mixins));
    assert [] + MixinRenderHooks(c.mixins) == MixinRenderHooks(c.mixins);
    assert [] + MixinStateHooks(c.mixins) == MixinStateHooks(c.mixins);
  }

  /** What the constructor of `cls` leaves in a new component on `element`
      besides its state: the class's members, the mixins' hooks, directives
      and members. */
  predicate Constructed(c: Component, element: NodeId, cls: ClassDef)
    reads c`renderHooks, c`stateHooks, c`specificDirectives, c`methods
  {
    c.element == element && c.className == cls.name && c.classDirectives == cls.directives && c.mixins == cls.mixins
    && c.methods == Lent(cls.methods, MixinMembers(cls.mixins))
    && c.renderHooks == MixinRenderHooks(cls.mixins) && c.stateHooks == MixinStateHooks(cls.mixins)
    && MixinsWf(cls.mixins) && c.specificDirectives == MixinTable(cls.mixins)
  }

  /** The `[d-ref]` elements keep their `d-ref` when the constructor drops
      the identity attributes. */
  lemma RefItemsWithoutIdentity(nodes: map<NodeId, NodeRec>, element: NodeId, found: seq<NodeId>)
    requires element in nodes
    requires forall i :: 0 <= i < |found| ==> found[i] in nodes && "d-ref" in nodes[found[i]].attrs
    ensures forall i :: 0 <= i < |found| ==> "d-ref" in WithoutIdentity(nodes, element)[found[i]].attrs
    ensures RefItems(WithoutIdentity(nodes, element), found) == RefItems(nodes, found)
  {
    var m := WithoutIdentity(nodes, element);
    forall i | 0 <= i < |found|
      ensures "d-ref" in m[found[i]].attrs && m[found[i]].attrs["d-ref"] == nodes[found[i]].attrs["d-ref"]
    {
    }
  }

  /** What the constructor leaves of the element's attributes: `d-portal-name`
      gone, `d-alias` gone when it was non-empty, at most a `d-ref` gone
      besides, and every value kept. */
  predicate IdentityDropped(before: map<string, string>, after: map<string, string>) {
    after.Keys <= before.Keys - {"d-portal-name"}
    && (forall a :: a in after ==> after[a] == before[a])
    && ("d-alias" in before && before["d-alias"] != "" ==> "d-alias" !in after)
    && (forall a :: a in before && a != "d-alias" && a != "d-portal-name" && a != "d-ref" ==> a in after)
  }

  /** The constructor's attribute removals on `element`: the identity
      attributes, then `d-ref` on the `[d-ref]` elements. */
  lemma ConstructorAttrs(nodes: map<NodeId, NodeRec>, element: NodeId, refsFound: seq<NodeId>)
    requires element in nodes
    requires forall i :: 0 <= i < |refsFound| ==> refsFound[i] in nodes
    ensures forall i :: 0 <= i < |refsFound| ==> refsFound[i] in WithoutIdentity(nodes, element)
    ensures IdentityDropped(nodes[element].attrs, WithoutAttr(WithoutIdentity(nodes, element), refsFound, "d-ref")[element].attrs)
  {
    WithoutAttrAt(WithoutIdentity(nodes, element), refsFound, "d-ref");
  }

  /** The directive runs of the constructor of `cls` (line 62): the
      library's table, then the mixins' table, then the class's own. */
  function ConstructorRuns(directives: DirectiveTable, cls: ClassDef, found: string -> seq<NodeId>, outcome: RunOutcome)
    : (seq<Event>, Option<JsError>)
    requires TableWf(directives) && ClassWf(cls)
  {
    DirectiveRuns(TableEntries(directives) + TableEntries(MixinTable(cls.mixins)) + TableEntries(cls.directives), found, outcome)
  }

  /** The whole constructor (lines 31-67), as `new _class(node)` in
      `createComponent`: `Construct`, then `Finish`. Any exception on the way
      makes the constructor throw, so no component comes out (a directive
      that throws in `registerHooks` among them); whatever
      happens, only attributes of elements change. A component that comes
      out belongs to `element` and to `cls`, and the element has lost its
      identity attributes. */
  method NewComponent(doc: Document, heap: JsHeap, log: Log, element: NodeId, cls: ClassDef, evaluated: Result<Value>,
                      directives: DirectiveTable, hooksFound: string -> seq<NodeId>, outcome: RunOutcome, refsFound: seq<NodeId>)
    returns (r: Result<Component>)
    requires doc.Valid() && heap.Valid() && element in doc.nodes && ClassWf(cls) && TableWf(directives)
    requires Distinct(refsFound)
    requires forall i :: 0 <= i < |refsFound| ==> refsFound[i] in doc.nodes && "d-ref" in doc.nodes[refsFound[i]].attrs
    modifies doc, heap, log
    ensures doc.Valid() && heap.Valid() && doc.next == old(doc.next) && SameButAttrs(old(doc.nodes), doc.nodes)
    ensures r.Throw? ==>
              r.error in {RangeError, TypeError} || (evaluated.Throw? && r.error == evaluated.error)
              || ConstructorRuns(directives, cls, hooksFound, outcome).1 == Some(r.error)
    ensures r.Ok? ==>
              fresh(r.value) && r.value.element == element && r.value.className == cls.name
              && IdentityDropped(old(doc.nodes)[element].attrs, doc.nodes[element].attrs)
              && ConstructorRuns(directives, cls, hooksFound, outcome).1.None?
  {
    ghost var nodes0 := doc.nodes;
    RefItemsWithoutIdentity(nodes0, element, refsFound);
    ConstructorAttrs(nodes0, element, refsFound);
    var made := Construct(doc, heap, element, cls, evaluated);
    WithoutIdentitySame(nodes0, element);
    if made.Throw? {
      return Throw(made.error);
    }
    var c := made.value;
    ghost var nodes1 := doc.nodes;
    var err := Finish(c, cls, doc, heap, log, directives, hooksFound, outcome, refsFound);
    SameButAttrsTrans(nodes0, nodes1, doc.nodes);
    r := if err.Some? then Throw(err.value) else Ok(c);
  }

  /** Lines 62-65 of the constructor, once the instance is extended: the
      hooks, the refs and the initial state. A directive run that throws
      ends the constructor there, before any ref is registered. */
  method Finish(c: Component, ghost cls: ClassDef, doc: Document, heap: JsHeap, log: Log,
                directives: DirectiveTable, hooksFound: string -> seq<NodeId>, outcome: RunOutcome, refsFound: seq<NodeId>)
    returns (err: Option<JsError>)
    requires doc.Valid() && heap.Valid() && c.state.ObjRef? && c.state.id in heap.objs && TableWf(directives)
    requires c.Valid() && c.Repr == {c} && c.refs == map[]
    requires ClassWf(cls) && c.specificDirectives == MixinTable(cls.mixins) && c.classDirectives == cls.directives
    requires Distinct(refsFound)
    requires forall i :: 0 <= i < |refsFound| ==> refsFound[i] in doc.nodes && "d-ref" in doc.nodes[refsFound[i]].attrs
    modifies doc, heap, log, c`refs, c`initialState
    ensures doc.Valid() && heap.Valid() && doc.next == old(doc.next) && SameButAttrs(old(doc.nodes), doc.nodes)
    ensures c.Valid()
    ensures var d := ConstructorRuns(directives, cls, hooksFound, outcome);
            log.events == old(log.events) + d.0
            && (d.1.Some? ==>
                  err == d.1 && doc.nodes == old(doc.nodes) && heap.objs == old(heap.objs) && heap.next == old(heap.next))
            && (d.1.None? ==>
                  (err.Some? ==> err.value == TypeError)
                  && (err.None? ==>
                        c.refs == CollectRefs(map[], RefItems(old(doc.nodes), refsFound)).0
                        && doc.nodes == WithoutAttr(old(doc.nodes), refsFound, "d-ref")
                        && Sealed(c, heap.objs, heap.next) && heap.next == old(heap.next) + 1))
  {
    err := RunHooks(c, cls, log, directives, hooksFound, outcome);
    if err.None? {
      ghost var events := log.events;
      err := RefsThenSeal(c, doc, heap, refsFound);
      assert log.events == events;
    } else {
      assert forall x :: x in doc.nodes ==> doc.nodes[x] == doc.nodes[x].(attrs := doc.nodes[x].attrs);
    }
  }

  /** Line 62 of the constructor: `registerHooks` on the instance of `cls`. */
  method RunHooks(c: Component, ghost cls: ClassDef, log: Log,
                  directives: DirectiveTable, hooksFound: string -> seq<NodeId>, outcome: RunOutcome)
    returns (err: Option<JsError>)
    requires TableWf(directives) && ClassWf(cls)
    requires c.specificDirectives == MixinTable(cls.mixins) && c.classDirectives == cls.directives
    modifies log
    ensures var d := ConstructorRuns(directives, cls, hooksFound, outcome);
            log.events == old(log.events) + d.0 && err == d.1
  {
    err := c.RegisterHooks(directives, hooksFound, outcome, log);
  }

  /** Lines 63 and 65 of the constructor: the refs, then, when they all
      register, the initial state. */
  method RefsThenSeal(c: Component, doc: Document, heap: JsHeap, refsFound: seq<NodeId>)
    returns (err: Option<JsError>)
    requires doc.Valid() && heap.Valid() && c.state.ObjRef? && c.state.id in heap.objs && c.refs == map[]
    requires c.Valid() && c.Repr == {c}
    requires Distinct(refsFound)
    requires forall i :: 0 <= i < |refsFound| ==> refsFound[i] in doc.nodes && "d-ref" in doc.nodes[refsFound[i]].attrs
    modifies doc, heap, c`refs, c`initialState
    ensures doc.Valid() && heap.Valid() && doc.next == old(doc.next) && SameButAttrs(old(doc.nodes), doc.nodes)
    ensures c.Valid()
    ensures err.Some? ==> err.value == TypeError
    ensures err.None? ==>
              c.refs == CollectRefs(map[], RefItems(old(doc.nodes), refsFound)).0
              && doc.nodes == WithoutAttr(old(doc.nodes), refsFound, "d-ref")
              && Sealed(c, heap.objs, heap.next) && heap.next == old(heap.next) + 1
  {
    err := AttachRefs(c, doc, refsFound);
    if err.None? {
      Seal(heap, c);
    }
  }

  /** Line 63 of the constructor: `registerRefs` over the `[d-ref]`
      elements, which changes no more than attributes. */
  method AttachRefs(c: Component, doc: Document, refsFound: seq<NodeId>)
    returns (err: Option<JsError>)
    requires doc.Valid() && Distinct(refsFound)
    requires forall i :: 0 <= i < |refsFound| ==> refsFound[i] in doc.nodes && "d-ref" in doc.nodes[refsFound[i]].attrs
    modifies doc, c`refs
    ensures doc.Valid() && doc.next == old(doc.next) && SameButAttrs(old(doc.nodes), doc.nodes)
    ensures err.Some? ==> err.value == TypeError
    ensures err.None? ==>
              c.refs == CollectRefs(old(c.refs), RefItems(old(doc.nodes), refsFound)).0
              && doc.nodes == WithoutAttr(old(doc.nodes), refsFound, "d-ref")
  {
    ghost var nodes1 := doc.nodes;
    ghost var out := CollectRefs(c.refs, RefItems(nodes1, refsFound));
    err := c.RegisterRefs(doc, refsFound);
    WithoutAttrSame(nodes1, refsFound[..out.1], "d-ref");
    if err.None? {
      assert refsFound[..|refsFound|] == refsFound;
    }
  }

  /** The initial state is the newest object, a plain copy of the state:
      the same keys and values. */
  ghost predicate Sealed(c: Component, objs: map<ObjId, JsObject>, next: nat)
    reads c`state, c`initialState
  {
    c.state.ObjRef? && c.state.id in objs && 0 < next && c.initialState == ObjRef(next - 1) && next - 1 in objs
    && objs[next - 1] == JsObject(PlainObject, objs[c.state.id].keys, objs[c.state.id].props)
  }

  /** Line 65 of the constructor: the initial state is a copy of the state,
      a plain object with the same keys and values. */
  method Seal(heap: JsHeap, c: Component)
    requires heap.Valid() && c.state.ObjRef? && c.state.id in heap.objs
    modifies heap, c`initialState
    ensures heap.Valid() && heap.next == old(heap.next) + 1 && c.state.id in heap.objs
    ensures heap.objs == old(heap.objs)[old(heap.next) := JsObject(PlainObject, old(heap.objs)[c.state.id].keys, old(heap.objs)[c.state.id].props)]
    ensures c.initialState == ObjRef(old(heap.next))
  {
    CloneCopies(heap.objs, heap.next, c.state, heap.limit);
    var copy := Clone(heap, c.state);
    c.initialState := ObjRef(copy);
  }

  // ---------------------------------------------------------------------------
  // createComponent

  /** The key `Classes[className]` looks up: the attribute's text, or the
      string `"null"` when the element has no `d-component`. */
  function ClassKey(className: Value): string {
    if className.Str? then className.s else "null"
  }

  /** The class `createComponent` instantiates: the registered one, or the
      base class `Component` when none is registered under the key. */
  function ClassFor(classes: map<string, ClassDef>, className: Value): (cls: ClassDef)
    requires forall k :: k in classes ==> ClassWf(classes[k])
    ensures ClassWf(cls)
    ensures ClassKey(className) in classes ==> cls == classes[ClassKey(className)]
    ensures ClassKey(className) !in classes ==> cls == BaseClass()
  {
    if ClassKey(className) in classes then classes[ClassKey(className)] else BaseClass()
  }

  /** `attr` of the element emptied when it holds a non-empty value, as lines
      379-380 do for `d-state` and `d-component`. */
  function Blanked(attrs: map<string, string>, attr: string): (r: map<string, string>)
    ensures r.Keys == attrs.Keys
    ensures attr in r ==> r[attr] == ""
    ensures forall a :: a in r && a != attr ==> r[a] == attrs[a]
  {
    if attr in attrs && attrs[attr] != "" then attrs[attr := ""] else attrs
  }

  /** The element's attributes once a component is mounted on it: those
      the constructor removes are gone (`IdentityDropped`), `d-state` and
      `d-component` are still there when they were but empty, and every
      other value is kept. */
  predicate MountedAttrs(before: map<string, string>, after: map<string, string>) {
    after.Keys <= before.Keys - {"d-portal-name"}
    && ("d-alias" in before && before["d-alias"] != "" ==> "d-alias" !in after)
    && (forall a :: a in before && a != "d-alias" && a != "d-portal-name" && a != "d-ref" ==> a in after)
    && (forall a :: a in after && a != "d-state" && a != "d-component" ==> after[a] == before[a])
    && ("d-state" in after ==> after["d-state"] == "")
    && ("d-component" in after ==> after["d-component"] == "")
  }

  /** Emptying `d-state` and `d-component` after the constructor. */
  lemma BlankedMounted(before: map<string, string>, mid: map<string, string>)
    requires IdentityDropped(before, mid)
    ensures MountedAttrs(before, Blanked(Blanked(mid, "d-state"), "d-component"))
  {
  }

  /** `createComponent(node, {context, ignoreIfClassNotFound})`, for an
      element `node`, up to the children it mounts (see the notes on what
      the model leaves out). An element that has a component gets it back
      and nothing changes. Otherwise the context is stored on the element;
      with `ignoreIfClassNotFound`, an element whose `d-component` names no
      registered class is left without a component; else the class it
      names, or `Component`, is instantiated (`Mount`). */
  method CreateComponent(reg: Registry, doc: Document, heap: JsHeap, log: Log, node: NodeId, context: Value,
                         ignoreIfClassNotFound: bool, evaluated: Result<Value>, directives: DirectiveTable,
                         hooksFound: string -> seq<NodeId>, outcome: RunOutcome, refsFound: seq<NodeId>)
    returns (r: Result<Option<Component>>)
    requires reg.ClassesWf() && doc.Valid() && heap.Valid() && node in doc.nodes && TableWf(directives)
    requires Distinct(refsFound)
    requires forall i :: 0 <= i < |refsFound| ==> refsFound[i] in doc.nodes && "d-ref" in doc.nodes[refsFound[i]].attrs
    modifies reg`mounted, doc, heap, log
    ensures doc.Valid() && heap.Valid() && doc.next == old(doc.next)
    ensures node in old(reg.mounted) ==>
              r == Ok(Some(old(reg.mounted)[node])) && reg.mounted == old(reg.mounted)
              && doc.nodes == old(doc.nodes) && heap.objs == old(heap.objs) && heap.next == old(heap.next)
              && log.events == old(log.events)
    ensures node !in old(reg.mounted) ==> node in doc.nodes && doc.nodes[node].context == context
    ensures var className := GetAttribute(old(doc.nodes)[node], "d-component");
            node !in old(reg.mounted) && ignoreIfClassNotFound && !IsNil(className) && ClassKey(className) !in reg.classes ==>
              r == Ok(None) && reg.mounted == old(reg.mounted)
              && doc.nodes == old(doc.nodes)[node := old(doc.nodes)[node].(context := context)]
              && heap.objs == old(heap.objs) && heap.next == old(heap.next) && log.events == old(log.events)
    ensures r.Throw? ==> reg.mounted == old(reg.mounted)
    ensures node !in old(reg.mounted) && r.Ok? && r.value.Some? ==>
              var c := r.value.value;
              fresh(c) && c.element == node
              && c.className == ClassFor(reg.classes, GetAttribute(old(doc.nodes)[node], "d-component")).name
              && reg.mounted == old(reg.mounted)[node := c] && doc.nodes[node].hasComponent
              && MountedAttrs(old(doc.nodes)[node].attrs, doc.nodes[node].attrs)
              && ConstructorRuns(directives, ClassFor(reg.classes, GetAttribute(old(doc.nodes)[node], "d-component")),
                                 hooksFound, outcome).1.None?
  {
    if node in reg.mounted {
      return Ok(Some(reg.mounted[node]));
    }
    r := CreateUnmounted(reg, doc, heap, log, node, context, ignoreIfClassNotFound, evaluated, directives, hooksFound, outcome, refsFound);
  }

  /** `createComponent` on an element without a component yet (lines
      361-381): the context is stored, then the class is looked up and
      mounted, unless it is missing and may be ignored. */
  method CreateUnmounted(reg: Registry, doc: Document, heap: JsHeap, log: Log, node: NodeId, context: Value,
                         ignoreIfClassNotFound: bool, evaluated: Result<Value>, directives: DirectiveTable,
                         hooksFound: string -> seq<NodeId>, outcome: RunOutcome, refsFound: seq<NodeId>)
    returns (r: Result<Option<Component>>)
    requires reg.ClassesWf() && doc.Valid() && heap.Valid() && node in doc.nodes && TableWf(directives)
    requires node !in reg.mounted && Distinct(refsFound)
    requires forall i :: 0 <= i < |refsFound| ==> refsFound[i] in doc.nodes && "d-ref" in doc.nodes[refsFound[i]].attrs
    modifies reg`mounted, doc, heap, log
    ensures doc.Valid() && heap.Valid() && doc.next == old(doc.next)
    ensures node in doc.nodes && doc.nodes[node].context == context
    ensures var className := GetAttribute(old(doc.nodes)[node], "d-component");
            ignoreIfClassNotFound && !IsNil(className) && ClassKey(className) !in reg.classes ==>
              r == Ok(None) && reg.mounted == old(reg.mounted)
              && doc.nodes == old(doc.nodes)[node := old(doc.nodes)[node].(context := context)]
              && heap.objs == old(heap.objs) && heap.next == old(heap.next) && log.events == old(log.events)
    ensures r.Throw? ==> reg.mounted == old(reg.mounted)
    ensures r.Ok? && r.value.Some? ==>
              var c := r.value.value;
              fresh(c) && c.element == node
              && c.className == ClassFor(reg.classes, GetAttribute(old(doc.nodes)[node], "d-component")).name
              && reg.mounted == old(reg.mounted)[node := c] && doc.nodes[node].hasComponent
              && MountedAttrs(old(doc.nodes)[node].attrs, doc.nodes[node].attrs)
              && ConstructorRuns(directives, ClassFor(reg.classes, GetAttribute(old(doc.nodes)[node], "d-component")),
                                 hooksFound, outcome).1.None?
  {
    var rec := doc.nodes[node];
    doc.Update(node, rec.(context := context));
    var className := GetAttribute(rec, "d-component");
    r := MountNamed(reg, doc, heap, log, node, className, ignoreIfClassNotFound, evaluated, directives, hooksFound, outcome, refsFound);
  }

  /** Lines 366-381 of `createComponent`, for the class name `className`
      the element carries. */
  method MountNamed(reg: Registry, doc: Document, heap: JsHeap, log: Log, node: NodeId, className: Value,
                    ignoreIfClassNotFound: bool, evaluated: Result<Value>, directives: DirectiveTable,
                    hooksFound: string -> seq<NodeId>, outcome: RunOutcome, refsFound: seq<NodeId>)
    returns (r: Result<Option<Component>>)
    requires reg.ClassesWf() && doc.Valid() && heap.Valid() && node in doc.nodes && TableWf(directives)
    requires Distinct(refsFound)
    requires forall i :: 0 <= i < |refsFound| ==> refsFound[i] in doc.nodes && "d-ref" in doc.nodes[refsFound[i]].attrs
    modifies reg`mounted, doc, heap, log
    ensures doc.Valid() && heap.Valid() && doc.next == old(doc.next)
    ensures node in doc.nodes && doc.nodes[node].context == old(doc.nodes)[node].context
    ensures ignoreIfClassNotFound && !IsNil(className) && ClassKey(className) !in reg.classes ==>
              r == Ok(None) && reg.mounted == old(reg.mounted) && doc.nodes == old(doc.nodes)
              && heap.objs == old(heap.objs) && heap.next == old(heap.next) && log.events == old(log.events)
    ensures r.Throw? ==> reg.mounted == old(reg.mounted)
    ensures r.Ok? && r.value.Some? ==>
              var c := r.value.value;
              fresh(c) && c.element == node && c.className == ClassFor(reg.classes, className).name
              && reg.mounted == old(reg.mounted)[node := c] && doc.nodes[node].hasComponent
              && MountedAttrs(old(doc.nodes)[node].attrs, doc.nodes[node].attrs)
              && ConstructorRuns(directives, ClassFor(reg.classes, className), hooksFound, outcome).1.None?
  {
    if ignoreIfClassNotFound && !IsNil(className) && ClassKey(className) !in reg.classes {
      return Ok(None);
    }
    var cls := ClassFor(reg.classes, className);
    var made := Mount(reg, doc, heap, log, node, cls, evaluated, directives, hooksFound, outcome, refsFound);
    assert cls == ClassFor(reg.classes, className);
    r := if made.Throw? then Throw(made.error) else Ok(Some(made.value));
  }

  /** Lines 370-381 of `createComponent`: `new _class(node)`, the component
      stored on the element, then a non-empty `d-state` or `d-component`
      emptied. An exception from the constructor leaves the element without
      a component. */
  method Mount(reg: Registry, doc: Document, heap: JsHeap, log: Log, node: NodeId, cls: ClassDef, evaluated: Result<Value>,
               directives: DirectiveTable, hooksFound: string -> seq<NodeId>, outcome: RunOutcome, refsFound: seq<NodeId>)
    returns (r: Result<Component>)
    requires doc.Valid() && heap.Valid() && node in doc.nodes && ClassWf(cls) && TableWf(directives)
    requires Distinct(refsFound)
    requires forall i :: 0 <= i < |refsFound| ==> refsFound[i] in doc.nodes && "d-ref" in doc.nodes[refsFound[i]].attrs
    modifies reg`mounted, doc, heap, log
    ensures doc.Valid() && heap.Valid() && doc.next == old(doc.next)
    ensures node in doc.nodes && doc.nodes[node].context == old(doc.nodes)[node].context
    ensures r.Throw? ==> reg.mounted == old(reg.mounted)
    ensures r.Ok? ==>
              fresh(r.value) && r.value.element == node && r.value.className == cls.name
              && reg.mounted == old(reg.mounted)[node := r.value] && doc.nodes[node].hasComponent
              && MountedAttrs(old(doc.nodes)[node].attrs, doc.nodes[node].attrs)
              && ConstructorRuns(directives, cls, hooksFound, outcome).1.None?
  {
    ghost var before := doc.nodes[node];
    var made := NewComponent(doc, heap, log, node, cls, evaluated, directives, hooksFound, outcome, refsFound);
    if made.Throw? {
      return Throw(made.error);
    }
    assert doc.nodes[node].context == before.context;
    Store(reg, doc, node, made.value, before.attrs);
    r := Ok(made.value);
  }

  /** Lines 371 and 378-381 of `createComponent` once the constructor has
      returned `c`: `c` stored on the element, then `Attach`. */
  method Store(reg: Registry, doc: Document, node: NodeId, c: Component, ghost before: map<string, string>)
    requires doc.Valid() && node in doc.nodes && IdentityDropped(before, doc.nodes[node].attrs)
    modifies reg`mounted, doc
    ensures doc.Valid() && doc.next == old(doc.next)
    ensures node in doc.nodes && doc.nodes[node].context == old(doc.nodes)[node].context
    ensures reg.mounted == old(reg.mounted)[node := c] && doc.nodes[node].hasComponent
    ensures MountedAttrs(before, doc.nodes[node].attrs)
  {
    BlankedMounted(before, doc.nodes[node].attrs);
    reg.mounted := reg.mounted[node := c];
    Attach(doc, node);
  }

  /** Line 371 and lines 378-381 of `createComponent`: the element is marked
      as carrying a component, and a non-empty `d-state` or `d-component` is
      emptied. */
  method Attach(doc: Document, node: NodeId)
    requires doc.Valid() && node in doc.nodes
    modifies doc
    ensures doc.Valid() && doc.next == old(doc.next)
    ensures var n := old(doc.nodes)[node];
            doc.nodes == old(doc.nodes)[node := n.(hasComponent := true,
                                                   attrs := Blanked(Blanked(n.attrs, "d-state"), "d-component"))]
  {
    var n := doc.nodes[node];
    doc.Update(node, n.(hasComponent := true, attrs := Blanked(Blanked(n.attrs, "d-state"), "d-component")));
  }
}
