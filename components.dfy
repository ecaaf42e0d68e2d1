/** The component instance of `src/component.js`: its hook stores, its
    listeners and refs, its state and the `setState` / `render` cycle.

    Running a hook is not interpreted here: what a hook does to the page is
    the directive callback it was made from (module `Directives`); a render
    records, in a `Log`, which hook ran with which argument. */
module Components {
  import opened JsStrings
  import opened JsValues
  import opened Dom
  import opened Util
  import MergeFacts

  /** A compiled event handler: a method of the component (the shortcut
      `compileWithComponent` takes for a method name), a compiled source, or
      a prefix function wrapped around another handler. */
  datatype Handler =
    | Method(name: string)
    | Compiled(source: string)
    | PreventThen(inner: Handler)
    | StopThen(inner: Handler)
    | Debounced(inner: Handler)

  /** A hook record `{identifier, value, node, hook}`. The hook function is
      the closure its directive built over the node; a mixin's record may
      have no node. `prop` is the value the closure captured when it was
      built (the `originalProp` of a DOM directive), `Null` where none.
      `value` is the directive's source string, or `d-model`'s key, which is
      `null` when the element has no `d-model` attribute. */
  datatype Hook = Hook(identifier: string, value: Value, node: Option<NodeId>, prop: Value)

  /** An event listener the component attached. */
  datatype Listener = Listener(event: string, node: NodeId, handler: Handler)

  /** An entry of `refs`: one element, or the list a `name[]` ref collects. */
  datatype RefVal = Single(node: NodeId) | Many(nodes: seq<NodeId>)

  /** A directive function in a directive table: one of the library's own,
      or one a component or mixin supplies (which the model does not run). */
  datatype DirectiveFn = BuiltIn(name: string) | Supplied(tag: nat)

  /** A directive table, an object from directive names to directive
      functions: its keys in enumeration order and its entries. */
  datatype DirectiveTable = Table(keys: seq<string>, fns: map<string, DirectiveFn>)

  /** The key list enumerates exactly the entries, each once. */
  predicate TableWf(t: DirectiveTable) {
    Distinct(t.keys) && (forall k :: k in t.fns ==> k in t.keys) && (forall k :: k in t.keys ==> k in t.fns)
  }

  function EmptyTable(): (r: DirectiveTable)
    ensures TableWf(r)
  {
    Table([], map[])
  }

  /** The keys of `ks`, in order, that `seen` does not hold. */
  function Unseen(ks: seq<string>, seen: seq<string>): seq<string> {
    if ks == [] then []
    else
      var last := ks[|ks| - 1];
      Unseen(ks[..|ks| - 1], seen) + (if last in seen then [] else [last])
  }

  /** `Unseen` keeps exactly the keys of `ks` that `seen` lacks. */
  lemma {:induction false} UnseenKeys(ks: seq<string>, seen: seq<string>)
    ensures forall k :: k in Unseen(ks, seen) <==> k in ks && k !in seen
  {
    if ks != [] {
      UnseenKeys(ks[..|ks| - 1], seen);
      assert ks == ks[..|ks| - 1] + [ks[|ks| - 1]];
    }
  }

  /** `t[k] = f` on a table: an existing key keeps its place, a new key
      goes last. */
  function Write(t: DirectiveTable, k: string, f: DirectiveFn): DirectiveTable {
    Table(if k in t.fns then t.keys else t.keys + [k], t.fns[k := f])
  }

  /** `{...a, ...b}` after the first `n` entries of `b`: each is written
      over the copy of `a`, an existing key in its old place, a new key
      last. */
  function SpreadFirst(a: DirectiveTable, b: DirectiveTable, n: nat): (r: DirectiveTable)
    requires TableWf(a) && TableWf(b) && n <= |b.keys|
    ensures TableWf(r)
    ensures r.keys == a.keys + Unseen(b.keys[..n], a.keys)
    ensures forall x :: x in r.fns <==> x in a.fns || x in b.keys[..n]
    ensures forall x :: x in r.fns ==> r.fns[x] == if x in b.keys[..n] then b.fns[x] else a.fns[x]
  {
    if n == 0 then a
    else
      var r0 := SpreadFirst(a, b, n - 1);
      var k := b.keys[n - 1];
      SpreadNext(a, b, n, r0);
      TakeOneMore(b.keys, n);
      Write(r0, k, b.fns[k])
  }

  /** The step of `SpreadFirst` that writes the n-th entry `k` of `b`: the
      key is new exactly when `a` does not hold it. */
  lemma SpreadNext(a: DirectiveTable, b: DirectiveTable, n: nat, r0: DirectiveTable)
    requires TableWf(a) && TableWf(b) && 0 < n <= |b.keys| && TableWf(r0)
    requires r0.keys == a.keys + Unseen(b.keys[..n - 1], a.keys)
    requires forall x :: x in r0.fns <==> x in a.fns || x in b.keys[..n - 1]
    ensures var k := b.keys[n - 1];
            var r := Write(r0, k, b.fns[k]);
            TableWf(r) && r.keys == a.keys + Unseen(b.keys[..n], a.keys)
  {
    var k := b.keys[n - 1];
    NotYetWritten(b.keys, n);
    UnseenStep(a.keys, b.keys, n, r0.keys, k in r0.fns);
    SnocWf(r0, k, b.fns[k]);
  }

  /** The n-th key of distinct keys is not among the keys before it. */
  lemma NotYetWritten(ks: seq<string>, n: nat)
    requires 0 < n <= |ks| && Distinct(ks)
    ensures ks[n - 1] !in ks[..n - 1]
  {
    var pre := ks[..n - 1];
    assert forall j | 0 <= j < |pre| :: pre[j] == ks[j];
  }

  /** The key list grows by the n-th key exactly when it is unseen. */
  lemma UnseenStep(seen: seq<string>, ks: seq<string>, n: nat, keys0: seq<string>, old_: bool)
    requires 0 < n <= |ks| && keys0 == seen + Unseen(ks[..n - 1], seen) && (old_ <==> ks[n - 1] in seen)
    ensures (if old_ then keys0 else keys0 + [ks[n - 1]]) == seen + Unseen(ks[..n], seen)
  {
    assert ks[..n] == ks[..n - 1] + [ks[n - 1]];
    UnseenSnoc(ks[..n - 1], ks[n - 1], seen);
  }

  lemma TakeOneMore(ks: seq<string>, n: nat)
    requires 0 < n <= |ks|
    ensures forall x :: x in ks[..n] <==> x in ks[..n - 1] || x == ks[n - 1]
  {
    assert ks[..n] == ks[..n - 1] + [ks[n - 1]];
  }

  /** Writing `k` keeps a table well formed. */
  lemma SnocWf(t: DirectiveTable, k: string, f: DirectiveFn)
    requires TableWf(t)
    ensures TableWf(Write(t, k, f))
  {
    if k !in t.fns {
      DistinctSnoc(t.keys, k);
    }
  }

  lemma UnseenSnoc(ks: seq<string>, k: string, seen: seq<string>)
    ensures Unseen(ks + [k], seen) == Unseen(ks, seen) + (if k in seen then [] else [k])
  {
    assert (ks + [k])[..|ks|] == ks;
  }

  /** `{...a, ...b}`: every entry of `b` wins over `a`'s, a key of `a` keeps
      its place and `b`'s new keys follow in `b`'s order. */
  function Spread(a: DirectiveTable, b: DirectiveTable): (r: DirectiveTable)
    requires TableWf(a) && TableWf(b)
    ensures TableWf(r)
    ensures r.keys == a.keys + Unseen(b.keys, a.keys)
    ensures r.fns == a.fns + b.fns
  {
    assert b.keys[..|b.keys|] == b.keys;
    var r := SpreadFirst(a, b, |b.keys|);
    SpreadFns(r.fns, a.fns, b.fns, b.keys);
    r
  }

  /** Entries written from `b` over `a` make the union with `b` winning. */
  lemma SpreadFns(r: map<string, DirectiveFn>, a: map<string, DirectiveFn>, b: map<string, DirectiveFn>, bk: seq<string>)
    requires forall x :: x in bk <==> x in b
    requires forall x :: x in r <==> x in a || x in bk
    requires forall x :: x in r ==> r[x] == if x in bk then b[x] else a[x]
    ensures r == a + b
  {
  }

  /** Nothing is seen: every key is kept. */
  lemma {:induction false} UnseenNone(ks: seq<string>)
    ensures Unseen(ks, []) == ks
  {
    if ks != [] {
      UnseenNone(ks[..|ks| - 1]);
      assert ks == ks[..|ks| - 1] + [ks[|ks| - 1]];
    }
  }

  /** `{...{}, ...t}` is `t` again, its keys in the same order. */
  lemma SpreadOverEmpty(t: DirectiveTable)
    requires TableWf(t)
    ensures Spread(EmptyTable(), t) == t
  {
    UnseenNone(t.keys);
    assert EmptyTable().fns + t.fns == t.fns;
  }

  /** `Object.entries(t)`. */
  function TableEntries(t: DirectiveTable): (r: seq<(string, DirectiveFn)>)
    requires TableWf(t)
    ensures |r| == |t.keys|
    ensures forall i :: 0 <= i < |r| ==> r[i] == (t.keys[i], t.fns[t.keys[i]])
  {
    seq(|t.keys|, i requires 0 <= i < |t.keys| => (t.keys[i], t.fns[t.keys[i]]))
  }

  /** A mixin object after a mixin function was applied: its `state`,
      `renderHooks`, `stateHooks` and `componentSpecificDirectives` keys
      (`undefined`, empty and empty when absent: merging `undefined` and
      merging `{}` leave the target alike), and its other own keys, each
      with what it holds; `extendObject` copies them onto the instance. */
  datatype Mixin = Mixin(state: Value, renderHooks: seq<Hook>, stateHooks: seq<Hook>, directives: DirectiveTable,
                         own: map<string, OwnKey>)

  /** What an own key holds, as `compileWithComponent` tells keys apart: a
      data property whose value is a function (a `handleClick` method), an
      accessor (a getter or setter), or a data property with any other value
      (a `count: 0`). */
  datatype OwnKey = FunctionValue | Accessor | OtherValue

  predicate MixinsWf(ms: seq<Mixin>) {
    forall i :: 0 <= i < |ms| ==> TableWf(ms[i].directives)
  }

  function MixinStates(ms: seq<Mixin>): (r: seq<Value>)
    ensures |r| == |ms| && forall i :: 0 <= i < |ms| ==> r[i] == ms[i].state
  {
    seq(|ms|, i requires 0 <= i < |ms| => ms[i].state)
  }

  /** The mixins' render hooks concatenated in mixin order. */
  function MixinRenderHooks(ms: seq<Mixin>): seq<Hook> {
    if ms == [] then [] else MixinRenderHooks(ms[..|ms| - 1]) + ms[|ms| - 1].renderHooks
  }

  /** The mixins' state hooks concatenated in mixin order. */
  function MixinStateHooks(ms: seq<Mixin>): seq<Hook> {
    if ms == [] then [] else MixinStateHooks(ms[..|ms| - 1]) + ms[|ms| - 1].stateHooks
  }

  /** The own keys of one mixin, each mapped to whether it is a method. */
  function OwnMembers(m: Mixin): map<string, bool> {
    map k | k in m.own :: m.own[k] == FunctionValue
  }

  /** The own keys of all the mixins, each mapped to whether the last mixin
      that has it lends a method under it. */
  function MixinMembers(ms: seq<Mixin>): map<string, bool> {
    if ms == [] then map[] else MixinMembers(ms[..|ms| - 1]) + OwnMembers(ms[|ms| - 1])
  }

  /** A name is a key the mixins lend exactly when one of them has it as an
      own key besides the four it treats specially. */
  lemma {:induction false} MixinMembersAre(ms: seq<Mixin>, k: string)
    ensures k in MixinMembers(ms) <==> exists i :: 0 <= i < |ms| && k in ms[i].own
  {
    if ms != [] {
      var init := ms[..|ms| - 1];
      MixinMembersAre(init, k);
      if k in MixinMembers(init) {
        var i :| 0 <= i < |init| && k in init[i].own;
        assert ms[i] == init[i];
      }
      if exists i :: 0 <= i < |ms| && k in ms[i].own {
        var i :| 0 <= i < |ms| && k in ms[i].own;
        if i < |init| {
          assert init[i] == ms[i];
        }
      }
    }
  }

  /** The last mixin that has a key decides: the key is a method when that
      mixin holds a function under it, and not one when it holds an accessor
      or any other value. */
  lemma {:induction false} LastMixinDecides(ms: seq<Mixin>, i: nat, k: string)
    requires i < |ms| && k in ms[i].own
    requires forall j :: i < j < |ms| ==> k !in ms[j].own
    ensures k in MixinMembers(ms) && (MixinMembers(ms)[k] <==> ms[i].own[k] == FunctionValue)
  {
    var init := ms[..|ms| - 1];
    if i < |ms| - 1 {
      assert init[i] == ms[i];
      assert k !in ms[|ms| - 1].own;
      LastMixinDecides(init, i, k);
    }
  }

  /** `methods` after `extendObject` copied keys onto the instance: an own
      key of the instance hides the class's method of that name, so a key
      the mixins lend is a method exactly when it holds a function, and any
      other name is a method exactly when it was one before. */
  function Lent(methods: set<string>, members: map<string, bool>): (r: set<string>)
    ensures forall k :: k in r <==> if k in members then members[k] else k in methods
  {
    (methods - members.Keys) + (set k | k in members && members[k])
  }

  /** The mixins' directive tables spread over `{}` in mixin order. */
  function MixinTable(ms: seq<Mixin>): (r: DirectiveTable)
    requires MixinsWf(ms)
    ensures TableWf(r)
  {
    if ms == [] then EmptyTable()
    else Spread(MixinTable(ms[..|ms| - 1]), ms[|ms| - 1].directives)
  }

  /** Some mixin of `ms` defines the directive name `k`. */
  ghost predicate SomeMixinDefines(ms: seq<Mixin>, k: string) {
    exists i :: 0 <= i < |ms| && k in ms[i].directives.fns
  }

  /** The names of `r` are exactly those some mixin of `ms` defines. */
  ghost predicate DefinedByMixins(r: DirectiveTable, ms: seq<Mixin>) {
    forall k :: k in r.fns <==> SomeMixinDefines(ms, k)
  }

  /** Each name of a mixin of `ms` takes in `r` the function of the last
      mixin that defines it. */
  ghost predicate LastMixinWins(r: DirectiveTable, ms: seq<Mixin>) {
    forall i, k :: 0 <= i < |ms| && k in ms[i].directives.fns && (forall j :: i < j < |ms| ==> k !in ms[j].directives.fns)
                   ==> k in r.fns && r.fns[k] == ms[i].directives.fns[k]
  }

  /** A name is in the mixins' table exactly when some mixin defines it, and
      it takes the function of the last mixin that does. */
  lemma {:induction false} MixinTableEntries(ms: seq<Mixin>)
    requires MixinsWf(ms)
    ensures DefinedByMixins(MixinTable(ms), ms) && LastMixinWins(MixinTable(ms), ms)
  {
    if ms != [] {
      var init := ms[..|ms| - 1];
      MixinTableEntries(init);
      MixinTableDefines(ms, MixinTable(init), MixinTable(ms));
      MixinTableLastWins(ms, MixinTable(init));
    }
  }

  /** Spreading the last mixin's table keeps the names exactly those some
      mixin defines. */
  lemma MixinTableDefines(ms: seq<Mixin>, r0: DirectiveTable, r: DirectiveTable)
    requires |ms| > 0 && DefinedByMixins(r0, ms[..|ms| - 1])
    requires r.fns == r0.fns + ms[|ms| - 1].directives.fns
    ensures DefinedByMixins(r, ms)
  {
    var init := ms[..|ms| - 1];
    var last := ms[|ms| - 1].directives;
    forall k
      ensures k in r.fns <==> k in r0.fns || k in last.fns
    {
    }
    forall k | SomeMixinDefines(ms, k)
      ensures k in r.fns
    {
      var i :| 0 <= i < |ms| && k in ms[i].directives.fns;
      if i < |init| {
        assert init[i] == ms[i];
        assert 0 <= i < |init| && k in init[i].directives.fns;
      } else {
        assert ms[i].directives == last;
      }
    }
    forall k | k in r.fns
      ensures SomeMixinDefines(ms, k)
    {
      if k in last.fns {
        assert k in ms[|ms| - 1].directives.fns;
      } else {
        assert SomeMixinDefines(init, k);
        var i :| 0 <= i < |init| && k in init[i].directives.fns;
        assert ms[i] == init[i];
        assert k in ms[i].directives.fns;
      }
    }
  }

  /** Spreading the last mixin's table keeps the last definition of each
      name winning. */
  lemma MixinTableLastWins(ms: seq<Mixin>, r0: DirectiveTable)
    requires MixinsWf(ms) && |ms| > 0 && TableWf(r0)
    requires DefinedByMixins(r0, ms[..|ms| - 1]) && LastMixinWins(r0, ms[..|ms| - 1])
    ensures LastMixinWins(Spread(r0, ms[|ms| - 1].directives), ms)
  {
    var init := ms[..|ms| - 1];
    var last := ms[|ms| - 1].directives;
    var r := Spread(r0, last);
    forall i, k | 0 <= i < |ms| && k in ms[i].directives.fns
                  && (forall j :: i < j < |ms| ==> k !in ms[j].directives.fns)
      ensures k in r.fns && r.fns[k] == ms[i].directives.fns[k]
    {
      if i < |init| {
        assert k !in ms[|ms| - 1].directives.fns;
        assert init[i] == ms[i];
        forall j | i < j < |init|
          ensures k !in init[j].directives.fns
        {
          assert init[j] == ms[j];
        }
        assert k in r0.fns;
        assert r0.fns[k] == init[i].directives.fns[k];
        assert r.fns[k] == r0.fns[k];
      } else {
        assert i == |ms| - 1;
        assert r.fns[k] == last.fns[k];
      }
    }
  }

  /** A class as `createComponent` instantiates it: its name, the names
      `compileWithComponent` resolves to its methods, its
      `componentSpecificDirectives()`, its `shouldFollowRender`, the object
      its `transistionOnStateChanging` returns (a new object with these
      contents) and what its `mixins()` returns. */
  datatype ClassDef = ClassDef(name: string, methods: set<string>, directives: DirectiveTable,
                               followsRender: (NodeId, Value) -> bool,
                               transitionBase: (Value, Value) -> WfObject, mixins: seq<Mixin>)

  predicate ClassWf(cls: ClassDef) {
    TableWf(cls.directives) && MixinsWf(cls.mixins)
  }

  /** The methods of `Component.prototype`. */
  const ComponentMethods: set<string> :=
    {"constructor", "extendInstance", "mixins", "addEventListener", "removeEventListener",
     "afterInitialized", "runAfterInitializedHook", "filterChildren", "portalElements",
     "findChildrenElements", "_findChildrenElements", "findTopLevel", "_findTopLevel",
     "registerRefs", "componentSpecificDirectives", "registerHooks",
     "transistionOnStateChanging", "_mergeState", "shouldFollowRender", "setState", "render"}

  /** The base class `Component`: no directives of its own, every child
      follows a render, `{}` as the base of a transition, no mixins. */
  function BaseClass(): (cls: ClassDef)
    ensures ClassWf(cls)
  {
    ClassDef("Component", ComponentMethods, EmptyTable(), (p: NodeId, t: Value) => true,
             (p: Value, s: Value) => EmptyObject(), [])
  }

  /** What a hook run is recorded as. */
  datatype Event =
    | StateHookRan(hook: Hook, prevState: Value)
    | RenderHookRan(hook: Hook, transition: Value)
    | DirectiveRan(fn: DirectiveFn, node: NodeId)

  class Log {
    var events: seq<Event>

    constructor ()
      ensures events == []
    {
      events := [];
    }
  }

  /** A well-formed object, what an updater or a class hook may build. */
  type WfObject = o: JsObject | ObjWf(o) witness EmptyObject()

  /** What an updater function does to the heap it is handed: the objects
      it rewrites (the clone, or any object the clone shares with the
      previous state, as `s.todos.push(x)` does), the objects it creates, in
      the order it creates them, and the value it returns. */
  datatype Rewrite = Rewrite(writes: map<ObjId, WfObject>, created: seq<WfObject>, value: Value)

  /** The argument of `setState`: a partial state to merge, or an updater
      function applied to the heap and the clone `n`. */
  datatype StateUpdate = MergeIn(partial: Value) | Updater(f: (Heap, ObjId) -> Rewrite)

  /** Each hook run once with the same argument, in order. */
  function StateHookRuns(hooks: seq<Hook>, prevState: Value): (r: seq<Event>)
    ensures |r| == |hooks|
    ensures forall i :: 0 <= i < |hooks| ==> r[i] == StateHookRan(hooks[i], prevState)
  {
    if hooks == [] then [] else StateHookRuns(hooks[..|hooks| - 1], prevState) + [StateHookRan(hooks[|hooks| - 1], prevState)]
  }

  function RenderHookRuns(hooks: seq<Hook>, transition: Value): (r: seq<Event>)
    ensures |r| == |hooks|
    ensures forall i :: 0 <= i < |hooks| ==> r[i] == RenderHookRan(hooks[i], transition)
  {
    if hooks == [] then [] else RenderHookRuns(hooks[..|hooks| - 1], transition) + [RenderHookRan(hooks[|hooks| - 1], transition)]
  }

  // ---------------------------------------------------------------------------
  // Clones

  /** `deepMerge({}, v)` with the new `{}` allocated as `n`. */
  function CloneAt(h: Heap, n: ObjId, v: Value, limit: nat): (r: Outcome)
    ensures r.heap.Keys == h.Keys + {n}
  {
    MergeFrame(h[n := EmptyObject()], n, [v], 0, limit)
  }

  /** A clone into a fresh `{}` never recurses, so it never overflows, and
      it copies an object's keys and values, in order, into a plain object:
      a shallow copy. */
  lemma CloneCopies(h: Heap, n: ObjId, v: Value, limit: nat)
    requires HeapWf(h) && n !in h
    ensures var r := CloneAt(h, n, v, limit);
            !r.overflow
            && (v.ObjRef? && v.id in h ==> r.heap == h[n := JsObject(PlainObject, h[v.id].keys, h[v.id].props)])
  {
    var h1 := h[n := EmptyObject()];
    if v.ObjRef? && v.id in h {
      MergeFacts.ShallowCopy(h1, n, v.id, limit);
      assert h1[n := JsObject(PlainObject, h[v.id].keys, h[v.id].props)] == h[n := JsObject(PlainObject, h[v.id].keys, h[v.id].props)];
    } else if v.Str? {
      var ks := ForInKeys(h1, v);
      StringCloneKeys(h1, n, v.s, ks, 0, limit);
      var first := MergeKeysFrom(h1, n, v, ks, 0, 0, limit);
      assert MergeSourcesFrom(first.heap, n, [v], 1, 0, limit) == Outcome(first.heap, false);
      assert MergeSourcesFrom(h1, n, [v], 0, 0, limit) == Outcome(first.heap, false);
    } else {
      assert ForInKeys(h1, v) == [];
      assert MergeKeysFrom(h1, n, v, [], 0, 0, limit) == Outcome(h1, false);
      assert MergeSourcesFrom(h1, n, [v], 1, 0, limit) == Outcome(h1, false);
      assert MergeSourcesFrom(h1, n, [v], 0, 0, limit) == Outcome(h1, false);
    }
  }

  /** `deepMerge({}, v)`: a new object holding a copy of `v`. */
  method Clone(heap: JsHeap, v: Value) returns (id: ObjId)
    requires heap.Valid()
    modifies heap
    ensures heap.Valid() && id == old(heap.next) && heap.next == old(heap.next) + 1
    ensures heap.objs == CloneAt(old(heap.objs), id, v, heap.limit).heap
  {
    ghost var h0 := heap.objs;
    id := heap.Alloc(EmptyObject());
    CloneCopies(h0, id, v, heap.limit);
    MergeWf(heap.objs, id, [v], heap.limit);
    var r := DeepMerge(heap, id, [v]);
    if r.Throw? {
      assert false;
    }
  }

  /** The characters of a string are never plain objects, so copying them
      never recurses. */
  lemma {:induction false} StringCloneKeys(h: Heap, t: ObjId, s: string, ks: seq<string>, j: nat, limit: nat)
    requires t in h && j <= |ks|
    ensures !MergeKeysFrom(h, t, Str(s), ks, j, 0, limit).overflow
    decreases |ks| - j
  {
    if j < |ks| {
      var first := MergeStep(h, t, Str(s), j, ks[j], 0, limit);
      assert !IsPlain(h, ForInValue(h, Str(s), j, ks[j]));
      StringCloneKeys(first.heap, t, s, ks, j + 1, limit);
    }
  }

  /** A merge keeps the heap well formed. */
  lemma MergeWf(h: Heap, t: ObjId, srcs: seq<Value>, limit: nat)
    requires t in h && HeapWf(h)
    ensures HeapWf(MergeFrame(h, t, srcs, 0, limit).heap)
  {
    FrameGrows(h, t, srcs, 0, limit);
    GrowsWf(h, MergeFrame(h, t, srcs, 0, limit).heap);
  }

  /** The heap after `setState` cloned the old state into `n` and committed
      a new one, the next free identity, and that new state or the exception
      the merge threw. */
  datatype Commit = Commit(heap: Heap, next: nat, state: Result<Value>)

  /** `h` with the objects `os` allocated from `start` on, in order. */
  function AllocAll(h: Heap, start: nat, os: seq<WfObject>): (r: Heap)
    ensures forall x :: x in r <==> x in h || start <= x < start + |os|
    ensures forall i :: 0 <= i < |os| ==> r[start + i] == os[i]
    ensures forall x :: x in h && !(start <= x < start + |os|) ==> r[x] == h[x]
  {
    if os == [] then h else AllocAll(h, start, os[..|os| - 1])[start + |os| - 1 := os[|os| - 1]]
  }

  /** `c` with the objects in `writes` that `c` holds replaced. */
  function Rewritten(c: Heap, writes: map<ObjId, WfObject>): (r: Heap)
    ensures r.Keys == c.Keys
    ensures forall x :: x in c ==> r[x] == if x in writes then writes[x] else c[x]
  {
    map x | x in c :: if x in writes then writes[x] else c[x]
  }

  /** Lines 246-248 of `setState`: `prev` is cloned into a fresh `{}` (`n`);
      a partial state is merged into the clone, which becomes the state; an
      updater rewrites the heap, and what it returns becomes the state. */
  function CommittedState(h: Heap, n: ObjId, prev: Value, update: StateUpdate, limit: nat): (r: Commit)
  {
    var c := CloneAt(h, n, prev, limit).heap;
    match update
    case Updater(f) =>
      var out := f(c, n);
      Commit(AllocAll(Rewritten(c, out.writes), n + 1, out.created), n + 1 + |out.created|, Ok(out.value))
    case MergeIn(p) =>
      var m := MergeFrame(c, n, [p], 0, limit);
      Commit(m.heap, n + 1, if m.overflow then Throw(RangeError) else Ok(ObjRef(n)))
  }

  /** An updater's effects all land: every object of the heap after the
      clone that it rewrites holds what it wrote, including objects the
      clone shares with the previous state, every other object is as the
      clone left it, the objects it creates are allocated after the clone,
      and its value becomes the state. Only a merge can throw. */
  lemma UpdaterLands(h: Heap, n: ObjId, prev: Value, f: (Heap, ObjId) -> Rewrite, x: ObjId, limit: nat)
    requires forall id :: id in h ==> id < n
    ensures var c := CloneAt(h, n, prev, limit).heap;
            var out := f(c, n);
            var r := CommittedState(h, n, prev, Updater(f), limit);
            r.state == Ok(out.value) && r.next == n + 1 + |out.created|
            && (x in r.heap <==> x in c || n < x <= n + |out.created|)
            && (x in c ==> r.heap[x] == if x in out.writes then out.writes[x] else c[x])
            && (n < x <= n + |out.created| ==> r.heap[x] == out.created[x - n - 1])
  {
    var c := CloneAt(h, n, prev, limit).heap;
    var out := f(c, n);
    var w := Rewritten(c, out.writes);
    var a := AllocAll(w, n + 1, out.created);
    if x in c {
      assert !(n + 1 <= x < n + 1 + |out.created|);
    }
    if n < x <= n + |out.created| {
      assert a[n + 1 + (x - n - 1)] == out.created[x - n - 1];
    }
  }

  /** A partial state leaves the next free identity just past the clone,
      and the committed heap holds the old objects and the clone. */
  lemma MergeInCommits(h: Heap, n: ObjId, prev: Value, p: Value, limit: nat)
    ensures var r := CommittedState(h, n, prev, MergeIn(p), limit);
            r.next == n + 1 && r.heap.Keys == h.Keys + {n}
            && (r.state.Ok? ==> r.state.value == ObjRef(n))
            && (r.state.Throw? ==> r.state.error == RangeError)
  {
    var c := CloneAt(h, n, prev, limit).heap;
    FrameGrows(c, n, [p], 0, limit);
  }

  /** `setState` with a partial state object `p`: the new state is the copy
      of the old state object `s` with `p` merged into its top level as
      `MergeFacts.TopMerge` folds it (a key `p` does not hold keeps the old
      value, a key `p` holds takes `p`'s value unless both values are plain
      objects), and `p` itself is left as it was. */
  lemma MergedStateTopLevel(h: Heap, n: ObjId, s: ObjId, p: ObjId, limit: nat)
    requires HeapWf(h) && n !in h && s in h && p in h && s != p
    requires MergeFacts.Unreferenced(h, n) && MergeFacts.Unreferenced(h, p)
    ensures var c := CommittedState(h, n, ObjRef(s), MergeIn(ObjRef(p)), limit);
            var copy := JsObject(PlainObject, h[s].keys, h[s].props);
            c.state.Ok? ==>
              c.state.value == ObjRef(n) && c.heap[p] == h[p]
              && c.heap[n] == MergeFacts.TopMerge(h[n := copy], copy, [ObjRef(p)])
  {
    var copy := JsObject(PlainObject, h[s].keys, h[s].props);
    var h1 := h[n := copy];
    CloneCopies(h, n, ObjRef(s), limit);
    assert MergeFacts.Unreferenced(h1, n) && MergeFacts.Unreferenced(h1, p) by {
      forall x, k | x in h1 && k in h1[x].props
        ensures h1[x].props[k] != ObjRef(n) && h1[x].props[k] != ObjRef(p)
      {
        if x == n {
          assert h1[x].props[k] == h[s].props[k];
        }
      }
    }
    MergeFacts.DeepMergeTopLevel(h1, n, [ObjRef(p)], limit);
  }

  /** Line 255 of `setState`: the class's base for the change, allocated as
      `n`, with the explicit transition merged into it. */
  function TransitionAt(h: Heap, n: ObjId, base: WfObject, transition: Value, limit: nat): (r: Outcome)
    ensures r.heap.Keys == h.Keys + {n}
  {
    MergeFrame(h[n := base], n, [transition], 0, limit)
  }

  /** `deepMerge(base, transition)` with the class's base for the change
      allocated as a fresh object; a transition nested too deeply throws. */
  method BuildTransition(heap: JsHeap, base: WfObject, transition: Value) returns (r: Result<ObjId>)
    requires heap.Valid()
    modifies heap
    ensures heap.Valid() && heap.next == old(heap.next) + 1
    ensures var out := TransitionAt(old(heap.objs), old(heap.next), base, transition, heap.limit);
            heap.objs == out.heap && r == (if out.overflow then Throw(RangeError) else Ok(old(heap.next)))
  {
    var n := heap.Alloc(base);
    MergeWf(heap.objs, n, [transition], heap.limit);
    var m := DeepMerge(heap, n, [transition]);
    r := if m.Throw? then Throw(RangeError) else Ok(n);
  }

  /** The transition a render receives: a key of the explicit transition
      object `t` whose value is not a plain object overrides the class's
      base, and a key `t` does not hold keeps the base's value. */
  lemma TransitionKeys(h: Heap, n: ObjId, base: WfObject, t: ObjId, k: string, limit: nat)
    requires HeapWf(h) && n !in h && t in h
    requires MergeFacts.Unreferenced(h, n) && MergeFacts.Unreferenced(h, t)
    requires MergeFacts.ObjOutside(base, {n, t})
    ensures var r := TransitionAt(h, n, base, ObjRef(t), limit);
            !r.overflow ==>
              (k in h[t].props && !IsPlain(h, h[t].props[k]) ==> MergeFacts.Prop(r.heap[n], k) == h[t].props[k])
              && (k !in h[t].props ==> MergeFacts.Prop(r.heap[n], k) == MergeFacts.Prop(base, k))
  {
    var h1 := h[n := base];
    MergeFacts.DeepMergeTopLevel(h1, n, [ObjRef(t)], limit);
    if k in h[t].props && !IsPlain(h, h[t].props[k]) {
      MergeFacts.LaterSourceWins(h1, base, [ObjRef(t)], 0, k);
    }
    if k !in h[t].props {
      assert ObjWf(h[t]) && ForInKeys(h1, ObjRef(t)) == h[t].keys;
      MergeFacts.TopSourcesUntouched(h1, base, [ObjRef(t)], 0, k);
    }
  }

  // ---------------------------------------------------------------------------
  // Mixins and directive runs

  /** `extendComponentInstance` on the heap: the mixins' states merged into
      a new `{}` allocated as `a`, then that `_state` merged into the state
      object `s`; the outcome of the first merge that overflows, if one
      does. */
  function Extended(h: Heap, a: ObjId, s: ObjId, ms: seq<Mixin>, limit: nat): (r: Outcome)
    requires s in h
  {
    var merged := MergeFrame(h[a := EmptyObject()], a, MixinStates(ms), 0, limit);
    if merged.overflow then merged else MergeFrame(merged.heap, s, [ObjRef(a)], 0, limit)
  }

  /** With no mixins nothing outgrows the stack: `_state` stays `{}`, and
      merging it into the state visits no key. */
  lemma ExtendedNoMixins(h: Heap, a: ObjId, s: ObjId, limit: nat)
    requires s in h
    ensures !Extended(h, a, s, [], limit).overflow
  {
    var h1 := h[a := EmptyObject()];
    assert MixinStates([]) == [];
    assert MergeFrame(h1, a, [], 0, limit) == Outcome(h1, false);
    assert ForInKeys(h1, ObjRef(a)) == [];
    assert MergeKeysFrom(h1, s, ObjRef(a), [], 0, 0, limit) == Outcome(h1, false);
    assert MergeSourcesFrom(h1, s, [ObjRef(a)], 1, 0, limit) == Outcome(h1, false);
    assert MergeSourcesFrom(h1, s, [ObjRef(a)], 0, 0, limit) == Outcome(h1, false);
    assert MergeFrame(h1, s, [ObjRef(a)], 0, limit) == Outcome(h1, false);
  }

  /** Merging `undefined`, the state of a mixin without one, visits no key. */
  lemma MergeUndefinedFits(h: Heap, t: ObjId, limit: nat)
    requires t in h
    ensures !MergeFrame(h, t, [Undefined], 0, limit).overflow
  {
    assert ForInKeys(h, Undefined) == [];
    assert MergeKeysFrom(h, t, Undefined, [], 0, 0, limit) == Outcome(h, false);
    assert MergeSourcesFrom(h, t, [Undefined], 1, 0, limit) == Outcome(h, false);
  }

  /** The heap side of `extendComponentInstance`: a fresh object `a`
      receives every mixin's `state`, then `a` is merged into the state
      object `s`; the hooks and directives are gathered on the way. */
  method MergeExtension(heap: JsHeap, s: ObjId, ms: seq<Mixin>)
    returns (overflow: bool, hooksR: seq<Hook>, hooksS: seq<Hook>, table: DirectiveTable, members: map<string, bool>,
             ghost lent: nat)
    requires heap.Valid() && s in heap.objs && MixinsWf(ms)
    modifies heap
    ensures heap.Valid() && heap.next == old(heap.next) + 1
    ensures var out := Extended(old(heap.objs), old(heap.next), s, ms, heap.limit);
            heap.objs == out.heap && overflow == out.overflow
    ensures !overflow ==> hooksR == MixinRenderHooks(ms) && hooksS == MixinStateHooks(ms) && table == MixinTable(ms)
    ensures !overflow ==> members == MixinMembers(ms)
    ensures lent <= |ms| && members == MixinMembers(ms[..lent])
  {
    ghost var out := Extended(heap.objs, heap.next, s, ms, heap.limit);
    var a := heap.Alloc(EmptyObject());
    overflow, hooksR, hooksS, table, members, lent := MergeMixins(heap, a, ms);
    if overflow {
      return;
    }
    MergeWf(heap.objs, s, [ObjRef(a)], heap.limit);
    var r := DeepMerge(heap, s, [ObjRef(a)]);
    overflow := r.Throw?;
  }

  /** One source after another: merging from the i-th source on is the call
      that merges `srcs[i]` alone and then, unless it overflowed, the rest. */
  lemma MergeSourceAlone(h: Heap, t: ObjId, srcs: seq<Value>, i: nat, limit: nat)
    requires t in h && i < |srcs|
    ensures var one := MergeFrame(h, t, [srcs[i]], 0, limit);
            MergeSourcesFrom(h, t, srcs, i, 0, limit)
              == if one.overflow then one else MergeSourcesFrom(one.heap, t, srcs, i + 1, 0, limit)
  {
    MergeFacts.SingleSource(h, t, srcs[i], 0, limit);
  }

  /** The `computedObjs.forEach` loop of `extendComponentInstance`: each
      mixin's state merged into `_state` (`a`) by its own `deepMerge`, its
      hooks concatenated, its table spread and its members gathered for
      `extendObject`; the loop stops at a merge that throws, with the
      members of the mixins before it. */
  method MergeMixins(heap: JsHeap, a: ObjId, ms: seq<Mixin>)
    returns (overflow: bool, hooksR: seq<Hook>, hooksS: seq<Hook>, table: DirectiveTable, members: map<string, bool>,
             ghost lent: nat)
    requires heap.Valid() && a in heap.objs && MixinsWf(ms)
    modifies heap
    ensures heap.Valid() && heap.next == old(heap.next)
    ensures var out := MergeFrame(old(heap.objs), a, MixinStates(ms), 0, heap.limit);
            heap.objs == out.heap && overflow == out.overflow
    ensures !overflow ==> hooksR == MixinRenderHooks(ms) && hooksS == MixinStateHooks(ms) && table == MixinTable(ms)
    ensures !overflow ==> members == MixinMembers(ms)
    ensures lent <= |ms| && members == MixinMembers(ms[..lent])
  {
    ghost var goal := MergeFrame(heap.objs, a, MixinStates(ms), 0, heap.limit);
    SourcesStart(heap.objs, a, MixinStates(ms), heap.limit);
    hooksR, hooksS, table, members := [], [], EmptyTable(), map[];
    var i := 0;
    while i < |ms|
      invariant i <= |ms| && heap.Valid() && heap.next == old(heap.next) && a in heap.objs
      invariant MergeSourcesFrom(heap.objs, a, MixinStates(ms), i, 0, heap.limit) == goal
      invariant Gathered(ms, i, hooksR, hooksS, table, members)
    {
      var stop := MergeMixinState(heap, a, MixinStates(ms), i, goal);
      if stop {
        return true, hooksR, hooksS, table, members, i;
      }
      hooksR, hooksS, table, members := GatherMixin(ms, i, hooksR, hooksS, table, members);
      i := i + 1;
    }
    SourcesEnd(heap.objs, a, MixinStates(ms), heap.limit);
    assert ms[..i] == ms;
    overflow, lent := false, i;
  }

  /** A merge is its loop over the sources from the first on. */
  lemma SourcesStart(h: Heap, t: ObjId, srcs: seq<Value>, limit: nat)
    requires t in h
    ensures MergeFrame(h, t, srcs, 0, limit) == MergeSourcesFrom(h, t, srcs, 0, 0, limit)
  {
  }

  /** Past the last source the loop leaves the heap as it is. */
  lemma SourcesEnd(h: Heap, t: ObjId, srcs: seq<Value>, limit: nat)
    requires t in h
    ensures MergeSourcesFrom(h, t, srcs, |srcs|, 0, limit) == Outcome(h, false)
  {
  }

  /** The hooks, the table and the members gathered from the first `i`
      mixins. */
  ghost predicate Gathered(ms: seq<Mixin>, i: nat, hooksR: seq<Hook>, hooksS: seq<Hook>, table: DirectiveTable,
                           members: map<string, bool>) {
    i <= |ms| && MixinsWf(ms[..i])
    && hooksR == MixinRenderHooks(ms[..i]) && hooksS == MixinStateHooks(ms[..i]) && table == MixinTable(ms[..i])
    && members == MixinMembers(ms[..i])
  }

  /** The i-th mixin's hooks appended, its table spread and its members
      added. */
  method GatherMixin(ms: seq<Mixin>, i: nat, hooksR: seq<Hook>, hooksS: seq<Hook>, table: DirectiveTable, members: map<string, bool>)
    returns (hooksR': seq<Hook>, hooksS': seq<Hook>, table': DirectiveTable, members': map<string, bool>)
    requires MixinsWf(ms) && i < |ms| && Gathered(ms, i, hooksR, hooksS, table, members)
    ensures Gathered(ms, i + 1, hooksR', hooksS', table', members')
  {
    MixinsNext(ms, i);
    hooksR' := hooksR + ms[i].renderHooks;
    hooksS' := hooksS + ms[i].stateHooks;
    table' := Spread(table, ms[i].directives);
    members' := members + OwnMembers(ms[i]);
  }

  lemma MixinsNext(ms: seq<Mixin>, i: nat)
    requires MixinsWf(ms) && i < |ms|
    ensures MixinsWf(ms[..i]) && MixinsWf(ms[..i + 1])
    ensures MixinRenderHooks(ms[..i + 1]) == MixinRenderHooks(ms[..i]) + ms[i].renderHooks
    ensures MixinStateHooks(ms[..i + 1]) == MixinStateHooks(ms[..i]) + ms[i].stateHooks
    ensures MixinTable(ms[..i + 1]) == Spread(MixinTable(ms[..i]), ms[i].directives)
    ensures MixinMembers(ms[..i + 1]) == MixinMembers(ms[..i]) + OwnMembers(ms[i])
  {
    assert ms[..i + 1][..i] == ms[..i];
  }

  /** `deepMerge(_state, state)` for the i-th mixin, on the way to `goal`,
      the merge of all the mixins' states. */
  method MergeMixinState(heap: JsHeap, a: ObjId, srcs: seq<Value>, i: nat, ghost goal: Outcome)
    returns (overflow: bool)
    requires heap.Valid() && a in heap.objs && i < |srcs|
    requires MergeSourcesFrom(heap.objs, a, srcs, i, 0, heap.limit) == goal
    modifies heap
    ensures heap.Valid() && heap.next == old(heap.next) && a in heap.objs
    ensures overflow ==> goal.overflow && heap.objs == goal.heap
    ensures !overflow ==> MergeSourcesFrom(heap.objs, a, srcs, i + 1, 0, heap.limit) == goal
  {
    MergeSourceAlone(heap.objs, a, srcs, i, heap.limit);
    MergeWf(heap.objs, a, [srcs[i]], heap.limit);
    var r := DeepMerge(heap, a, [srcs[i]]);
    overflow := r.Throw?;
  }

  /** A state key that the `m`-th mixin sets to anything but a plain object,
      and no later mixin sets, holds that value in `_state`. */
  lemma MixinStateWins(h: Heap, a: ObjId, ms: seq<Mixin>, m: nat, k: string, limit: nat)
    requires HeapWf(h) && a !in h && MergeFacts.Unreferenced(h, a)
    requires forall i :: 0 <= i < |ms| && ms[i].state.ObjRef? ==>
               ms[i].state.id in h && MergeFacts.Unreferenced(h, ms[i].state.id)
    requires m < |ms| && ms[m].state.ObjRef? && k in h[ms[m].state.id].props
    requires !IsPlain(h, h[ms[m].state.id].props[k])
    requires forall j :: m < j < |ms| ==> k !in ForInKeys(h, ms[j].state)
    ensures var r := MergeFrame(h[a := EmptyObject()], a, MixinStates(ms), 0, limit);
            !r.overflow ==> MergeFacts.Prop(r.heap[a], k) == h[ms[m].state.id].props[k]
  {
    var h1 := h[a := EmptyObject()];
    var srcs := MixinStates(ms);
    forall j | 0 <= j < |srcs|
      ensures ForInKeys(h1, srcs[j]) == ForInKeys(h, srcs[j])
    {
    }
    MergeFacts.DeepMergeTopLevel(h1, a, srcs, limit);
    MergeFacts.LaterSourceWins(h1, EmptyObject(), srcs, m, k);
  }

  /** The keys of the library's `Directives` table, in its order. */
  const BuiltInNames: seq<string> :=
    ["d-model", "d-loop", "d-keyup", "d-keypress", "d-change", "d-input", "d-click", "d-submit",
     "d-focus", "d-blur", "d-show", "d-debounce-show", "d-class", "d-debounce-class", "d-style",
     "d-disabled", "d-readonly", "d-text", "d-html", "d-value", "d-prop", "d-attr",
     "d-on-state-change", "d-on-render"]

  /** The library's `Directives` table as the library defines it. */
  function BuiltIns(): (t: DirectiveTable)
    ensures TableWf(t)
  {
    Table(BuiltInNames, map k | k in BuiltInNames :: BuiltIn(k))
  }

  /** What running a directive function on an element does besides the
      hooks it registers: `Some(e)` when the run throws `e`. The directive
      bodies are the members of `Registration`, `Directives` and `Loop`;
      which of their errors a run meets depends on the element, so it is a
      parameter here. */
  type RunOutcome = (DirectiveFn, NodeId) -> Option<JsError>

  /** `nodes.forEach((ele) => func(this, ele))`: the runs of `fn` on `nodes`,
      in order, up to and including the first that throws, and that error. */
  function RunsOn(fn: DirectiveFn, nodes: seq<NodeId>, outcome: RunOutcome): (seq<Event>, Option<JsError>) {
    if nodes == [] then ([], None)
    else
      var e := outcome(fn, nodes[0]);
      if e.Some? then ([DirectiveRan(fn, nodes[0])], e)
      else
        var rest := RunsOn(fn, nodes[1..], outcome);
        ([DirectiveRan(fn, nodes[0])] + rest.0, rest.1)
  }

  /** The runs of `fn` are on a prefix of `nodes`, in order; they throw
      exactly when `fn` throws on some node, and then stop at the first
      such node with its error. */
  lemma {:induction false} RunsOnThrow(fn: DirectiveFn, nodes: seq<NodeId>, outcome: RunOutcome)
    ensures var r := RunsOn(fn, nodes, outcome);
            |r.0| <= |nodes| && (forall i :: 0 <= i < |r.0| ==> r.0[i] == DirectiveRan(fn, nodes[i]))
            && (r.1.None? <==> forall i :: 0 <= i < |nodes| ==> outcome(fn, nodes[i]).None?)
            && (r.1.None? ==> |r.0| == |nodes|)
            && (r.1.Some? ==>
                  r.0 != [] && r.1 == outcome(fn, nodes[|r.0| - 1])
                  && forall i :: 0 <= i < |r.0| - 1 ==> outcome(fn, nodes[i]).None?)
    decreases |nodes|
  {
    if nodes != [] && outcome(fn, nodes[0]).None? {
      RunsOnThrow(fn, nodes[1..], outcome);
      assert forall i :: 1 <= i < |nodes| ==> nodes[1..][i - 1] == nodes[i];
    }
  }

  /** The directive runs of `registerHooks` over table entries: each entry's
      function on the elements `found` for its name, entry after entry, up to
      the first run that throws. */
  function DirectiveRuns(entries: seq<(string, DirectiveFn)>, found: string -> seq<NodeId>, outcome: RunOutcome)
    : (seq<Event>, Option<JsError>)
  {
    if entries == [] then ([], None)
    else
      var a := RunsOn(entries[0].1, found(entries[0].0), outcome);
      if a.1.Some? then a
      else
        var b := DirectiveRuns(entries[1..], found, outcome);
        (a.0 + b.0, b.1)
  }

  /** `e` is a run of some entry's function on an element found for that
      entry. */
  predicate RunOfEntry(e: Event, entries: seq<(string, DirectiveFn)>, found: string -> seq<NodeId>) {
    e.DirectiveRan? && exists i :: 0 <= i < |entries| && e.fn == entries[i].1 && e.node in found(entries[i].0)
  }

  /** Every run is of some entry's function on an element found for that
      entry. */
  lemma {:induction false} DirectiveRunsFound(entries: seq<(string, DirectiveFn)>, found: string -> seq<NodeId>, outcome: RunOutcome)
    ensures forall m :: 0 <= m < |DirectiveRuns(entries, found, outcome).0| ==>
              RunOfEntry(DirectiveRuns(entries, found, outcome).0[m], entries, found)
    decreases |entries|
  {
    if entries != [] {
      var a := RunsOn(entries[0].1, found(entries[0].0), outcome);
      RunsOnThrow(entries[0].1, found(entries[0].0), outcome);
      assert forall m :: 0 <= m < |a.0| ==> RunOfEntry(a.0[m], entries, found) by {
        forall m | 0 <= m < |a.0| ensures RunOfEntry(a.0[m], entries, found) {
          assert a.0[m].fn == entries[0].1 && a.0[m].node in found(entries[0].0);
        }
      }
      if a.1.None? {
        var b := DirectiveRuns(entries[1..], found, outcome);
        DirectiveRunsFound(entries[1..], found, outcome);
        assert forall m :: 0 <= m < |b.0| ==> RunOfEntry(b.0[m], entries[1..], found);
        assert forall i :: 1 <= i < |entries| ==> entries[1..][i - 1] == entries[i];
        forall m | 0 <= m < |a.0| + |b.0|
          ensures RunOfEntry((a.0 + b.0)[m], entries, found)
        {
          if m >= |a.0| {
            var k := m - |a.0|;
            assert (a.0 + b.0)[m] == b.0[k] && RunOfEntry(b.0[k], entries[1..], found);
            var i :| 0 <= i < |entries[1..]| && b.0[k].fn == entries[1..][i].1 && b.0[k].node in found(entries[1..][i].0);
            assert entries[1..][i] == entries[i + 1];
          }
        }
      }
    }
  }

  /** The runs throw exactly when some entry's function throws on some
      element found for it; the error is then that of the last run logged. */
  lemma {:induction false} DirectiveRunsThrow(entries: seq<(string, DirectiveFn)>, found: string -> seq<NodeId>, outcome: RunOutcome)
    ensures var r := DirectiveRuns(entries, found, outcome);
            (r.1.None? <==>
               forall i, j :: 0 <= i < |entries| && 0 <= j < |found(entries[i].0)| ==> outcome(entries[i].1, found(entries[i].0)[j]).None?)
            && (r.1.Some? ==>
                  r.0 != [] && r.0[|r.0| - 1].DirectiveRan? && r.1 == outcome(r.0[|r.0| - 1].fn, r.0[|r.0| - 1].node))
    decreases |entries|
  {
    if entries != [] {
      var a := RunsOn(entries[0].1, found(entries[0].0), outcome);
      RunsOnThrow(entries[0].1, found(entries[0].0), outcome);
      if a.1.None? {
        DirectiveRunsThrow(entries[1..], found, outcome);
        assert forall i :: 1 <= i < |entries| ==> entries[1..][i - 1] == entries[i];
        var b := DirectiveRuns(entries[1..], found, outcome);
        if b.1.Some? {
          assert (a.0 + b.0)[|a.0| + |b.0| - 1] == b.0[|b.0| - 1];
        }
      } else {
        assert a.0[|a.0| - 1] == DirectiveRan(entries[0].1, found(entries[0].0)[|a.0| - 1]);
      }
    }
  }

  /** The `forEach(([hook, func]) => ...)` of `registerHooks` over `entries`. */
  method RunDirectives(entries: seq<(string, DirectiveFn)>, found: string -> seq<NodeId>, outcome: RunOutcome, log: Log)
    returns (err: Option<JsError>)
    modifies log
    ensures var r := DirectiveRuns(entries, found, outcome);
            log.events == old(log.events) + r.0 && err == r.1
  {
    var i := 0;
    while i < |entries|
      invariant i <= |entries|
      invariant var t := DirectiveRuns(entries[i..], found, outcome);
                var r := DirectiveRuns(entries, found, outcome);
                log.events + t.0 == old(log.events) + r.0 && t.1 == r.1
    {
      ghost var t := DirectiveRuns(entries[i..], found, outcome);
      assert entries[i..][0] == entries[i] && entries[i..][1..] == entries[i + 1..];
      err := RunDirective(entries[i].1, found(entries[i].0), outcome, log);
      if err.Some? {
        return;
      }
      i := i + 1;
    }
    err := None;
  }

  /** `this.findTopLevel(`[${hook}]`).forEach((ele) => func(this, ele))`. */
  method RunDirective(fn: DirectiveFn, nodes: seq<NodeId>, outcome: RunOutcome, log: Log) returns (err: Option<JsError>)
    modifies log
    ensures var r := RunsOn(fn, nodes, outcome);
            log.events == old(log.events) + r.0 && err == r.1
  {
    var j := 0;
    while j < |nodes|
      invariant j <= |nodes|
      invariant var t := RunsOn(fn, nodes[j..], outcome);
                var r := RunsOn(fn, nodes, outcome);
                log.events + t.0 == old(log.events) + r.0 && t.1 == r.1
    {
      assert nodes[j..][0] == nodes[j] && nodes[j..][1..] == nodes[j + 1..];
      log.events := log.events + [DirectiveRan(fn, nodes[j])];
      err := outcome(fn, nodes[j]);
      if err.Some? {
        return;
      }
      j := j + 1;
    }
    err := None;
  }

  /** The runs over two tables one after the other are the first table's
      runs, then, unless one of those threw, the second's: every built-in
      directive runs before any of the instance's and the class's. */
  lemma {:induction false} DirectiveRunsAppend(x: seq<(string, DirectiveFn)>, y: seq<(string, DirectiveFn)>,
                                               found: string -> seq<NodeId>, outcome: RunOutcome)
    ensures var a := DirectiveRuns(x, found, outcome);
            var b := DirectiveRuns(y, found, outcome);
            DirectiveRuns(x + y, found, outcome) == if a.1.Some? then a else (a.0 + b.0, b.1)
    decreases |x|
  {
    if x != [] {
      assert (x + y)[0] == x[0] && (x + y)[1..] == x[1..] + y;
      DirectiveRunsAppend(x[1..], y, found, outcome);
      var a0 := RunsOn(x[0].1, found(x[0].0), outcome);
      var a1 := DirectiveRuns(x[1..], found, outcome);
      var b := DirectiveRuns(y, found, outcome);
      if a0.1.None? && a1.1.None? {
        assert a0.0 + (a1.0 + b.0) == (a0.0 + a1.0) + b.0;
      }
    } else {
      assert x + y == y && [] + DirectiveRuns(y, found, outcome).0 == DirectiveRuns(y, found, outcome).0;
    }
  }

  /** Removes `d-portal-name` from the element, and `d-alias` too when it was
      read. */
  method DropIdentityAttributes(doc: Document, element: NodeId)
    requires doc.Valid() && element in doc.nodes
    modifies doc
    ensures doc.Valid() && doc.next == old(doc.next)
    ensures doc.nodes == WithoutIdentity(old(doc.nodes), element)
  {
    var n := doc.nodes[element];
    var aliased := Truthy(GetAttribute(n, "d-alias"));
    doc.Update(element, n.(attrs := n.attrs - (if aliased then {"d-alias", "d-portal-name"} else {"d-portal-name"})));
  }

  /** The elements once the constructor has read `d-alias` and
      `d-portal-name`: both removed from `element`, `d-alias` only when it
      was non-empty. */
  function WithoutIdentity(nodes: map<NodeId, NodeRec>, element: NodeId): (r: map<NodeId, NodeRec>)
    requires element in nodes
    ensures r.Keys == nodes.Keys && r[element].attrs.Keys <= nodes[element].attrs.Keys - {"d-portal-name"}
    ensures forall a :: a in r[element].attrs ==> r[element].attrs[a] == nodes[element].attrs[a]
  {
    var n := nodes[element];
    nodes[element := n.(attrs := n.attrs - (if Truthy(GetAttribute(n, "d-alias")) then {"d-alias", "d-portal-name"} else {"d-portal-name"}))]
  }

  /** Dropping the identity attributes changes nothing else. */
  lemma WithoutIdentitySame(nodes: map<NodeId, NodeRec>, element: NodeId)
    requires element in nodes
    ensures SameButAttrs(nodes, WithoutIdentity(nodes, element))
  {
  }

  /** Lines 246-248 of `setState`, on the heap. */
  method CommitState(heap: JsHeap, prev: Value, update: StateUpdate) returns (r: Result<Value>)
    requires heap.Valid()
    modifies heap
    ensures heap.Valid()
    ensures var commit := CommittedState(old(heap.objs), old(heap.next), prev, update, heap.limit);
            heap.objs == commit.heap && heap.next == commit.next && r == commit.state
  {
    var cloned := Clone(heap, prev);
    match update {
      case Updater(f) =>
        r := RunUpdater(heap, f, cloned);
      case MergeIn(p) =>
        MergeWf(heap.objs, cloned, [p], heap.limit);
        var m := DeepMerge(heap, cloned, [p]);
        r := if m.Throw? then Throw(RangeError) else Ok(ObjRef(cloned));
    }
  }

  /** An updater run on the heap holding the clone `n`: its writes, then
      its new objects, and its value as the state. */
  method RunUpdater(heap: JsHeap, f: (Heap, ObjId) -> Rewrite, n: ObjId) returns (r: Result<Value>)
    requires heap.Valid()
    modifies heap
    ensures heap.Valid()
    ensures var out := f(old(heap.objs), n);
            heap.objs == AllocAll(Rewritten(old(heap.objs), out.writes), old(heap.next), out.created)
            && heap.next == old(heap.next) + |out.created| && r == Ok(out.value)
  {
    var out := f(heap.objs, n);
    heap.objs := Rewritten(heap.objs, out.writes);
    Create(heap, out.created);
    r := Ok(out.value);
  }

  /** The objects an updater creates, allocated one after the other. */
  method Create(heap: JsHeap, os: seq<WfObject>)
    requires heap.Valid()
    modifies heap
    ensures heap.Valid() && heap.next == old(heap.next) + |os|
    ensures heap.objs == AllocAll(old(heap.objs), old(heap.next), os)
  {
    var i := 0;
    while i < |os|
      invariant i <= |os| && heap.Valid() && heap.next == old(heap.next) + i
      invariant heap.objs == AllocAll(old(heap.objs), old(heap.next), os[..i])
    {
      assert os[..i + 1][..i] == os[..i];
      var id := heap.Alloc(os[i]);
      i := i + 1;
    }
    assert os[..i] == os;
  }

  // ---------------------------------------------------------------------------
  // d-ref

  /** The base name of a list ref: `name.slice(0, -2)`. */
  function ListBase(name: string): string
    requires EndsWith(name, "[]")
  {
    name[..|name| - 2]
  }

  /** One element of `registerRefs` whose `d-ref` is `name`: a name ending in
      `[]` pushes the element onto the list under the base name, started
      empty when absent; pushing onto a single element throws. Any other name
      holds the element alone. */
  function RefStep(refs: map<string, RefVal>, name: string, node: NodeId): (r: Result<map<string, RefVal>>)
    ensures r.Throw? <==> EndsWith(name, "[]") && ListBase(name) in refs && refs[ListBase(name)].Single?
    ensures r.Throw? ==> r.error == TypeError
    ensures r.Ok? && EndsWith(name, "[]") ==>
              var b := ListBase(name);
              r.value == refs[b := Many((if b in refs then refs[b].nodes else []) + [node])]
    ensures r.Ok? && !EndsWith(name, "[]") ==> r.value == refs[name := Single(node)]
  {
    if EndsWith(name, "[]") then
      var b := ListBase(name);
      if b !in refs then assert [] + [node] == [node]; Ok(refs[b := Many([node])])
      else match refs[b]
        case Many(ns) => Ok(refs[b := Many(ns + [node])])
        case Single(_) => Throw(TypeError)
    else Ok(refs[name := Single(node)])
  }

  /** The refs after the steps for `items` (name, element) in order, with
      the number of steps that completed: the run stops at the first step
      that throws. */
  function CollectRefs(refs: map<string, RefVal>, items: seq<(string, NodeId)>): (r: (map<string, RefVal>, nat))
    ensures r.1 <= |items|
  {
    if items == [] then (refs, 0)
    else
      var prev := CollectRefs(refs, items[..|items| - 1]);
      var last := items[|items| - 1];
      if prev.1 < |items| - 1 then prev
      else match RefStep(prev.0, last.0, last.1)
        case Ok(m) => (m, |items|)
        case Throw(_) => prev
  }

  /** The `d-ref` names of `found`, paired with the elements. */
  function RefItems(nodes: map<NodeId, NodeRec>, found: seq<NodeId>): (r: seq<(string, NodeId)>)
    requires forall i :: 0 <= i < |found| ==> found[i] in nodes && "d-ref" in nodes[found[i]].attrs
    ensures |r| == |found|
    ensures forall i :: 0 <= i < |found| ==> r[i] == (nodes[found[i]].attrs["d-ref"], found[i])
  {
    seq(|found|, i requires 0 <= i < |found| reads {} => (nodes[found[i]].attrs["d-ref"], found[i]))
  }

  /** The first `i` elements of `found` registered into `refs`, and their
      `d-ref` removed from `nodes0` to give `nodes`. */
  ghost predicate RefsUpTo(nodes0: map<NodeId, NodeRec>, found: seq<NodeId>, items: seq<(string, NodeId)>,
                           refs0: map<string, RefVal>, nodes: map<NodeId, NodeRec>, refs: map<string, RefVal>, i: nat)
  {
    i <= |found| && i <= |items| && CollectRefs(refs0, items[..i]) == (refs, i)
    && (forall j :: 0 <= j < |found| ==> found[j] in nodes0)
    && nodes == WithoutAttr(nodes0, found[..i], "d-ref")
  }

  /** Before any element, nothing is registered or removed. */
  lemma RefsNone(nodes0: map<NodeId, NodeRec>, found: seq<NodeId>, items: seq<(string, NodeId)>, refs0: map<string, RefVal>)
    requires forall j :: 0 <= j < |found| ==> found[j] in nodes0
    ensures RefsUpTo(nodes0, found, items, refs0, nodes0, refs0, 0)
  {
    assert items[..0] == [] && found[..0] == [];
  }

  /** Where the loop of `registerRefs` ends, after every element or at the
      one whose step threw, is what `CollectRefs` says of all the items. */
  lemma RefsDone(nodes0: map<NodeId, NodeRec>, found: seq<NodeId>, items: seq<(string, NodeId)>,
                 refs0: map<string, RefVal>, nodes: map<NodeId, NodeRec>, refs: map<string, RefVal>, i: nat, stopped: bool)
    requires forall j :: 0 <= j < |found| ==> found[j] in nodes0 && "d-ref" in nodes0[found[j]].attrs
    requires items == RefItems(nodes0, found) && RefsUpTo(nodes0, found, items, refs0, nodes, refs, i)
    requires stopped ==> i < |found| && CollectRefs(refs0, items[..i + 1]) == (refs, i)
    requires !stopped ==> i == |found|
    ensures var out := CollectRefs(refs0, RefItems(nodes0, found));
            refs == out.0 && nodes == WithoutAttr(nodes0, found[..out.1], "d-ref") && out.1 == i
  {
    if stopped {
      CollectStops(refs0, items, i, |items|);
    }
    assert items[..|items|] == items;
  }

  /** Once a step threw, later items change nothing. */
  lemma {:induction false} CollectStops(refs: map<string, RefVal>, items: seq<(string, NodeId)>, k: nat, j: nat)
    requires k < j <= |items| && CollectRefs(refs, items[..k + 1]).1 == k
    ensures CollectRefs(refs, items[..j]) == CollectRefs(refs, items[..k + 1])
    decreases j
  {
    if j > k + 1 {
      CollectStops(refs, items, k, j - 1);
      assert items[..j][..j - 1] == items[..j - 1];
    }
  }

  /** The run over one more item: its step, unless the run already stopped. */
  lemma CollectRefsNext(refs0: map<string, RefVal>, items: seq<(string, NodeId)>, i: nat, refs: map<string, RefVal>)
    requires i < |items| && CollectRefs(refs0, items[..i]) == (refs, i)
    ensures var step := RefStep(refs, items[i].0, items[i].1);
            CollectRefs(refs0, items[..i + 1]) == if step.Ok? then (step.value, i + 1) else (refs, i)
  {
    assert items[..i + 1][..i] == items[..i];
  }

  /** The elements of `items` named `name`, in order. */
  function Named(items: seq<(string, NodeId)>, name: string): (r: seq<NodeId>)
    ensures |r| <= |items|
    ensures forall x :: x in r ==> exists i :: 0 <= i < |items| && items[i] == (name, x)
  {
    if items == [] then []
    else
      var init := Named(items[..|items| - 1], name);
      var last := items[|items| - 1];
      assert forall i :: 0 <= i < |items| - 1 ==> items[..|items| - 1][i] == items[i];
      if last.0 == name then init + [last.1] else init
  }

  /** When every step completes, a list ref holds, in order, exactly the
      elements whose `d-ref` is its name followed by `[]` (so long as no
      element uses the bare name and it was not set before). */
  lemma {:induction false} ListRefCollects(refs: map<string, RefVal>, items: seq<(string, NodeId)>, base: string)
    requires CollectRefs(refs, items).1 == |items| && base !in refs
    requires forall i :: 0 <= i < |items| ==> items[i].0 != base
    ensures var out := CollectRefs(refs, items).0;
            var ns := Named(items, base + "[]");
            (base in out <==> ns != []) && (base in out ==> out[base] == Many(ns))
  {
    if items != [] {
      var init := items[..|items| - 1];
      var last := items[|items| - 1];
      var prev := CollectRefs(refs, init);
      assert prev.1 == |init|;
      ListRefCollects(refs, init, base);
      var name := last.0;
      if EndsWith(name, "[]") && ListBase(name) == base {
        assert name == base + "[]" by {
          assert name == name[..|name| - 2] + name[|name| - 2..];
        }
      }
    }
  }

  /** When every step completes, a single ref holds the last element that
      named it. */
  lemma {:induction false} SingleRefLastWins(refs: map<string, RefVal>, items: seq<(string, NodeId)>, name: string, i: nat)
    requires CollectRefs(refs, items).1 == |items| && !EndsWith(name, "[]")
    requires i < |items| && items[i].0 == name
    requires forall j :: i < j < |items| ==> items[j].0 != name
    ensures var out := CollectRefs(refs, items).0;
            name in out && out[name] == Single(items[i].1)
  {
    var init := items[..|items| - 1];
    var last := items[|items| - 1];
    var prev := CollectRefs(refs, init);
    assert prev.1 == |init|;
    if i < |items| - 1 {
      SingleRefLastWins(refs, init, name, i);
    }
  }

  class Component {
    const element: NodeId
    /** `this.constructor.name`. */
    const className: string
    /** The names `compileWithComponent` resolves to methods of the
        component: the class's, then the members its mixins lend it. */
    var methods: set<string>
    /** `componentSpecificDirectives()` of the class. */
    const classDirectives: DirectiveTable
    /** `shouldFollowRender(parent, transition)`, given the parent's element. */
    const followsRender: (NodeId, Value) -> bool
    /** `transistionOnStateChanging(prevState, state)`. */
    const transitionBase: (Value, Value) -> WfObject
    /** What `mixins()` returns, each mixin function already applied. */
    const mixins: seq<Mixin>

    var renderHooks: seq<Hook>
    var stateHooks: seq<Hook>
    var refs: map<string, RefVal>
    var listeners: seq<Listener>
    /** `_componentSpecificDirectives`, the instance's own table. */
    var specificDirectives: DirectiveTable
    var alias: Option<string>
    var portal: string
    var state: Value
    var initialState: Value
    /** `_children`, once assigned through the `children` setter. */
    var cachedChildren: Option<seq<Component>>
    /** The components of the child elements the DOM query finds. */
    var elementChildren: seq<Component>

    ghost var Repr: set<Component>

    /** The component and its descendants form a tree of distinct objects. */
    ghost predicate Valid()
      reads this`Repr, this`cachedChildren, this`elementChildren, Repr - {this}
      decreases Repr
    {
      this in Repr
      && forall c :: c in Children() ==>
           c in Repr && c.Repr <= Repr && this !in c.Repr && c.Valid()
    }

    /** The `children` getter: a copy of `_children` when it was set, the
        components of the child elements otherwise. */
    function Children(): seq<Component>
      reads this`cachedChildren, this`elementChildren
    {
      if cachedChildren.Some? then cachedChildren.value else elementChildren
    }

    /** Lines 33-45 of the constructor of class `cls`: empty stores, `alias`
        from a non-empty `d-alias`, `portal` from a non-empty `d-portal-name`
        or else the class name, both attributes removed (`d-alias` only when
        it was read). Lines 47-65, which set up the state, the mixins, the
        hooks and the refs, are `Mounting.NewComponent`. */
    constructor (doc: Document, element: NodeId, cls: ClassDef)
      requires doc.Valid() && element in doc.nodes
      modifies doc
      ensures Valid() && Repr == {this} && doc.Valid() && doc.next == old(doc.next)
      ensures this.element == element && className == cls.name && methods == cls.methods
      ensures classDirectives == cls.directives && followsRender == cls.followsRender
      ensures transitionBase == cls.transitionBase && mixins == cls.mixins
      ensures renderHooks == [] && stateHooks == [] && refs == map[] && listeners == [] && specificDirectives == EmptyTable()
      ensures state == Undefined && initialState == Undefined && cachedChildren == None && elementChildren == []
      ensures var a := GetAttribute(old(doc.nodes)[element], "d-alias");
              var p := GetAttribute(old(doc.nodes)[element], "d-portal-name");
              alias == (if Truthy(a) then Some(a.s) else None)
              && portal == (if Truthy(p) then p.s else cls.name)
              && doc.nodes == WithoutIdentity(old(doc.nodes), element)
    {
      this.element := element;
      className := cls.name;
      methods := cls.methods;
      classDirectives := cls.directives;
      followsRender := cls.followsRender;
      transitionBase := cls.transitionBase;
      mixins := cls.mixins;
      renderHooks := [];
      stateHooks := [];
      refs := map[];
      listeners := [];
      specificDirectives := EmptyTable();
      state := Undefined;
      initialState := Undefined;
      cachedChildren := None;
      elementChildren := [];
      Repr := {this};
      var a := GetAttribute(doc.nodes[element], "d-alias");
      var p := GetAttribute(doc.nodes[element], "d-portal-name");
      alias := if Truthy(a) then Some(a.s) else None;
      portal := if Truthy(p) then p.s else cls.name;
      new;
      DropIdentityAttributes(doc, element);
    }

    /** `extendInstance()`, that is `extendComponentInstance(this,
        ...mixins)`: the mixins' states are merged, one `deepMerge` per
        mixin, into a new `{}` (`_state`, allocated as `a`), their hooks
        concatenated and their directive tables spread; then `_state` is
        merged into the state object, the hooks are appended and the tables
        spread over the instance's own. The per-mixin merges do what one
        merge of all the states does (`Extended`); a merge that outgrows the
        stack throws before the hooks and tables change, once the mixins
        before it have lent their members. */
    method ExtendInstance(heap: JsHeap) returns (err: Option<JsError>, ghost lent: nat)
      requires heap.Valid() && state.ObjRef? && state.id in heap.objs
      requires TableWf(specificDirectives) && MixinsWf(mixins)
      modifies heap, this`renderHooks, this`stateHooks, this`specificDirectives, this`methods
      ensures heap.Valid() && heap.next == old(heap.next) + 1
      ensures var out := Extended(old(heap.objs), old(heap.next), state.id, mixins, heap.limit);
              heap.objs == out.heap
              && (out.overflow ==>
                    err == Some(RangeError) && renderHooks == old(renderHooks) && stateHooks == old(stateHooks)
                    && specificDirectives == old(specificDirectives)
                    && lent <= |mixins| && methods == Lent(old(methods), MixinMembers(mixins[..lent])))
              && (!out.overflow ==>
                    err == None
                    && renderHooks == old(renderHooks) + MixinRenderHooks(mixins)
                    && stateHooks == old(stateHooks) + MixinStateHooks(mixins)
                    && specificDirectives == Spread(old(specificDirectives), MixinTable(mixins))
                    && methods == Lent(old(methods), MixinMembers(mixins)))
    {
      var overflow, hooksR, hooksS, table, members;
      overflow, hooksR, hooksS, table, members, lent := MergeExtension(heap, state.id, mixins);
      if overflow {
        Lend(members);
        err := Some(RangeError);
        return;
      }
      Absorb(hooksR, hooksS, table, members);
      err := None;
    }

    /** `extendComponentInstance` as the source has it: `extendObject` is
        imported from `./util`, which exports no such name, so the call that
        follows the first mixin's `deepMerge(_state, state)` throws
        `TypeError`. A component with a mixin is never extended: that first
        merge goes into a fresh `{}` and cannot outgrow the stack, so the
        constructor throws `TypeError`, and the instance keeps its hooks,
        tables and methods. */
    method ExtendInstanceAsWritten(heap: JsHeap) returns (err: Option<JsError>)
      requires heap.Valid() && state.ObjRef? && state.id in heap.objs
      requires TableWf(specificDirectives) && MixinsWf(mixins)
      modifies heap, this`renderHooks, this`stateHooks, this`specificDirectives, this`methods
      ensures mixins == [] ==> err == None && methods == old(methods) && renderHooks == old(renderHooks)
      ensures mixins != [] ==>
                renderHooks == old(renderHooks) && stateHooks == old(stateHooks)
                && specificDirectives == old(specificDirectives) && methods == old(methods)
                && err == Some(TypeError)
    {
      if mixins == [] {
        ExtendedNoMixins(heap.objs, heap.next, state.id, heap.limit);
        ghost var lent;
        err, lent := ExtendInstance(heap);
        return;
      }
      ghost var h0 := heap.objs;
      var a := heap.Alloc(EmptyObject());
      assert MixinStates(mixins[..1]) == [mixins[0].state];
      CloneCopies(h0, a, mixins[0].state, heap.limit);
      var overflow, _, _, _, _, _ := MergeMixins(heap, a, mixins[..1]);
      err := Some(if overflow then RangeError else TypeError);
    }

    /** `extendObject(component, obj, ...)` for the mixins gathered so far:
        their own keys land on the instance. */
    method Lend(members: map<string, bool>)
      modifies this`methods
      ensures methods == Lent(old(methods), members)
    {
      methods := Lent(methods, members);
    }

    /** The instance's side of a successful extension: the mixins' hooks are
        appended, their directives spread over the instance's own and their
        members lent. */
    method Absorb(hooksR: seq<Hook>, hooksS: seq<Hook>, table: DirectiveTable, members: map<string, bool>)
      requires TableWf(specificDirectives) && TableWf(table)
      modifies this`renderHooks, this`stateHooks, this`specificDirectives, this`methods
      ensures renderHooks == old(renderHooks) + hooksR && stateHooks == old(stateHooks) + hooksS
      ensures specificDirectives == Spread(old(specificDirectives), table) && methods == Lent(old(methods), members)
    {
      methods := Lent(methods, members);
      renderHooks := renderHooks + hooksR;
      stateHooks := stateHooks + hooksS;
      specificDirectives := Spread(specificDirectives, table);
    }

    /** `registerHooks()`: every directive of the library's table
        `directives` (the exported `Directives` object, `BuiltIns()` unless a
        program added to it), then of the instance's own table, then of the
        class's, each run on the elements its query `found(name)` returns,
        in order; the first run that throws ends it with that error. */
    method RegisterHooks(directives: DirectiveTable, found: string -> seq<NodeId>, outcome: RunOutcome, log: Log)
      returns (err: Option<JsError>)
      requires TableWf(directives) && TableWf(specificDirectives) && TableWf(classDirectives)
      modifies log
      ensures var r := DirectiveRuns(TableEntries(directives) + TableEntries(specificDirectives) + TableEntries(classDirectives), found, outcome);
              log.events == old(log.events) + r.0 && err == r.1
    {
      err := RunDirectives(TableEntries(directives) + TableEntries(specificDirectives) + TableEntries(classDirectives), found, outcome, log);
    }

    /** Appends a hook to the render hooks. `src/component.js` defines no
        `addRenderHook`, although the directives call one (see
        `DirectiveHelpers.DirectiveFuncAsWritten`); this is the push onto
        `renderHooks` that the bundled `dist/d_render.js` performs instead. */
    method AddRenderHook(h: Hook)
      modifies this`renderHooks
      ensures renderHooks == old(renderHooks) + [h]
    {
      renderHooks := renderHooks + [h];
    }

    /** Appends a hook to the state hooks. `src/component.js` defines no
        `addStateHook` either; this is the push onto `stateHooks` of the
        bundled build. */
    method AddStateHook(h: Hook)
      modifies this`stateHooks
      ensures stateHooks == old(stateHooks) + [h]
    {
      stateHooks := stateHooks + [h];
    }

    /** `addEventListener(eventIdentifier, node, handler)`: the handler is
        attached to the node for the event. */
    method AddEventListener(event: string, node: NodeId, handler: Handler)
      modifies this`listeners
      ensures listeners == old(listeners) + [Listener(event, node, handler)]
    {
      listeners := listeners + [Listener(event, node, handler)];
    }

    /** `registerRefs()` over the elements `found` the `[d-ref]` query
        returns, in document order: each element's step, then its `d-ref`
        removed. An exception leaves the steps before it done. */
    method RegisterRefs(doc: Document, found: seq<NodeId>) returns (err: Option<JsError>)
      requires doc.Valid() && Distinct(found)
      requires forall i :: 0 <= i < |found| ==> found[i] in doc.nodes && "d-ref" in doc.nodes[found[i]].attrs
      modifies this`refs, doc
      ensures doc.Valid() && doc.next == old(doc.next)
      ensures var out := CollectRefs(old(refs), RefItems(old(doc.nodes), found));
              refs == out.0 && doc.nodes == WithoutAttr(old(doc.nodes), found[..out.1], "d-ref")
              && (err.None? <==> out.1 == |found|) && (err.Some? ==> err.value == TypeError)
    {
      ghost var nodes0, refs0 := doc.nodes, refs;
      ghost var items := RefItems(nodes0, found);
      RefsNone(nodes0, found, items, refs0);
      var i := 0;
      while i < |found|
        invariant i <= |found| && doc.Valid() && doc.next == old(doc.next)
        invariant RefsUpTo(nodes0, found, items, refs0, doc.nodes, refs, i)
      {
        var ok := RegisterRef(doc, found, i, nodes0, items, refs0);
        if !ok {
          RefsDone(nodes0, found, items, refs0, doc.nodes, refs, i, true);
          err := Some(TypeError);
          return;
        }
        i := i + 1;
      }
      RefsDone(nodes0, found, items, refs0, doc.nodes, refs, i, false);
      err := None;
    }

    /** The loop body of `registerRefs` for `found[i]`: its step, then, when
        the step did not throw, the removal of its `d-ref`. */
    method RegisterRef(doc: Document, found: seq<NodeId>, i: nat, ghost nodes0: map<NodeId, NodeRec>,
                       ghost items: seq<(string, NodeId)>, ghost refs0: map<string, RefVal>) returns (ok: bool)
      requires doc.Valid() && Distinct(found) && i < |found|
      requires forall j :: 0 <= j < |found| ==> found[j] in nodes0 && "d-ref" in nodes0[found[j]].attrs
      requires items == RefItems(nodes0, found) && CollectRefs(refs0, items[..i]) == (refs, i)
      requires doc.nodes == WithoutAttr(nodes0, found[..i], "d-ref")
      modifies this`refs, doc
      ensures doc.Valid() && doc.next == old(doc.next)
      ensures ok ==> CollectRefs(refs0, items[..i + 1]) == (refs, i + 1)
                     && doc.nodes == WithoutAttr(nodes0, found[..i + 1], "d-ref")
      ensures !ok ==> CollectRefs(refs0, items[..i + 1]) == (refs, i) && refs == old(refs) && doc.nodes == old(doc.nodes)
    {
      WithoutAttrNext(nodes0, found, i, "d-ref");
      var name := doc.nodes[found[i]].attrs["d-ref"];
      var step := RefStep(refs, name, found[i]);
      CollectRefsNext(refs0, items, i, refs);
      if step.Throw? {
        return false;
      }
      refs := step.value;
      doc.RemoveAttribute(found[i], "d-ref");
      return true;
    }

    /** The `context` getter: the element's context when it is truthy, a new
        `{}` otherwise. */
    method Context(doc: Document, heap: JsHeap) returns (v: Value)
      requires element in doc.nodes && heap.Valid()
      modifies heap
      ensures heap.Valid()
      ensures Truthy(doc.nodes[element].context) ==>
                v == doc.nodes[element].context && heap.objs == old(heap.objs) && heap.next == old(heap.next)
      ensures !Truthy(doc.nodes[element].context) ==>
                v == ObjRef(old(heap.next)) && heap.objs == old(heap.objs)[old(heap.next) := EmptyObject()]
    {
      var ctx := doc.nodes[element].context;
      if Truthy(ctx) {
        v := ctx;
      } else {
        var id := heap.Alloc(EmptyObject());
        v := ObjRef(id);
      }
    }

    /** The `context` setter. */
    method SetContext(doc: Document, v: Value)
      requires doc.Valid() && element in doc.nodes
      modifies doc
      ensures doc.Valid() && doc.next == old(doc.next)
      ensures doc.nodes == old(doc.nodes)[element := old(doc.nodes)[element].(context := v)]
    {
      doc.Update(element, doc.nodes[element].(context := v));
    }

    /** The hook runs `render(transition)` makes: every render hook in
        order, then the render of each child that follows. */
    ghost function RenderEvents(transition: Value): seq<Event>
      reads this`Repr, this`cachedChildren, this`elementChildren, this`renderHooks, Repr - {this}
      requires Valid()
      decreases Repr, |Children()| + 1
    {
      RenderHookRuns(renderHooks, transition) + Cascade(transition, |Children()|)
    }

    /** The renders of the first `j` children, each only if it follows. */
    ghost function Cascade(transition: Value, j: nat): seq<Event>
      reads this`Repr, this`cachedChildren, this`elementChildren, Repr - {this}
      requires Valid() && j <= |Children()|
      decreases Repr, j
    {
      if j == 0 then []
      else
        var c := Children()[j - 1];
        Cascade(transition, j - 1) + (if c.followsRender(element, transition) then c.RenderEvents(transition) else [])
    }

    /** Every hook a render runs, down the whole cascade, is a render hook
        given the very transition the render was called with. */
    lemma {:induction false} RenderEventsCarry(transition: Value)
      requires Valid()
      ensures forall e :: e in RenderEvents(transition) ==> e.RenderHookRan? && e.transition == transition
      decreases Repr, |Children()| + 1
    {
      CascadeCarry(transition, |Children()|);
    }

    lemma {:induction false} CascadeCarry(transition: Value, j: nat)
      requires Valid() && j <= |Children()|
      ensures forall e :: e in Cascade(transition, j) ==> e.RenderHookRan? && e.transition == transition
      decreases Repr, j
    {
      if j > 0 {
        var c := Children()[j - 1];
        CascadeCarry(transition, j - 1);
        if c.followsRender(element, transition) {
          c.RenderEventsCarry(transition);
        }
      }
    }

    /** `render(transition)`. */
    method Render(transition: Value, log: Log)
      requires Valid()
      modifies log
      ensures log.events == old(log.events) + RenderEvents(transition)
      decreases Repr, 1
    {
      RunRenderHooks(transition, log);
      RenderChildren(transition, log);
    }

    /** `this.renderHooks.forEach(obj => obj.hook(transition))` */
    method RunRenderHooks(transition: Value, log: Log)
      modifies log
      ensures log.events == old(log.events) + RenderHookRuns(renderHooks, transition)
    {
      var i := 0;
      while i < |renderHooks|
        invariant i <= |renderHooks|
        invariant log.events == old(log.events) + RenderHookRuns(renderHooks[..i], transition)
      {
        assert renderHooks[..i + 1][..i] == renderHooks[..i];
        log.events := log.events + [RenderHookRan(renderHooks[i], transition)];
        i := i + 1;
      }
      assert renderHooks[..i] == renderHooks;
    }

    /** `this.children.forEach(child => child.shouldFollowRender(this,
        transition) && child.render(transition))` */
    method RenderChildren(transition: Value, log: Log)
      requires Valid()
      modifies log
      ensures log.events == old(log.events) + Cascade(transition, |Children()|)
      decreases Repr, 0, 1
    {
      var n := |Children()|;
      var j := 0;
      while j < n
        invariant j <= n
        invariant log.events == old(log.events) + Cascade(transition, j)
      {
        ghost var before := log.events;
        RenderChild(j, transition, log);
        CascadeNext(transition, j, old(log.events), before, log.events);
        j := j + 1;
      }
    }

    /** Appending the next child's contribution extends the cascade. */
    lemma CascadeNext(transition: Value, j: nat, start: seq<Event>, before: seq<Event>, after: seq<Event>)
      requires Valid() && j < |Children()| && before == start + Cascade(transition, j)
      requires var c := Children()[j];
               after == before + (if c.followsRender(element, transition) then c.RenderEvents(transition) else [])
      ensures after == start + Cascade(transition, j + 1)
    {
      var c := Children()[j];
      assert Cascade(transition, j + 1)
             == Cascade(transition, j) + (if c.followsRender(element, transition) then c.RenderEvents(transition) else []);
    }

    /** The step of that loop for the child at index `j`. */
    method RenderChild(j: nat, transition: Value, log: Log)
      requires Valid() && j < |Children()|
      modifies log
      ensures var c := Children()[j];
              log.events == old(log.events) + (if c.followsRender(element, transition) then c.RenderEvents(transition) else [])
      decreases Repr, 0, 0
    {
      var c := Children()[j];
      if c.followsRender(element, transition) {
        c.Render(transition, log);
      }
    }

    /** `setState(update, transition, triggerRendering)`: clones the state,
        commits the new one, runs every state hook with the previous state,
        merges the explicit transition into the one for the state change
        (`{}`), renders when asked, and returns a fresh copy of the new
        state. Only merging a partial state into the clone can throw. */
    method SetState(update: StateUpdate, transition: Value, triggerRendering: bool, heap: JsHeap, log: Log)
      returns (r: Result<ObjId>)
      requires Valid() && heap.Valid()
      modifies this`state, heap, log
      ensures heap.Valid()
      ensures var n := old(heap.next);
              var commit := CommittedState(old(heap.objs), n, old(state), update, heap.limit);
              var m := commit.next;
              (commit.state.Throw? ==>
                 r == Throw(RangeError) && state == old(state) && log.events == old(log.events)
                 && heap.objs == commit.heap && heap.next == m)
              && (commit.state.Ok? ==>
                 var s := commit.state.value;
                 var tr := TransitionAt(commit.heap, m, transitionBase(old(state), s), transition, heap.limit);
                 state == s
                 && (tr.overflow ==>
                       r == Throw(RangeError) && heap.objs == tr.heap && heap.next == m + 1
                       && log.events == old(log.events) + StateHookRuns(stateHooks, old(state)))
                 && (!tr.overflow ==>
                       r == Ok(m + 1)
                       && heap.objs == CloneAt(tr.heap, m + 1, s, heap.limit).heap && heap.next == m + 2
                       && log.events == old(log.events) + StateHookRuns(stateHooks, old(state))
                                        + (if triggerRendering then RenderEvents(ObjRef(m)) else [])))
    {
      var t := CommitAndNotify(update, transition, heap, log);
      if t.Throw? {
        r := t;
        return;
      }
      var copy := RenderAndCopy(t.value, triggerRendering, heap, log);
      r := Ok(copy);
    }

    /** Lines 256-258 of `setState`: the render with the transition `t`,
        when asked for, then the copy of the new state handed back. */
    method RenderAndCopy(t: ObjId, triggerRendering: bool, heap: JsHeap, log: Log) returns (copy: ObjId)
      requires Valid() && heap.Valid()
      modifies heap, log
      ensures heap.Valid() && copy == old(heap.next) && heap.next == old(heap.next) + 1
      ensures heap.objs == CloneAt(old(heap.objs), copy, state, heap.limit).heap
      ensures log.events == old(log.events) + (if triggerRendering then RenderEvents(ObjRef(t)) else [])
    {
      if triggerRendering {
        Render(ObjRef(t), log);
      }
      copy := Clone(heap, state);
    }

    /** Lines 246-255 of `setState`: commits the new state, runs the state
        hooks with the previous one and builds the transition from the
        class's base for the change. */
    method CommitAndNotify(update: StateUpdate, transition: Value, heap: JsHeap, log: Log)
      returns (r: Result<ObjId>)
      requires heap.Valid()
      modifies this`state, heap, log
      ensures heap.Valid()
      ensures var n := old(heap.next);
              var commit := CommittedState(old(heap.objs), n, old(state), update, heap.limit);
              (commit.state.Throw? ==>
                 r == Throw(RangeError) && state == old(state) && log.events == old(log.events)
                 && heap.objs == commit.heap && heap.next == commit.next)
              && (commit.state.Ok? ==>
                 var tr := TransitionAt(commit.heap, commit.next, transitionBase(old(state), commit.state.value), transition, heap.limit);
                 state == commit.state.value
                 && r == (if tr.overflow then Throw(RangeError) else Ok(commit.next))
                 && heap.objs == tr.heap && heap.next == commit.next + 1
                 && log.events == old(log.events) + StateHookRuns(stateHooks, old(state)))
    {
      var prev := state;
      var committed := CommitState(heap, prev, update);
      if committed.Throw? {
        r := Throw(RangeError);
        return;
      }
      state := committed.value;
      RunStateHooks(prev, log);
      r := BuildTransition(heap, transitionBase(prev, state), transition);
    }

    /** `this.stateHooks.forEach(obj => obj.hook(prevState))` */
    method RunStateHooks(prevState: Value, log: Log)
      modifies log
      ensures log.events == old(log.events) + StateHookRuns(stateHooks, prevState)
    {
      var i := 0;
      while i < |stateHooks|
        invariant i <= |stateHooks|
        invariant log.events == old(log.events) + StateHookRuns(stateHooks[..i], prevState)
      {
        assert stateHooks[..i + 1][..i] == stateHooks[..i];
        log.events := log.events + [StateHookRan(stateHooks[i], prevState)];
        i := i + 1;
      }
      assert stateHooks[..i] == stateHooks;
    }
  }
}
