/** The `d-loop` directive of `src/directives.js`: a list of child components
    kept in step with the items a loop expression yields. Each child is a
    clone of the template's first element and is known by a key that the
    `d-key` expression computes from its item. On every render the hook
    reuses the child already holding a key, refreshing its context, appends a
    new child for a new key, moves each in turn to the end so that the
    children follow the items, and removes the children whose keys are gone.

    The loop and key expressions are compiled code: the loop's result is a
    parameter, and the key expression is the function `keyOf` of the item. */
module Loop {
  import opened JsValues
  import opened Dom
  import opened Util
  import opened MergeFacts
  import opened Components

  // ---------------------------------------------------------------------------
  // Iteration

  /** One call of `iterate`'s callback: the key (`null` for an array
      element), the item, and its position. */
  datatype LoopItem = LoopItem(key: Value, item: Value, index: nat)

  /** `items.constructor == Array` */
  predicate IsArray(h: Heap, v: Value) {
    v.ObjRef? && v.id in h && h[v.id].kind == ArrayObject
  }

  /** `iterate(items, …)`: an array's elements in order, anything else
      through `Object.entries`; `null` and `undefined` throw. */
  function Iterate(h: Heap, items: Value): (r: Result<seq<LoopItem>>)
    ensures r.Throw? <==> IsNil(items)
    ensures r.Throw? ==> r.error == TypeError
    ensures r.Ok? ==> forall i :: 0 <= i < |r.value| ==> r.value[i].index == i
    ensures IsArray(h, items) ==>
              r.Ok? && |r.value| == |h[items.id].keys|
              && forall i :: 0 <= i < |r.value| ==>
                   r.value[i].key == Null && r.value[i].item == Get(h, items.id, h[items.id].keys[i])
    ensures !IsArray(h, items) && r.Ok? ==>
              var es := Entries(h, items).value;
              |r.value| == |es| && forall i :: 0 <= i < |es| ==> r.value[i].key == Str(es[i].0) && r.value[i].item == es[i].1
  {
    if IsArray(h, items) then
      var ks := h[items.id].keys;
      Ok(seq(|ks|, i requires 0 <= i < |ks| => LoopItem(Null, Get(h, items.id, ks[i]), i)))
    else
      match Entries(h, items)
      case Throw(e) => Throw(e)
      case Ok(es) => Ok(seq(|es|, i requires 0 <= i < |es| => LoopItem(Str(es[i].0), es[i].1, i)))
  }

  /** The object `iterate` hands its callback:
      `{ [varStr + 'Key']: key, [varStr]: item, [varStr + 'Index']: index }`. */
  function ItemContext(varStr: string, it: LoopItem): (o: JsObject)
    ensures ObjWf(o) && o.kind == PlainObject
  {
    var kk := varStr + "Key";
    var ki := varStr + "Index";
    assert |kk| == |varStr| + 3 && |ki| == |varStr| + 5;
    JsObject(PlainObject, [kk, varStr, ki], map[kk := it.key, varStr := it.item, ki := Num(it.index)])
  }

  /** The three names differ in length, so none overwrites another: the
      context has three properties, holding the key, the item and its
      index. */
  lemma ItemContextProps(varStr: string, it: LoopItem)
    ensures var o := ItemContext(varStr, it);
            |o.keys| == 3
            && Get(map[0 := o], 0, varStr + "Key") == it.key
            && Get(map[0 := o], 0, varStr) == it.item
            && Get(map[0 := o], 0, varStr + "Index") == Num(it.index)
  {
    assert |varStr + "Key"| == |varStr| + 3 && |varStr + "Index"| == |varStr| + 5;
  }

  /** Whether `k` is one of the names an item's context sets. */
  predicate ItemName(varStr: string, k: string) {
    k == varStr + "Key" || k == varStr || k == varStr + "Index"
  }

  /** The context a new child is created with:
      `{ ...context, _loopComponentKey: key, parentComponent: owner }`. */
  function ChildContext(varStr: string, it: LoopItem, key: Value, owner: Value): (o: JsObject)
    ensures ObjWf(o) && o.kind == PlainObject
    ensures "_loopComponentKey" in o.props && o.props["_loopComponentKey"] == key
    ensures "parentComponent" in o.props && o.props["parentComponent"] == owner
  {
    var b := ItemContext(varStr, it);
    PutObjWf(b, "_loopComponentKey", key);
    PutObjWf(PutObj(b, "_loopComponentKey", key), "parentComponent", owner);
    PutObj(PutObj(b, "_loopComponentKey", key), "parentComponent", owner)
  }

  /** Apart from the two names it sets, a new child's context holds what
      the item's context holds. */
  lemma ChildContextSpread(varStr: string, it: LoopItem, key: Value, owner: Value)
    ensures var o := ChildContext(varStr, it, key, owner);
            var b := ItemContext(varStr, it);
            forall k :: k != "_loopComponentKey" && k != "parentComponent" ==>
              (k in o.props <==> k in b.props) && (k in b.props ==> o.props[k] == b.props[k])
  {
  }

  /** The keys `keyFunc` gives the items, as property names. */
  function KeysOf(items: seq<LoopItem>, keyOf: LoopItem -> Value): (ks: seq<string>)
    ensures |ks| == |items|
  {
    seq(|items|, i requires 0 <= i < |items| => ToJsString(keyOf(items[i])))
  }

  // ---------------------------------------------------------------------------
  // The children already there

  /** `component.context._loopComponentKey` as a property name, for a child
      whose element holds context `ctx`. A context that is not an object has
      no such property. */
  function TrackKey(h: Heap, ctx: Value): string {
    if ctx.ObjRef? then ToJsString(Get(h, ctx.id, "_loopComponentKey")) else "undefined"
  }

  /** A new child's context names the key it was appended under. */
  lemma ChildContextTracked(h: Heap, a: ObjId, varStr: string, it: LoopItem, key: Value, owner: Value)
    ensures TrackKey(h[a := ChildContext(varStr, it, key, owner)], ObjRef(a)) == ToJsString(key)
  {
  }

  /** The map `children` the hook builds: from key to child, with the keys
      in the order the map first received them. */
  datatype Track = Track(keys: seq<string>, of: map<string, NodeId>)

  ghost predicate Injective(m: map<string, NodeId>) {
    forall a, b :: a in m && b in m && m[a] == m[b] ==> a == b
  }

  /** A map of children drawn from `kids`, listing its keys once each. */
  ghost predicate TrackWf(t: Track, kids: seq<NodeId>) {
    Distinct(t.keys) && (forall k :: k in t.of <==> k in t.keys)
    && (forall k :: k in t.of ==> t.of[k] in kids) && Injective(t.of)
  }

  /** `[...node.children].reduce(…, {})`: every child that hosts a component
      is entered under its key; a later child with the same key replaces an
      earlier one. */
  function Tracked(nodes: map<NodeId, NodeRec>, h: Heap, kids: seq<NodeId>): (r: Track)
    requires forall i :: 0 <= i < |kids| ==> kids[i] in nodes
    ensures TrackWf(r, kids)
    ensures forall k :: k in r.of ==> nodes[r.of[k]].hasComponent && TrackKey(h, nodes[r.of[k]].context) == k
  {
    if kids == [] then Track([], map[])
    else
      var t := Tracked(nodes, h, kids[..|kids| - 1]);
      var c := kids[|kids| - 1];
      TrackWider(t, kids);
      if nodes[c].hasComponent then
        var k := TrackKey(h, nodes[c].context);
        TrackAdd(nodes, h, t, kids, k);
        Track(if k in t.of then t.keys else t.keys + [k], t.of[k := c])
      else t
  }

  /** A map drawn from a prefix of `kids` is drawn from `kids`. */
  lemma TrackWider(t: Track, kids: seq<NodeId>)
    requires kids != [] && TrackWf(t, kids[..|kids| - 1])
    ensures TrackWf(t, kids)
  {
    forall k | k in t.of ensures t.of[k] in kids {
      var j :| 0 <= j < |kids| - 1 && kids[..|kids| - 1][j] == t.of[k];
      assert kids[j] == t.of[k];
    }
  }

  /** Entering the last child under its key keeps the map well formed. */
  lemma TrackAdd(nodes: map<NodeId, NodeRec>, h: Heap, t: Track, kids: seq<NodeId>, k: string)
    requires kids != [] && (forall i :: 0 <= i < |kids| ==> kids[i] in nodes) && TrackWf(t, kids)
    requires k == TrackKey(h, nodes[kids[|kids| - 1]].context)
    requires forall k' :: k' in t.of ==> TrackKey(h, nodes[t.of[k']].context) == k'
    ensures TrackWf(Track(if k in t.of then t.keys else t.keys + [k], t.of[k := kids[|kids| - 1]]), kids)
  {
    var c := kids[|kids| - 1];
    var r := Track(if k in t.of then t.keys else t.keys + [k], t.of[k := c]);
    if k !in t.of {
      DistinctSnoc(t.keys, k);
    }
    assert forall k' :: k' in t.of && t.of[k'] == c ==> k' == k;
  }

  /** The child a key maps to is the last child with that key. */
  lemma {:induction false} TrackedLastWins(nodes: map<NodeId, NodeRec>, h: Heap, kids: seq<NodeId>, i: nat)
    requires forall j :: 0 <= j < |kids| ==> kids[j] in nodes
    requires i < |kids| && nodes[kids[i]].hasComponent
    requires forall j :: i < j < |kids| && nodes[kids[j]].hasComponent ==>
               TrackKey(h, nodes[kids[j]].context) != TrackKey(h, nodes[kids[i]].context)
    ensures var k := TrackKey(h, nodes[kids[i]].context);
            k in Tracked(nodes, h, kids).of && Tracked(nodes, h, kids).of[k] == kids[i]
  {
    var n := |kids| - 1;
    if i < n {
      var pre := kids[..n];
      forall j | i < j < |pre| && nodes[pre[j]].hasComponent
        ensures TrackKey(h, nodes[pre[j]].context) != TrackKey(h, nodes[pre[i]].context)
      {
        assert pre[j] == kids[j];
      }
      TrackedLastWins(nodes, h, pre, i);
    }
  }

  // ---------------------------------------------------------------------------
  // Where the children go

  /** The children the hook moves to the end, in the order it moves them,
      and how many of them are new. */
  datatype Placed = Placed(order: seq<NodeId>, added: nat)

  /** The placement for keys `keys`: a key in `tracked` moves its child to
      the end; any other key appends a new child, the `n`-th new child being
      `next + n`. */
  function Placement(tracked: map<string, NodeId>, keys: seq<string>, next: nat): (r: Placed)
  {
    if keys == [] then Placed([], 0)
    else
      var p := Placement(tracked, keys[..|keys| - 1], next);
      var k := keys[|keys| - 1];
      if k in tracked then Placed(Without(p.order, tracked[k]) + [tracked[k]], p.added)
      else Placed(p.order + [next + p.added], p.added + 1)
  }

  /** The children that keys in `keys` select from `tracked`. */
  function Picked(tracked: map<string, NodeId>, keys: seq<string>): (r: set<NodeId>)
    ensures forall x :: x in r ==> x in tracked.Values
    ensures forall k :: k in keys && k in tracked ==> tracked[k] in r
    ensures Injective(tracked) ==> forall k :: k in tracked && tracked[k] in r ==> k in keys
  {
    if keys == [] then {}
    else
      var k := keys[|keys| - 1];
      assert forall x :: x in keys ==> x in keys[..|keys| - 1] || x == k;
      Picked(tracked, keys[..|keys| - 1]) + (if k in tracked then {tracked[k]} else {})
  }

  /** How many of `keys` are not in `tracked`. */
  function Untracked(tracked: map<string, NodeId>, keys: seq<string>): (n: nat)
    ensures n <= |keys|
  {
    if keys == [] then 0
    else Untracked(tracked, keys[..|keys| - 1]) + (if keys[|keys| - 1] in tracked then 0 else 1)
  }

  /** The child that item `i` ends up in: the tracked child of its key, or
      the new child made for it. */
  function Slot(tracked: map<string, NodeId>, keys: seq<string>, next: nat, i: nat): NodeId
    requires i < |keys|
  {
    if keys[i] in tracked then tracked[keys[i]] else next + Untracked(tracked, keys[..i])
  }

  /** The children moved are free of repetitions, and they are exactly the
      children the keys select plus the new ones. */
  lemma {:induction false} PlacementShape(tracked: map<string, NodeId>, keys: seq<string>, next: nat)
    requires forall k :: k in tracked ==> tracked[k] < next
    ensures var p := Placement(tracked, keys, next);
            Distinct(p.order)
            && forall x :: x in p.order <==> x in Picked(tracked, keys) || next <= x < next + p.added
  {
    if keys != [] {
      var pre := keys[..|keys| - 1];
      var k := keys[|keys| - 1];
      PlacementShape(tracked, pre, next);
      var p := Placement(tracked, pre, next);
      if k in tracked {
        WithoutDistinct(p.order, tracked[k]);
      } else {
        DistinctSnoc(p.order, next + p.added);
      }
    }
  }

  /** With distinct keys, the children end in the order of the items: item
      `i`'s child is its `Slot`. */
  lemma {:induction false} PlacementInOrder(tracked: map<string, NodeId>, keys: seq<string>, next: nat)
    requires Injective(tracked) && Distinct(keys)
    requires forall k :: k in tracked ==> tracked[k] < next
    ensures var p := Placement(tracked, keys, next);
            p.added == Untracked(tracked, keys) && |p.order| == |keys|
            && forall i :: 0 <= i < |keys| ==> p.order[i] == Slot(tracked, keys, next, i)
  {
    if keys != [] {
      var n := |keys| - 1;
      var pre := keys[..n];
      var k := keys[n];
      PlacementInOrder(tracked, pre, next);
      var p := Placement(tracked, pre, next);
      forall i | 0 <= i < n
        ensures Slot(tracked, keys, next, i) == Slot(tracked, pre, next, i)
      {
        assert keys[..i] == pre[..i];
      }
      if k in tracked {
        forall i | 0 <= i < n
          ensures p.order[i] != tracked[k]
        {
          if pre[i] in tracked {
            assert pre[i] != k;
          } else {
            assert p.order[i] == next + Untracked(tracked, pre[..i]);
            assert tracked[k] < next;
          }
        }
        WithoutAbsent(p.order, tracked[k]);
      }
      assert keys[..n] == pre;
    }
  }

  // ---------------------------------------------------------------------------
  // Lists of children

  function Elems<T>(xs: seq<T>): set<T> {
    set x | x in xs
  }

  /** `xs` without the members of `s`, in order. */
  function Except(xs: seq<NodeId>, s: set<NodeId>): (r: seq<NodeId>)
    ensures forall x :: x in r <==> x in xs && x !in s
  {
    if xs == [] then [] else (if xs[0] in s then [] else [xs[0]]) + Except(xs[1..], s)
  }

  lemma {:induction false} WithoutAbsent(xs: seq<NodeId>, x: NodeId)
    requires x !in xs
    ensures Without(xs, x) == xs
  {
    if xs != [] {
      WithoutAbsent(xs[1..], x);
      assert xs == [xs[0]] + xs[1..];
    }
  }

  lemma {:induction false} WithoutConcat(a: seq<NodeId>, b: seq<NodeId>, x: NodeId)
    ensures Without(a + b, x) == Without(a, x) + Without(b, x)
  {
    if a == [] {
      assert a + b == b;
    } else {
      var ab := a + b;
      assert ab[0] == a[0];
      assert ab[1..] == a[1..] + b;
      WithoutConcat(a[1..], b, x);
    }
  }

  lemma {:induction false} ExceptWithout(xs: seq<NodeId>, s: set<NodeId>, x: NodeId)
    ensures Without(Except(xs, s), x) == Except(xs, s + {x})
  {
    if xs != [] {
      ExceptWithout(xs[1..], s, x);
      WithoutConcat(if xs[0] in s then [] else [xs[0]], Except(xs[1..], s), x);
    }
  }

  lemma {:induction false} ExceptSame(xs: seq<NodeId>, s1: set<NodeId>, s2: set<NodeId>)
    requires forall x :: x in xs ==> (x in s1 <==> x in s2)
    ensures Except(xs, s1) == Except(xs, s2)
  {
    if xs != [] {
      ExceptSame(xs[1..], s1, s2);
    }
  }

  /** Moving `x` to the end of the children `Except(kids, set(o)) + o`
      gives the same shape with `x` moved to the end of `o`. */
  lemma MoveStep(kids: seq<NodeId>, o: seq<NodeId>, x: NodeId)
    ensures var o2 := Without(o, x) + [x];
            Without(Except(kids, Elems(o)) + o, x) + [x] == Except(kids, Elems(o2)) + o2
  {
    var o2 := Without(o, x) + [x];
    WithoutConcat(Except(kids, Elems(o)), o, x);
    ExceptWithout(kids, Elems(o), x);
    assert (Elems(o2)) == (Elems(o)) + {x};
  }

  /** Appending a new child `x` extends `o` by `x`. */
  lemma AppendStep(kids: seq<NodeId>, o: seq<NodeId>, x: NodeId)
    requires x !in kids && x !in o
    ensures Except(kids, Elems(o + [x])) + (o + [x]) == Except(kids, Elems(o)) + o + [x]
  {
    ExceptSame(kids, Elems(o + [x]), Elems(o));
  }

  /** Removing `x`, a child outside `o`, moves it into the excluded set. */
  lemma RemoveStep(kids: seq<NodeId>, s: set<NodeId>, o: seq<NodeId>, x: NodeId)
    requires x !in o
    ensures Without(Except(kids, s) + o, x) == Except(kids, s + {x}) + o
  {
    WithoutConcat(Except(kids, s), o, x);
    ExceptWithout(kids, s, x);
    WithoutAbsent(o, x);
  }

  /** One more item placed, whose key is tracked: its child moves to the
      end. */
  lemma PlacedMove(tracked: map<string, NodeId>, keys: seq<string>, i: nat, next: nat, kids: seq<NodeId>)
    requires i < |keys| && keys[i] in tracked
    ensures var p := Placement(tracked, keys[..i], next);
            var q := Placement(tracked, keys[..i + 1], next);
            var c := tracked[keys[i]];
            q.added == p.added
            && Arranged(kids, q.order) == Without(Arranged(kids, p.order), c) + [c]
  {
    var p := Placement(tracked, keys[..i], next);
    assert keys[..i + 1][..i] == keys[..i];
    MoveStep(kids, p.order, tracked[keys[i]]);
  }

  /** One more item placed, whose key is not tracked: a new child is
      appended. */
  lemma PlacedAppend(tracked: map<string, NodeId>, keys: seq<string>, i: nat, next: nat, kids: seq<NodeId>, x: NodeId)
    requires i < |keys| && keys[i] !in tracked
    requires forall k :: k in tracked ==> tracked[k] < next
    requires forall y :: y in kids ==> y < next
    requires x == next + Placement(tracked, keys[..i], next).added
    ensures var p := Placement(tracked, keys[..i], next);
            var q := Placement(tracked, keys[..i + 1], next);
            q.added == p.added + 1 && Arranged(kids, q.order) == Arranged(kids, p.order) + [x]
  {
    var p := Placement(tracked, keys[..i], next);
    var q := Placement(tracked, keys[..i + 1], next);
    assert keys[..i + 1][..i] == keys[..i];
    assert q.order == p.order + [x];
    PlacementShape(tracked, keys[..i], next);
    assert x !in p.order;
    AppendStep(kids, p.order, x);
  }

  /** Moving the last child to the end leaves the children as they are. */
  lemma MoveLastStays(kids: seq<NodeId>, x: NodeId)
    requires x !in kids
    ensures Without(kids + [x], x) + [x] == kids + [x]
  {
    WithoutAbsent(kids, x);
    WithoutConcat(kids, [x], x);
    assert Without([x], x) == [];
  }

  lemma UpdateSame(m: map<NodeId, NodeRec>, k: NodeId)
    requires k in m
    ensures m[k := m[k].(children := m[k].children)] == m
  {
  }

  /** Setting the children twice keeps the second. */
  lemma ChildrenTwice(n: NodeRec, a: seq<NodeId>, b: seq<NodeId>)
    ensures n.(children := a).(children := b) == n.(children := b)
  {
  }

  /** A tracked child is among the children at every step. */
  lemma TrackedPresent(kids: seq<NodeId>, o: seq<NodeId>, c: NodeId)
    requires c in kids
    ensures c in Except(kids, Elems(o)) + o
  {
  }

  // ---------------------------------------------------------------------------
  // The hook

  /** A clone of the template's first element once `createComponent` has
      made it a component host with context `ctx`. */
  function ChildRecord(template: NodeRec, ctx: Value): NodeRec {
    template.(hasComponent := true, context := ctx, lastLoopResults := Undefined)
  }

  /** What `node._lastLoopResults` holds after `JSON.stringify` gave `s`. */
  function SerValue(s: Serialized): Value
    requires !s.Circular?
  {
    if s.Text? then Str(s.text) else Undefined
  }

  /** A child of a node is another node, which names it as parent. */
  lemma ChildOf(doc: Document, p: NodeId, c: NodeId)
    requires doc.Valid() && p in doc.nodes && c in doc.nodes[p].children
    ensures c in doc.nodes && doc.nodes[c].parent == Some(p) && c != p && c < doc.next
  {
    var j :| 0 <= j < |doc.nodes[p].children| && doc.nodes[p].children[j] == c;
    ChildLinked(doc.nodes, doc.next, doc.rank, p, j);
  }

  /** The heap once the reuse branch has built a child's new context,
      `deepMerge({}, childComponent.context, context)`, with the item's
      object at `b`: the merge target is new at `n` and, when the old
      context is falsy, so is the `{}` the `context` getter returns, at
      `n + 1`. */
  function Refreshed(h: Heap, b: ObjId, n: ObjId, ctx: Value, limit: nat): Outcome {
    var h1 := h[n := EmptyObject()];
    if Truthy(ctx) then MergeFrame(h1, n, [ctx, ObjRef(b)], 0, limit)
    else MergeFrame(h1[n + 1 := EmptyObject()], n, [ObjRef(n + 1), ObjRef(b)], 0, limit)
  }

  /** What the reused child's new context holds, when its old context is an
      object nothing else refers to: the item's key and index names take
      the item's key and index; the item's name takes the item unless both
      it and the old value are plain objects (then the old object is merged
      into instead); every other property of the old context, among them
      `_loopComponentKey` and `parentComponent`, keeps its value. The old
      context and the item's object are left as they were. */
  lemma RefreshedContext(h: Heap, b: ObjId, n: ObjId, ctx: Value, limit: nat, varStr: string, it: LoopItem)
    requires ctx.ObjRef? && ctx.id in h && ObjWf(h[ctx.id]) && b in h && h[b] == ItemContext(varStr, it)
    requires n !in h && ctx.id != b && !it.key.ObjRef?
    requires Unreferenced(h, n) && Unreferenced(h, b) && Unreferenced(h, ctx.id)
    ensures var out := Refreshed(h, b, n, ctx, limit);
            !out.overflow ==>
              var o := out.heap[n];
              Prop(o, varStr + "Key") == it.key && Prop(o, varStr + "Index") == Num(it.index)
              && (!IsPlain(h, Prop(h[ctx.id], varStr)) || !IsPlain(h, it.item) ==> Prop(o, varStr) == it.item)
              && (forall k :: !ItemName(varStr, k) ==> Prop(o, k) == Prop(h[ctx.id], k))
              && out.heap[ctx.id] == h[ctx.id] && out.heap[b] == h[b]
  {
    var h1 := h[n := EmptyObject()];
    var out := Refreshed(h, b, n, ctx, limit);
    RefreshedTop(h, b, n, ctx, limit);
    if !out.overflow {
      ItemContextProps(varStr, it);
      assert it.item == h[b].props[varStr];
      assert IsPlain(h1, it.item) == IsPlain(h, it.item);
      assert IsPlain(h1, Prop(h[ctx.id], varStr)) == IsPlain(h, Prop(h[ctx.id], varStr));
      ItemOverContext(h1, ctx.id, b, varStr, it);
    }
  }

  /** The reused child's new context is the item's properties written over a
      copy of the old context, and neither source changes. */
  lemma RefreshedTop(h: Heap, b: ObjId, n: ObjId, ctx: Value, limit: nat)
    requires ctx.ObjRef? && ctx.id in h && b in h
    requires n !in h && ctx.id != b
    requires Unreferenced(h, n) && Unreferenced(h, b) && Unreferenced(h, ctx.id)
    ensures var out := Refreshed(h, b, n, ctx, limit);
            var h1 := h[n := EmptyObject()];
            !out.overflow ==>
              out.heap[n] == TopKeys(h1, TopKeys(h1, EmptyObject(), ctx, h[ctx.id].keys, 0), ObjRef(b), h[b].keys, 0)
              && out.heap[ctx.id] == h[ctx.id] && out.heap[b] == h[b]
  {
    var h1 := h[n := EmptyObject()];
    var srcs := [ctx, ObjRef(b)];
    DeepMergeTopLevel(h1, n, srcs, limit);
    var o1 := TopKeys(h1, EmptyObject(), ctx, h[ctx.id].keys, 0);
    var o := TopKeys(h1, o1, ObjRef(b), h[b].keys, 0);
    assert TopSources(h1, o, srcs, 2) == o;
    assert TopSources(h1, o1, srcs, 1) == o;
  }

  /** The item's three properties written over a copy of the context `c`. */
  lemma ItemOverContext(h: Heap, c: ObjId, b: ObjId, varStr: string, it: LoopItem)
    requires c in h && ObjWf(h[c]) && b in h && h[b] == ItemContext(varStr, it) && !it.key.ObjRef?
    ensures var o := TopKeys(h, TopKeys(h, EmptyObject(), ObjRef(c), h[c].keys, 0), ObjRef(b), h[b].keys, 0);
            Prop(o, varStr + "Key") == it.key && Prop(o, varStr + "Index") == Num(it.index)
            && (!IsPlain(h, Prop(h[c], varStr)) || !IsPlain(h, it.item) ==> Prop(o, varStr) == it.item)
            && (forall k :: !ItemName(varStr, k) ==> Prop(o, k) == Prop(h[c], k))
  {
    ItemContextProps(varStr, it);
    var bk := h[b].keys;
    var o1 := TopKeys(h, EmptyObject(), ObjRef(c), h[c].keys, 0);
    CopiedFirst(h, c);
    forall k | !ItemName(varStr, k)
      ensures Prop(TopKeys(h, o1, ObjRef(b), bk, 0), k) == Prop(h[c], k)
    {
      TopKeysUntouched(h, o1, ObjRef(b), bk, 0, k);
    }
    assert bk[0] == varStr + "Key" && bk[1] == varStr && bk[2] == varStr + "Index";
    KeysLastWin(h, o1, ObjRef(b), bk, 0, 0);
    KeysLastWin(h, o1, ObjRef(b), bk, 0, 2);
    if !IsPlain(h, it.item) {
      KeysLastWin(h, o1, ObjRef(b), bk, 0, 1);
    } else if !IsPlain(h, Prop(h[c], varStr)) {
      KeysOverNonPlain(h, o1, ObjRef(b), bk, 0, 1);
    }
  }

  /** The first source of a merge into `{}` is copied as it is, every
      property with its value. */
  lemma CopiedFirst(h: Heap, s: ObjId)
    requires s in h && ObjWf(h[s])
    ensures forall k :: Prop(TopKeys(h, EmptyObject(), ObjRef(s), h[s].keys, 0), k) == Prop(h[s], k)
  {
    var c := h[s];
    forall k
      ensures Prop(TopKeys(h, EmptyObject(), ObjRef(s), c.keys, 0), k) == Prop(c, k)
    {
      if k in c.props {
        var p := IndexOfKey(c, k);
        KeysOverNonPlain(h, EmptyObject(), ObjRef(s), c.keys, 0, p);
      } else {
        TopKeysUntouched(h, EmptyObject(), ObjRef(s), c.keys, 0, k);
      }
    }
  }

  /** The reuse branch for child `c`, the item's object being `b`:
      `childComponent.context = deepMerge({}, childComponent.context,
      context)`, then `node.appendChild(childComponent.element)`. A merge
      that throws leaves the document as it was. */
  method Refresh(doc: Document, heap: JsHeap, node: NodeId, c: NodeId, b: ObjId) returns (err: Option<JsError>)
    requires doc.Valid() && heap.Valid() && node in doc.nodes && c in doc.nodes[node].children
    modifies doc, heap
    ensures doc.Valid() && heap.Valid() && doc.next == old(doc.next)
    ensures var ctx := old(doc.nodes[c].context);
            var out := Refreshed(old(heap.objs), b, old(heap.next), ctx, heap.limit);
            heap.objs == out.heap && heap.next == old(heap.next) + (if Truthy(ctx) then 1 else 2)
            && (out.overflow ==> err == Some(RangeError) && doc.nodes == old(doc.nodes))
            && (!out.overflow ==>
                  err.None?
                  && doc.nodes == old(doc.nodes)[c := old(doc.nodes[c]).(context := ObjRef(old(heap.next)))]
                                                [node := old(doc.nodes[node]).(children := Without(old(doc.nodes[node].children), c) + [c])])
  {
    ChildOf(doc, node, c);
    var t := heap.Alloc(EmptyObject());
    var ctx := doc.nodes[c].context;
    var src := ctx;
    if !Truthy(ctx) {
      var e := heap.Alloc(EmptyObject());
      src := ObjRef(e);
    }
    MergeWf(heap.objs, t, [src, ObjRef(b)], heap.limit);
    var m := DeepMerge(heap, t, [src, ObjRef(b)]);
    if m.Throw? {
      return Some(RangeError);
    }
    doc.Update(c, doc.nodes[c].(context := ObjRef(t)));
    doc.MoveToEnd(node, c);
    err := None;
  }

  /** `append(childComponentKey, context)`: a clone of the template is
      appended and made a component whose context is the item's context
      with the key and the owner added. */
  method Append(doc: Document, heap: JsHeap, node: NodeId, varStr: string, it: LoopItem, key: Value,
                owner: Value, template: NodeRec) returns (id: NodeId)
    requires doc.Valid() && heap.Valid() && node in doc.nodes
    modifies doc, heap
    ensures doc.Valid() && heap.Valid()
    ensures heap.next == old(heap.next) + 1
    ensures heap.objs == old(heap.objs)[old(heap.next) := ChildContext(varStr, it, key, owner)]
    ensures id == old(doc.next) && doc.next == id + 1
    ensures doc.nodes == old(doc.nodes)[id := ChildRecord(template, ObjRef(old(heap.next))).(parent := Some(node), children := [])]
                                       [node := old(doc.nodes[node]).(children := old(doc.nodes[node].children) + [id])]
  {
    var a := heap.Alloc(ChildContext(varStr, it, key, owner));
    id := doc.AppendNew(node, ChildRecord(template, ObjRef(a)));
  }

  /** The new-key branch: `append(…)`, then `node.appendChild(…)` on the
      child just appended, which leaves it where it is. */
  method AppendLast(doc: Document, heap: JsHeap, node: NodeId, varStr: string, it: LoopItem, key: Value,
                    owner: Value, template: NodeRec) returns (id: NodeId)
    requires doc.Valid() && heap.Valid() && node in doc.nodes
    modifies doc, heap
    ensures doc.Valid() && heap.Valid()
    ensures heap.next == old(heap.next) + 1
    ensures heap.objs == old(heap.objs)[old(heap.next) := ChildContext(varStr, it, key, owner)]
    ensures id == old(doc.next) && doc.next == id + 1
    ensures doc.nodes == old(doc.nodes)[id := ChildRecord(template, ObjRef(old(heap.next))).(parent := Some(node), children := [])]
                                       [node := old(doc.nodes[node]).(children := old(doc.nodes[node].children) + [id])]
  {
    ghost var kids := doc.nodes[node].children;
    assert doc.next !in kids by {
      if doc.next in kids {
        ChildOf(doc, node, doc.next);
      }
    }
    id := Append(doc, heap, node, varStr, it, key, owner, template);
    ghost var appended := doc.nodes;
    MoveLastStays(kids, id);
    doc.MoveToEnd(node, id);
    UpdateSame(appended, node);
  }

  /** The children of a node are nodes below `next`, other than the node. */
  lemma ChildrenBelow(doc: Document, p: NodeId)
    requires doc.Valid() && p in doc.nodes
    ensures forall i :: 0 <= i < |doc.nodes[p].children| ==> doc.nodes[p].children[i] in doc.nodes
    ensures forall x :: x in doc.nodes[p].children ==> x < doc.next && x != p
    ensures Distinct(doc.nodes[p].children)
  {
    forall x | x in doc.nodes[p].children
      ensures x < doc.next && x != p
    {
      ChildOf(doc, p, x);
    }
  }

  /** The children once the placed ones `o` have moved to the end. */
  function Arranged(kids: seq<NodeId>, o: seq<NodeId>): seq<NodeId> {
    Except(kids, Elems(o)) + o
  }

  /** Nothing excluded leaves a sequence as it is. */
  lemma {:induction false} ExceptNone(xs: seq<NodeId>)
    ensures Except(xs, {}) == xs
  {
    if xs != [] {
      ExceptNone(xs[1..]);
    }
  }

  /** The node once the first keys `keys` are placed: its children are
      arranged as their placement gives, and the new children exist. */
  ghost predicate PlacedSoFar(doc: Document, node: NodeId, n0: NodeRec, tracked: map<string, NodeId>,
                              keys: seq<string>, next0: nat)
    reads doc
  {
    var p := Placement(tracked, keys, next0);
    node in doc.nodes && doc.nodes[node] == n0.(children := Arranged(n0.children, p.order))
    && doc.next == next0 + p.added
  }

  /** Item `i`, whose key is tracked: its child is refreshed and moved to
      the end, which is the next step of the placement; a merge that throws
      changes no child. */
  method MoveTracked(doc: Document, heap: JsHeap, node: NodeId, keys: seq<string>, tracked: map<string, NodeId>,
                     i: nat, b: ObjId, ghost n0: NodeRec, ghost next0: nat)
      returns (err: Option<JsError>)
    requires doc.Valid() && heap.Valid() && i < |keys| && keys[i] in tracked
    requires forall k :: k in tracked ==> tracked[k] in n0.children
    requires PlacedSoFar(doc, node, n0, tracked, keys[..i], next0)
    modifies doc, heap
    ensures doc.Valid() && heap.Valid()
    ensures err.None? || err == Some(RangeError)
    ensures PlacedSoFar(doc, node, n0, tracked, keys[..if err.None? then i + 1 else i], next0)
  {
    ghost var p := Placement(tracked, keys[..i], next0);
    var c := tracked[keys[i]];
    TrackedPresent(n0.children, p.order, c);
    PlacedMove(tracked, keys, i, next0, n0.children);
    err := Refresh(doc, heap, node, c, b);
  }

  /** Item `i`, whose key is new: a child is appended for it, which is the
      next step of the placement. */
  method AppendUntracked(doc: Document, heap: JsHeap, node: NodeId, keys: seq<string>, tracked: map<string, NodeId>,
                         i: nat, varStr: string, it: LoopItem, key: Value, owner: Value, template: NodeRec,
                         ghost n0: NodeRec, ghost next0: nat)
    requires doc.Valid() && heap.Valid() && i < |keys| && keys[i] !in tracked
    requires forall k :: k in tracked ==> tracked[k] in n0.children
    requires forall x :: x in n0.children ==> x < next0
    requires PlacedSoFar(doc, node, n0, tracked, keys[..i], next0)
    modifies doc, heap
    ensures doc.Valid() && heap.Valid()
    ensures PlacedSoFar(doc, node, n0, tracked, keys[..i + 1], next0)
  {
    ghost var q := Placement(tracked, keys[..i + 1], next0);
    ghost var before := doc.nodes[node];
    var id := AppendLast(doc, heap, node, varStr, it, key, owner, template);
    PlacedAppend(tracked, keys, i, next0, n0.children, id);
    ChildrenTwice(n0, before.children, Arranged(n0.children, q.order));
  }

  /** The hook's callback for item `i`: the item's context is allocated;
      the child holding its key is refreshed from it, or a new child is
      appended; either way that child ends up last. Only the merge can
      throw, and then no child has changed. */
  method PlaceItem(doc: Document, heap: JsHeap, node: NodeId, items: seq<LoopItem>, keyOf: LoopItem -> Value,
                   varStr: string, owner: Value, template: NodeRec, tracked: map<string, NodeId>, i: nat,
                   ghost n0: NodeRec, ghost next0: nat)
      returns (err: Option<JsError>)
    requires doc.Valid() && heap.Valid() && i < |items|
    requires forall k :: k in tracked ==> tracked[k] in n0.children
    requires forall x :: x in n0.children ==> x < next0
    requires PlacedSoFar(doc, node, n0, tracked, KeysOf(items, keyOf)[..i], next0)
    modifies doc, heap
    ensures doc.Valid() && heap.Valid()
    ensures err.None? || (err == Some(RangeError) && ToJsString(keyOf(items[i])) in tracked)
    ensures PlacedSoFar(doc, node, n0, tracked, KeysOf(items, keyOf)[..if err.None? then i + 1 else i], next0)
  {
    var b := heap.Alloc(ItemContext(varStr, items[i]));
    var k := ToJsString(keyOf(items[i]));
    if k in tracked {
      err := MoveTracked(doc, heap, node, KeysOf(items, keyOf), tracked, i, b, n0, next0);
    } else {
      AppendUntracked(doc, heap, node, KeysOf(items, keyOf), tracked, i, varStr, items[i], keyOf(items[i]), owner, template, n0, next0);
      err := None;
    }
  }

  /** `iterate(results, callback)` in the hook: the items are placed in
      turn; a merge that throws ends the iteration. With nothing tracked
      nothing is merged, so nothing throws. */
  method PlaceItems(doc: Document, heap: JsHeap, node: NodeId, items: seq<LoopItem>, keyOf: LoopItem -> Value,
                    varStr: string, owner: Value, template: NodeRec, tracked: map<string, NodeId>)
      returns (err: Option<JsError>)
    requires doc.Valid() && heap.Valid() && node in doc.nodes
    requires forall k :: k in tracked ==> tracked[k] in doc.nodes[node].children
    modifies doc, heap
    ensures doc.Valid() && heap.Valid() && node in doc.nodes
    ensures doc.nodes[node] == old(doc.nodes[node]).(children := doc.nodes[node].children)
    ensures err.None? || err == Some(RangeError)
    ensures tracked == map[] ==> err.None?
    ensures err.None? ==>
              var p := Placement(tracked, KeysOf(items, keyOf), old(doc.next));
              doc.nodes[node].children == Arranged(old(doc.nodes[node].children), p.order)
              && doc.next == old(doc.next) + p.added
  {
    ghost var keys := KeysOf(items, keyOf);
    ghost var n0 := doc.nodes[node];
    ghost var next0 := doc.next;
    ChildrenBelow(doc, node);
    ExceptNone(n0.children);
    assert Elems<NodeId>([]) == {};
    assert Arranged(n0.children, []) == n0.children;
    assert keys[..0] == [];
    assert n0.(children := n0.children) == n0;
    var i := 0;
    err := None;
    while i < |items|
      invariant 0 <= i <= |items| && err.None?
      invariant doc.Valid() && heap.Valid()
      invariant PlacedSoFar(doc, node, n0, tracked, keys[..i], next0)
    {
      err := PlaceItem(doc, heap, node, items, keyOf, varStr, owner, template, tracked, i, n0, next0);
      if err.Some? {
        return;
      }
      i := i + 1;
    }
    assert keys[..|items|] == keys;
  }

  /** The tracked children whose keys, among `ks`, are not in `live`. */
  function StaleOf(of: map<string, NodeId>, live: set<string>, ks: seq<string>): (r: set<NodeId>)
    ensures forall x :: x in r ==> x in of.Values
    ensures Injective(of) ==> forall k :: k in of ==> (of[k] in r <==> k in ks && k !in live)
  {
    if ks == [] then {}
    else
      var k := ks[|ks| - 1];
      assert forall x :: x in ks <==> x in ks[..|ks| - 1] || x == k;
      StaleOf(of, live, ks[..|ks| - 1]) + (if k in of && k !in live then {of[k]} else {})
  }

  /** `Object.entries(children).forEach(…)`: each tracked child whose key
      no item had is removed from the node. */
  method RemoveStale(doc: Document, node: NodeId, t: Track, live: set<string>,
                     ghost kids: seq<NodeId>, ghost order: seq<NodeId>)
    requires doc.Valid() && node in doc.nodes && TrackWf(t, kids)
    requires doc.nodes[node].children == Except(kids, Elems(order)) + order
    requires forall k :: k in t.of && k !in live ==> t.of[k] !in order
    modifies doc
    ensures doc.Valid() && doc.next == old(doc.next) && node in doc.nodes
    ensures doc.nodes[node] == old(doc.nodes[node]).(children := Except(kids, Elems(order) + StaleOf(t.of, live, t.keys)) + order)
  {
    ghost var n0 := doc.nodes[node];
    assert t.keys[..0] == [];
    assert Elems(order) + StaleOf(t.of, live, t.keys[..0]) == Elems(order);
    assert n0.(children := n0.children) == n0;
    var i := 0;
    while i < |t.keys|
      invariant 0 <= i <= |t.keys|
      invariant doc.Valid() && doc.next == old(doc.next)
      invariant RemovedSoFar(doc, node, n0, t, live, kids, order, i)
    {
      RemoveNext(doc, node, t, live, kids, order, i, n0);
      i := i + 1;
    }
    assert t.keys[..|t.keys|] == t.keys;
  }

  /** The node once the first `i` tracked keys have been visited: the stale
      children among them are gone. */
  ghost predicate RemovedSoFar(doc: Document, node: NodeId, n0: NodeRec, t: Track, live: set<string>,
                               kids: seq<NodeId>, order: seq<NodeId>, i: nat)
    reads doc
    requires i <= |t.keys|
  {
    node in doc.nodes
    && doc.nodes[node] == n0.(children := Except(kids, Elems(order) + StaleOf(t.of, live, t.keys[..i])) + order)
  }

  /** The visit of the tracked key `i`: its child is removed when the key is
      stale. */
  method RemoveNext(doc: Document, node: NodeId, t: Track, live: set<string>,
                    ghost kids: seq<NodeId>, ghost order: seq<NodeId>, i: nat, ghost n0: NodeRec)
    requires doc.Valid() && TrackWf(t, kids) && i < |t.keys|
    requires forall k :: k in t.of && k !in live ==> t.of[k] !in order
    requires RemovedSoFar(doc, node, n0, t, live, kids, order, i)
    modifies doc
    ensures doc.Valid() && doc.next == old(doc.next)
    ensures RemovedSoFar(doc, node, n0, t, live, kids, order, i + 1)
  {
    var k := t.keys[i];
    if k !in live {
      var c := t.of[k];
      StaleStep(t, live, kids, order, i);
      ChildOf(doc, node, c);
      ghost var before := doc.nodes[node];
      doc.Remove(c);
      ChildrenTwice(n0, before.children, doc.nodes[node].children);
    } else {
      StaleSame(t, live, i);
    }
  }

  /** A stale key's child is still among the children when its turn comes,
      and removing it adds it to the stale ones. */
  lemma StaleStep(t: Track, live: set<string>, kids: seq<NodeId>, order: seq<NodeId>, i: nat)
    requires TrackWf(t, kids) && i < |t.keys| && t.keys[i] !in live
    requires forall k :: k in t.of && k !in live ==> t.of[k] !in order
    ensures var c := t.of[t.keys[i]];
            var s := Elems(order) + StaleOf(t.of, live, t.keys[..i]);
            c in Except(kids, s) + order
            && Without(Except(kids, s) + order, c) == Except(kids, Elems(order) + StaleOf(t.of, live, t.keys[..i + 1])) + order
  {
    var k := t.keys[i];
    var c := t.of[k];
    var s := Elems(order) + StaleOf(t.of, live, t.keys[..i]);
    assert t.keys[..i + 1][..i] == t.keys[..i];
    assert k !in t.keys[..i];
    assert c !in s;
    RemoveStep(kids, s, order, c);
    assert Elems(order) + StaleOf(t.of, live, t.keys[..i + 1]) == s + {c};
  }

  /** A live key adds no stale child. */
  lemma StaleSame(t: Track, live: set<string>, i: nat)
    requires i < |t.keys| && t.keys[i] in live
    ensures StaleOf(t.of, live, t.keys[..i + 1]) == StaleOf(t.of, live, t.keys[..i])
  {
    assert t.keys[..i + 1][..i] == t.keys[..i];
  }

  /** A tracked child whose key no item has is not among those moved. */
  lemma StaleNotPlaced(t: Track, kids: seq<NodeId>, keys: seq<string>, next: nat)
    requires TrackWf(t, kids) && forall x :: x in kids ==> x < next
    ensures forall k :: k in t.of && k !in Elems(keys) ==> t.of[k] !in Placement(t.of, keys, next).order
  {
    PlacementShape(t.of, keys, next);
  }

  /** Once the stale children are gone, exactly the tracked ones have left
      their old places. */
  lemma Settled(t: Track, kids: seq<NodeId>, keys: seq<string>, next: nat)
    requires TrackWf(t, kids) && forall x :: x in kids ==> x < next
    ensures var p := Placement(t.of, keys, next);
            Except(kids, Elems(p.order) + StaleOf(t.of, Elems(keys), t.keys)) == Except(kids, t.of.Values)
  {
    var p := Placement(t.of, keys, next);
    var s := Elems(p.order) + StaleOf(t.of, Elems(keys), t.keys);
    PlacementShape(t.of, keys, next);
    forall x | x in kids
      ensures x in s <==> x in t.of.Values
    {
      if x in t.of.Values {
        var k :| k in t.of && t.of[k] == x;
        if k in keys {
          assert x in Picked(t.of, keys);
        }
      }
    }
    ExceptSame(kids, s, t.of.Values);
  }

  /** The `d-loop` render hook. It stringifies the loop's result, and
      stops when that text is the one recorded at its last run; otherwise
      it records it, maps each child hosting a component to its key, then
      places the items (reusing the child of a known key, appending one for
      a new key) and removes the children whose keys no item has.
      Afterwards the children that were not tracked keep their places in
      front, and the placed children follow in the order `Placement` gives. */
  method LoopHook(doc: Document, heap: JsHeap, node: NodeId, results: Value, keyOf: LoopItem -> Value,
                  varStr: string, owner: Value, template: NodeRec) returns (err: Option<JsError>)
    requires doc.Valid() && heap.Valid() && node in doc.nodes
    modifies doc, heap
    ensures doc.Valid() && heap.Valid() && node in doc.nodes
    ensures var s := Stringify(old(heap.objs), results);
            var n := old(doc.nodes[node]);
            if s.Circular? then
              err == Some(TypeError) && doc.nodes == old(doc.nodes) && heap.objs == old(heap.objs)
            else if SerValue(s) == n.lastLoopResults then
              err.None? && doc.nodes == old(doc.nodes) && heap.objs == old(heap.objs)
            else
              doc.nodes[node].lastLoopResults == SerValue(s)
              && match Iterate(old(heap.objs), results)
                 case Throw(e) =>
                   err == Some(e) && heap.objs == old(heap.objs)
                   && doc.nodes == old(doc.nodes)[node := n.(lastLoopResults := SerValue(s))]
                 case Ok(items) =>
                   (err.None? || err == Some(RangeError))
                   && (err.None? ==>
                         (forall i :: 0 <= i < |n.children| ==> n.children[i] in old(doc.nodes))
                         && var t := Tracked(old(doc.nodes), old(heap.objs), n.children);
                            var p := Placement(t.of, KeysOf(items, keyOf), old(doc.next));
                            doc.nodes[node] == n.(lastLoopResults := SerValue(s), children := Except(n.children, t.of.Values) + p.order)
                            && doc.next == old(doc.next) + p.added)
  {
    var s := Stringify(heap.objs, results);
    if s.Circular? {
      return Some(TypeError);
    }
    var n := doc.nodes[node];
    if SerValue(s) == n.lastLoopResults {
      return None;
    }
    ChildrenBelow(doc, node);
    var nodes := doc.nodes;
    var t := Tracked(nodes, heap.objs, n.children);
    doc.Update(node, n.(lastLoopResults := SerValue(s)));
    var its := Iterate(heap.objs, results);
    if its.Throw? {
      return Some(its.error);
    }
    ghost var next0 := doc.next;
    ghost var keys := KeysOf(its.value, keyOf);
    err := PlaceItems(doc, heap, node, its.value, keyOf, varStr, owner, template, t.of);
    if err.Some? {
      return;
    }
    ghost var p := Placement(t.of, keys, next0);
    var live := Elems(KeysOf(its.value, keyOf));
    StaleNotPlaced(t, n.children, keys, next0);
    RemoveStale(doc, node, t, live, n.children, p.order);
    Settled(t, n.children, keys, next0);
  }

  // ---------------------------------------------------------------------------
  // Setting up

  /** `node.querySelector('template')`, among the node's children: the first
      template element. */
  function FirstTemplate(nodes: map<NodeId, NodeRec>, kids: seq<NodeId>): (r: Option<NodeId>)
    requires forall i :: 0 <= i < |kids| ==> kids[i] in nodes
    ensures r.Some? ==> r.value in kids && nodes[r.value].kind.TemplateElement?
    ensures r.None? ==> forall i :: 0 <= i < |kids| ==> !nodes[kids[i]].kind.TemplateElement?
  {
    if kids == [] then None
    else if nodes[kids[0]].kind.TemplateElement? then Some(kids[0])
    else
      var r := FirstTemplate(nodes, kids[1..]);
      assert forall i :: 1 <= i < |kids| ==> kids[i] == kids[1..][i - 1];
      r
  }

  /** The record `originalNode` clones: the template's first element, which
      is given `d-component="ShadowComponent"` unless it names a component
      already. */
  function Prototype(first: NodeRec): (r: NodeRec)
    ensures Truthy(GetAttribute(r, "d-component"))
    ensures Truthy(GetAttribute(first, "d-component")) ==> r == first
    ensures r == first.(attrs := r.attrs)
    ensures forall a :: a != "d-component" ==> (a in r.attrs <==> a in first.attrs) && (a in first.attrs ==> r.attrs[a] == first.attrs[a])
  {
    if Truthy(GetAttribute(first, "d-component")) then first
    else first.(attrs := first.attrs["d-component" := "ShadowComponent"])
  }

  /** `node.innerHTML = ''` followed by `node.appendChild(template)`, for a
      template that is a child of the node: every other child is removed. */
  method KeepOnly(doc: Document, node: NodeId, tmpl: NodeId)
    requires doc.Valid() && node in doc.nodes && tmpl in doc.nodes[node].children
    modifies doc
    ensures doc.Valid() && doc.next == old(doc.next) && node in doc.nodes
    ensures doc.nodes[node] == old(doc.nodes[node]).(children := [tmpl])
  {
    var kids := doc.nodes[node].children;
    ghost var n0 := doc.nodes[node];
    ChildrenBelow(doc, node);
    ClearStart(doc, node, tmpl);
    var i := 0;
    while i < |kids|
      invariant 0 <= i <= |kids|
      invariant doc.Valid() && doc.next == old(doc.next)
      invariant ClearedSoFar(doc, node, n0, tmpl, i)
    {
      ClearNext(doc, node, kids, tmpl, i, n0);
      i := i + 1;
    }
    ClearEnd(n0, tmpl);
  }

  /** Before any removal, the node is as it was. */
  lemma ClearStart(doc: Document, node: NodeId, tmpl: NodeId)
    requires node in doc.nodes
    ensures ClearedSoFar(doc, node, doc.nodes[node], tmpl, 0)
  {
    var n0 := doc.nodes[node];
    ExceptNone(n0.children);
    assert Elems(n0.children[..0]) - {tmpl} == {};
    assert n0.(children := n0.children) == n0;
  }

  /** Once every child but the template is removed, only the template is left. */
  lemma ClearEnd(n0: NodeRec, tmpl: NodeId)
    requires Distinct(n0.children) && tmpl in n0.children
    ensures n0.(children := Except(n0.children, Elems(n0.children[..|n0.children|]) - {tmpl})) == n0.(children := [tmpl])
  {
    assert n0.children[..|n0.children|] == n0.children;
    OnlyLeft(n0.children, tmpl);
  }

  /** The node once its first `i` children but the template are removed. */
  ghost predicate ClearedSoFar(doc: Document, node: NodeId, n0: NodeRec, tmpl: NodeId, i: nat)
    reads doc
    requires i <= |n0.children|
  {
    node in doc.nodes && doc.nodes[node] == n0.(children := Except(n0.children, Elems(n0.children[..i]) - {tmpl}))
  }

  /** Child `i` is removed unless it is the template. */
  method ClearNext(doc: Document, node: NodeId, kids: seq<NodeId>, tmpl: NodeId, i: nat, ghost n0: NodeRec)
    requires doc.Valid() && n0.children == kids && i < |kids| && Distinct(kids)
    requires ClearedSoFar(doc, node, n0, tmpl, i)
    modifies doc
    ensures doc.Valid() && doc.next == old(doc.next)
    ensures ClearedSoFar(doc, node, n0, tmpl, i + 1)
  {
    var x := kids[i];
    ghost var s := Elems(kids[..i]) - {tmpl};
    ClearStep(kids, tmpl, i);
    if x != tmpl {
      ChildOf(doc, node, x);
      ghost var before := doc.nodes[node];
      doc.Remove(x);
      ExceptWithout(kids, s, x);
      ChildrenTwice(n0, before.children, doc.nodes[node].children);
    }
  }

  /** The set of removed children grows by child `i` unless it is the
      template, which is still present then. */
  lemma ClearStep(kids: seq<NodeId>, tmpl: NodeId, i: nat)
    requires i < |kids| && Distinct(kids)
    ensures var s := Elems(kids[..i]) - {tmpl};
            && (kids[i] != tmpl ==> kids[i] in Except(kids, s) && Elems(kids[..i + 1]) - {tmpl} == s + {kids[i]})
            && (kids[i] == tmpl ==> Elems(kids[..i + 1]) - {tmpl} == s)
  {
    var pre := kids[..i];
    assert kids[..i + 1] == pre + [kids[i]];
    assert kids[i] !in pre;
    assert Elems(kids[..i + 1]) == Elems(pre) + {kids[i]};
    assert kids[i] !in Elems(pre) - {tmpl};
  }

  /** Taking out every member of distinct `xs` but `x` leaves `[x]`. */
  lemma {:induction false} OnlyLeft(xs: seq<NodeId>, x: NodeId)
    requires Distinct(xs) && x in xs
    ensures Except(xs, Elems(xs) - {x}) == [x]
  {
    if xs[0] == x {
      assert x !in xs[1..];
      ExceptSame(xs[1..], Elems(xs) - {x}, Elems(xs[1..]));
      ExceptAll(xs[1..]);
    } else {
      ExceptSame(xs[1..], Elems(xs) - {x}, Elems(xs[1..]) - {x});
      OnlyLeft(xs[1..], x);
    }
  }

  lemma ExceptAll(xs: seq<NodeId>)
    ensures Except(xs, Elems(xs)) == []
  {
    ExceptCovered(xs, Elems(xs));
  }

  lemma {:induction false} ExceptCovered(xs: seq<NodeId>, s: set<NodeId>)
    requires forall x :: x in xs ==> x in s
    ensures Except(xs, s) == []
  {
    if xs != [] {
      assert xs[0] in s;
      ExceptCovered(xs[1..], s);
    }
  }

  /** The identities `start`, `start + 1`, … of `n` new children. */
  function Run(start: nat, n: nat): (r: seq<NodeId>)
    ensures |r| == n && forall i :: 0 <= i < n ==> r[i] == start + i
  {
    seq(n, i => start + i)
  }

  /** `x` is a child the loop appended to `node`: a clone of the template
      hosting a component, whose context object names `key`. */
  ghost predicate LoopChild(nodes: map<NodeId, NodeRec>, h: Heap, node: NodeId, template: NodeRec, x: NodeId, key: string) {
    x in nodes && LoopRecord(nodes[x], h, node, template, key)
  }

  /** The record of such a child. */
  ghost predicate LoopRecord(r: NodeRec, h: Heap, node: NodeId, template: NodeRec, key: string) {
    r.context.ObjRef? && r.context.id in h
    && r == ChildRecord(template, r.context).(parent := Some(node), children := [])
    && TrackKey(h, r.context) == key
  }

  /** The node once the first `i` items have their children. */
  ghost predicate AppendedSoFar(doc: Document, heap: JsHeap, node: NodeId, n0: NodeRec, template: NodeRec,
                                keys: seq<string>, next0: nat, i: nat)
    reads doc, heap
    requires i <= |keys|
  {
    node in doc.nodes && node < next0 && doc.nodes[node] == n0.(children := n0.children + Run(next0, i))
    && doc.next == next0 + i
    && forall j :: 0 <= j < i ==> LoopChild(doc.nodes, heap.objs, node, template, next0 + j, keys[j])
  }

  /** The setup's `iterate(…, context => append(…))`: a new child for each
      item, in order, each hosting a component whose context names the
      item's key. */
  method AppendItems(doc: Document, heap: JsHeap, node: NodeId, items: seq<LoopItem>, keyOf: LoopItem -> Value,
                     varStr: string, owner: Value, template: NodeRec)
    requires doc.Valid() && heap.Valid() && node in doc.nodes
    modifies doc, heap
    ensures doc.Valid() && heap.Valid()
    ensures AppendedSoFar(doc, heap, node, old(doc.nodes[node]), template, KeysOf(items, keyOf), old(doc.next), |items|)
  {
    ghost var n0 := doc.nodes[node];
    ghost var next0 := doc.next;
    assert n0.children + Run(next0, 0) == n0.children;
    assert node < next0;
    var i := 0;
    while i < |items|
      invariant 0 <= i <= |items|
      invariant doc.Valid() && heap.Valid()
      invariant AppendedSoFar(doc, heap, node, n0, template, KeysOf(items, keyOf), next0, i)
    {
      AppendNext(doc, heap, node, items, keyOf, varStr, owner, template, i, n0, next0);
      i := i + 1;
    }
  }

  /** Item `i` of the setup: its context is allocated and a child appended
      for it. */
  method AppendNext(doc: Document, heap: JsHeap, node: NodeId, items: seq<LoopItem>, keyOf: LoopItem -> Value,
                    varStr: string, owner: Value, template: NodeRec, i: nat, ghost n0: NodeRec, ghost next0: nat)
    requires doc.Valid() && heap.Valid() && i < |items|
    requires AppendedSoFar(doc, heap, node, n0, template, KeysOf(items, keyOf), next0, i)
    modifies doc, heap
    ensures doc.Valid() && heap.Valid()
    ensures AppendedSoFar(doc, heap, node, n0, template, KeysOf(items, keyOf), next0, i + 1)
  {
    ghost var keys := KeysOf(items, keyOf);
    ghost var h0 := heap.objs;
    ghost var nodes0 := doc.nodes;
    var b, id := AppendFor(doc, heap, node, varStr, items[i], keyOf(items[i]), owner, template);
    RunSnoc(n0.children, next0, i, id);
    ChildrenTwice(n0, nodes0[node].children, doc.nodes[node].children);
    AppendKeeps(nodes0, h0, doc.nodes, heap.objs, node, template, keys, next0, i, id, b,
                doc.nodes[node], ItemContext(varStr, items[i]), ChildContext(varStr, items[i], keyOf(items[i]), owner));
  }

  /** `iterate` builds the item's context `b`, then `append` adds a child
      for it, whose context names the key. */
  method AppendFor(doc: Document, heap: JsHeap, node: NodeId, varStr: string, it: LoopItem, key: Value,
                   owner: Value, template: NodeRec) returns (b: ObjId, id: NodeId)
    requires doc.Valid() && heap.Valid() && node in doc.nodes
    modifies doc, heap
    ensures doc.Valid() && heap.Valid()
    ensures b == old(heap.next) && b !in old(heap.objs) && b + 1 !in old(heap.objs)
    ensures heap.objs == old(heap.objs)[b := ItemContext(varStr, it)][b + 1 := ChildContext(varStr, it, key, owner)]
    ensures TrackKey(heap.objs, ObjRef(b + 1)) == ToJsString(key)
    ensures id == old(doc.next) && doc.next == id + 1
    ensures doc.nodes == old(doc.nodes)[id := ChildRecord(template, ObjRef(b + 1)).(parent := Some(node), children := [])]
                                       [node := old(doc.nodes[node]).(children := old(doc.nodes[node].children) + [id])]
  {
    b := heap.Alloc(ItemContext(varStr, it));
    ghost var h1 := heap.objs;
    id := Append(doc, heap, node, varStr, it, key, owner, template);
    ChildContextTracked(h1, b + 1, varStr, it, key, owner);
  }

  /** One more identity at the end of a run, after children `kids`. */
  lemma RunSnoc(kids: seq<NodeId>, start: nat, n: nat, x: NodeId)
    requires x == start + n
    ensures kids + Run(start, n + 1) == kids + Run(start, n) + [x]
  {
    assert Run(start, n + 1) == Run(start, n) + [x];
  }

  /** Appending child `id`, whose context is the new object `b + 1` naming
      key `i`, after allocating `b` leaves the children appended before as
      they were and adds `id` to them. */
  lemma AppendKeeps(nodes0: map<NodeId, NodeRec>, h0: Heap, nodes1: map<NodeId, NodeRec>, h1: Heap,
                    node: NodeId, template: NodeRec, keys: seq<string>, next0: nat, i: nat, id: NodeId, b: ObjId,
                    nn: NodeRec, ob: JsObject, oc: JsObject)
    requires i < |keys| && node < next0 && id == next0 + i && b !in h0 && b + 1 !in h0
    requires forall j :: 0 <= j < i ==> LoopChild(nodes0, h0, node, template, next0 + j, keys[j])
    requires nodes1 == nodes0[id := ChildRecord(template, ObjRef(b + 1)).(parent := Some(node), children := [])][node := nn]
    requires h1 == h0[b := ob][b + 1 := oc]
    requires TrackKey(h1, ObjRef(b + 1)) == keys[i]
    ensures forall j :: 0 <= j < i + 1 ==> LoopChild(nodes1, h1, node, template, next0 + j, keys[j])
  {
    forall j | 0 <= j < i + 1
      ensures LoopChild(nodes1, h1, node, template, next0 + j, keys[j])
    {
      if j < i {
        assert LoopChild(nodes0, h0, node, template, next0 + j, keys[j]);
      }
    }
  }

  /** `removeAttribute(child, 'd-key')` for each child of the node. */
  method DropKeys(doc: Document, node: NodeId)
    requires doc.Valid() && node in doc.nodes
    modifies doc
    ensures doc.Valid() && doc.next == old(doc.next)
    ensures doc.nodes == WithoutAttr(old(doc.nodes), old(doc.nodes[node].children), "d-key")
  {
    var kids := doc.nodes[node].children;
    ChildrenBelow(doc, node);
    var i := 0;
    while i < |kids|
      invariant 0 <= i <= |kids| && doc.Valid() && doc.next == old(doc.next)
      invariant doc.nodes == WithoutAttr(old(doc.nodes), kids[..i], "d-key")
    {
      WithoutAttrNext(old(doc.nodes), kids, i, "d-key");
      doc.RemoveAttribute(kids[i], "d-key");
      i := i + 1;
    }
    assert kids[..i] == kids;
  }

  /** `getAttribute(node, 'd-loop-var') || 'loopItem'` */
  function LoopVar(n: NodeRec): (v: string)
    ensures v != ""
  {
    var a := GetAttribute(n, "d-loop-var");
    if Truthy(a) then a.s else "loopItem"
  }

  /** How the setup of `d-loop` ends before it appends anything: the error
      it throws, or `None` when it goes on. */
  function SetupError(n: NodeRec, tmpl: Option<NodeId>, first: Option<NodeRec>, methods: set<string>): (r: Option<JsError>)
    ensures tmpl.None? ==> r == Some(Error("Must have a template element inside the d-loop."))
    ensures r.None? <==> tmpl.Some? && first.Some? && !GetAttribute(first.value, "d-key").Null?
                         && (!GetAttribute(n, "d-loop").Null? || "null" in methods)
  {
    if tmpl.None? then Some(Error("Must have a template element inside the d-loop."))
    else if first.None? then Some(TypeError)
    else if GetAttribute(first.value, "d-key").Null? then Some(Error("The root element inside d-loop must have d-key directive"))
    else if GetAttribute(n, "d-loop").Null? && "null" !in methods then Some(TypeError)
    else None
  }

  /** The node once the setup has appended a child per key of `keys` and
      removed its own directive attributes and its children's `d-key`. */
  ghost predicate Populated(doc: Document, heap: JsHeap, node: NodeId, n0: NodeRec, template: NodeRec,
                            keys: seq<string>, next0: nat)
    reads doc, heap
  {
    node in doc.nodes
    && doc.nodes[node] == n0.(attrs := n0.attrs - {"d-loop", "d-loop-var"}, children := n0.children + Run(next0, |keys|))
    && forall j :: 0 <= j < |keys| ==> LoopChild(doc.nodes, heap.objs, node, DropAttr(template, "d-key"), next0 + j, keys[j])
  }

  /** The setup once the checks pass and the items are known: the children
      are appended, then the directive's attributes and every child's
      `d-key` removed. */
  method Populate(doc: Document, heap: JsHeap, node: NodeId, items: seq<LoopItem>, keyOf: LoopItem -> Value,
                  varStr: string, owner: Value, template: NodeRec)
    requires doc.Valid() && heap.Valid() && node in doc.nodes
    modifies doc, heap
    ensures doc.Valid() && heap.Valid()
    ensures Populated(doc, heap, node, old(doc.nodes[node]), template, KeysOf(items, keyOf), old(doc.next))
  {
    AppendItems(doc, heap, node, items, keyOf, varStr, owner, template);
    DropDirectives(doc, heap, node, old(doc.nodes[node]), template, KeysOf(items, keyOf), old(doc.next));
  }

  /** The `!debug.keepDirectives` branch of the setup, once every item has
      its child: `d-loop` and `d-loop-var` are removed from the node, then
      `d-key` from each of its children. */
  method DropDirectives(doc: Document, heap: JsHeap, node: NodeId, ghost n0: NodeRec, template: NodeRec,
                        ghost keys: seq<string>, ghost next0: nat)
    requires doc.Valid() && AppendedSoFar(doc, heap, node, n0, template, keys, next0, |keys|)
    modifies doc
    ensures doc.Valid()
    ensures Populated(doc, heap, node, n0, template, keys, next0)
  {
    ghost var m0 := doc.nodes;
    doc.RemoveAttribute(node, "d-loop");
    ghost var n1 := doc.nodes[node];
    doc.RemoveAttribute(node, "d-loop-var");
    ghost var m := doc.nodes;
    DirectiveDropped(n0, n0.children + Run(next0, |keys|));
    ChildrenBelow(doc, node);
    DropKeys(doc, node);
    DroppedKeys(m0, m, heap.objs, node, template, keys, next0, n0.children, n1, m[node]);
  }

  /** Removing `d-loop`, then `d-loop-var`, from the node with its new
      children. */
  lemma DirectiveDropped(n0: NodeRec, kids: seq<NodeId>)
    ensures var a := n0.(children := kids);
            var b := a.(attrs := a.attrs - {"d-loop"});
            b.(attrs := b.attrs - {"d-loop-var"}) == n0.(attrs := n0.attrs - {"d-loop", "d-loop-var"}, children := kids)
  {
    assert n0.attrs - {"d-loop"} - {"d-loop-var"} == n0.attrs - {"d-loop", "d-loop-var"};
  }

  /** Removing `d-key` from the children, after the node's own attributes
      were removed, leaves each appended child a clone of the template
      without `d-key`, and the node as it was. */
  lemma DroppedKeys(m0: map<NodeId, NodeRec>, m: map<NodeId, NodeRec>, h: Heap, node: NodeId, template: NodeRec,
                    keys: seq<string>, next0: nat, pre: seq<NodeId>, n1: NodeRec, nx: NodeRec)
    requires node in m0 && node < next0 && m0[node].children == pre + Run(next0, |keys|)
    requires m == m0[node := n1][node := nx] && nx.children == m0[node].children
    requires forall i :: 0 <= i < |nx.children| ==> nx.children[i] in m
    requires forall x :: x in nx.children ==> x != node
    requires forall j :: 0 <= j < |keys| ==> LoopChild(m0, h, node, template, next0 + j, keys[j])
    ensures var r := WithoutAttr(m, m[node].children, "d-key");
            node in r && r[node] == m[node]
            && forall j :: 0 <= j < |keys| ==> LoopChild(r, h, node, DropAttr(template, "d-key"), next0 + j, keys[j])
  {
    var kids := m[node].children;
    var r := WithoutAttr(m, kids, "d-key");
    DropKidsAt(m0, m, node, n1, nx, kids);
    forall j | 0 <= j < |keys|
      ensures LoopChild(r, h, node, DropAttr(template, "d-key"), next0 + j, keys[j])
    {
      var x := next0 + j;
      assert kids[|pre| + j] == x;
      DroppedChild(m0, r, h, node, template, x, keys[j]);
    }
  }

  /** Dropping `d-key` from the children leaves the node as it is and the
      children as they were in `m0`, without `d-key`. */
  lemma DropKidsAt(m0: map<NodeId, NodeRec>, m: map<NodeId, NodeRec>, node: NodeId, n1: NodeRec, nx: NodeRec, kids: seq<NodeId>)
    requires m == m0[node := n1][node := nx] && node !in kids
    requires forall i :: 0 <= i < |kids| ==> kids[i] in m
    ensures node in m && WithoutAttr(m, kids, "d-key")[node] == m[node]
    ensures forall x :: x in kids ==> x in m0 && WithoutAttr(m, kids, "d-key")[x] == DropAttr(m0[x], "d-key")
  {
    WithoutAttrAt(m, kids, "d-key");
  }

  /** `DroppedKey` for the child `x`. */
  lemma DroppedChild(m0: map<NodeId, NodeRec>, r: map<NodeId, NodeRec>, h: Heap, node: NodeId, template: NodeRec,
                     x: NodeId, key: string)
    requires LoopChild(m0, h, node, template, x, key) && x in r && r[x] == DropAttr(m0[x], "d-key")
    ensures LoopChild(r, h, node, DropAttr(template, "d-key"), x, key)
  {
    DroppedKey(m0[x], r[x], h, node, template, key);
  }

  /** A clone of the template without its `d-key` is a clone of the
      template stripped of `d-key`. */
  lemma DroppedKey(a: NodeRec, b: NodeRec, h: Heap, node: NodeId, template: NodeRec, key: string)
    requires LoopRecord(a, h, node, template, key) && b == DropAttr(a, "d-key")
    ensures LoopRecord(b, h, node, DropAttr(template, "d-key"), key)
  {
  }

  /** The `d-loop` directive on `node` of component `c`, whose template's
      first element (outside the tree, in the template's content) is
      `first`, and whose loop expression yields `results`. A failed check
      throws before anything changes. Otherwise only the template stays;
      when the items can be read, a new child is appended per item, whose
      context names the item's key, the directive's attributes and each
      child's `d-key` are removed, and the render hook is recorded (pushed,
      correcting the call of the undefined `addRenderHook`). */
  method DLoop(c: Component, doc: Document, heap: JsHeap, node: NodeId, first: Option<NodeRec>,
               results: Value, keyOf: LoopItem -> Value, owner: Value) returns (err: Option<JsError>)
    requires doc.Valid() && heap.Valid() && node in doc.nodes
    modifies c`renderHooks, doc, heap
    ensures doc.Valid() && heap.Valid() && node in doc.nodes
    ensures var n := old(doc.nodes[node]);
            (forall i :: 0 <= i < |n.children| ==> n.children[i] in old(doc.nodes))
            && var tmpl := FirstTemplate(old(doc.nodes), n.children);
               var setup := SetupError(n, tmpl, first, old(c.methods));
               if setup.Some? then
                 err == setup && doc.nodes == old(doc.nodes) && c.renderHooks == old(c.renderHooks)
               else match Iterate(old(heap.objs), results)
                 case Throw(e) =>
                   err == Some(e) && c.renderHooks == old(c.renderHooks)
                   && doc.nodes[node] == n.(children := [tmpl.value])
                 case Ok(items) =>
                   err.None?
                   && c.renderHooks == old(c.renderHooks) + [Hook("d-loop", GetAttribute(n, "d-loop"), Some(node), Null)]
                   && Populated(doc, heap, node, n.(children := [tmpl.value]), Prototype(first.value),
                                KeysOf(items, keyOf), old(doc.next))
  {
    var n := doc.nodes[node];
    ChildrenBelow(doc, node);
    var tmpl := FirstTemplate(doc.nodes, n.children);
    var setup := SetupError(n, tmpl, first, c.methods);
    if setup.Some? {
      return setup;
    }
    var template := Prototype(first.value);
    var varStr := LoopVar(n);
    KeepOnly(doc, node, tmpl.value);
    var its := Iterate(heap.objs, results);
    if its.Throw? {
      return Some(its.error);
    }
    Populate(doc, heap, node, its.value, keyOf, varStr, owner, template);
    c.AddRenderHook(Hook("d-loop", GetAttribute(n, "d-loop"), Some(node), Null));
    err := None;
  }
}
