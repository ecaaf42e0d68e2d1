/** The value and string utilities of `src/util.js`: the rewrite that turns
    the last statement of a script into a `return`, the recursive in-place
    `deepMerge` and the ancestor walk `parents` (`isNil` is `JsValues.IsNil`,
    the attribute accessors are on `Dom.Document`). */
module Util {
  import opened JsStrings
  import opened JsValues
  import opened Dom

  // ---------------------------------------------------------------------------
  // addReturnToScriptStr

  /** `addReturnToScriptStr(s)`: split at `;`, put `return ` in front of the
      last piece, join again with `";\n"`. */
  function AddReturnToScriptStr(s: string): string
  {
    var parts := Split(s, ';');
    Join(parts[..|parts| - 1] + ["return " + parts[|parts| - 1]], ";\n")
  }

  /** Read back by `;`, the rewritten script has the same pieces as the
      original: all but the last unchanged (after the line break the
      separator adds), the last one with `return ` in front. */
  lemma AddReturnSegments(s: string)
    ensures var p := Split(s, ';');
            var q := Split(AddReturnToScriptStr(s), ';');
            |q| == |p|
            && (|p| == 1 ==> q[0] == "return " + p[0])
            && (|p| > 1 ==> q[0] == p[0] && q[|p| - 1] == "\nreturn " + p[|p| - 1])
            && (forall i :: 0 < i < |p| - 1 ==> q[i] == "\n" + p[i])
  {
    ReturnPieces(Split(s, ';'));
  }

  /** `AddReturnSegments` for any `;`-free pieces `p`. */
  lemma ReturnPieces(p: seq<string>)
    requires |p| >= 1 && forall i :: 0 <= i < |p| ==> ';' !in p[i]
    ensures var q := Split(Join(p[..|p| - 1] + ["return " + p[|p| - 1]], ";\n"), ';');
            |q| == |p|
            && (|p| == 1 ==> q[0] == "return " + p[0])
            && (|p| > 1 ==> q[0] == p[0] && q[|p| - 1] == "\nreturn " + p[|p| - 1])
            && (forall i :: 0 < i < |p| - 1 ==> q[i] == "\n" + p[i])
  {
    var n := |p|;
    var ps := p[..n - 1] + ["return " + p[n - 1]];
    assert forall i :: 0 <= i < n - 1 ==> ps[i] == p[i];
    assert ps[n - 1] == "return " + p[n - 1];
    NoSemicolonInReturn(p[n - 1]);
    SplitJoinLines(ps);
  }

  lemma NoSemicolonInReturn(x: string)
    requires ';' !in x
    ensures ';' !in "return " + x
  {
    assert ';' !in "return ";
  }

  /** Splitting at `;` a join with `";\n"` of `;`-free pieces gives the pieces
      back, each but the first behind a line break. */
  lemma SplitJoinLines(ps: seq<string>)
    requires |ps| >= 1
    requires forall i :: 0 <= i < |ps| ==> ';' !in ps[i]
    ensures Split(Join(ps, ";\n"), ';') == [ps[0]] + PrefixEach(ps[1..], '\n')
  {
    JoinWithTail(ps, ';', '\n');
    var qs := [ps[0]] + PrefixEach(ps[1..], '\n');
    forall i | 0 <= i < |qs|
      ensures ';' !in qs[i]
    {
      if i > 0 {
        assert qs[i] == "\n" + ps[i];
      }
    }
    SplitJoin(qs, ';');
    assert ";\n" == [';', '\n'];
  }

  /** Without `;` the whole input is the returned expression. */
  lemma AddReturnNoSemicolon(s: string)
    requires ';' !in s
    ensures AddReturnToScriptStr(s) == "return " + s
  {
    SplitNoSep(s, ';');
  }

  // ---------------------------------------------------------------------------
  // deepMerge

  /** The heap after a merge, and whether it ran out of stack on the way (a
      `RangeError`, which stops it where it stands). */
  datatype Outcome = Outcome(heap: Heap, overflow: bool)

  /** `h2` is `h` after writes that only set properties: the same objects, of
      the same kinds, each with at least the keys it had. */
  ghost predicate Grows(h: Heap, h2: Heap) {
    h2.Keys == h.Keys && forall id {:trigger ObjGrows(h[id], h2[id])} :: id in h ==> ObjGrows(h[id], h2[id])
  }

  /** `b` is `a` with properties set: the same kind, every property of `a`,
      and `a`'s keys in front, in their order. */
  ghost predicate ObjGrows(a: JsObject, b: JsObject) {
    b.kind == a.kind && a.props.Keys <= b.props.Keys
    && |a.keys| <= |b.keys| && b.keys[..|a.keys|] == a.keys
    && (ObjWf(a) ==> ObjWf(b))
  }

  /** Growing keeps a well-formed heap well formed. */
  lemma GrowsWf(h: Heap, h2: Heap)
    requires Grows(h, h2) && HeapWf(h)
    ensures HeapWf(h2)
  {
    forall id | id in h2
      ensures ObjWf(h2[id])
    {
      assert ObjGrows(h[id], h2[id]);
    }
  }

  lemma ObjGrowsTrans(a: JsObject, b: JsObject, c: JsObject)
    requires ObjGrows(a, b) && ObjGrows(b, c)
    ensures ObjGrows(a, c)
  {
    assert c.keys[..|a.keys|] == c.keys[..|b.keys|][..|a.keys|];
  }

  /** One call `deepMerge(obj, ...srcs)` made `level` calls deep, on a host
      that admits `limit` nested calls. */
  function MergeFrame(h: Heap, t: ObjId, srcs: seq<Value>, level: nat, limit: nat): (r: Outcome)
    requires t in h
    ensures r.heap.Keys == h.Keys
    decreases limit + 1 - level, 3, 0
  {
    if level > limit then Outcome(h, true)
    else MergeSourcesFrom(h, t, srcs, 0, level, limit)
  }

  /** `for (let source of srcs)`, from the i-th source on. */
  function MergeSourcesFrom(h: Heap, t: ObjId, srcs: seq<Value>, i: nat, level: nat, limit: nat): (r: Outcome)
    requires t in h && i <= |srcs| && level <= limit
    ensures r.heap.Keys == h.Keys
    decreases limit + 1 - level, 2, |srcs| - i
  {
    if i == |srcs| then Outcome(h, false)
    else
      var first := MergeKeysFrom(h, t, srcs[i], ForInKeys(h, srcs[i]), 0, level, limit);
      if first.overflow then first
      else MergeSourcesFrom(first.heap, t, srcs, i + 1, level, limit)
  }

  /** `for (let key in source)` over the keys `ks` the loop enumerates, from
      the j-th key on. */
  function MergeKeysFrom(h: Heap, t: ObjId, src: Value, ks: seq<string>, j: nat, level: nat, limit: nat): (r: Outcome)
    requires t in h && j <= |ks| && level <= limit
    ensures r.heap.Keys == h.Keys
    decreases limit + 1 - level, 1, |ks| - j
  {
    if j == |ks| then Outcome(h, false)
    else
      var first := MergeStep(h, t, src, j, ks[j], level, limit);
      if first.overflow then first
      else MergeKeysFrom(first.heap, t, src, ks, j + 1, level, limit)
  }

  /** The body of the inner loop for the i-th key `k`: two plain objects
      merge recursively and the target keeps its own object, anything else
      is overwritten by the source's value. */
  function MergeStep(h: Heap, t: ObjId, src: Value, i: nat, k: string, level: nat, limit: nat): (r: Outcome)
    requires t in h && level <= limit
    ensures r.heap.Keys == h.Keys
    decreases limit + 1 - level, 0, 0
  {
    var value := Get(h, t, k);
    var newValue := ForInValue(h, src, i, k);
    if IsPlain(h, value) && IsPlain(h, newValue) then
      var sub := MergeFrame(h, value.id, [newValue], level + 1, limit);
      if sub.overflow then sub else Outcome(Put(sub.heap, t, k, value), false)
    else
      Outcome(Put(h, t, k, newValue), false)
  }

  /** A merge only sets properties: it keeps every object, its kind and its
      keys, and keeps the heap well formed. */
  lemma {:induction false} FrameGrows(h: Heap, t: ObjId, srcs: seq<Value>, level: nat, limit: nat)
    requires t in h
    ensures Grows(h, MergeFrame(h, t, srcs, level, limit).heap)
    decreases limit + 1 - level, 3, 0
  {
    if level <= limit {
      SourcesGrow(h, t, srcs, 0, level, limit);
    }
  }

  lemma {:induction false} SourcesGrow(h: Heap, t: ObjId, srcs: seq<Value>, i: nat, level: nat, limit: nat)
    requires t in h && i <= |srcs| && level <= limit
    ensures Grows(h, MergeSourcesFrom(h, t, srcs, i, level, limit).heap)
    decreases limit + 1 - level, 2, |srcs| - i
  {
    if i < |srcs| {
      var ks := ForInKeys(h, srcs[i]);
      KeysGrow(h, t, srcs[i], ks, 0, level, limit);
      var first := MergeKeysFrom(h, t, srcs[i], ks, 0, level, limit);
      if !first.overflow {
        SourcesGrow(first.heap, t, srcs, i + 1, level, limit);
        var r := MergeSourcesFrom(first.heap, t, srcs, i + 1, level, limit);
        assert MergeSourcesFrom(h, t, srcs, i, level, limit) == r;
        GrowsTrans(h, first.heap, r.heap);
      } else {
        assert MergeSourcesFrom(h, t, srcs, i, level, limit) == first;
      }
    }
  }

  lemma {:induction false} KeysGrow(h: Heap, t: ObjId, src: Value, ks: seq<string>, j: nat, level: nat, limit: nat)
    requires t in h && j <= |ks| && level <= limit
    ensures Grows(h, MergeKeysFrom(h, t, src, ks, j, level, limit).heap)
    decreases limit + 1 - level, 1, |ks| - j
  {
    if j < |ks| {
      StepGrows(h, t, src, j, ks[j], level, limit);
      var first := MergeStep(h, t, src, j, ks[j], level, limit);
      if !first.overflow {
        KeysGrow(first.heap, t, src, ks, j + 1, level, limit);
        var r := MergeKeysFrom(first.heap, t, src, ks, j + 1, level, limit);
        assert MergeKeysFrom(h, t, src, ks, j, level, limit) == r;
        GrowsTrans(h, first.heap, r.heap);
      } else {
        assert MergeKeysFrom(h, t, src, ks, j, level, limit) == first;
      }
    }
  }

  lemma {:induction false} StepGrows(h: Heap, t: ObjId, src: Value, i: nat, k: string, level: nat, limit: nat)
    requires t in h && level <= limit
    ensures var r := MergeStep(h, t, src, i, k, level, limit);
            Grows(h, r.heap) && (!r.overflow ==> k in r.heap[t].props)
    decreases limit + 1 - level, 0, 0
  {
    var value := Get(h, t, k);
    var newValue := ForInValue(h, src, i, k);
    if IsPlain(h, value) && IsPlain(h, newValue) {
      FrameGrows(h, value.id, [newValue], level + 1, limit);
      var sub := MergeFrame(h, value.id, [newValue], level + 1, limit);
      if !sub.overflow {
        PutGrows(sub.heap, t, k, value);
        GrowsTrans(h, sub.heap, Put(sub.heap, t, k, value));
      }
    } else {
      PutGrows(h, t, k, newValue);
    }
  }

  /** Unless it overflows, a merge leaves every key of every source present
      in the target. */
  lemma {:induction false} FramePresent(h: Heap, t: ObjId, srcs: seq<Value>, level: nat, limit: nat)
    requires t in h
    ensures var r := MergeFrame(h, t, srcs, level, limit);
            !r.overflow ==> forall m, k :: 0 <= m < |srcs| && k in ForInKeys(h, srcs[m]) ==> k in r.heap[t].props
  {
    if level <= limit {
      SourcesPresent(h, t, srcs, 0, level, limit);
    }
  }

  lemma {:induction false} SourcesPresent(h: Heap, t: ObjId, srcs: seq<Value>, i: nat, level: nat, limit: nat)
    requires t in h && i <= |srcs| && level <= limit
    ensures var r := MergeSourcesFrom(h, t, srcs, i, level, limit);
            !r.overflow ==> forall m, k :: i <= m < |srcs| && k in ForInKeys(h, srcs[m]) ==> k in r.heap[t].props
    decreases |srcs| - i
  {
    if i < |srcs| {
      var ks := ForInKeys(h, srcs[i]);
      var first := MergeKeysFrom(h, t, srcs[i], ks, 0, level, limit);
      if !first.overflow {
        KeysPresent(h, t, srcs[i], ks, 0, level, limit);
        KeysGrow(h, t, srcs[i], ks, 0, level, limit);
        SourcesPresent(first.heap, t, srcs, i + 1, level, limit);
        SourcesGrow(first.heap, t, srcs, i + 1, level, limit);
        var r := MergeSourcesFrom(first.heap, t, srcs, i + 1, level, limit);
        assert MergeSourcesFrom(h, t, srcs, i, level, limit) == r;
        if !r.overflow {
          ForInKeysGrow(h, first.heap, srcs);
          assert ObjGrows(first.heap[t], r.heap[t]);
        }
      }
    }
  }

  lemma {:induction false} KeysPresent(h: Heap, t: ObjId, src: Value, ks: seq<string>, j: nat, level: nat, limit: nat)
    requires t in h && j <= |ks| && level <= limit
    ensures var r := MergeKeysFrom(h, t, src, ks, j, level, limit);
            !r.overflow ==> forall m :: j <= m < |ks| ==> ks[m] in r.heap[t].props
    decreases |ks| - j
  {
    if j < |ks| {
      var first := MergeStep(h, t, src, j, ks[j], level, limit);
      if !first.overflow {
        StepGrows(h, t, src, j, ks[j], level, limit);
        KeysPresent(first.heap, t, src, ks, j + 1, level, limit);
        KeysGrow(first.heap, t, src, ks, j + 1, level, limit);
        var r := MergeKeysFrom(first.heap, t, src, ks, j + 1, level, limit);
        assert MergeKeysFrom(h, t, src, ks, j, level, limit) == r;
        assert ObjGrows(first.heap[t], r.heap[t]);
      }
    }
  }

  lemma PutGrows(h: Heap, t: ObjId, k: string, v: Value)
    requires t in h
    ensures Grows(h, Put(h, t, k, v))
    ensures k in Put(h, t, k, v)[t].props
  {
  }

  lemma GrowsTrans(h: Heap, h1: Heap, h2: Heap)
    requires Grows(h, h1) && Grows(h1, h2)
    ensures Grows(h, h2)
  {
    forall id | id in h
      ensures ObjGrows(h[id], h2[id])
    {
      ObjGrowsTrans(h[id], h1[id], h2[id]);
    }
  }

  /** Writes that only add properties keep every key a `for-in` visited. */
  lemma ForInKeysGrow(h: Heap, h2: Heap, vs: seq<Value>)
    requires Grows(h, h2)
    ensures forall m, k :: 0 <= m < |vs| && k in ForInKeys(h, vs[m]) ==> k in ForInKeys(h2, vs[m])
  {
    forall m, k | 0 <= m < |vs| && k in ForInKeys(h, vs[m])
      ensures k in ForInKeys(h2, vs[m])
    {
      if vs[m].ObjRef? {
        var a := h[vs[m].id].keys;
        var b := h2[vs[m].id].keys;
        assert ObjGrows(h[vs[m].id], h2[vs[m].id]);
        assert k in b[..|a|];
      }
    }
  }

  /** `deepMerge(obj, ...sources)`: merges the sources into `obj` in place and
      returns `obj`, or throws a `RangeError` when the recursion outgrows the
      host's stack. */
  method DeepMerge(heap: JsHeap, obj: ObjId, sources: seq<Value>) returns (r: Result<ObjId>)
    requires obj in heap.objs
    modifies heap
    ensures var out := MergeFrame(old(heap.objs), obj, sources, 0, heap.limit);
            heap.objs == out.heap
            && r == (if out.overflow then Throw(RangeError) else Ok(obj))
    ensures heap.next == old(heap.next)
  {
    var overflow := MergeInto(heap, obj, sources, 0);
    r := if overflow then Throw(RangeError) else Ok(obj);
  }

  method MergeInto(heap: JsHeap, obj: ObjId, sources: seq<Value>, level: nat) returns (overflow: bool)
    requires obj in heap.objs
    modifies heap
    ensures var out := MergeFrame(old(heap.objs), obj, sources, level, heap.limit);
            heap.objs == out.heap && overflow == out.overflow
    ensures heap.next == old(heap.next)
    decreases heap.limit + 1 - level, 1
  {
    if level > heap.limit {
      return true;
    }
    ghost var goal := MergeFrame(heap.objs, obj, sources, level, heap.limit);
    var i := 0;
    while i < |sources|
      invariant i <= |sources|
      invariant obj in heap.objs
      invariant MergeSourcesFrom(heap.objs, obj, sources, i, level, heap.limit) == goal
      invariant heap.next == old(heap.next)
    {
      var source := sources[i];
      var keys := ForInKeys(heap.objs, source);
      ghost var keysGoal := MergeKeysFrom(heap.objs, obj, source, keys, 0, level, heap.limit);
      var j := 0;
      while j < |keys|
        invariant j <= |keys|
        invariant obj in heap.objs
        invariant MergeKeysFrom(heap.objs, obj, source, keys, j, level, heap.limit) == keysGoal
        invariant heap.next == old(heap.next)
      {
        var nested := MergeKey(heap, obj, source, j, keys[j], level);
        if nested {
          return true;
        }
        j := j + 1;
      }
      i := i + 1;
    }
    overflow := false;
  }

  /** The inner loop's body for the i-th key `key` of `source`. */
  method MergeKey(heap: JsHeap, obj: ObjId, source: Value, i: nat, key: string, level: nat) returns (overflow: bool)
    requires obj in heap.objs && level <= heap.limit
    modifies heap
    ensures var out := MergeStep(old(heap.objs), obj, source, i, key, level, heap.limit);
            heap.objs == out.heap && overflow == out.overflow
    ensures heap.next == old(heap.next)
    decreases heap.limit + 1 - level, 0
  {
    var value := Get(heap.objs, obj, key);
    var newValue := ForInValue(heap.objs, source, i, key);
    if IsPlain(heap.objs, value) && IsPlain(heap.objs, newValue) {
      overflow := MergeInto(heap, value.id, [newValue], level + 1);
      if !overflow {
        heap.objs := Put(heap.objs, obj, key, value);
      }
    } else {
      heap.objs := Put(heap.objs, obj, key, newValue);
      overflow := false;
    }
  }

  // ---------------------------------------------------------------------------
  // parents

  /** The node `start` names and its ancestors, nearest first, up to the
      root. */
  ghost function Chain(d: Document, start: Option<NodeId>): (c: seq<NodeId>)
    reads d
    requires d.Valid() && (start.Some? ==> start.value in d.nodes)
    ensures forall x :: x in c ==> x in d.nodes
    decreases if start.Some? then d.rank[start.value] + 1 else 0
  {
    if start.None? then []
    else [start.value] + Chain(d, d.nodes[start.value].parent)
  }

  /** The elements of `xs` that match, in order. */
  ghost function Matching(xs: seq<NodeId>, matches: NodeId -> bool): (r: seq<NodeId>)
  {
    if xs == [] then [] else (if matches(xs[0]) then [xs[0]] else []) + Matching(xs[1..], matches)
  }

  /** `parents(node, selector)`: the ancestors of `node` that match the
      selector (`matches`, since selector matching is not modelled), from
      the parent up. */
  method Parents(d: Document, node: NodeId, matches: NodeId -> bool) returns (r: seq<NodeId>)
    requires d.Valid() && node in d.nodes
    ensures r == Matching(Chain(d, d.nodes[node].parent), matches)
  {
    r := [];
    var par := d.nodes[node].parent;
    while par.Some?
      invariant par.Some? ==> par.value in d.nodes
      invariant r + Matching(Chain(d, par), matches) == Matching(Chain(d, d.nodes[node].parent), matches)
      decreases if par.Some? then d.rank[par.value] + 1 else 0
    {
      var p := par.value;
      ghost var rest := Matching(Chain(d, d.nodes[p].parent), matches);
      ChainStep(d, p, matches);
      if matches(p) {
        assert r + [p] + rest == r + ([p] + rest);
        r := r + [p];
      } else {
        assert [] + rest == rest;
      }
      par := d.nodes[p].parent;
    }
  }

  /** One step up the chain: the node is kept when it matches, then the walk
      goes on from its parent. */
  lemma ChainStep(d: Document, p: NodeId, matches: NodeId -> bool)
    requires d.Valid() && p in d.nodes
    ensures Matching(Chain(d, Some(p)), matches)
              == (if matches(p) then [p] else []) + Matching(Chain(d, d.nodes[p].parent), matches)
  {
    var rest := Chain(d, d.nodes[p].parent);
    assert Chain(d, Some(p)) == [p] + rest;
    assert ([p] + rest)[1..] == rest;
  }

  /** The walk goes up one parent link at a time and ends at a root: each
      element of the chain is the parent of the one before, and the last has
      no parent. */
  lemma {:induction false} ChainLinks(d: Document, start: Option<NodeId>)
    requires d.Valid() && (start.Some? ==> start.value in d.nodes)
    ensures var c := Chain(d, start);
            (start.Some? <==> c != [])
            && (c != [] ==> c[0] == start.value && d.nodes[c[|c| - 1]].parent.None?)
            && (forall i :: 0 <= i < |c| - 1 ==> d.nodes[c[i]].parent == Some(c[i + 1]))
    decreases if start.Some? then d.rank[start.value] + 1 else 0
  {
    if start.Some? {
      var next := d.nodes[start.value].parent;
      ChainLinks(d, next);
      var c := Chain(d, start);
      var rest := Chain(d, next);
      assert c == [start.value] + rest;
      forall i | 0 <= i < |c| - 1
        ensures d.nodes[c[i]].parent == Some(c[i + 1])
      {
        if i > 0 {
          assert c[i] == rest[i - 1] && c[i + 1] == rest[i];
        }
      }
    }
  }

  /** What `parents` keeps: exactly the matching ancestors, in the order of
      the walk. */
  lemma {:induction false} MatchingKeeps(xs: seq<NodeId>, matches: NodeId -> bool)
    ensures var r := Matching(xs, matches);
            (forall x :: x in r <==> x in xs && matches(x)) && |r| <= |xs|
  {
    if xs != [] {
      MatchingKeeps(xs[1..], matches);
      assert xs == [xs[0]] + xs[1..];
    }
  }
}
