/** What `deepMerge` (src/util.js) does to the heap, stated against a pure
    reading of its top level and proved from the in-place definition in
    `Util`: a copy into `{}` is shallow, merges rooted elsewhere leave a
    closed part of the heap alone, and on unshared objects the top level is
    the fold `TopMerge`, whose own properties (sources left to right, the
    later one winning, plain objects kept, untouched keys kept) follow. */
module MergeFacts {
  import opened JsValues
  import opened Util

  // ---------------------------------------------------------------------------
  // Shallow copy

  /** The entries of `props` under the keys `ks`. */
  function Restrict(props: map<string, Value>, ks: seq<string>): (r: map<string, Value>)
    requires forall k :: k in ks ==> k in props
    ensures forall k :: k in r <==> k in ks
    ensures forall k :: k in r ==> r[k] == props[k]
  {
    if ks == [] then map[] else Restrict(props, ks[..|ks| - 1])[ks[|ks| - 1] := props[ks[|ks| - 1]]]
  }

  /** `{}` given the first `j` keys of object `s`, with their values. */
  function CopyAt(h: Heap, t: ObjId, s: ObjId, j: nat): (r: Heap)
    requires t in h && s in h && ObjWf(h[s]) && j <= |h[s].keys|
    ensures r.Keys == h.Keys
  {
    h[t := JsObject(PlainObject, h[s].keys[..j], Restrict(h[s].props, h[s].keys[..j]))]
  }

  /** `deepMerge({}, x)` for an object `x` gives the empty object exactly
      `x`'s keys, in `x`'s order, holding the very same values (nested
      objects are shared, not copied), never overflows, and changes nothing
      else. */
  lemma ShallowCopy(h: Heap, t: ObjId, s: ObjId, limit: nat)
    requires t in h && s in h && s != t
    requires h[t] == EmptyObject() && ObjWf(h[s])
    ensures MergeFrame(h, t, [ObjRef(s)], 0, limit)
         == Outcome(h[t := JsObject(PlainObject, h[s].keys, h[s].props)], false)
  {
    CopyEnds(h, t, s);
    CopyKeys(h, t, s, 0, limit);
    SingleSource(h, t, ObjRef(s), 0, limit);
  }

  /** The copy starts as `{}` and ends with all of `s`. */
  lemma CopyEnds(h: Heap, t: ObjId, s: ObjId)
    requires t in h && s in h && h[t] == EmptyObject() && ObjWf(h[s])
    ensures CopyAt(h, t, s, 0) == h
    ensures CopyAt(h, t, s, |h[s].keys|) == h[t := JsObject(PlainObject, h[s].keys, h[s].props)]
  {
    var ks := h[s].keys;
    assert ks[..0] == [];
    assert ks[..|ks|] == ks;
    assert Restrict(h[s].props, ks) == h[s].props;
  }

  /** A merge of one source that does not overflow is its key loop. */
  lemma SingleSource(h: Heap, t: ObjId, src: Value, level: nat, limit: nat)
    requires t in h && level <= limit
    ensures MergeFrame(h, t, [src], level, limit) == MergeKeysFrom(h, t, src, ForInKeys(h, src), 0, level, limit)
  {
    var first := MergeKeysFrom(h, t, src, ForInKeys(h, src), 0, level, limit);
    if !first.overflow {
      assert MergeSourcesFrom(first.heap, t, [src], 1, level, limit) == first;
    }
  }

  lemma {:induction false} CopyKeys(h: Heap, t: ObjId, s: ObjId, j: nat, limit: nat)
    requires t in h && s in h && s != t
    requires h[t] == EmptyObject() && ObjWf(h[s]) && j <= |h[s].keys|
    ensures MergeKeysFrom(CopyAt(h, t, s, j), t, ObjRef(s), h[s].keys, j, 0, limit)
         == Outcome(CopyAt(h, t, s, |h[s].keys|), false)
    decreases |h[s].keys| - j
  {
    var ks := h[s].keys;
    if j < |ks| {
      CopyStep(h, t, s, j, limit);
      CopyKeys(h, t, s, j + 1, limit);
    }
  }

  /** Copying the `j`-th key. */
  lemma CopyStep(h: Heap, t: ObjId, s: ObjId, j: nat, limit: nat)
    requires t in h && s in h && s != t
    requires ObjWf(h[s]) && j < |h[s].keys|
    ensures MergeStep(CopyAt(h, t, s, j), t, ObjRef(s), j, h[s].keys[j], 0, limit)
         == Outcome(CopyAt(h, t, s, j + 1), false)
  {
    var k := h[s].keys[j];
    CopyRead(h, t, s, j);
    StepOverwrites(CopyAt(h, t, s, j), t, ObjRef(s), j, k, 0, limit);
    CopyPut(h, t, s, j);
  }

  /** Before the `j`-th key is copied, the copy lacks it and `s` still holds
      its value. */
  lemma CopyRead(h: Heap, t: ObjId, s: ObjId, j: nat)
    requires t in h && s in h && s != t
    requires ObjWf(h[s]) && j < |h[s].keys|
    ensures var k := h[s].keys[j];
            Get(CopyAt(h, t, s, j), t, k) == Undefined
            && ForInValue(CopyAt(h, t, s, j), ObjRef(s), j, k) == h[s].props[k]
  {
    CopyObjStep(h[s].keys, h[s].props, j);
  }

  /** Storing the `j`-th key's value in the copy extends it by that key. */
  lemma CopyPut(h: Heap, t: ObjId, s: ObjId, j: nat)
    requires t in h && s in h && s != t
    requires ObjWf(h[s]) && j < |h[s].keys|
    ensures var k := h[s].keys[j];
            Put(CopyAt(h, t, s, j), t, k, h[s].props[k]) == CopyAt(h, t, s, j + 1)
  {
    var ks := h[s].keys;
    var P := h[s].props;
    CopyObjStep(ks, P, j);
    var oj := JsObject(PlainObject, ks[..j], Restrict(P, ks[..j]));
    UpdateTwice(h, t, oj, PutObj(oj, ks[j], P[ks[j]]));
  }

  lemma UpdateTwice(h: Heap, t: ObjId, a: JsObject, b: JsObject)
    ensures h[t := a][t := b] == h[t := b]
  {
  }

  /** Where the old or the new value is not a plain object, a step stores the
      new value. */
  lemma StepOverwrites(h: Heap, t: ObjId, src: Value, i: nat, k: string, level: nat, limit: nat)
    requires t in h && level <= limit
    requires !IsPlain(h, Get(h, t, k)) || !IsPlain(h, ForInValue(h, src, i, k))
    ensures MergeStep(h, t, src, i, k, level, limit) == Outcome(Put(h, t, k, ForInValue(h, src, i, k)), false)
  {
  }

  /** One more key copied into the prefix copy. */
  lemma CopyObjStep(ks: seq<string>, P: map<string, Value>, j: nat)
    requires Distinct(ks) && j < |ks|
    requires forall k :: k in ks ==> k in P
    ensures ks[j] !in Restrict(P, ks[..j])
    ensures PutObj(JsObject(PlainObject, ks[..j], Restrict(P, ks[..j])), ks[j], P[ks[j]])
         == JsObject(PlainObject, ks[..j + 1], Restrict(P, ks[..j + 1]))
  {
    assert ks[j] !in ks[..j];
    assert ks[..j + 1] == ks[..j] + [ks[j]];
    assert ks[..j + 1][..j] == ks[..j];
  }

  // ---------------------------------------------------------------------------
  // Frames: what a merge cannot reach

  /** `v` is not a reference into `U`. */
  predicate Outside(v: Value, U: set<ObjId>) {
    !(v.ObjRef? && v.id in U)
  }

  /** Every object holding a reference into `U` is itself in `U`: from outside
      `U` there is no path into it. */
  ghost predicate UpClosed(h: Heap, U: set<ObjId>) {
    forall id, k :: id in h && k in h[id].props && !Outside(h[id].props[k], U) ==> id in U
  }

  /** Every value of object `id` lies outside `U`. */
  ghost predicate ValuesOutside(h: Heap, id: ObjId, U: set<ObjId>)
    requires id in h
  {
    ObjOutside(h[id], U)
  }

  ghost predicate ObjOutside(o: JsObject, U: set<ObjId>) {
    forall k :: k in o.props ==> Outside(o.props[k], U)
  }

  /** The objects of `U` are as they were. */
  ghost predicate Unchanged(h: Heap, h2: Heap, U: set<ObjId>) {
    forall x :: x in U && x in h ==> x in h2 && h2[x] == h[x]
  }

  /** A merge into an object outside a closed `U`, of sources outside `U`,
      leaves every object of `U` as it was and `U` closed. */
  lemma {:induction false} FrameAvoids(h: Heap, t: ObjId, srcs: seq<Value>, level: nat, limit: nat, U: set<ObjId>)
    requires t in h && t !in U && UpClosed(h, U)
    requires forall m :: 0 <= m < |srcs| ==> Outside(srcs[m], U)
    ensures var r := MergeFrame(h, t, srcs, level, limit);
            UpClosed(r.heap, U) && Unchanged(h, r.heap, U)
    decreases limit + 1 - level, 3, 0
  {
    if level <= limit {
      SourcesAvoid(h, t, srcs, 0, level, limit, U);
    }
  }

  lemma {:induction false} SourcesAvoid(h: Heap, t: ObjId, srcs: seq<Value>, i: nat, level: nat, limit: nat, U: set<ObjId>)
    requires t in h && i <= |srcs| && level <= limit && t !in U && UpClosed(h, U)
    requires forall m :: 0 <= m < |srcs| ==> Outside(srcs[m], U)
    ensures var r := MergeSourcesFrom(h, t, srcs, i, level, limit);
            UpClosed(r.heap, U) && Unchanged(h, r.heap, U)
    decreases limit + 1 - level, 2, |srcs| - i
  {
    if i < |srcs| {
      KeysAvoid(h, t, srcs[i], ForInKeys(h, srcs[i]), 0, level, limit, U);
      var first := MergeKeysFrom(h, t, srcs[i], ForInKeys(h, srcs[i]), 0, level, limit);
      if !first.overflow {
        SourcesAvoid(first.heap, t, srcs, i + 1, level, limit, U);
      }
    }
  }

  lemma {:induction false} KeysAvoid(h: Heap, t: ObjId, src: Value, ks: seq<string>, j: nat, level: nat, limit: nat, U: set<ObjId>)
    requires t in h && j <= |ks| && level <= limit && t !in U && UpClosed(h, U) && Outside(src, U)
    ensures var r := MergeKeysFrom(h, t, src, ks, j, level, limit);
            UpClosed(r.heap, U) && Unchanged(h, r.heap, U)
    decreases limit + 1 - level, 1, |ks| - j
  {
    if j < |ks| {
      StepAvoids(h, t, src, j, ks[j], level, limit, U);
      var first := MergeStep(h, t, src, j, ks[j], level, limit);
      if !first.overflow {
        KeysAvoid(first.heap, t, src, ks, j + 1, level, limit, U);
      }
    }
  }

  lemma {:induction false} StepAvoids(h: Heap, t: ObjId, src: Value, i: nat, k: string, level: nat, limit: nat, U: set<ObjId>)
    requires t in h && level <= limit && t !in U && UpClosed(h, U) && Outside(src, U)
    ensures var r := MergeStep(h, t, src, i, k, level, limit);
            UpClosed(r.heap, U) && Unchanged(h, r.heap, U)
    decreases limit + 1 - level, 0, 0
  {
    var value := Get(h, t, k);
    var newValue := ForInValue(h, src, i, k);
    assert Outside(value, U);
    assert Outside(newValue, U);
    if IsPlain(h, value) && IsPlain(h, newValue) {
      FrameAvoids(h, value.id, [newValue], level + 1, limit, U);
      var sub := MergeFrame(h, value.id, [newValue], level + 1, limit);
      if !sub.overflow {
        PutKeepsClosed(sub.heap, t, k, value, U);
      }
    } else {
      PutKeepsClosed(h, t, k, newValue, U);
    }
  }

  /** Writing a value outside `U` into an object outside `U`. */
  lemma PutKeepsClosed(h: Heap, t: ObjId, k: string, v: Value, U: set<ObjId>)
    requires t in h && t !in U && UpClosed(h, U) && Outside(v, U)
    ensures UpClosed(Put(h, t, k, v), U) && Unchanged(h, Put(h, t, k, v), U)
  {
  }

  // ---------------------------------------------------------------------------
  // The top level as a fold

  /** `o[k]` read as a property of the value `o`. */
  function Prop(o: JsObject, k: string): Value {
    if k in o.props then o.props[k] else Undefined
  }

  /** The top level of `deepMerge(o, ...srcs)`, reading sources and kinds in
      `h`: for each source in turn and each of its keys in turn, a key where
      both the old and the new value are plain objects keeps the old object
      (its insides are merged, which the top level does not see); any other
      key takes the source's value. */
  function TopMerge(h: Heap, o: JsObject, srcs: seq<Value>): JsObject
  {
    TopSources(h, o, srcs, 0)
  }

  function TopSources(h: Heap, o: JsObject, srcs: seq<Value>, i: nat): JsObject
    requires i <= |srcs|
    decreases |srcs| - i
  {
    if i == |srcs| then o
    else TopSources(h, TopKeys(h, o, srcs[i], ForInKeys(h, srcs[i]), 0), srcs, i + 1)
  }

  function TopKeys(h: Heap, o: JsObject, src: Value, ks: seq<string>, j: nat): JsObject
    requires j <= |ks|
    decreases |ks| - j
  {
    if j == |ks| then o
    else TopKeys(h, TopStep(h, o, src, j, ks[j]), src, ks, j + 1)
  }

  function TopStep(h: Heap, o: JsObject, src: Value, j: nat, k: string): JsObject
  {
    var value := Prop(o, k);
    var newValue := ForInValue(h, src, j, k);
    if IsPlain(h, value) && IsPlain(h, newValue) then PutObj(o, k, value)
    else PutObj(o, k, newValue)
  }

  // Properties of the fold.

  /** Every key of every source is present afterwards, the target's own keys
      keep their place in front, and a well-formed object stays well formed. */
  lemma {:induction false} TopSourcesKeys(h: Heap, o: JsObject, srcs: seq<Value>, i: nat)
    requires i <= |srcs|
    ensures var r := TopSources(h, o, srcs, i);
            (forall m, k :: i <= m < |srcs| && k in ForInKeys(h, srcs[m]) ==> k in r.props)
            && (forall k :: k in o.props ==> k in r.props)
            && r.kind == o.kind
            && |o.keys| <= |r.keys| && r.keys[..|o.keys|] == o.keys
            && (ObjWf(o) ==> ObjWf(r))
    decreases |srcs| - i
  {
    if i < |srcs| {
      var ks := ForInKeys(h, srcs[i]);
      TopKeysKeys(h, o, srcs[i], ks, 0);
      var o1 := TopKeys(h, o, srcs[i], ks, 0);
      TopSourcesKeys(h, o1, srcs, i + 1);
      var r := TopSources(h, o1, srcs, i + 1);
      assert r.keys[..|o.keys|] == r.keys[..|o1.keys|][..|o.keys|];
    }
  }

  lemma {:induction false} TopKeysKeys(h: Heap, o: JsObject, src: Value, ks: seq<string>, j: nat)
    requires j <= |ks|
    ensures var r := TopKeys(h, o, src, ks, j);
            (forall m :: j <= m < |ks| ==> ks[m] in r.props)
            && (forall k :: k in o.props ==> k in r.props)
            && r.kind == o.kind
            && |o.keys| <= |r.keys| && r.keys[..|o.keys|] == o.keys
            && (ObjWf(o) ==> ObjWf(r))
    decreases |ks| - j
  {
    if j < |ks| {
      var o1 := TopStep(h, o, src, j, ks[j]);
      TopKeysKeys(h, o1, src, ks, j + 1);
      var r := TopKeys(h, o1, src, ks, j + 1);
      assert r.keys[..|o.keys|] == r.keys[..|o1.keys|][..|o.keys|];
    }
  }

  /** A key no source mentions keeps its value (or stays absent). */
  lemma {:induction false} TopSourcesUntouched(h: Heap, o: JsObject, srcs: seq<Value>, i: nat, k: string)
    requires i <= |srcs|
    requires forall m :: i <= m < |srcs| ==> k !in ForInKeys(h, srcs[m])
    ensures var r := TopSources(h, o, srcs, i);
            (k in r.props <==> k in o.props) && Prop(r, k) == Prop(o, k)
    decreases |srcs| - i
  {
    if i < |srcs| {
      TopKeysUntouched(h, o, srcs[i], ForInKeys(h, srcs[i]), 0, k);
      TopSourcesUntouched(h, TopKeys(h, o, srcs[i], ForInKeys(h, srcs[i]), 0), srcs, i + 1, k);
    }
  }

  lemma {:induction false} TopKeysUntouched(h: Heap, o: JsObject, src: Value, ks: seq<string>, j: nat, k: string)
    requires j <= |ks|
    requires forall m :: j <= m < |ks| ==> ks[m] != k
    ensures var r := TopKeys(h, o, src, ks, j);
            (k in r.props <==> k in o.props) && Prop(r, k) == Prop(o, k)
    decreases |ks| - j
  {
    if j < |ks| {
      TopKeysUntouched(h, TopStep(h, o, src, j, ks[j]), src, ks, j + 1, k);
    }
  }

  /** Sources apply left to right: if source `m` is the last to mention `k`,
      and its value there is not a plain object, that value is the result. */
  lemma LaterSourceWins(h: Heap, o: JsObject, srcs: seq<Value>, m: nat, k: string)
    requires m < |srcs| && srcs[m].ObjRef? && srcs[m].id in h && ObjWf(h[srcs[m].id])
    requires k in h[srcs[m].id].props && !IsPlain(h, h[srcs[m].id].props[k])
    requires forall n :: m < n < |srcs| ==> k !in ForInKeys(h, srcs[n])
    ensures Prop(TopMerge(h, o, srcs), k) == h[srcs[m].id].props[k]
  {
    SourcesLastWin(h, o, srcs, 0, m, k);
  }

  /** `LaterSourceWins` for the fold from source `i` on, whatever the object
      the fold starts from. */
  lemma {:induction false} SourcesLastWin(h: Heap, o: JsObject, srcs: seq<Value>, i: nat, m: nat, k: string)
    requires i <= m < |srcs| && srcs[m].ObjRef? && srcs[m].id in h && ObjWf(h[srcs[m].id])
    requires k in h[srcs[m].id].props && !IsPlain(h, h[srcs[m].id].props[k])
    requires forall n :: m < n < |srcs| ==> k !in ForInKeys(h, srcs[n])
    ensures Prop(TopSources(h, o, srcs, i), k) == h[srcs[m].id].props[k]
    decreases m - i
  {
    var ks := ForInKeys(h, srcs[i]);
    var after := TopKeys(h, o, srcs[i], ks, 0);
    assert TopSources(h, o, srcs, i) == TopSources(h, after, srcs, i + 1);
    if i < m {
      SourcesLastWin(h, after, srcs, i + 1, m, k);
    } else {
      var src := srcs[m];
      assert ks == h[src.id].keys;
      var p := IndexOfKey(h[src.id], k);
      assert ForInValue(h, src, p, k) == h[src.id].props[k];
      KeysLastWin(h, o, src, ks, 0, p);
      TopSourcesUntouched(h, after, srcs, m + 1, k);
    }
  }

  /** Where a property's key stands in the key list. */
  lemma IndexOfKey(o: JsObject, k: string) returns (p: nat)
    requires ObjWf(o) && k in o.props
    ensures p < |o.keys| && o.keys[p] == k
  {
    p :| 0 <= p < |o.keys| && o.keys[p] == k;
  }

  /** Within one source, a key's value that is not a plain object is the
      key's value after the source's loop (from key `j` on). */
  lemma {:induction false} KeysLastWin(h: Heap, o: JsObject, src: Value, ks: seq<string>, j: nat, p: nat)
    requires j <= p < |ks| && Distinct(ks)
    requires !IsPlain(h, ForInValue(h, src, p, ks[p]))
    ensures Prop(TopKeys(h, o, src, ks, j), ks[p]) == ForInValue(h, src, p, ks[p])
    decreases p - j
  {
    var o1 := TopStep(h, o, src, j, ks[j]);
    assert TopKeys(h, o, src, ks, j) == TopKeys(h, o1, src, ks, j + 1);
    if j < p {
      KeysLastWin(h, o1, src, ks, j + 1, p);
    } else {
      assert Prop(o1, ks[p]) == ForInValue(h, src, p, ks[p]);
      TopKeysUntouched(h, o1, src, ks, p + 1, ks[p]);
    }
  }

  /** A key whose old value is not a plain object takes the source's
      value, plain object or not; in particular a key the object does not
      hold yet. */
  lemma {:induction false} KeysOverNonPlain(h: Heap, o: JsObject, src: Value, ks: seq<string>, j: nat, p: nat)
    requires j <= p < |ks| && Distinct(ks) && !IsPlain(h, Prop(o, ks[p]))
    ensures Prop(TopKeys(h, o, src, ks, j), ks[p]) == ForInValue(h, src, p, ks[p])
    decreases p - j
  {
    var o1 := TopStep(h, o, src, j, ks[j]);
    if j == p {
      TopKeysUntouched(h, o1, src, ks, j + 1, ks[p]);
    } else {
      TopStepProps(h, o, src, j, ks[j]);
      KeysOverNonPlain(h, o1, src, ks, j + 1, p);
    }
  }

  /** A plain object at `k` stays the very same object when every source
      that mentions `k` holds a plain object there too. */
  lemma {:induction false} PlainKept(h: Heap, o: JsObject, srcs: seq<Value>, i: nat, k: string)
    requires i <= |srcs| && IsPlain(h, Prop(o, k))
    requires forall m, p :: i <= m < |srcs| && 0 <= p < |ForInKeys(h, srcs[m])| && ForInKeys(h, srcs[m])[p] == k
               ==> IsPlain(h, ForInValue(h, srcs[m], p, k))
    ensures Prop(TopSources(h, o, srcs, i), k) == Prop(o, k)
    decreases |srcs| - i
  {
    if i < |srcs| {
      var ks := ForInKeys(h, srcs[i]);
      KeysPlainKept(h, o, srcs[i], ks, 0, k);
      PlainKept(h, TopKeys(h, o, srcs[i], ks, 0), srcs, i + 1, k);
    }
  }

  lemma {:induction false} KeysPlainKept(h: Heap, o: JsObject, src: Value, ks: seq<string>, j: nat, k: string)
    requires j <= |ks| && IsPlain(h, Prop(o, k))
    requires forall p :: j <= p < |ks| && ks[p] == k ==> IsPlain(h, ForInValue(h, src, p, k))
    ensures Prop(TopKeys(h, o, src, ks, j), k) == Prop(o, k)
    decreases |ks| - j
  {
    if j < |ks| {
      var o1 := TopStep(h, o, src, j, ks[j]);
      assert Prop(o1, k) == Prop(o, k);
      KeysPlainKept(h, o1, src, ks, j + 1, k);
    }
  }

  // ---------------------------------------------------------------------------
  // The heap merge against the fold

  /** Two heaps with the same objects of the same kinds. */
  ghost predicate SameShape(h: Heap, h2: Heap) {
    h2.Keys == h.Keys && forall id :: id in h ==> h2[id].kind == h[id].kind
  }

  /** `src` reads the same in both heaps. */
  ghost predicate SameSource(h: Heap, h2: Heap, src: Value) {
    src.ObjRef? ==> (src.id in h <==> src.id in h2) && (src.id in h ==> h2[src.id] == h[src.id])
  }

  lemma StepAgree(h: Heap, h2: Heap, o: JsObject, src: Value, j: nat, k: string)
    requires SameShape(h, h2) && SameSource(h, h2, src)
    ensures TopStep(h, o, src, j, k) == TopStep(h2, o, src, j, k)
  {
    assert IsPlain(h, Prop(o, k)) == IsPlain(h2, Prop(o, k));
    assert ForInValue(h, src, j, k) == ForInValue(h2, src, j, k);
  }

  /** The fold reads of the heap only the kinds of objects and the sources. */
  lemma {:induction false} KeysAgree(h: Heap, h2: Heap, o: JsObject, src: Value, ks: seq<string>, j: nat)
    requires j <= |ks| && SameShape(h, h2) && SameSource(h, h2, src)
    ensures TopKeys(h, o, src, ks, j) == TopKeys(h2, o, src, ks, j)
    decreases |ks| - j
  {
    if j < |ks| {
      StepAgree(h, h2, o, src, j, ks[j]);
      KeysAgree(h, h2, TopStep(h, o, src, j, ks[j]), src, ks, j + 1);
    }
  }

  lemma {:induction false} SourcesAgree(h: Heap, h2: Heap, o: JsObject, srcs: seq<Value>, i: nat)
    requires i <= |srcs| && SameShape(h, h2)
    requires forall m :: i <= m < |srcs| ==> SameSource(h, h2, srcs[m])
    ensures TopSources(h, o, srcs, i) == TopSources(h2, o, srcs, i)
    decreases |srcs| - i
  {
    if i < |srcs| {
      var ks := ForInKeys(h, srcs[i]);
      assert ForInKeys(h2, srcs[i]) == ks;
      KeysAgree(h, h2, o, srcs[i], ks, 0);
      SourcesAgree(h, h2, TopKeys(h, o, srcs[i], ks, 0), srcs, i + 1);
    }
  }

  /** A source the merge into `t` reads but never writes: a primitive, or an
      object of `U` other than `t` whose values lie outside `U`. */
  ghost predicate SourceOk(h: Heap, t: ObjId, src: Value, U: set<ObjId>) {
    src.ObjRef? ==> src.id in h && src.id in U && src.id != t && ValuesOutside(h, src.id, U)
  }

  lemma SourceValueOutside(h: Heap, t: ObjId, src: Value, j: nat, k: string, U: set<ObjId>)
    requires SourceOk(h, t, src, U)
    ensures Outside(ForInValue(h, src, j, k), U)
  {
  }

  /** One step of the heap merge into `t`, where the old value at `k` and the
      new one lie outside the closed set `U` that holds `t`: `t` becomes the
      fold's step, the rest of `U` is untouched. */
  lemma BridgeStep(h: Heap, t: ObjId, src: Value, j: nat, k: string, level: nat, limit: nat, U: set<ObjId>)
    requires t in h && t in U && level <= limit && UpClosed(h, U)
    requires Outside(Get(h, t, k), U) && Outside(ForInValue(h, src, j, k), U)
    ensures var r := MergeStep(h, t, src, j, k, level, limit);
            !r.overflow ==>
              r.heap[t] == TopStep(h, h[t], src, j, k)
              && UpClosed(r.heap, U) && Unchanged(h, r.heap, U - {t})
              && Outside(Prop(r.heap[t], k), U)
              && (ObjOutside(h[t], U) ==> ObjOutside(r.heap[t], U))
  {
    var value := Get(h, t, k);
    var newValue := ForInValue(h, src, j, k);
    assert value == Prop(h[t], k);
    if IsPlain(h, value) && IsPlain(h, newValue) {
      FrameAvoids(h, value.id, [newValue], level + 1, limit, U);
      var sub := MergeFrame(h, value.id, [newValue], level + 1, limit);
      if !sub.overflow {
        StepRecurses(h, t, src, j, k, level, limit, value.id, newValue);
        assert sub.heap[t] == h[t];
        PutInClosed(h, sub.heap, t, k, value, U);
        if ObjOutside(h[t], U) {
          OutsideAfterPut(h[t], k, value, U);
        }
      }
    } else {
      StepOverwrites(h, t, src, j, k, level, limit);
      PutInClosed(h, h, t, k, newValue, U);
      if ObjOutside(h[t], U) {
        OutsideAfterPut(h[t], k, newValue, U);
      }
    }
  }

  /** Where both values are plain objects and the nested merge does not
      overflow, a step merges them and stores the old object back. */
  lemma StepRecurses(h: Heap, t: ObjId, src: Value, i: nat, k: string, level: nat, limit: nat, o: ObjId, nv: Value)
    requires t in h && level <= limit
    requires Get(h, t, k) == ObjRef(o) && ForInValue(h, src, i, k) == nv
    requires IsPlain(h, ObjRef(o)) && IsPlain(h, nv)
    ensures var sub := MergeFrame(h, o, [nv], level + 1, limit);
            MergeStep(h, t, src, i, k, level, limit)
            == if sub.overflow then sub else Outcome(Put(sub.heap, t, k, ObjRef(o)), false)
  {
  }

  /** Writing into `t` of a closed `U` keeps `U` closed and the rest of `U`
      unchanged against an earlier heap `h0` that `h` agreed with there. */
  lemma PutInClosed(h0: Heap, h: Heap, t: ObjId, k: string, v: Value, U: set<ObjId>)
    requires t in h && t in U && UpClosed(h, U) && Unchanged(h0, h, U - {t})
    ensures UpClosed(Put(h, t, k, v), U) && Unchanged(h0, Put(h, t, k, v), U - {t})
  {
  }

  /** Sources that were fine before steps that left `U` but `t` alone are
      fine after them and read the same. */
  lemma SourcesStay(h: Heap, h1: Heap, t: ObjId, srcs: seq<Value>, i: nat, U: set<ObjId>)
    requires Unchanged(h, h1, U - {t})
    requires forall m :: i <= m < |srcs| ==> SourceOk(h, t, srcs[m], U)
    ensures forall m :: i <= m < |srcs| ==> SourceOk(h1, t, srcs[m], U) && SameSource(h, h1, srcs[m])
  {
  }

  /** What the merge into `t` keeps while it runs. */
  ghost predicate Bridge(h: Heap, t: ObjId, U: set<ObjId>) {
    t in h && t in U && UpClosed(h, U) && ValuesOutside(h, t, U)
  }

  lemma {:induction false} BridgeKeys(h: Heap, t: ObjId, src: Value, ks: seq<string>, j: nat, level: nat, limit: nat, U: set<ObjId>)
    requires j <= |ks| && level <= limit && Bridge(h, t, U) && SourceOk(h, t, src, U)
    ensures var r := MergeKeysFrom(h, t, src, ks, j, level, limit);
            !r.overflow ==>
              r.heap[t] == TopKeys(h, h[t], src, ks, j)
              && Bridge(r.heap, t, U) && Unchanged(h, r.heap, U - {t})
    decreases |ks| - j
  {
    if j < |ks| {
      var k := ks[j];
      SourceValueOutside(h, t, src, j, k, U);
      BridgeStep(h, t, src, j, k, level, limit, U);
      StepGrows(h, t, src, j, k, level, limit);
      var first := MergeStep(h, t, src, j, k, level, limit);
      if !first.overflow {
        var h1 := first.heap;
        var o1 := TopStep(h, h[t], src, j, k);
        assert h1[t] == o1;
        assert Bridge(h1, t, U);
        SourcesStay(h, h1, t, [src], 0, U);
        BridgeKeys(h1, t, src, ks, j + 1, level, limit, U);
        var r := MergeKeysFrom(h1, t, src, ks, j + 1, level, limit);
        assert MergeKeysFrom(h, t, src, ks, j, level, limit) == r;
        if !r.overflow {
          GrowsShape(h, h1);
          KeysAgree(h, h1, o1, src, ks, j + 1);
          assert r.heap[t] == TopKeys(h, o1, src, ks, j + 1);
          UnchangedTrans(h, h1, r.heap, U - {t});
        }
      }
    }
  }

  /** Storing a value outside `U` keeps every value of the object outside. */
  lemma OutsideAfterPut(o: JsObject, k: string, v: Value, U: set<ObjId>)
    requires ObjOutside(o, U) && Outside(v, U)
    ensures ObjOutside(PutObj(o, k, v), U)
  {
  }

  lemma UnchangedTrans(h: Heap, h1: Heap, h2: Heap, U: set<ObjId>)
    requires Unchanged(h, h1, U) && Unchanged(h1, h2, U)
    ensures Unchanged(h, h2, U)
  {
  }

  lemma {:induction false} BridgeSources(h: Heap, t: ObjId, srcs: seq<Value>, i: nat, level: nat, limit: nat, U: set<ObjId>)
    requires i <= |srcs| && level <= limit && Bridge(h, t, U)
    requires forall m :: i <= m < |srcs| ==> SourceOk(h, t, srcs[m], U)
    ensures var r := MergeSourcesFrom(h, t, srcs, i, level, limit);
            !r.overflow ==>
              r.heap[t] == TopSources(h, h[t], srcs, i)
              && Bridge(r.heap, t, U) && Unchanged(h, r.heap, U - {t})
    decreases |srcs| - i
  {
    if i < |srcs| {
      var ks := ForInKeys(h, srcs[i]);
      BridgeKeys(h, t, srcs[i], ks, 0, level, limit, U);
      KeysGrow(h, t, srcs[i], ks, 0, level, limit);
      var first := MergeKeysFrom(h, t, srcs[i], ks, 0, level, limit);
      if !first.overflow {
        var h1 := first.heap;
        SourcesStay(h, h1, t, srcs, i + 1, U);
        BridgeSources(h1, t, srcs, i + 1, level, limit, U);
        GrowsShape(h, h1);
        SourcesAgree(h, h1, h1[t], srcs, i + 1);
      }
    }
  }

  /** A merge into `t` whose target and source objects form a closed set `U`
      (nothing outside `U` refers into it) and hold no value in `U`: if it
      does not overflow, `t` ends as the fold `TopMerge` of its sources, the
      other objects of `U` are untouched and `U` stays closed. */
  lemma BridgeFrame(h: Heap, t: ObjId, srcs: seq<Value>, level: nat, limit: nat, U: set<ObjId>)
    requires Bridge(h, t, U)
    requires forall m :: 0 <= m < |srcs| ==> SourceOk(h, t, srcs[m], U)
    ensures var r := MergeFrame(h, t, srcs, level, limit);
            !r.overflow ==>
              r.heap[t] == TopMerge(h, h[t], srcs)
              && Bridge(r.heap, t, U) && Unchanged(h, r.heap, U - {t})
  {
    if level <= limit {
      BridgeSources(h, t, srcs, 0, level, limit, U);
    }
  }

  /** No object of the heap refers to `id`. */
  ghost predicate Unreferenced(h: Heap, id: ObjId) {
    forall x, k :: x in h && k in h[x].props ==> h[x].props[k] != ObjRef(id)
  }

  /** `deepMerge(t, ...srcs)` where neither the target nor any source object is
      referred to from the heap: if it does not overflow, the target ends as
      the fold `TopMerge` of its sources and the source objects are left as
      they were. */
  lemma DeepMergeTopLevel(h: Heap, t: ObjId, srcs: seq<Value>, limit: nat)
    requires t in h && Unreferenced(h, t)
    requires forall m :: 0 <= m < |srcs| && srcs[m].ObjRef? ==>
               srcs[m].id in h && srcs[m].id != t && Unreferenced(h, srcs[m].id)
    ensures var r := MergeFrame(h, t, srcs, 0, limit);
            !r.overflow ==>
              r.heap[t] == TopMerge(h, h[t], srcs)
              && forall m :: 0 <= m < |srcs| && srcs[m].ObjRef? ==> r.heap[srcs[m].id] == h[srcs[m].id]
  {
    var U := {t} + set m | 0 <= m < |srcs| && srcs[m].ObjRef? :: srcs[m].id;
    assert UpClosed(h, U);
    assert ValuesOutside(h, t, U);
    forall m | 0 <= m < |srcs|
      ensures SourceOk(h, t, srcs[m], U)
    {
      if srcs[m].ObjRef? {
        assert srcs[m].id in U;
        assert ValuesOutside(h, srcs[m].id, U);
      }
    }
    BridgeFrame(h, t, srcs, 0, limit, U);
    forall m | 0 <= m < |srcs| && srcs[m].ObjRef?
      ensures srcs[m].id in U - {t}
    {
    }
  }

  // ---------------------------------------------------------------------------
  // Nested merges

  /** A step of the fold writes key `k` and no other. */
  lemma TopStepProps(h: Heap, o: JsObject, src: Value, j: nat, k: string)
    ensures var o1 := TopStep(h, o, src, j, k);
            o1.props.Keys == o.props.Keys + {k} && forall x :: x != k ==> Prop(o1, x) == Prop(o, x)
  {
  }

  /** Every value of `o` except the one at `e` lies outside `U`. */
  ghost predicate OutsideBut(o: JsObject, e: string, U: set<ObjId>) {
    forall x :: x in o.props && x != e ==> Outside(o.props[x], U)
  }

  lemma OutsideButStays(o: JsObject, o1: JsObject, k: string, e: string, U: set<ObjId>)
    requires OutsideBut(o, e, U) && k != e && Outside(Prop(o1, k), U)
    requires o1.props.Keys == o.props.Keys + {k}
    requires forall x :: x != k ==> Prop(o1, x) == Prop(o, x)
    ensures OutsideBut(o1, e, U) && Prop(o1, e) == Prop(o, e)
  {
    forall x | x in o1.props && x != e
      ensures Outside(o1.props[x], U)
    {
      if x != k {
        assert Prop(o1, x) == Prop(o, x);
      } else {
        assert Prop(o1, k) == o1.props[k];
      }
    }
  }

  lemma ShapeGrows(h0: Heap, h: Heap, h1: Heap)
    requires SameShape(h0, h) && Grows(h, h1)
    ensures SameShape(h0, h1)
  {
    GrowsShape(h, h1);
  }

  /** Growing keeps every object and its kind. */
  lemma GrowsShape(h: Heap, h1: Heap)
    requires Grows(h, h1)
    ensures SameShape(h, h1)
  {
    forall id | id in h
      ensures h1[id].kind == h[id].kind
    {
      assert ObjGrows(h[id], h1[id]);
    }
  }

  /** The four objects of the nested example, all in `U` and distinct. */
  predicate Four(t: ObjId, s: ObjId, o: ObjId, p: ObjId, U: set<ObjId>) {
    t in U && s in U && o in U && p in U
    && t != s && t != o && t != p && s != o && s != p && o != p
  }

  /** The nested example in the heap `h0` before the merge: `t[k]` is the
      plain object `o`, `s[k]` the plain object `p`, and every other value of
      the four lies outside `U`. */
  ghost predicate NestSetup(h0: Heap, t: ObjId, s: ObjId, k: string, o: ObjId, p: ObjId, U: set<ObjId>) {
    Four(t, s, o, p, U) && s in h0 && o in h0 && p in h0 && ObjWf(h0[s])
    && h0[o].kind == PlainObject && h0[p].kind == PlainObject
    && Get(h0, s, k) == ObjRef(p) && OutsideBut(h0[s], k, U)
    && ObjOutside(h0[o], U) && ObjOutside(h0[p], U)
  }

  /** The nested example while its outer loop runs: the target `t` still holds
      `o` at `k` and no other value in the closed set `U`; the source `s` and
      its nested object `p` are as they were in `h0`. */
  ghost predicate NestState(h0: Heap, h: Heap, t: ObjId, s: ObjId, k: string, o: ObjId, p: ObjId, U: set<ObjId>)
  {
    t in h && s in h && o in h && p in h && s in h0 && p in h0
    && SameShape(h0, h) && UpClosed(h, U)
    && h[s] == h0[s] && h[p] == h0[p]
    && Get(h, t, k) == ObjRef(o) && OutsideBut(h[t], k, U)
  }

  /** A step of the outer loop at another key than `k` keeps the state and
      leaves `o` alone. */
  lemma NestOtherKey(h0: Heap, h: Heap, t: ObjId, s: ObjId, k: string, o: ObjId, p: ObjId, U: set<ObjId>, j: nat, limit: nat)
    requires NestSetup(h0, t, s, k, o, p, U) && NestState(h0, h, t, s, k, o, p, U)
    requires j < |h0[s].keys| && h0[s].keys[j] != k
    ensures var r := MergeStep(h, t, ObjRef(s), j, h0[s].keys[j], 0, limit);
            !r.overflow ==> NestState(h0, r.heap, t, s, k, o, p, U) && r.heap[o] == h[o]
  {
    var kj := h0[s].keys[j];
    assert Outside(Get(h, t, kj), U) by {
      assert Get(h, t, kj) == Prop(h[t], kj);
    }
    assert Outside(ForInValue(h, ObjRef(s), j, kj), U) by {
      assert ForInValue(h, ObjRef(s), j, kj) == Get(h0, s, kj);
    }
    BridgeStep(h, t, ObjRef(s), j, kj, 0, limit, U);
    StepGrows(h, t, ObjRef(s), j, kj, 0, limit);
    var r := MergeStep(h, t, ObjRef(s), j, kj, 0, limit);
    if !r.overflow {
      var h1 := r.heap;
      TopStepProps(h, h[t], ObjRef(s), j, kj);
      OutsideButStays(h[t], h1[t], kj, k, U);
      assert Get(h1, t, k) == ObjRef(o) by {
        assert Get(h1, t, k) == Prop(h1[t], k);
      }
      ShapeGrows(h0, h, h1);
      assert o in U - {t} && s in U - {t} && p in U - {t};
    }
  }

  /** One step of the loop over the source's keys. */
  lemma KeysFromNext(h: Heap, t: ObjId, src: Value, ks: seq<string>, j: nat, level: nat, limit: nat)
    requires t in h && j < |ks| && level <= limit
    ensures var first := MergeStep(h, t, src, j, ks[j], level, limit);
            MergeKeysFrom(h, t, src, ks, j, level, limit)
              == if first.overflow then first else MergeKeysFrom(first.heap, t, src, ks, j + 1, level, limit)
  {
  }

  /** The outer loop after the step at `k`: `o` keeps what it became. */
  /** Step `i` of the loop over the source's keys, from heap `g`, keeps `inv`. */
  ghost predicate StepKeeps(g: Heap, t: ObjId, src: Value, ks: seq<string>, i: nat, limit: nat, inv: Heap -> bool)
    requires t in g && i < |ks|
  {
    var first := MergeStep(g, t, src, i, ks[i], 0, limit);
    !first.overflow ==> inv(first.heap)
  }

  /** A property of the heap that every step of the loop over the source's
      keys keeps holds when the loop is done. */
  lemma {:induction false} KeysKeep(h: Heap, t: ObjId, src: Value, ks: seq<string>, j: nat, limit: nat, inv: Heap -> bool)
    requires t in h && j <= |ks| && inv(h)
    requires forall g: Heap, i: nat :: j <= i < |ks| && t in g && inv(g) ==> StepKeeps(g, t, src, ks, i, limit, inv)
    ensures var r := MergeKeysFrom(h, t, src, ks, j, 0, limit);
            !r.overflow ==> inv(r.heap)
    decreases |ks| - j
  {
    if j < |ks| {
      KeysFromNext(h, t, src, ks, j, 0, limit);
      var first := MergeStep(h, t, src, j, ks[j], 0, limit);
      assert StepKeeps(h, t, src, ks, j, limit, inv);
      if !first.overflow {
        KeysKeep(first.heap, t, src, ks, j + 1, limit, inv);
      }
    }
  }

  /** The outer loop after the step at `k`: `o` keeps what it became. */
  lemma NestAfter(h0: Heap, h: Heap, t: ObjId, s: ObjId, k: string, o: ObjId, p: ObjId, U: set<ObjId>, j: nat, limit: nat)
    requires NestSetup(h0, t, s, k, o, p, U) && NestState(h0, h, t, s, k, o, p, U)
    requires j <= |h0[s].keys|
    requires forall m :: j <= m < |h0[s].keys| ==> h0[s].keys[m] != k
    ensures var r := MergeKeysFrom(h, t, ObjRef(s), h0[s].keys, j, 0, limit);
            !r.overflow ==> r.heap[o] == h[o] && Get(r.heap, t, k) == ObjRef(o)
  {
    var ks := h0[s].keys;
    var inv := (g: Heap) => NestState(h0, g, t, s, k, o, p, U) && g[o] == h[o];
    forall g: Heap, i: nat | j <= i < |ks| && t in g && inv(g)
      ensures StepKeeps(g, t, ObjRef(s), ks, i, limit, inv)
    {
      NestOtherKey(h0, g, t, s, k, o, p, U, i, limit);
    }
    KeysKeep(h, t, ObjRef(s), ks, j, limit, inv);
  }

  /** The step of the outer loop at `k` itself merges `p` into `o`. */
  lemma NestAt(h0: Heap, h: Heap, t: ObjId, s: ObjId, k: string, o: ObjId, p: ObjId, U: set<ObjId>, j: nat, limit: nat)
    requires NestSetup(h0, t, s, k, o, p, U) && NestState(h0, h, t, s, k, o, p, U)
    requires h[o] == h0[o] && j < |h0[s].keys| && h0[s].keys[j] == k
    ensures var r := MergeStep(h, t, ObjRef(s), j, k, 0, limit);
            !r.overflow ==>
              NestState(h0, r.heap, t, s, k, o, p, U)
              && r.heap[o] == TopMerge(h0, h0[o], [ObjRef(p)])
  {
    var sub := MergeFrame(h, o, [ObjRef(p)], 1, limit);
    NestInner(h0, h, t, s, k, o, p, U, limit);
    assert ForInValue(h, ObjRef(s), j, k) == ObjRef(p);
    StepRecurses(h, t, ObjRef(s), j, k, 0, limit, o, ObjRef(p));
    if !sub.overflow {
      NestAtStore(h0, h, sub.heap, t, s, k, o, p, U);
    }
  }

  /** The nested call `deepMerge(o, p)` itself. */
  lemma NestInner(h0: Heap, h: Heap, t: ObjId, s: ObjId, k: string, o: ObjId, p: ObjId, U: set<ObjId>, limit: nat)
    requires NestSetup(h0, t, s, k, o, p, U) && NestState(h0, h, t, s, k, o, p, U) && h[o] == h0[o]
    ensures var sub := MergeFrame(h, o, [ObjRef(p)], 1, limit);
            Grows(h, sub.heap)
            && (!sub.overflow ==>
                  sub.heap[o] == TopMerge(h0, h0[o], [ObjRef(p)])
                  && UpClosed(sub.heap, U) && Unchanged(h, sub.heap, U - {o}))
  {
    assert Bridge(h, o, U);
    assert SourceOk(h, o, ObjRef(p), U);
    BridgeFrame(h, o, [ObjRef(p)], 1, limit, U);
    FrameGrows(h, o, [ObjRef(p)], 1, limit);
    SourcesAgree(h0, h, h0[o], [ObjRef(p)], 0);
  }

  /** Storing `o` back at `t[k]` after the nested merge. */
  lemma NestAtStore(h0: Heap, h: Heap, h1: Heap, t: ObjId, s: ObjId, k: string, o: ObjId, p: ObjId, U: set<ObjId>)
    requires Four(t, s, o, p, U) && NestState(h0, h, t, s, k, o, p, U)
    requires Grows(h, h1) && UpClosed(h1, U) && Unchanged(h, h1, U - {o})
    ensures NestState(h0, Put(h1, t, k, ObjRef(o)), t, s, k, o, p, U)
    ensures Put(h1, t, k, ObjRef(o))[o] == h1[o]
  {
    assert t in U - {o} && s in U - {o} && p in U - {o};
    assert h1[t] == h[t];
    PutInClosed(h1, h1, t, k, ObjRef(o), U);
    var h2 := Put(h1, t, k, ObjRef(o));
    assert h2[t].props == h[t].props;
    ShapeGrows(h0, h, h1);
  }

  lemma {:induction false} NestBefore(h0: Heap, h: Heap, t: ObjId, s: ObjId, k: string, o: ObjId, p: ObjId, U: set<ObjId>, j: nat, idx: nat, limit: nat)
    requires NestSetup(h0, t, s, k, o, p, U) && NestState(h0, h, t, s, k, o, p, U)
    requires h[o] == h0[o] && j <= idx < |h0[s].keys| && h0[s].keys[idx] == k
    ensures var r := MergeKeysFrom(h, t, ObjRef(s), h0[s].keys, j, 0, limit);
            !r.overflow ==> r.heap[o] == TopMerge(h0, h0[o], [ObjRef(p)]) && Get(r.heap, t, k) == ObjRef(o)
    decreases idx - j
  {
    if j < idx {
      var ks := h0[s].keys;
      NestOtherKey(h0, h, t, s, k, o, p, U, j, limit);
      var first := MergeStep(h, t, ObjRef(s), j, ks[j], 0, limit);
      if !first.overflow {
        assert MergeKeysFrom(h, t, ObjRef(s), ks, j, 0, limit) == MergeKeysFrom(first.heap, t, ObjRef(s), ks, j + 1, 0, limit);
        NestBefore(h0, first.heap, t, s, k, o, p, U, j + 1, idx, limit);
      }
    } else {
      NestFromKey(h0, h, t, s, k, o, p, U, j, limit);
    }
  }

  /** The outer loop from the step at `k` on. */
  lemma NestFromKey(h0: Heap, h: Heap, t: ObjId, s: ObjId, k: string, o: ObjId, p: ObjId, U: set<ObjId>, j: nat, limit: nat)
    requires NestSetup(h0, t, s, k, o, p, U) && NestState(h0, h, t, s, k, o, p, U)
    requires h[o] == h0[o] && j < |h0[s].keys| && h0[s].keys[j] == k
    ensures var r := MergeKeysFrom(h, t, ObjRef(s), h0[s].keys, j, 0, limit);
            !r.overflow ==> r.heap[o] == TopMerge(h0, h0[o], [ObjRef(p)]) && Get(r.heap, t, k) == ObjRef(o)
  {
    var ks := h0[s].keys;
    NestAt(h0, h, t, s, k, o, p, U, j, limit);
    var first := MergeStep(h, t, ObjRef(s), j, k, 0, limit);
    if !first.overflow {
      assert forall m :: j + 1 <= m < |ks| ==> ks[m] != k;
      NestAfter(h0, first.heap, t, s, k, o, p, U, j + 1, limit);
    }
  }

  /** Nested keys survive a merge: when the target `t` holds a plain object
      `o` at `k` and the source `s` a plain object `p` there, `o` stays in
      place and receives `p`'s top level as `TopMerge` describes it, so keys of
      `o` that `p` lacks keep their values. The four objects are distinct, no
      other object refers to any of them, and they refer to each other only
      through `t[k]` and `s[k]`. */
  lemma NestedMerge(h: Heap, t: ObjId, s: ObjId, k: string, o: ObjId, p: ObjId, limit: nat)
    requires t in h && s in h && o in h && p in h
    requires t != s && t != o && t != p && s != o && s != p && o != p
    requires ObjWf(h[s]) && h[o].kind == PlainObject && h[p].kind == PlainObject
    requires Get(h, t, k) == ObjRef(o) && Get(h, s, k) == ObjRef(p)
    requires UpClosed(h, {t, s, o, p})
    requires OutsideBut(h[t], k, {t, s, o, p}) && OutsideBut(h[s], k, {t, s, o, p})
    requires ObjOutside(h[o], {t, s, o, p}) && ObjOutside(h[p], {t, s, o, p})
    ensures var r := MergeFrame(h, t, [ObjRef(s)], 0, limit);
            !r.overflow ==> Get(r.heap, t, k) == ObjRef(o) && r.heap[o] == TopMerge(h, h[o], [ObjRef(p)])
  {
    var U := {t, s, o, p};
    var idx := IndexOfKey(h[s], k);
    assert NestSetup(h, t, s, k, o, p, U);
    assert NestState(h, h, t, s, k, o, p, U);
    NestBefore(h, h, t, s, k, o, p, U, 0, idx, limit);
    SingleSource(h, t, ObjRef(s), 0, limit);
  }
}
