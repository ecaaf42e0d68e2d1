/** The part of the DOM the library touches, as records: an element's kind,
    its attributes, the properties the directives write, its place in the
    tree, and the properties the library itself hangs on it
    (`_dComponent`, `_dComponentContext`, `_lastLoopResults`).

    The class list is the `class` attribute read as a DOM token set:
    split on ASCII white space, duplicates dropped, written back joined by
    single spaces (the ordered-set parser and serializer and the `toggle`
    steps of the DOM standard, section 7.1 "Interface DOMTokenList"). */
module Dom {
  import opened JsStrings
  import opened JsValues

  type NodeId = nat

  /** The kinds of element the library tells apart: `input[type="checkbox"]`,
      `input[type="radio"]`, any other `input`, `textarea`, `template`, and
      everything else. */
  datatype ElementKind = CheckboxInput | RadioInput | OtherInput | TextArea | TemplateElement | OtherElement

  /** `isTag(node, 'input, textarea')` */
  predicate IsTextControl(k: ElementKind) {
    k.CheckboxInput? || k.RadioInput? || k.OtherInput? || k.TextArea?
  }

  /** One element. `hasComponent` says that `_dComponent` is set; a component
      is known by its element, since only `createComponent` sets it and it
      sets it to a component built on that very node. */
  datatype NodeRec = NodeRec(
    kind: ElementKind,
    attrs: map<string, string>,
    value: string,
    checked: bool,
    disabled: bool,
    readOnly: bool,
    innerText: string,
    innerHTML: string,
    style: map<string, Value>,
    props: map<string, Value>,
    parent: Option<NodeId>,
    children: seq<NodeId>,
    hasComponent: bool,
    context: Value,
    lastLoopResults: Value)

  /** A detached element of kind `k` with attributes `attrs` and nothing set. */
  function NewElement(k: ElementKind, attrs: map<string, string>): NodeRec {
    NodeRec(k, attrs, if k.CheckboxInput? || k.RadioInput? then "on" else "", false, false, false, "", "",
            map[], map[], None, [], false, Undefined, Undefined)
  }

  /** `node.getAttribute(name)`: the value, or `null`. */
  function GetAttribute(n: NodeRec, name: string): Value {
    if name in n.attrs then Str(n.attrs[name]) else Null
  }

  // ---------------------------------------------------------------------------
  // The class token set

  predicate IsAsciiSpace(c: char) {
    c == '\t' || c == '\n' || c == '\U{000C}' || c == '\r' || c == ' '
  }

  predicate NoAsciiSpace(s: string) {
    forall i :: 0 <= i < |s| ==> !IsAsciiSpace(s[i])
  }

  /** A name `setAttribute` accepts: at least one character, none of them
      ASCII white space, NULL, `/`, `=` or `>`; any other name is an
      `InvalidCharacterError`. */
  predicate ValidAttrName(s: string) {
    s != [] && NoAsciiSpace(s) && forall i :: 0 <= i < |s| ==> s[i] != '\0' && s[i] != '/' && s[i] != '=' && s[i] != '>'
  }

  function AsciiLowerChar(c: char): char {
    if 'A' <= c <= 'Z' then (c as int + 32) as char else c
  }

  /** ASCII lowercase, which `getAttribute` and `setAttribute` apply to the
      name on an HTML element. */
  function AsciiLower(s: string): (r: string)
    ensures |r| == |s| && forall i :: 0 <= i < |s| ==> r[i] == AsciiLowerChar(s[i])
  {
    seq(|s|, i requires 0 <= i < |s| => AsciiLowerChar(s[i]))
  }

  /** The longest prefix of `s` free of ASCII white space. */
  function Word(s: string): (w: string)
    ensures |w| <= |s| && w == s[..|w|] && NoAsciiSpace(w)
    ensures |w| < |s| ==> IsAsciiSpace(s[|w|])
    ensures s != [] && !IsAsciiSpace(s[0]) ==> w != []
  {
    if s == [] || IsAsciiSpace(s[0]) then [] else [s[0]] + Word(s[1..])
  }

  /** The runs of characters between ASCII white space, in order. */
  function Words(s: string): (ws: seq<string>)
    ensures forall i :: 0 <= i < |ws| ==> ws[i] != [] && NoAsciiSpace(ws[i])
    decreases |s|
  {
    if s == [] then []
    else if IsAsciiSpace(s[0]) then Words(s[1..])
    else
      var w := Word(s);
      [w] + Words(s[|w|..])
  }

  /** `ws` without repetitions, each word where it first occurs. */
  function Dedupe(ws: seq<string>): (r: seq<string>)
    ensures Distinct(r)
    ensures forall x :: x in r <==> x in ws
  {
    if ws == [] then []
    else
      var d := Dedupe(ws[..|ws| - 1]);
      var last := ws[|ws| - 1];
      assert ws == ws[..|ws| - 1] + [last];
      if last in d then d else d + [last]
  }

  /** The ordered-set parser: the token set a `class` attribute value denotes. */
  function ParseTokens(s: string): seq<string> {
    Dedupe(Words(s))
  }

  /** The ordered-set serializer. */
  function SerializeTokens(ts: seq<string>): string {
    Join(ts, " ")
  }

  /** A token set: distinct, non-empty tokens without white space. */
  predicate ValidTokens(ts: seq<string>) {
    Distinct(ts) && forall i :: 0 <= i < |ts| ==> ts[i] != [] && NoAsciiSpace(ts[i])
  }

  lemma ParseValid(s: string)
    ensures ValidTokens(ParseTokens(s))
  {
    var ws := Words(s);
    var r := Dedupe(ws);
    forall i | 0 <= i < |r|
      ensures r[i] != [] && NoAsciiSpace(r[i])
    {
      assert r[i] in ws;
    }
  }

  /** A word free of white space is the first word of itself followed by a
      space and anything. */
  lemma {:induction false} WordStops(t: string, rest: string)
    requires NoAsciiSpace(t)
    ensures Word(t + " " + rest) == t
  {
    if t != [] {
      assert (t + " " + rest)[1..] == t[1..] + " " + rest;
      WordStops(t[1..], rest);
      assert t == [t[0]] + t[1..];
    }
  }

  lemma {:induction false} WordAll(t: string)
    requires NoAsciiSpace(t)
    ensures Word(t) == t
  {
    if t != [] {
      WordAll(t[1..]);
      assert t == [t[0]] + t[1..];
    }
  }

  /** Splitting the serialization of white-space-free, non-empty tokens gives
      the tokens back. */
  lemma {:induction false} WordsJoin(ts: seq<string>)
    requires forall i :: 0 <= i < |ts| ==> ts[i] != [] && NoAsciiSpace(ts[i])
    ensures Words(Join(ts, " ")) == ts
  {
    if |ts| == 1 {
      var t := ts[0];
      WordAll(t);
      assert t[|t|..] == [];
    } else if |ts| > 1 {
      var t := ts[0];
      var rest := Join(ts[1..], " ");
      var s := t + " " + rest;
      assert Join(ts, " ") == s;
      WordStops(t, rest);
      assert s[|t|..] == " " + rest;
      assert (" " + rest)[1..] == rest;
      WordsJoin(ts[1..]);
      assert ts == [t] + ts[1..];
    }
  }

  lemma {:induction false} DedupeDistinct(ws: seq<string>)
    requires Distinct(ws)
    ensures Dedupe(ws) == ws
  {
    if ws != [] {
      var init := ws[..|ws| - 1];
      DedupeDistinct(init);
      assert ws[|ws| - 1] !in init;
      assert ws == init + [ws[|ws| - 1]];
    }
  }

  /** Serializing a token set and parsing it again gives the set back. */
  lemma ParseSerialize(ts: seq<string>)
    requires ValidTokens(ts)
    ensures ParseTokens(SerializeTokens(ts)) == ts
  {
    WordsJoin(ts);
    DedupeDistinct(ts);
  }

  /** `ts` without `t`. */
  function RemoveToken(ts: seq<string>, t: string): (r: seq<string>)
    ensures forall x :: x in r <==> x in ts && x != t
    ensures ValidTokens(ts) ==> ValidTokens(r)
  {
    if ts == [] then []
    else if ts[0] == t then RemoveToken(ts[1..], t)
    else
      var rest := RemoveToken(ts[1..], t);
      assert ts[0] !in rest || ts[0] in ts[1..];
      [ts[0]] + rest
  }

  /** `node.className`, the `class` attribute. */
  function ClassName(n: NodeRec): string {
    if "class" in n.attrs then n.attrs["class"] else ""
  }

  /** `node.classList` */
  function ClassTokens(n: NodeRec): seq<string> {
    ParseTokens(ClassName(n))
  }

  /** `node.classList.contains(token)` */
  predicate HasClass(n: NodeRec, token: string) {
    token in ClassTokens(n)
  }

  /** The token list's update steps: nothing when there is no `class`
      attribute and the set is empty, otherwise the attribute becomes the
      serialized set. */
  function WriteTokens(n: NodeRec, ts: seq<string>): NodeRec {
    if "class" !in n.attrs && ts == [] then n
    else n.(attrs := n.attrs["class" := SerializeTokens(ts)])
  }

  /** `node.classList.toggle(token, force)`: an empty token is a
      `SyntaxError`, one holding white space an `InvalidCharacterError`;
      otherwise the token is added when `force` holds and removed when not,
      and the attribute is written only when the set changes. */
  function ToggleClass(n: NodeRec, token: string, force: bool): (r: Result<NodeRec>)
    ensures r.Throw? <==> token == [] || !NoAsciiSpace(token)
    ensures r.Ok? ==> r.value == n.(attrs := r.value.attrs)
  {
    if token == [] then Throw(SyntaxError)
    else if !NoAsciiSpace(token) then Throw(InvalidCharacterError)
    else
      var ts := ClassTokens(n);
      if token in ts then
        if force then Ok(n) else Ok(WriteTokens(n, RemoveToken(ts, token)))
      else if force then Ok(WriteTokens(n, ts + [token]))
      else Ok(n)
  }

  /** After a toggle that does not throw, the token is in the class list
      exactly when `force` holds, every other token is where it was, and no
      attribute but `class` changed. */
  lemma ToggleEffect(n: NodeRec, token: string, force: bool)
    requires ToggleClass(n, token, force).Ok?
    ensures var m := ToggleClass(n, token, force).value;
            HasClass(m, token) == force
            && (forall t :: t != token ==> (HasClass(m, t) <==> HasClass(n, t)))
            && (forall a :: a != "class" ==> (a in m.attrs <==> a in n.attrs) && (a in n.attrs ==> m.attrs[a] == n.attrs[a]))
  {
    var ts := ClassTokens(n);
    ParseValid(ClassName(n));
    if token in ts && !force {
      WriteEffect(n, RemoveToken(ts, token));
    } else if token !in ts && force {
      var rs := ts + [token];
      assert ValidTokens(rs);
      WriteEffect(n, rs);
    }
  }

  /** Writing a valid token list makes it the class list and leaves every
      other attribute alone. */
  lemma WriteEffect(n: NodeRec, rs: seq<string>)
    requires ValidTokens(rs)
    ensures var m := WriteTokens(n, rs);
            ClassTokens(m) == rs
            && (forall a :: a != "class" ==> (a in m.attrs <==> a in n.attrs) && (a in n.attrs ==> m.attrs[a] == n.attrs[a]))
  {
    ParseSerialize(rs);
  }

  /** A toggle that changes nothing is not repeated: a second toggle with the
      same arguments leaves the node as the first left it. */
  lemma ToggleIdempotent(n: NodeRec, token: string, force: bool)
    requires ToggleClass(n, token, force).Ok?
    ensures var m := ToggleClass(n, token, force).value;
            ToggleClass(m, token, force) == Ok(m)
  {
    ToggleEffect(n, token, force);
  }

  // ---------------------------------------------------------------------------
  // The document

  /** Every node has an identity below `next` and a rank. */
  ghost predicate Bounded(nodes: map<NodeId, NodeRec>, next: nat, rank: map<NodeId, nat>) {
    forall id :: id in nodes ==> id < next && id in rank
  }

  /** A parent is a node of lower rank, so every chain of parents ends. */
  ghost predicate ParentsRanked(nodes: map<NodeId, NodeRec>, rank: map<NodeId, nat>) {
    forall id :: id in nodes && nodes[id].parent.Some? ==>
      nodes[id].parent.value in nodes && nodes[id].parent.value in rank && id in rank
      && rank[nodes[id].parent.value] < rank[id]
  }

  /** Each child list is free of repetitions. */
  ghost predicate ChildrenDistinct(nodes: map<NodeId, NodeRec>) {
    forall id :: id in nodes ==> Distinct(nodes[id].children)
  }

  /** Each child of a node names that node as its parent. */
  ghost predicate ChildrenLinked(nodes: map<NodeId, NodeRec>) {
    forall id, i :: id in nodes && 0 <= i < |nodes[id].children| ==>
      nodes[id].children[i] in nodes && nodes[nodes[id].children[i]].parent == Some(id)
  }

  ghost predicate Tree(nodes: map<NodeId, NodeRec>, next: nat, rank: map<NodeId, nat>) {
    Bounded(nodes, next, rank) && ParentsRanked(nodes, rank) && ChildrenDistinct(nodes) && ChildrenLinked(nodes)
  }

  /** The record after `removeAttribute(name)`. */
  function DropAttr(n: NodeRec, name: string): NodeRec {
    n.(attrs := n.attrs - {name})
  }

  /** The records after `removeAttribute(name)` on each of `ids`, in order. */
  function WithoutAttr(nodes: map<NodeId, NodeRec>, ids: seq<NodeId>, name: string): (r: map<NodeId, NodeRec>)
    requires forall i :: 0 <= i < |ids| ==> ids[i] in nodes
    ensures r.Keys == nodes.Keys
  {
    if ids == [] then nodes
    else
      var m := WithoutAttr(nodes, ids[..|ids| - 1], name);
      var last := ids[|ids| - 1];
      m[last := DropAttr(m[last], name)]
  }

  /** Exactly the records of `ids` lose the attribute. */
  lemma {:induction false} WithoutAttrAt(nodes: map<NodeId, NodeRec>, ids: seq<NodeId>, name: string)
    requires forall i :: 0 <= i < |ids| ==> ids[i] in nodes
    ensures forall x :: x in nodes ==>
              WithoutAttr(nodes, ids, name)[x] == if x in ids then DropAttr(nodes[x], name) else nodes[x]
  {
    if ids != [] {
      WithoutAttrAt(nodes, ids[..|ids| - 1], name);
    }
  }

  /** `b` holds the records of `a` with at most their attributes changed. */
  predicate SameButAttrs(a: map<NodeId, NodeRec>, b: map<NodeId, NodeRec>) {
    a.Keys == b.Keys && forall x :: x in a ==> b[x] == a[x].(attrs := b[x].attrs)
  }

  /** Changing attributes twice changes nothing but attributes. */
  lemma SameButAttrsTrans(a: map<NodeId, NodeRec>, b: map<NodeId, NodeRec>, c: map<NodeId, NodeRec>)
    requires SameButAttrs(a, b) && SameButAttrs(b, c)
    ensures SameButAttrs(a, c)
  {
    forall x | x in a
      ensures c[x] == a[x].(attrs := c[x].attrs)
    {
      assert b[x] == a[x].(attrs := b[x].attrs);
    }
  }

  /** Removing an attribute changes nothing but attributes. */
  lemma WithoutAttrSame(nodes: map<NodeId, NodeRec>, ids: seq<NodeId>, name: string)
    requires forall i :: 0 <= i < |ids| ==> ids[i] in nodes
    ensures SameButAttrs(nodes, WithoutAttr(nodes, ids, name))
  {
    var r := WithoutAttr(nodes, ids, name);
    WithoutAttrAt(nodes, ids, name);
    forall x | x in nodes
      ensures r[x] == nodes[x].(attrs := r[x].attrs)
    {
      if x in ids {
        assert r[x] == DropAttr(nodes[x], name);
      } else {
        assert r[x] == nodes[x];
      }
    }
  }

  /** Removing from one more element: the elements before it are distinct
      from it, so its record is still the original one. */
  lemma WithoutAttrNext(nodes: map<NodeId, NodeRec>, ids: seq<NodeId>, i: nat, name: string)
    requires i < |ids| && Distinct(ids) && forall j :: 0 <= j < |ids| ==> ids[j] in nodes
    ensures var m := WithoutAttr(nodes, ids[..i], name);
            m[ids[i]] == nodes[ids[i]]
            && WithoutAttr(nodes, ids[..i + 1], name) == m[ids[i] := m[ids[i]].(attrs := m[ids[i]].attrs - {name})]
  {
    assert ids[..i + 1][..i] == ids[..i];
    assert ids[i] !in ids[..i];
    WithoutAttrAt(nodes, ids[..i], name);
  }

  class Document {
    var nodes: map<NodeId, NodeRec>
    var next: NodeId
    ghost var rank: map<NodeId, nat>

    ghost predicate Valid()
      reads this
    {
      Tree(nodes, next, rank)
    }

    constructor ()
      ensures Valid() && nodes == map[]
    {
      nodes := map[];
      next := 0;
      rank := map[];
    }

    /** Writes the record of `id` with its place in the tree unchanged. */
    method Update(id: NodeId, r: NodeRec)
      requires Valid() && id in nodes
      requires r.parent == nodes[id].parent && r.children == nodes[id].children
      modifies this
      ensures Valid() && nodes == old(nodes)[id := r] && next == old(next)
    {
      UpdateTree(nodes, next, rank, id, r);
      nodes := nodes[id := r];
    }

    /** `node.removeAttribute(name)` */
    method RemoveAttribute(id: NodeId, name: string)
      requires Valid() && id in nodes
      modifies this
      ensures Valid() && next == old(next)
      ensures nodes == old(nodes)[id := old(nodes)[id].(attrs := old(nodes)[id].attrs - {name})]
    {
      var n := nodes[id];
      Update(id, n.(attrs := n.attrs - {name}));
    }

    /** `node.setAttribute(name, value)` */
    method SetAttribute(id: NodeId, name: string, value: string)
      requires Valid() && id in nodes
      modifies this
      ensures Valid() && next == old(next)
      ensures nodes == old(nodes)[id := old(nodes)[id].(attrs := old(nodes)[id].attrs[name := value])]
    {
      var n := nodes[id];
      Update(id, n.(attrs := n.attrs[name := value]));
    }

    /** `parent.appendChild(n)` for a new element `n`: it becomes the last
        child. */
    method AppendNew(parent: NodeId, r: NodeRec) returns (id: NodeId)
      requires Valid() && parent in nodes
      modifies this
      ensures Valid() && id == old(next) && id !in old(nodes) && next == old(next) + 1
      ensures nodes == old(nodes)[id := r.(parent := Some(parent), children := [])]
                                 [parent := old(nodes)[parent].(children := old(nodes)[parent].children + [id])]
    {
      id := next;
      AppendNewTree(nodes, next, rank, parent, r);
      var p := nodes[parent];
      nodes := nodes[id := r.(parent := Some(parent), children := [])][parent := p.(children := p.children + [id])];
      rank := rank[id := rank[parent] + 1];
      next := next + 1;
    }

    /** `parent.appendChild(c)` for a child `c` of `parent`: it moves to the
        end. */
    method MoveToEnd(parent: NodeId, c: NodeId)
      requires Valid() && parent in nodes && c in nodes[parent].children
      modifies this
      ensures Valid() && next == old(next)
      ensures nodes == old(nodes)[parent := old(nodes)[parent].(children := Without(old(nodes)[parent].children, c) + [c])]
    {
      var p := nodes[parent];
      MoveTree(nodes, next, rank, parent, c);
      nodes := nodes[parent := p.(children := Without(p.children, c) + [c])];
    }

    /** `c.remove()`: detaches `c` from its parent, if it has one. */
    method Remove(c: NodeId)
      requires Valid() && c in nodes
      modifies this
      ensures Valid() && next == old(next)
      ensures old(nodes)[c].parent.None? ==> nodes == old(nodes)
      ensures old(nodes)[c].parent.Some? ==>
                var p := old(nodes)[c].parent.value;
                nodes == old(nodes)[p := old(nodes)[p].(children := Without(old(nodes)[p].children, c))]
                                   [c := old(nodes)[c].(parent := None)]
    {
      var n := nodes[c];
      if n.parent.Some? {
        var p := n.parent.value;
        var pr := nodes[p];
        RemoveTree(nodes, next, rank, c);
        nodes := nodes[p := pr.(children := Without(pr.children, c))][c := n.(parent := None)];
      }
    }
  }

  lemma UpdateTree(nodes: map<NodeId, NodeRec>, next: nat, rank: map<NodeId, nat>, id: NodeId, r: NodeRec)
    requires Tree(nodes, next, rank) && id in nodes
    requires r.parent == nodes[id].parent && r.children == nodes[id].children
    ensures Tree(nodes[id := r], next, rank)
  {
    var n := nodes[id := r];
    forall x, i | x in n && 0 <= i < |n[x].children|
      ensures n[x].children[i] in n && n[n[x].children[i]].parent == Some(x)
    {
      assert n[x].children == nodes[x].children;
      var c := nodes[x].children[i];
      assert nodes[c].parent == Some(x);
    }
  }

  lemma AppendNewTree(nodes: map<NodeId, NodeRec>, next: nat, rank: map<NodeId, nat>, parent: NodeId, r: NodeRec)
    requires Tree(nodes, next, rank) && parent in nodes
    ensures var p := nodes[parent];
            Tree(nodes[next := r.(parent := Some(parent), children := [])][parent := p.(children := p.children + [next])],
                 next + 1, rank[next := rank[parent] + 1])
  {
    var p := nodes[parent];
    var id := next;
    var n := nodes[id := r.(parent := Some(parent), children := [])][parent := p.(children := p.children + [id])];
    var rk := rank[id := rank[parent] + 1];
    forall x | x in n && n[x].parent.Some?
      ensures n[x].parent.value in n && n[x].parent.value in rk && x in rk && rk[n[x].parent.value] < rk[x]
    {
      if x != id {
        assert n[x].parent == nodes[x].parent;
      }
    }
    assert id !in p.children;
    DistinctSnoc(p.children, id);
    forall x, i | x in n && 0 <= i < |n[x].children|
      ensures n[x].children[i] in n && n[n[x].children[i]].parent == Some(x)
    {
      if x == parent {
        if i < |p.children| {
          ChildLinked(nodes, next, rank, parent, i);
        }
      } else if x != id {
        ChildLinked(nodes, next, rank, x, i);
      }
    }
  }

  /** A child of a node is another node, of higher rank, below `next`. */
  lemma ChildLinked(nodes: map<NodeId, NodeRec>, next: nat, rank: map<NodeId, nat>, x: NodeId, i: nat)
    requires Tree(nodes, next, rank) && x in nodes && i < |nodes[x].children|
    ensures var c := nodes[x].children[i];
            c in nodes && nodes[c].parent == Some(x) && c != x && c < next
  {
    var c := nodes[x].children[i];
    assert nodes[c].parent == Some(x);
  }

  lemma MoveTree(nodes: map<NodeId, NodeRec>, next: nat, rank: map<NodeId, nat>, parent: NodeId, c: NodeId)
    requires Tree(nodes, next, rank) && parent in nodes && c in nodes[parent].children
    ensures var p := nodes[parent];
            Tree(nodes[parent := p.(children := Without(p.children, c) + [c])], next, rank)
  {
    var p := nodes[parent];
    var n := nodes[parent := p.(children := Without(p.children, c) + [c])];
    WithoutDistinct(p.children, c);
    forall x, i | x in n && 0 <= i < |n[x].children|
      ensures n[x].children[i] in n && n[n[x].children[i]].parent == Some(x)
    {
      var y := n[x].children[i];
      if x == parent {
        assert y in p.children;
        var j :| 0 <= j < |p.children| && p.children[j] == y;
        ChildLinked(nodes, next, rank, parent, j);
      } else {
        ChildLinked(nodes, next, rank, x, i);
      }
    }
  }

  lemma RemoveTree(nodes: map<NodeId, NodeRec>, next: nat, rank: map<NodeId, nat>, c: NodeId)
    requires Tree(nodes, next, rank) && c in nodes && nodes[c].parent.Some?
    ensures var p := nodes[c].parent.value;
            Tree(nodes[p := nodes[p].(children := Without(nodes[p].children, c))][c := nodes[c].(parent := None)], next, rank)
  {
    var p := nodes[c].parent.value;
    var pr := nodes[p];
    var n := nodes[p := pr.(children := Without(pr.children, c))][c := nodes[c].(parent := None)];
    assert p != c;
    assert n.Keys == nodes.Keys;
    assert Bounded(n, next, rank);
    forall x | x in n
      ensures n[x].children == if x == p then Without(pr.children, c) else nodes[x].children
      ensures n[x].parent == if x == c then None else nodes[x].parent
    {
    }
    assert ParentsRanked(n, rank);
    WithoutDistinct(pr.children, c);
    assert ChildrenDistinct(n);
    RemoveTreeLinked(nodes, next, rank, c, p, n);
  }

  /** After the removal every remaining child still names its parent. */
  lemma RemoveTreeLinked(nodes: map<NodeId, NodeRec>, next: nat, rank: map<NodeId, nat>, c: NodeId, p: NodeId,
                         n: map<NodeId, NodeRec>)
    requires Tree(nodes, next, rank) && c in nodes && nodes[c].parent == Some(p) && p != c
    requires n == nodes[p := nodes[p].(children := Without(nodes[p].children, c))][c := nodes[c].(parent := None)]
    ensures ChildrenLinked(n)
  {
    var pr := nodes[p];
    forall x, i | x in n && 0 <= i < |n[x].children|
      ensures n[x].children[i] in n && n[n[x].children[i]].parent == Some(x)
    {
      var y := n[x].children[i];
      if x == p {
        assert y in pr.children && y != c;
        var j :| 0 <= j < |pr.children| && pr.children[j] == y;
        ChildLinked(nodes, next, rank, p, j);
      } else {
        assert n[x].children == nodes[x].children;
        ChildLinked(nodes, next, rank, x, i);
        assert y != c;
      }
    }
  }

  /** `xs` with every `x` taken out. */
  function Without(xs: seq<NodeId>, x: NodeId): (r: seq<NodeId>)
    ensures forall y :: y in r <==> y in xs && y != x
    ensures |r| <= |xs|
  {
    if xs == [] then [] else if xs[0] == x then Without(xs[1..], x) else [xs[0]] + Without(xs[1..], x)
  }

  lemma {:induction false} WithoutDistinct(xs: seq<NodeId>, x: NodeId)
    requires Distinct(xs)
    ensures Distinct(Without(xs, x)) && Distinct(Without(xs, x) + [x])
  {
    if xs != [] {
      WithoutDistinct(xs[1..], x);
      var w := Without(xs[1..], x);
      if xs[0] != x {
        assert xs[0] !in xs[1..];
        DistinctCons(xs[0], w);
      }
    }
    DistinctSnoc(Without(xs, x), x);
  }

  lemma DistinctCons<T>(a: T, ys: seq<T>)
    requires Distinct(ys) && a !in ys
    ensures Distinct([a] + ys)
  {
    var zs := [a] + ys;
    forall i, j | 0 <= i < j < |zs|
      ensures zs[i] != zs[j]
    {
      assert zs[j] == ys[j - 1];
      if i > 0 {
        assert zs[i] == ys[i - 1];
      }
    }
  }

  lemma DistinctSnoc<T>(ys: seq<T>, a: T)
    requires Distinct(ys) && a !in ys
    ensures Distinct(ys + [a])
  {
  }
}
