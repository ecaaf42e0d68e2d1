/** The helpers of `src/directive_helpers.js`: the modifier prefixes of an
    event directive (`.prevent.stop { ... }`), the `{`-to-`setState` rewrite,
    the wrapping of a handler by its prefix functions, and the two
    registration functions every event directive and every DOM directive is
    made from. */
module DirectiveHelpers {
  import opened JsStrings
  import opened JsValues
  import opened Dom
  import opened Components

  // ---------------------------------------------------------------------------
  // collectPrefixes

  /** The first white-space position at or after `i`, or `|s|`. */
  function FirstSpace(s: string, i: nat): (p: nat)
    requires i <= |s|
    ensures i <= p <= |s|
    ensures forall j :: i <= j < p ==> !IsJsSpace(s[j])
    ensures p < |s| ==> IsJsSpace(s[p])
    decreases |s| - i
  {
    if i == |s| || IsJsSpace(s[i]) then i else FirstSpace(s, i + 1)
  }

  /** The regular expression `^\.[^\s]+\s` matches the first `m` characters
      of `s`: a dot, at least one non-space character, one space. */
  predicate MatchesPrefixRun(s: string, m: nat) {
    3 <= m <= |s| && s[0] == '.'
    && (forall j :: 1 <= j < m - 1 ==> !IsJsSpace(s[j]))
    && IsJsSpace(s[m - 1])
  }

  /** The length of the match of `^\.[^\s]+\s` against `s`, if any: the run
      of non-space characters is greedy, so it ends at the first space. */
  function PrefixMatch(s: string): (r: Option<nat>)
  {
    if |s| == 0 || s[0] != '.' then None
    else
      var p := FirstSpace(s, 1);
      if 2 <= p < |s| then Some(p + 1) else None
  }

  /** `PrefixMatch` finds the match exactly when there is one, and there is
      at most one. */
  lemma PrefixMatchSpec(s: string)
    ensures PrefixMatch(s).Some? ==> MatchesPrefixRun(s, PrefixMatch(s).value)
    ensures forall m: nat :: MatchesPrefixRun(s, m) ==> PrefixMatch(s) == Some(m)
  {
  }

  /** `.${prefix}`.trim() for each piece. */
  function DotTrim(pieces: seq<string>): (r: seq<string>)
    ensures |r| == |pieces|
  {
    seq(|pieces|, i requires 0 <= i < |pieces| => Trim("." + pieces[i]))
  }

  /** `collectPrefixes(str)`: the rest of the string after the matched
      prefix run and the list of prefixes, or the string unchanged and
      `null`. The prefixes are the `.`-separated pieces of the match without
      its dot, each given a dot back and trimmed. */
  function CollectPrefixes(s: string): (r: (string, Option<seq<string>>))
  {
    match PrefixMatch(s)
    case None => (s, None)
    case Some(m) => (s[m..], Some(DotTrim(Split(s[1..m], '.'))))
  }

  /** Splitting a string with one more character that is not the separator
      extends the last piece and keeps the others. */
  lemma {:induction false} SplitSnoc(t: string, c: char, sep: char)
    requires c != sep
    ensures var ps := Split(t, sep);
            var qs := Split(t + [c], sep);
            |qs| == |ps| && qs[|ps| - 1] == ps[|ps| - 1] + [c]
            && forall k :: 0 <= k < |ps| - 1 ==> qs[k] == ps[k]
  {
    var ps := Split(t, sep);
    var qs := Split(t + [c], sep);
    if t == [] {
      assert t + [c] == [c] && [c][1..] == [];
      assert Split([c][1..], sep) == [[]];
    } else {
      var rest := Split(t[1..], sep);
      var rest2 := Split(t[1..] + [c], sep);
      SplitSnoc(t[1..], c, sep);
      assert (t + [c])[0] == t[0] && (t + [c])[1..] == t[1..] + [c];
      if t[0] == sep {
        assert ps == [[]] + rest;
        assert qs == [[]] + rest2;
      } else {
        assert ps == [[t[0]] + rest[0]] + rest[1..];
        assert qs == [[t[0]] + rest2[0]] + rest2[1..];
        if |rest| == 1 {
          assert [t[0]] + (rest[0] + [c]) == ([t[0]] + rest[0]) + [c];
        }
      }
    }
  }

  /** A space-free string with one space character after it trims back to
      itself. */
  lemma TrimLastSpace(x: string, c: char)
    requires x != [] && NoSpace(x) && IsJsSpace(c)
    ensures Trim(x + [c]) == x
  {
    var y := x + [c];
    assert TrimStart(y) == y;
    assert y[..|y| - 1] == x;
    TrimNoSpace(x);
    assert TrimEnd(x) == x by {
      assert TrimStart(x) == x;
    }
  }

  /** A matched run gives one prefix per `.`-separated piece of the run
      between the leading dot and the closing space: the piece with a dot in
      front; the rest of the string after the match is left as it was. */
  lemma CollectPrefixesMatched(s: string)
    requires PrefixMatch(s).Some?
    ensures var m := PrefixMatch(s).value;
            MatchesPrefixRun(s, m) && NoSpace(s[1..m - 1])
            && CollectPrefixes(s) == (s[m..], Some(PrefixEach(Split(s[1..m - 1], '.'), '.')))
  {
    PrefixMatchSpec(s);
    var m := PrefixMatch(s).value;
    var run := s[1..m - 1];
    assert s[1..m] == run + [s[m - 1]];
    assert NoSpace(run) by {
      forall j | 0 <= j < |run|
        ensures !IsJsSpace(run[j])
      {
        assert run[j] == s[j + 1];
      }
    }
    DotTrimPieces(run, s[m - 1]);
  }

  /** Trimming each dotted piece of the run with its closing space gives the
      dotted pieces of the run. */
  lemma DotTrimPieces(run: string, c: char)
    requires NoSpace(run) && IsJsSpace(c)
    ensures DotTrim(Split(run + [c], '.')) == PrefixEach(Split(run, '.'), '.')
  {
    var l := DotTrim(Split(run + [c], '.'));
    var r := PrefixEach(Split(run, '.'), '.');
    SplitSnoc(run, c, '.');
    forall i | 0 <= i < |r|
      ensures l[i] == r[i]
    {
      DotTrimPiece(run, c, i);
    }
  }

  /** One piece of `DotTrimPieces`. */
  lemma DotTrimPiece(run: string, c: char, i: nat)
    requires NoSpace(run) && IsJsSpace(c) && i < |Split(run, '.')|
    ensures i < |Split(run + [c], '.')|
    ensures Trim("." + Split(run + [c], '.')[i]) == "." + Split(run, '.')[i]
  {
    var pieces := Split(run, '.');
    var qs := Split(run + [c], '.');
    SplitSnoc(run, c, '.');
    PieceNoSpace(run, pieces, i);
    var x := "." + pieces[i];
    if i < |pieces| - 1 {
      TrimNoSpace(x);
    } else {
      assert "." + qs[i] == x + [c];
      TrimLastSpace(x, c);
    }
  }

  /** Every prefix collected from a space-free run starts with a dot and
      holds no white space (with `CollectPrefixesMatched`, this holds of every
      collected prefix). */
  lemma DottedPiecesShape(run: string)
    requires NoSpace(run)
    ensures var ps := PrefixEach(Split(run, '.'), '.');
            forall i :: 0 <= i < |ps| ==> ps[i] != [] && ps[i][0] == '.' && NoSpace(ps[i])
  {
    var pieces := Split(run, '.');
    var ps := PrefixEach(pieces, '.');
    forall i | 0 <= i < |ps|
      ensures ps[i] != [] && ps[i][0] == '.' && NoSpace(ps[i])
    {
      PieceNoSpace(run, pieces, i);
    }
  }

  /** A piece of a split of a space-free string, with a dot in front, is
      space free. */
  lemma PieceNoSpace(run: string, pieces: seq<string>, i: nat)
    requires NoSpace(run) && pieces == Split(run, '.') && i < |pieces|
    ensures NoSpace("." + pieces[i])
  {
    JoinSplit(run, '.');
    forall k | 0 <= k < |pieces[i]|
      ensures !IsJsSpace(pieces[i][k])
    {
      PieceChar(pieces, i, k);
    }
    var x := "." + pieces[i];
    forall k | 0 <= k < |x|
      ensures !IsJsSpace(x[k])
    {
      if k > 0 {
        assert x[k] == pieces[i][k - 1];
      }
    }
  }

  /** Every character of a piece of a split is a character of the string. */
  lemma {:induction false} PieceChar(pieces: seq<string>, i: nat, k: nat)
    requires i < |pieces| && k < |pieces[i]|
    ensures pieces[i][k] in Join(pieces, ".")
  {
    if i == 0 {
      if |pieces| > 1 {
        assert Join(pieces, ".") == pieces[0] + "." + Join(pieces[1..], ".");
        assert pieces[0][k] == (pieces[0] + "." + Join(pieces[1..], "."))[k];
      }
    } else {
      PieceChar(pieces[1..], i - 1, k);
      assert Join(pieces, ".") == pieces[0] + "." + Join(pieces[1..], ".");
    }
  }

  /** Without a match the string comes back unchanged with no prefixes. */
  lemma CollectPrefixesUnmatched(s: string)
    requires forall m: nat :: !MatchesPrefixRun(s, m)
    ensures CollectPrefixes(s) == (s, None)
  {
    PrefixMatchSpec(s);
  }

  /** Building the string back: a dot, a run of non-space characters, one
      space and any rest collect into that rest and one prefix per
      `.`-separated piece of the run. */
  lemma CollectPrefixesOf(run: string, c: char, rest: string)
    requires run != [] && NoSpace(run) && IsJsSpace(c)
    ensures CollectPrefixes("." + run + [c] + rest) == (rest, Some(PrefixEach(Split(run, '.'), '.')))
  {
    var s := "." + run + [c] + rest;
    var m := |run| + 2;
    assert MatchesPrefixRun(s, m) by {
      forall j | 1 <= j < m - 1
        ensures !IsJsSpace(s[j])
      {
        assert s[j] == run[j - 1];
      }
    }
    PrefixMatchSpec(s);
    CollectPrefixesMatched(s);
    assert s[1..m - 1] == run && s[m..] == rest;
  }

  /** The shape of the example of the comment on `collectPrefixes`
      (`.prevent.stop { updating: true }`): names without dots or spaces,
      each after a dot, then one space and the rest, collect into the rest
      and the names with their dots. */
  lemma CollectPrefixesJoined(names: seq<string>, c: char, rest: string)
    requires |names| >= 1 && names[0] != []
    requires forall i :: 0 <= i < |names| ==> '.' !in names[i] && NoSpace(names[i])
    requires IsJsSpace(c)
    ensures CollectPrefixes("." + Join(names, ".") + [c] + rest) == (rest, Some(PrefixEach(names, '.')))
  {
    var run := Join(names, ".");
    JoinNoSpace(names);
    assert run != [] by {
      if |names| > 1 {
        assert run == names[0] + "." + Join(names[1..], ".");
      }
    }
    CollectPrefixesOf(run, c, rest);
    SplitJoin(names, '.');
  }

  /** Joining space-free names with a dot gives a space-free string. */
  lemma {:induction false} JoinNoSpace(names: seq<string>)
    requires forall i :: 0 <= i < |names| ==> NoSpace(names[i])
    ensures NoSpace(Join(names, "."))
  {
    if |names| > 1 {
      JoinNoSpace(names[1..]);
      var tail := Join(names[1..], ".");
      var s := names[0] + "." + tail;
      assert Join(names, ".") == s;
      forall j | 0 <= j < |s|
        ensures !IsJsSpace(s[j])
      {
        if j < |names[0]| {
          assert s[j] == names[0][j];
        } else if j > |names[0]| {
          assert s[j] == tail[j - |names[0]| - 1];
        }
      }
    } else if |names| == 1 {
      assert NoSpace(names[0]);
    }
  }

  // ---------------------------------------------------------------------------
  // Handlers

  /** The transform `generateEventFunc` hands to `compileWithComponent`: a
      source starting with `{` becomes a `setState` call with it. */
  function RewriteEventSource(s: string): string {
    if |s| > 0 && s[0] == '{' then "this.setState(" + s + ")" else s
  }

  /** A source is rewritten exactly when it starts with `{`; the rewrite
      wraps it whole, and rewriting twice is rewriting once. */
  lemma RewriteEventSourceSpec(s: string)
    ensures StartsWith(s, "{") ==>
              var r := RewriteEventSource(s);
              StartsWith(r, "this.setState(") && EndsWith(r, ")") && r[14..|r| - 1] == s
    ensures !StartsWith(s, "{") ==> RewriteEventSource(s) == s
    ensures RewriteEventSource(RewriteEventSource(s)) == RewriteEventSource(s)
  {
    var r := RewriteEventSource(s);
    if StartsWith(s, "{") {
      assert r == "this.setState(" + s + ")";
      assert r[0] == 't';
      assert r[14..|r| - 1] == s;
    }
  }

  /** `compileWithComponent(str, component, 'event', transform)`: a method
      name of the component resolves to the method itself; any other source
      is compiled after the transform. */
  function CompileEvent(str: string, methods: set<string>): (h: Handler)
    ensures str in methods <==> h == Method(str)
    ensures str !in methods <==> h == Compiled(RewriteEventSource(str))
  {
    if str in methods then Method(str) else Compiled(RewriteEventSource(str))
  }

  /** A handler source naming a key that a mixin lends: the last mixin with
      that key decides. A function there is called as the method; a getter
      or any other value (`{ count: 0 }` with `d-click="count"`) is compiled
      as an expression, whatever the class defines under that name. */
  lemma MixinKeyHandler(methods: set<string>, ms: seq<Mixin>, i: nat, k: string)
    requires i < |ms| && k in ms[i].own
    requires forall j :: i < j < |ms| ==> k !in ms[j].own
    ensures CompileEvent(k, Lent(methods, MixinMembers(ms)))
              == if ms[i].own[k] == FunctionValue then Method(k) else Compiled(RewriteEventSource(k))
  {
    LastMixinDecides(ms, i, k);
  }

  /** `Prefixes[prefix](handler, ...)` where the prefix is known, the
      handler itself where it is not. */
  function Wrap(h: Handler, prefix: string): Handler {
    if prefix == ".prevent" then PreventThen(h)
    else if prefix == ".stop" then StopThen(h)
    else if prefix == ".debounce" then Debounced(h)
    else h
  }

  /** The handler after the `prefixes.forEach` loop: each prefix wraps the
      handler built so far, so the last prefix is the outermost wrapper. */
  function WrapAll(h: Handler, prefixes: seq<string>): Handler {
    if prefixes == [] then h else Wrap(WrapAll(h, prefixes[..|prefixes| - 1]), prefixes[|prefixes| - 1])
  }

  /** A handler as `compileWithComponent` produced it, before any wrapping. */
  predicate IsBase(h: Handler) {
    h.Method? || h.Compiled?
  }

  /** What a call of a handler with an event does, in order. */
  datatype Effect =
    | PreventDefault(event: nat)
    | StopPropagation(event: nat)
    | Call(handler: Handler, event: nat)
    | Schedule(handler: Handler, event: nat)

  /** Runs a handler on event `e`: `.prevent` calls `preventDefault` and then
      the inner handler with the same event, `.stop` likewise with
      `stopPropagation`; `.debounce` only schedules the inner handler. */
  function Run(h: Handler, e: nat): seq<Effect> {
    match h
    case PreventThen(inner) => [PreventDefault(e)] + Run(inner, e)
    case StopThen(inner) => [StopPropagation(e)] + Run(inner, e)
    case Debounced(inner) => [Schedule(inner, e)]
    case _ => [Call(h, e)]
  }

  /** The effects the known prefixes add before the handler runs: the
      outermost wrapper, the last prefix, acts first. */
  function Controls(prefixes: seq<string>, e: nat): (r: seq<Effect>)
    ensures forall x :: x in r ==> x.PreventDefault? || x.StopPropagation?
  {
    if prefixes == [] then []
    else
      var p := prefixes[|prefixes| - 1];
      (if p == ".prevent" then [PreventDefault(e)] else if p == ".stop" then [StopPropagation(e)] else [])
      + Controls(prefixes[..|prefixes| - 1], e)
  }

  /** Without `.debounce`, running the wrapped handler is the controls of
      the prefixes, latest first, then the handler. */
  lemma {:induction false} RunWrapAll(h: Handler, prefixes: seq<string>, e: nat)
    requires ".debounce" !in prefixes
    ensures Run(WrapAll(h, prefixes), e) == Controls(prefixes, e) + Run(h, e)
  {
    if prefixes != [] {
      var init := prefixes[..|prefixes| - 1];
      assert ".debounce" !in init by {
        assert forall x :: x in init ==> x in prefixes;
      }
      RunWrapAll(h, init, e);
    }
  }

  /** So a compiled handler runs exactly once, last, with the same event. */
  lemma BaseRunsOnceLast(h: Handler, prefixes: seq<string>, e: nat)
    requires IsBase(h) && ".debounce" !in prefixes
    ensures var r := Run(WrapAll(h, prefixes), e);
            r != [] && r[|r| - 1] == Call(h, e)
            && forall i :: 0 <= i < |r| - 1 ==> !r[i].Call? && !r[i].Schedule?
  {
    RunWrapAll(h, prefixes, e);
    var c := Controls(prefixes, e);
    assert Run(h, e) == [Call(h, e)];
    forall i | 0 <= i < |c|
      ensures !c[i].Call? && !c[i].Schedule?
    {
      assert c[i] in c;
    }
  }

  /** The prefixes `Prefixes` knows. */
  predicate KnownPrefix(p: string) {
    p == ".prevent" || p == ".stop" || p == ".debounce"
  }

  function KnownOnly(prefixes: seq<string>): (r: seq<string>)
    ensures forall x :: x in r ==> KnownPrefix(x)
  {
    if prefixes == [] then []
    else
      var p := prefixes[|prefixes| - 1];
      KnownOnly(prefixes[..|prefixes| - 1]) + (if KnownPrefix(p) then [p] else [])
  }

  /** An unknown prefix leaves the handler unchanged: wrapping by a list is
      wrapping by its known prefixes alone. */
  lemma {:induction false} UnknownPrefixesIgnored(h: Handler, prefixes: seq<string>)
    ensures WrapAll(h, prefixes) == WrapAll(h, KnownOnly(prefixes))
  {
    if prefixes != [] {
      var init := prefixes[..|prefixes| - 1];
      var p := prefixes[|prefixes| - 1];
      UnknownPrefixesIgnored(h, init);
      var k := KnownOnly(init);
      if KnownPrefix(p) {
        assert (k + [p])[..|k + [p]| - 1] == k;
      } else {
        assert KnownOnly(prefixes) == k;
      }
    }
  }

  /** Wrapping by `ps + qs` is wrapping by `ps`, then by `qs`. */
  lemma {:induction false} WrapAllAppend(h: Handler, ps: seq<string>, qs: seq<string>)
    ensures WrapAll(h, ps + qs) == WrapAll(WrapAll(h, ps), qs)
  {
    if qs == [] {
      assert ps + qs == ps;
    } else {
      var init := qs[..|qs| - 1];
      WrapAllAppend(h, ps, init);
      assert (ps + qs)[..|ps + qs| - 1] == ps + init;
    }
  }

  /** The `prefixes.forEach` loop of `generateEventFunc`. */
  method WrapHandler(h: Handler, prefixes: seq<string>) returns (r: Handler)
    ensures r == WrapAll(h, prefixes)
  {
    r := h;
    var i := 0;
    while i < |prefixes|
      invariant i <= |prefixes|
      invariant r == WrapAll(h, prefixes[..i])
    {
      assert prefixes[..i + 1][..i] == prefixes[..i];
      r := Wrap(r, prefixes[i]);
      i := i + 1;
    }
    assert prefixes[..i] == prefixes;
  }

  // ---------------------------------------------------------------------------
  // generateEventFunc

  /** Neither leading nor trailing white space, as `trim` leaves a string. */
  predicate Trimmed(s: string) {
    s == [] || (!IsJsSpace(s[0]) && !IsJsSpace(s[|s| - 1]))
  }

  /** The handler source of an event directive: `preDefinedStr` trimmed when
      it is a non-empty string, otherwise the directive's attribute trimmed.
      A missing attribute reads as `null`, and `null.trim()` throws. */
  function EventSource(n: NodeRec, identifier: string, preDefined: Option<string>): (r: Result<string>)
    ensures r.Throw? <==> (preDefined.None? || preDefined.value == []) && identifier !in n.attrs
    ensures r.Throw? ==> r.error == TypeError
    ensures r.Ok? ==> Trimmed(r.value)
  {
    if preDefined.Some? && preDefined.value != [] then
      TrimEnds(preDefined.value);
      Ok(Trim(preDefined.value))
    else
      match GetAttribute(n, identifier)
      case Str(a) =>
        TrimEnds(a);
        Ok(Trim(a))
      case _ => Throw(TypeError)
  }

  /** What the second argument of `addEventListener` can be here: an element,
      or a string. */
  datatype ListenerTarget = ElementArg(id: NodeId) | StringArg(s: string)

  /** `Component#addEventListener(eventIdentifier, node, handler)`: the
      handler is attached to `node` for the event, and `node.addEventListener`
      is not a function when `node` is a string. */
  function AttachListener(eventIdentifier: string, node: ListenerTarget, handler: Handler): (r: Result<Listener>)
    ensures r.Ok? <==> node.ElementArg?
    ensures r.Ok? ==> r.value.event == eventIdentifier && r.value.node == node.id && r.value.handler == handler
    ensures r.Throw? ==> r.error == TypeError
  {
    match node
    case ElementArg(id) => Ok(Listener(eventIdentifier, id, handler))
    case StringArg(_) => Throw(TypeError)
  }

  /** The handler an event directive compiles from its source: the rest of
      the source compiled, wrapped by each collected prefix in order. */
  function EventHandler(src: string, methods: set<string>): Handler {
    var (str, prefixes) := CollectPrefixes(src);
    WrapAll(CompileEvent(str, methods), if prefixes.Some? then prefixes.value else [])
  }

  /** A source without prefixes compiles to its own handler, unwrapped. */
  lemma EventHandlerUnprefixed(src: string, methods: set<string>)
    requires CollectPrefixes(src) == (src, None)
    ensures EventHandler(src, methods) == CompileEvent(src, methods)
  {
  }

  /** The listener `generateEventFunc(identifier, event, preDefinedStr)`
      attaches to `node` as written: the handler is passed as the fourth
      argument of a three-parameter `addEventListener`, so `node` is bound to
      the event name. */
  function EventListenerAsWritten(n: NodeRec, node: NodeId, identifier: string, event: string,
                                  preDefined: Option<string>, methods: set<string>): Result<Listener>
  {
    match EventSource(n, identifier, preDefined)
    case Throw(e) => Throw(e)
    case Ok(src) => AttachListener(identifier, StringArg(event), EventHandler(src, methods))
  }

  /** As written, registering an event directive always throws a TypeError,
      before the attribute is removed: no event directive ever attaches a
      listener. */
  lemma EventListenerAsWrittenThrows(n: NodeRec, node: NodeId, identifier: string, event: string,
                                     preDefined: Option<string>, methods: set<string>)
    ensures EventListenerAsWritten(n, node, identifier, event, preDefined, methods) == Throw(TypeError)
  {
  }

  /** The listener `generateEventFunc` evidently means to attach:
      `addEventListener(event, node, handler)`. */
  function EventListener(n: NodeRec, node: NodeId, identifier: string, event: string,
                         preDefined: Option<string>, methods: set<string>): Result<Listener>
  {
    match EventSource(n, identifier, preDefined)
    case Throw(e) => Throw(e)
    case Ok(src) => AttachListener(event, ElementArg(node), EventHandler(src, methods))
  }

  /** The corrected registration attaches a listener exactly when there is a
      source to compile; the listener is for the DOM event on the node, and
      its handler is the compiled rest of the source wrapped by the
      prefixes. */
  lemma EventListenerSpec(n: NodeRec, node: NodeId, identifier: string, event: string,
                          preDefined: Option<string>, methods: set<string>)
    ensures var r := EventListener(n, node, identifier, event, preDefined, methods);
            && (r.Ok? <==> (preDefined.Some? && preDefined.value != []) || identifier in n.attrs)
            && (r.Throw? ==> r.error == TypeError)
            && (r.Ok? ==> r.value.event == event && r.value.node == node
                          && r.value.handler == EventHandler(EventSource(n, identifier, preDefined).value, methods))
  {
  }

  /** With a `.prevent`/`.stop` source and no `.debounce`, the attached
      handler first applies the prefixes' controls, the last prefix first,
      and then runs the compiled handler once. */
  lemma EventHandlerRuns(src: string, methods: set<string>, e: nat)
    requires var ps := CollectPrefixes(src).1; ps.None? || ".debounce" !in ps.value
    ensures var (str, ps) := CollectPrefixes(src);
            var prefixes := if ps.Some? then ps.value else [];
            Run(EventHandler(src, methods), e) == Controls(prefixes, e) + Run(CompileEvent(str, methods), e)
  {
    var (str, ps) := CollectPrefixes(src);
    RunWrapAll(CompileEvent(str, methods), if ps.Some? then ps.value else [], e);
  }

  /** `generateEventFunc(identifier, event, preDefinedStr)` applied to a
      component and a node, with the call corrected as in `EventListener`:
      the handler is compiled and wrapped, attached, and the directive's
      attribute removed. */
  method GenerateEventFunc(c: Component, doc: Document, node: NodeId, identifier: string, event: string,
                           preDefined: Option<string>) returns (err: Option<JsError>)
    requires doc.Valid() && node in doc.nodes
    modifies c`listeners, doc
    ensures doc.Valid() && doc.next == old(doc.next)
    ensures match EventListener(old(doc.nodes[node]), node, identifier, event, preDefined, old(c.methods))
            case Throw(e) =>
              err == Some(e) && c.listeners == old(c.listeners) && doc.nodes == old(doc.nodes)
            case Ok(l) =>
              err.None? && c.listeners == old(c.listeners) + [l]
              && doc.nodes == old(doc.nodes)[node := DropAttr(old(doc.nodes[node]), identifier)]
  {
    var src: string;
    if preDefined.Some? && preDefined.value != [] {
      src := Trim(preDefined.value);
    } else {
      var attr := GetAttribute(doc.nodes[node], identifier);
      if !attr.Str? {
        return Some(TypeError);
      }
      src := Trim(attr.s);
    }
    var (str, prefixes) := CollectPrefixes(src);
    var handler := CompileEvent(str, c.methods);
    if prefixes.Some? {
      handler := WrapHandler(handler, prefixes.value);
    }
    c.AddEventListener(event, node, handler);
    doc.RemoveAttribute(node, identifier);
    err := None;
  }

  // ---------------------------------------------------------------------------
  // generateDirectiveFunc

  /** The render hook `generateDirectiveFunc(identifier, prop, callback)`
      registers for `node`: its value is the directive's attribute trimmed,
      and its closure captures `originalProp`, the `prop` attribute read
      before the directive's attribute is removed (`null` when `prop` is
      empty). A missing directive attribute reads as `null`, and
      `null.trim()` throws. */
  function DirectiveHook(n: NodeRec, node: NodeId, identifier: string, prop: Option<string>): (r: Result<Hook>)
    ensures r.Ok? <==> identifier in n.attrs
    ensures r.Throw? ==> r.error == TypeError
    ensures r.Ok? ==> r.value.identifier == identifier && r.value.node == Some(node)
    ensures r.Ok? ==> r.value.value.Str? && Trimmed(r.value.value.s)
    ensures r.Ok? ==> (r.value.prop.Str? <==> prop.Some? && prop.value != [] && prop.value in n.attrs)
  {
    var originalProp := if prop.Some? && prop.value != [] then GetAttribute(n, prop.value) else Null;
    match GetAttribute(n, identifier)
    case Str(a) =>
      TrimEnds(a);
      Ok(Hook(identifier, Str(Trim(a)), Some(node), originalProp))
    case _ => Throw(TypeError)
  }

  /** `originalProp` is read before the directive's attribute is removed, so a
      directive whose `prop` is its own name still sees its attribute. */
  lemma DirectivePropBeforeRemoval(n: NodeRec, node: NodeId, identifier: string)
    requires identifier != [] && identifier in n.attrs
    ensures DirectiveHook(n, node, identifier, Some(identifier)).value.prop == Str(n.attrs[identifier])
  {
  }

  /** What `generateDirectiveFunc(identifier, prop, callback)` does to `node`
      as written: the trimmed attribute is read (a missing one throws), the
      attribute removed, and then `component.addRenderHook(...)` is called,
      which `Component` does not define, so the call throws a TypeError.
      The result is the error and the node's record afterwards. */
  function DirectiveFuncAsWritten(n: NodeRec, node: NodeId, identifier: string, prop: Option<string>): (JsError, NodeRec)
  {
    match DirectiveHook(n, node, identifier, prop)
    case Throw(e) => (e, n)
    case Ok(_) => (TypeError, DropAttr(n, identifier))
  }

  /** As written, a directive whose attribute is present has a hook to
      register, yet none is registered: the attribute is already gone from
      the node when the registration throws. */
  lemma DirectiveFuncAsWrittenLoses(n: NodeRec, node: NodeId, identifier: string, prop: Option<string>)
    requires identifier in n.attrs
    ensures DirectiveHook(n, node, identifier, prop).Ok?
    ensures DirectiveFuncAsWritten(n, node, identifier, prop) == (TypeError, DropAttr(n, identifier))
    ensures identifier !in DirectiveFuncAsWritten(n, node, identifier, prop).1.attrs
  {
  }

  /** `generateDirectiveFunc(identifier, prop, callback)` applied to a
      component and a node, with the registration corrected to a push onto
      the render hooks: the attribute is trimmed, removed, and a render
      hook registered. The compiled result function and the callback are the
      hook's closure, which the model does not hold. */
  method GenerateDirectiveFunc(c: Component, doc: Document, node: NodeId, identifier: string,
                               prop: Option<string>) returns (err: Option<JsError>)
    requires doc.Valid() && node in doc.nodes
    modifies c`renderHooks, doc
    ensures doc.Valid() && doc.next == old(doc.next)
    ensures match DirectiveHook(old(doc.nodes[node]), node, identifier, prop)
            case Throw(e) =>
              err == Some(e) && c.renderHooks == old(c.renderHooks) && doc.nodes == old(doc.nodes)
            case Ok(h) =>
              err.None? && c.renderHooks == old(c.renderHooks) + [h]
              && doc.nodes == old(doc.nodes)[node := DropAttr(old(doc.nodes[node]), identifier)]
  {
    var n := doc.nodes[node];
    ghost var r := DirectiveHook(n, node, identifier, prop);
    var originalProp := if prop.Some? && prop.value != [] then GetAttribute(n, prop.value) else Null;
    var attr := GetAttribute(n, identifier);
    if !attr.Str? {
      assert r == Throw(TypeError);
      return Some(TypeError);
    }
    var h := Hook(identifier, Str(Trim(attr.s)), Some(node), originalProp);
    assert r == Ok(h);
    doc.RemoveAttribute(node, identifier);
    c.AddRenderHook(h);
    err := None;
  }
}
