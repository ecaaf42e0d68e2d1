/** The directives of `src/directives.js` that register hooks themselves
    rather than through `generateDirectiveFunc`: `d-model`, which attaches an
    input listener writing the state and a render hook writing the element
    back, and the lifecycle directives `d-on-state-change` and
    `d-on-render`. The compiled functions are left as their sources. */
module Registration {
  import opened JsStrings
  import opened JsValues
  import opened Dom
  import opened Components
  import opened DirectiveHelpers

  // ---------------------------------------------------------------------------
  // d-model

  /** `directiveStr || getAttribute(node, 'd-model')`: the state key. */
  function ModelKey(n: NodeRec, directiveStr: Value): Value {
    if Truthy(directiveStr) then directiveStr else GetAttribute(n, "d-model")
  }

  /** The handler source `d-model` hands to `generateEventFunc`: an object
      literal storing the checkbox's `:checked` state, or the element's
      value, under the key. */
  function ModelSource(k: ElementKind, key: Value): (src: string)
    ensures |src| > 2 && src[0] == '{' && src[|src| - 1] == '}'
  {
    "{ " + ToJsString(key) + (if k.CheckboxInput? then ": event.target.matches(\":checked\") }" else ": event.target.value }")
  }

  /** A string that starts and ends with braces is its own trim. */
  lemma TrimBraced(s: string)
    requires |s| > 0 && s[0] == '{' && s[|s| - 1] == '}'
    ensures Trim(s) == s
  {
    assert TrimStart(s) == s;
  }

  /** The listener `d-model` attaches: for `input` on the node, compiled
      from `ModelSource`. A source that starts with a brace has no prefixes,
      so unless a component method bears that very name it compiles to a
      `setState` call with the object literal. */
  lemma ModelListener(n: NodeRec, node: NodeId, key: Value, methods: set<string>)
    ensures var src := ModelSource(n.kind, key);
            EventListener(n, node, "d-model", "input", Some(src), methods)
              == Ok(Listener("input", node, EventHandler(src, methods)))
    ensures var src := ModelSource(n.kind, key);
            src !in methods ==> EventHandler(src, methods) == Compiled("this.setState(" + src + ")")
  {
    var src := ModelSource(n.kind, key);
    TrimBraced(src);
    assert EventSource(n, "d-model", Some(src)) == Ok(src);
    EventListenerSpec(n, node, "d-model", "input", Some(src), methods);
    var r := EventListener(n, node, "d-model", "input", Some(src), methods);
    assert r.Ok? && r.value.handler == EventHandler(src, methods);
    assert r.value == Listener("input", node, EventHandler(src, methods));
    assert PrefixMatch(src) == None;
    assert CollectPrefixes(src) == (src, None);
    EventHandlerUnprefixed(src, methods);
    assert RewriteEventSource(src) == "this.setState(" + src + ")";
  }

  /** The `d-model` directive applied to a component and a node: the input
      listener is attached and the `d-model` attribute removed (by the event
      registration), then the render hook recorded with the key as its
      value. Registration cannot throw, since the handler source is never
      empty. The hook is pushed onto the render hooks, correcting the call
      of the undefined `addRenderHook` as in `GenerateDirectiveFunc`. */
  method DModel(c: Component, doc: Document, node: NodeId, directiveStr: Value)
    requires doc.Valid() && node in doc.nodes
    modifies c`listeners, c`renderHooks, doc
    ensures doc.Valid() && doc.next == old(doc.next)
    ensures var n := old(doc.nodes[node]);
            var key := ModelKey(n, directiveStr);
            && c.listeners == old(c.listeners) + [Listener("input", node, EventHandler(ModelSource(n.kind, key), old(c.methods)))]
            && c.renderHooks == old(c.renderHooks) + [Hook("d-model", key, Some(node), Null)]
            && doc.nodes == old(doc.nodes)[node := DropAttr(n, "d-model")]
  {
    var n := doc.nodes[node];
    var key := if Truthy(directiveStr) then directiveStr else GetAttribute(n, "d-model");
    var src := ModelSource(n.kind, key);
    ModelListener(n, node, key, c.methods);
    var err := GenerateEventFunc(c, doc, node, "d-model", "input", Some(src));
    c.AddRenderHook(Hook("d-model", key, Some(node), Null));
  }

  // ---------------------------------------------------------------------------
  // d-on-state-change and d-on-render

  /** The hook `d-on-state-change` or `d-on-render` registers for `node`:
      its value is the attribute as written, untrimmed. The source is
      compiled first; a missing attribute reads as `null`, which compiles
      (and then throws when its `split` is called) unless the component has
      a method named `null`. */
  function LifecycleHook(n: NodeRec, node: NodeId, identifier: string, methods: set<string>): (r: Result<Hook>)
    ensures r.Ok? <==> identifier in n.attrs || "null" in methods
    ensures r.Throw? ==> r.error == TypeError
    ensures r.Ok? ==> r.value == Hook(identifier, GetAttribute(n, identifier), Some(node), Null)
  {
    var str := GetAttribute(n, identifier);
    if str.Null? && "null" !in methods then Throw(TypeError)
    else Ok(Hook(identifier, str, Some(node), Null))
  }

  /** `d-on-state-change`: a state hook is recorded, then the attribute
      removed; a failed compile changes nothing. The hook is pushed onto the
      state hooks, correcting the call of the undefined `addStateHook`. */
  method DOnStateChange(c: Component, doc: Document, node: NodeId) returns (err: Option<JsError>)
    requires doc.Valid() && node in doc.nodes
    modifies c`stateHooks, doc
    ensures doc.Valid() && doc.next == old(doc.next)
    ensures match LifecycleHook(old(doc.nodes[node]), node, "d-on-state-change", old(c.methods))
            case Throw(e) =>
              err == Some(e) && c.stateHooks == old(c.stateHooks) && doc.nodes == old(doc.nodes)
            case Ok(h) =>
              err.None? && c.stateHooks == old(c.stateHooks) + [h]
              && doc.nodes == old(doc.nodes)[node := DropAttr(old(doc.nodes[node]), "d-on-state-change")]
  {
    var str := GetAttribute(doc.nodes[node], "d-on-state-change");
    if str.Null? && "null" !in c.methods {
      return Some(TypeError);
    }
    c.AddStateHook(Hook("d-on-state-change", str, Some(node), Null));
    doc.RemoveAttribute(node, "d-on-state-change");
    err := None;
  }

  /** `d-on-render`: a render hook is recorded, then the attribute removed;
      a failed compile changes nothing. The hook is pushed onto the render
      hooks, correcting the call of the undefined `addRenderHook`. */
  method DOnRender(c: Component, doc: Document, node: NodeId) returns (err: Option<JsError>)
    requires doc.Valid() && node in doc.nodes
    modifies c`renderHooks, doc
    ensures doc.Valid() && doc.next == old(doc.next)
    ensures match LifecycleHook(old(doc.nodes[node]), node, "d-on-render", c.methods)
            case Throw(e) =>
              err == Some(e) && c.renderHooks == old(c.renderHooks) && doc.nodes == old(doc.nodes)
            case Ok(h) =>
              err.None? && c.renderHooks == old(c.renderHooks) + [h]
              && doc.nodes == old(doc.nodes)[node := DropAttr(old(doc.nodes[node]), "d-on-render")]
  {
    var str := GetAttribute(doc.nodes[node], "d-on-render");
    if str.Null? && "null" !in c.methods {
      return Some(TypeError);
    }
    c.AddRenderHook(Hook("d-on-render", str, Some(node), Null));
    doc.RemoveAttribute(node, "d-on-render");
    err := None;
  }

  /** Unlike a DOM directive's hook, whose value is the attribute trimmed, a
      lifecycle hook keeps the attribute's surrounding white space. */
  lemma LifecycleUntrimmed(n: NodeRec, node: NodeId, identifier: string, methods: set<string>)
    requires identifier in n.attrs
    ensures LifecycleHook(n, node, identifier, methods).value.value == Str(n.attrs[identifier])
    ensures DirectiveHook(n, node, identifier, None).value.value == Str(Trim(n.attrs[identifier]))
  {
    var a := n.attrs[identifier];
    assert GetAttribute(n, identifier) == Str(a);
    assert LifecycleHook(n, node, identifier, methods) == Ok(Hook(identifier, Str(a), Some(node), Null));
    assert DirectiveHook(n, node, identifier, None) == Ok(Hook(identifier, Str(Trim(a)), Some(node), Null));
  }
}
