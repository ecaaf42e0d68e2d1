# d-render core in Dafny

d-render binds a component's state to the DOM through HTML attributes. An
element carrying `d-component` (and optionally `d-state`) becomes a component.
Its descendants carry directives: `d-model`, `d-loop`, `d-show`, `d-class`,
`d-style`, `d-text`, `d-attr`, event directives such as `d-click`, and others.
Each directive registers a hook on the component. `setState` merges the new
state, runs the state hooks, then re-runs the render hooks of the component
and of every child that follows its rendering.

This project models that core: the utilities of `src/util.js`, the directive
factories of `src/directive_helpers.js`, the built-in directives of
`src/directives.js`, and the `Component` class with `createComponent` from
`src/component.js`. The modules are:

- `JsStrings`: JavaScript `trim`, `split` and `join` on `seq<char>`.
- `JsValues`: JavaScript values and a heap of objects held in class `JsHeap`.
  The heap keeps reference semantics, so aliasing through shallow copies stays
  visible. The module also gives `String(v)`, truthiness, `Object.entries`
  and `==` between a number and a string.
- `Dom`: element records in class `Document` (`nodes: map<NodeId, NodeRec>`).
  It has the attribute accessors, `classList` as a token list with
  `toggle`, and `appendChild`/`removeChild` with a proof that the nodes stay
  a tree.
- `Util`: `addReturnToScriptStr`, the recursive in-place `deepMerge` and
  `parents`. `deepMerge` is a method that loops over sources and keys. A
  specification function with an explicit depth budget describes it, and
  running out of that budget stands for the stack overflow (`RangeError`)
  of a cyclic source.
- `MergeFacts`: what `deepMerge` guarantees. Later sources win at the top
  level, plain objects are merged rather than replaced, and objects that no
  one references are left untouched. A source is left unchanged when neither
  the target nor another source refers to it. A source that the target
  reaches can be written: if `t[k] === s` and `s[k]` is a plain object, then
  `deepMerge(t, s)` merges `s[k]` into `t[k]`, which is `s` itself.
- `DirectiveHelpers`: `collectPrefixes`, the event-source rewrite,
  `generateEventFunc`, `generatePrefixFunc` and `generateDirectiveFunc`.
- `Registration`: `d-model`, `d-on-state-change` and `d-on-render`.
- `Directives`: the render-time effects of `d-show`, `d-class`, `d-style`,
  `d-prop`, `d-disabled`, `d-readonly`, `d-text`, `d-html`, `d-value`,
  `d-attr` and the `d-model` synchronisation. Each effect is a method that
  writes only when the value differs, proved against a function on the
  element record. Lemmas show that a second run writes nothing.
- `Components`: the `Component` class. It covers the constructor, the mixin
  extension, `registerHooks`, `registerRefs`, the context accessors,
  `render` and `setState`. Hook calls are recorded in a `Log` of events.
- `Loop`: `d-loop`. It covers the initial population from the template, and
  the render hook that reuses children by their `d-key`, appends new ones
  and removes stale ones.
- `Mounting`: `registerComponents`, the constructor sequence and
  `createComponent`.

Compiled expressions are not evaluated. Their results enter the model as
parameters: `evaluated`, `results`, `keyOf`, `found`, `hooksFound` and
`refsFound`. An event handler is a `Handler` value that names a component
method or holds the rewritten source text.

## Model

| member | source | states |
|---|---|---|
| JsStrings.TrimStart | src/directive_helpers.js:25 | the result is a suffix of the input, everything cut is white space, and the result does not start with white space |
| JsStrings.TrimEnd | src/directive_helpers.js:57 | the result is a prefix of the input, everything cut is white space, and the result does not end with white space |
| JsStrings.TrimIsCut | src/directive_helpers.js:25 | `trim` returns a contiguous slice with only white space outside it, and the slice neither starts nor ends with white space |
| JsStrings.TrimBounds | src/directive_helpers.js:57 | gives the bounds `a <= b` of the trimmed slice, with only white space before `a` and after `b` |
| JsStrings.TrimEnds | src/directive_helpers.js:57 | a non-empty trimmed string has no white space at either end |
| JsStrings.TrimNoSpace | src/directive_helpers.js:25 | trimming a string without outer white space returns it unchanged |
| JsStrings.Split | src/util.js:10 | `split` gives at least one piece, and no piece contains the separator |
| JsStrings.JoinSplit | src/util.js:10-13 | joining the pieces of a split with the separator rebuilds the string |
| JsStrings.SplitJoin | src/util.js:10-13 | splitting a join of separator-free pieces gives back the pieces |
| JsStrings.SplitNoSep | src/util.js:10 | a string without the separator splits into itself alone |
| JsStrings.JoinWithTail | src/util.js:13 | joining with a two-character separator equals prefixing the second character to every later piece and joining with the first |
| JsValues.PutObj | src/util.js:146 | assigning a property sets its value; a new key is appended to the key order and an existing key keeps its place |
| JsValues.PutObjWf | src/util.js:146 | property assignment keeps an object well formed (keys distinct and matching the properties) |
| JsValues.Put | src/util.js:146 | assignment on the heap changes only the target object |
| JsValues.DomString | src/directives.js:215 | a string is written as itself and `null` as the empty string |
| JsValues.DigitsOfNat | src/directives.js:29 | parsing the decimal text of a natural number gives that number back |
| JsValues.IntegerOfIntString | src/directives.js:29 | parsing the decimal text of an integer gives it back, so `k == String(k)` holds for integers |
| JsValues.Entries | src/directives.js:165 | `Object.entries` throws exactly on `null`/`undefined`, and on an object lists its own keys in order with their values |
| JsValues.JsHeap.Alloc | src/component.js:247 | a new object gets a fresh id and nothing else in the heap changes |
| Dom.ParseSerialize | src/directives.js:147-148 | serialising a class token list and parsing it back gives the list |
| Dom.RemoveToken | src/directives.js:167 | removing a token leaves exactly the other tokens and keeps the list valid |
| Dom.ToggleClass | src/directives.js:148 | `toggle` throws exactly on an empty token or one containing white space, and changes only the attributes |
| Dom.ToggleEffect | src/directives.js:148 | after `toggle(t, force)`, `t` is present iff `force`; other tokens and other attributes are unchanged |
| Dom.ToggleIdempotent | src/directives.js:148 | a second `toggle` with the same force changes nothing |
| Dom.WithoutAttr | src/util.js:155 | removing an attribute from several nodes keeps the set of nodes |
| Dom.WithoutAttrAt | src/util.js:155 | the listed nodes lose the attribute and all other nodes are unchanged |
| Dom.WithoutAttrSame | src/util.js:155 | removing attributes changes nothing but attributes |
| Dom.Document.RemoveAttribute | src/util.js:155 | `removeAttribute` drops exactly that attribute of that node |
| Dom.Document.SetAttribute | src/util.js:154 | `setAttribute` sets exactly that attribute of that node |
| Dom.AsciiLower | src/directives.js:248-249 | each character of the name lowercased, as `getAttribute` and `setAttribute` do on an HTML element |
| Dom.Document.AppendNew | src/directives.js:81-82 | a cloned node gets a fresh id and becomes the parent's last child; the document stays a tree |
| Dom.Document.MoveToEnd | src/directives.js:121 | `appendChild` of an existing child moves it to the end of its parent's children |
| Dom.Document.Remove | src/directives.js:126 | `removeChild` unlinks the node from its parent and nothing else |
| Dom.AppendNewTree | src/directives.js:81-82 | appending a new child preserves the tree invariant |
| Dom.MoveTree | src/directives.js:121 | moving a child to the end preserves the tree invariant |
| Dom.RemoveTree | src/directives.js:126 | unlinking a child preserves the tree invariant |
| Util.AddReturnSegments | src/util.js:9-14 | after the rewrite the `;`-separated statements are the same in number; the last is prefixed by `return` and each later one by a newline |
| Util.AddReturnNoSemicolon | src/util.js:9-14 | a script with no `;` becomes `return ` followed by the script |
| Util.SplitJoinLines | src/util.js:13 | splitting the `;\n`-joined statements gives the first statement and the others each prefixed by a newline |
| Util.FrameGrows | src/util.js:139-151 | a merge only adds keys and objects; it removes nothing |
| Util.FramePresent | src/util.js:140-146 | after a merge that does not overflow, every enumerable key of every source is present on the target |
| Util.DeepMerge | src/util.js:139-151 | the method's final heap is the one the merge specification gives, and it returns the target or `RangeError` on overflow |
| Util.MergeInto | src/util.js:140-149 | the loop over the sources matches the specification from a given depth |
| Util.MergeKey | src/util.js:142-147 | one key: recurse into a plain source value (creating `{}` on the target when needed), otherwise assign |
| Util.Chain | src/util.js:171-179 | the ancestor chain contains only nodes of the document |
| Util.Parents | src/util.js:171-179 | the method returns the ancestors that match, nearest first |
| Util.ChainLinks | src/util.js:171-179 | the chain starts at the parent, each element is the parent of the one before, and it ends at a root |
| Util.MatchingKeeps | src/util.js:174 | the filtered chain holds exactly the matching ancestors |
| MergeFacts.ShallowCopy | src/util.js:139-151 | merging one source into an empty `{}` gives a plain copy of the source, with its keys in order |
| MergeFacts.StepOverwrites | src/util.js:146 | a key whose source value is not plain is assigned as is |
| MergeFacts.FrameAvoids | src/util.js:139-151 | objects in a set closed under references that the merge cannot reach stay unchanged |
| MergeFacts.TopSourcesKeys | src/util.js:140-146 | the top-level merge keeps every target key, adds every source key and keeps the target's key order as a prefix |
| MergeFacts.TopSourcesUntouched | src/util.js:140-146 | a key in no source keeps its target value |
| MergeFacts.LaterSourceWins | src/util.js:140-146 | for a non-plain value, the last source holding the key decides the result |
| MergeFacts.KeysOverNonPlain | src/util.js:146 | within one source, a non-plain value is what the key ends with |
| MergeFacts.PlainKept | src/util.js:143-144 | a key whose source values are all plain keeps the target's reference |
| MergeFacts.BridgeFrame | src/util.js:139-151 | after a merge that does not overflow, the target equals the top-level merge, and objects outside the reachable set stay unchanged |
| MergeFacts.DeepMergeTopLevel | src/util.js:139-151 | for unreferenced sources, the target's new top level is the top-level merge and no source object changes |
| MergeFacts.NestedMerge | src/util.js:143-144 | a plain value under a key of the target is merged recursively with the source's plain value under that key, in place |
| DirectiveHelpers.PrefixMatchSpec | src/directive_helpers.js:9 | the prefix match is the unique end of a leading run of `.name` modifiers followed by white space |
| DirectiveHelpers.CollectPrefixesMatched | src/directive_helpers.js:8-15 | when the regex matches, the source after the run is returned with the dot-prefixed modifiers |
| DirectiveHelpers.CollectPrefixesUnmatched | src/directive_helpers.js:8-15 | without a match, the source is returned unchanged with no prefixes |
| DirectiveHelpers.CollectPrefixesOf | src/directive_helpers.js:8-15 | `.run` then white space then rest yields `rest` and the pieces of `run`, each prefixed with a dot |
| DirectiveHelpers.CollectPrefixesJoined | src/directive_helpers.js:8-15 | a run built from modifier names yields those names back, each prefixed with a dot |
| DirectiveHelpers.DottedPiecesShape | src/directive_helpers.js:11 | every collected prefix starts with a dot and contains no white space |
| DirectiveHelpers.RewriteEventSourceSpec | src/directive_helpers.js:28 | an object-literal source becomes `this.setState(...)` around the original; anything else is unchanged; the rewrite is idempotent |
| DirectiveHelpers.CompileEvent | src/directive_helpers.js:28 | a component method name gives that method; anything else gives the rewritten source |
| DirectiveHelpers.MixinKeyHandler | src/util.js:113-115 | a handler naming a mixin's key calls the method when the last mixin with that key holds a function, and compiles the source otherwise (`{ count: 0 }` with `d-click="count"`) |
| DirectiveHelpers.RunWrapAll | src/directive_helpers.js:29-31 | a wrapped handler runs the `.prevent`/`.stop` actions, last prefix first, then the base handler |
| DirectiveHelpers.BaseRunsOnceLast | src/directive_helpers.js:29-31 | without `.debounce`, the base handler is called exactly once and last |
| DirectiveHelpers.UnknownPrefixesIgnored | src/directive_helpers.js:30 | unknown prefixes leave the handler as it is |
| DirectiveHelpers.WrapAllAppend | src/directive_helpers.js:29-31 | wrapping with two prefix lists equals wrapping with their concatenation |
| DirectiveHelpers.WrapHandler | src/directive_helpers.js:29-31 | the loop builds the same handler as the wrapping specification |
| DirectiveHelpers.EventSource | src/directive_helpers.js:25 | trimming throws exactly when neither a predefined source nor the attribute exists; a result is trimmed |
| DirectiveHelpers.AttachListener | src/component.js:78-82 | a listener is recorded exactly when the node argument is an element; otherwise `TypeError` |
| DirectiveHelpers.EventHandlerUnprefixed | src/directive_helpers.js:26-31 | a source without prefixes compiles directly |
| DirectiveHelpers.EventListenerAsWrittenThrows | src/directive_helpers.js:33 | the four-argument call always ends in `TypeError` |
| DirectiveHelpers.EventListenerSpec | src/directive_helpers.js:23-36 | the corrected factory succeeds iff a source exists, and its listener has the event, node and compiled handler |
| DirectiveHelpers.EventHandlerRuns | src/directive_helpers.js:26-31 | running the handler performs the prefix actions, then the compiled source |
| DirectiveHelpers.GenerateEventFunc | src/directive_helpers.js:23-36 | on success, one listener is appended and the directive attribute removed; on error, nothing changes |
| DirectiveHelpers.DirectiveHook | src/directive_helpers.js:54-61 | a hook exists iff the attribute exists; it holds the trimmed source, the node and the original prop when present |
| DirectiveHelpers.DirectivePropBeforeRemoval | src/directive_helpers.js:56-60 | when `prop` names the directive itself, the hook holds the attribute's original text, read before removal |
| DirectiveHelpers.DirectiveFuncAsWrittenLoses | src/directive_helpers.js:60-61 | as written, the attribute is removed and then the call of the missing `addRenderHook` throws, so the directive is lost |
| DirectiveHelpers.GenerateDirectiveFunc | src/directive_helpers.js:54-68 | with the corrected registration, one render hook is appended and the attribute removed; on error, nothing changes |
| Registration.ModelSource | src/directives.js:24-32 | the generated handler source is an object literal `{...}` |
| Registration.ModelListener | src/directives.js:24-34 | `d-model` listens to `input` with the handler `this.setState({...})` built for the element kind |
| Registration.DModel | src/directives.js:21-41 | one `input` listener and one `d-model` render hook are added, and the attribute is removed |
| Registration.LifecycleHook | src/directives.js:253-274 | the hook exists iff the attribute exists or the component has a `null` method; it keeps the untrimmed text |
| Registration.DOnStateChange | src/directives.js:253-263 | on success, one state hook is appended and the attribute removed; on error, nothing changes |
| Registration.DOnRender | src/directives.js:264-274 | on success, one render hook is appended and the attribute removed; on error, nothing changes |
| Registration.LifecycleUntrimmed | src/directives.js:255 | lifecycle hooks keep the raw attribute text; generic directives keep the trimmed text |
| Directives.ShowEffect | src/directives.js:145-150 | `d-render-hidden` is present iff the result is falsy; nothing else changes |
| Directives.ShowSettles | src/directives.js:147 | a second run writes nothing |
| Directives.Show | src/directives.js:145-150 | the node becomes `ShowNode`, with a write only when the class is wrong |
| Directives.ClassStep | src/directives.js:166-168 | one object entry writes at most once |
| Directives.ClassEntriesEffect | src/directives.js:165-169 | each named class is present iff its state is truthy; other classes are unchanged |
| Directives.ClassEntriesSettle | src/directives.js:166 | a second run writes nothing |
| Directives.ClassEntriesStop | src/directives.js:165-169 | processing stops at the first entry whose toggle throws |
| Directives.ClassString | src/directives.js:171 | the new class name is trimmed |
| Directives.ClassNode | src/directives.js:163-176 | a non-object result never throws; `null` (typeof "object") throws `TypeError` |
| Directives.ClassStringEffect | src/directives.js:171-174 | the class name becomes the original class name followed by the result, trimmed; a second run writes nothing |
| Directives.ObjectEntryNames | src/directives.js:165 | entry names of an object are distinct |
| Directives.Class | src/directives.js:163-176 | the method's result matches `ClassNode` |
| Directives.ClassObject | src/directives.js:165-169 | the loop's result matches `ClassEntries` |
| Directives.ClassEntry | src/directives.js:166-168 | one loop step matches `ClassStep` |
| Directives.PutEntriesEffect | src/directives.js:193-199 | every entry's value is stored, and names not in the entries keep their values |
| Directives.PutEntriesSettle | src/directives.js:195 | a second run writes nothing |
| Directives.EntriesNode | src/directives.js:194 | `Object.entries` throws exactly on `null`/`undefined`, leaving the node unchanged |
| Directives.WriteEntries | src/directives.js:193-199 | the method's result matches `EntriesNode` |
| Directives.WriteTable | src/directives.js:240-244 | the loop's result matches `PutEntries` |
| Directives.PutEntry | src/directives.js:241-243 | one entry is written only when it differs |
| Directives.FlagNode | src/directives.js:200-211 | `disabled`/`readOnly` becomes the truthiness of the result, and a second run writes nothing |
| Directives.WriteFlag | src/directives.js:200-211 | the method's result matches `FlagNode` and writes only on a change |
| Directives.TextSettles | src/directives.js:212-233 | after writing a string, `value`/`innerText`/`innerHTML` equals it and a second run writes nothing |
| Directives.TextAlwaysWrites | src/directives.js:214 | a non-string result always differs from the string property, so it is written on every render |
| Directives.WriteText | src/directives.js:212-233 | the method's result matches `TextNode` and writes only on a change |
| Directives.ModelNode | src/directives.js:24-32 | synchronising touches only `checked` and `value` |
| Directives.ModelRoundTrip | src/directives.js:24-34 | writing back the value the `input` handler reads leaves the element unchanged |
| Directives.ModelSettles | src/directives.js:24-32 | synchronising twice equals synchronising once |
| Directives.ModelRadioNumber | src/directives.js:29 | loose `==` checks a radio whose value is the decimal text of the state number; `null`/`undefined` never check it |
| Directives.ModelSync | src/directives.js:24-32 | the method's result matches `ModelNode` |
| Directives.AttrEntriesEffect | src/directives.js:246-252 | when no entry throws, every entry's attribute reads as its value under the ASCII-lowercased name, and other attributes are unchanged |
| Directives.AttrStep | src/directives.js:248-250 | an entry that already reads as its value changes nothing; otherwise an invalid name throws `InvalidCharacterError` and changes nothing |
| Directives.AttrEntries | src/directives.js:247-251 | the entries are written in order up to the first that throws; the only error is `InvalidCharacterError` |
| Directives.AttrEntriesStop | src/directives.js:247 | the first entry that throws ends the loop |
| Directives.AttrInvalidName | src/directives.js:248-250 | `{ '': 1 }` or `{ 'a b': 1 }` throws `InvalidCharacterError`, but not when `getAttribute` already returns the value, as for `{ '': null }` |
| Directives.AttrEntriesNext | src/directives.js:247-251 | one more entry after a prefix that threw nothing |
| Directives.AttrEntriesSettle | src/directives.js:248 | with distinct lowercased names and string values, a second run after one that threw nothing writes nothing and throws nothing |
| Directives.AttrAlwaysWrites | src/directives.js:248 | a non-string value never equals `getAttribute`, so a run that throws nothing writes it on every render |
| Directives.AttrNode | src/directives.js:246-252 | `Object.entries` throws `TypeError` exactly on `null`/`undefined`; otherwise only attributes change, and the only other error is `InvalidCharacterError` |
| Directives.WriteAttrs | src/directives.js:246-252 | the method's result matches `AttrNode` |
| Directives.WriteAttrList | src/directives.js:247-251 | the loop's result matches `AttrEntries`, and it stops at the first entry that throws |
| Directives.AttrEntry | src/directives.js:248-250 | one entry, as `AttrStep` states it |
| Components.Spread | src/component.js:216 | object spread of directive tables keeps the first table's key order, appends new keys, and lets later values win |
| Components.SpreadOverEmpty | src/component.js:216 | spreading into `{}` gives the table itself |
| Components.TableEntries | src/component.js:221-226 | the entries are the table's keys in order with their functions |
| Components.MixinTableEntries | src/component.js:343 | the mixin table defines exactly the mixins' directives, and the last mixin defining a name wins |
| Components.BaseClass | src/component.js:370 | the fallback `Component` class is well formed |
| Components.StateHookRuns | src/component.js:253 | every state hook runs once, in order, with the previous state |
| Components.RenderHookRuns | src/component.js:263 | every render hook runs once, in order, with the transition |
| Components.CloneCopies | src/component.js:247 | the clone is a new plain object with the source's keys and values |
| Components.Clone | src/component.js:247 | the method allocates exactly the clone |
| Components.MergedStateTopLevel | src/component.js:235-237 | merging a partial state gives a clone whose top level is the clone merged with the partial, and the partial is unchanged |
| Components.TransitionKeys | src/component.js:230-233 | in the transition object, a non-plain key given explicitly wins, and any other key comes from the class's base |
| Components.BuildTransition | src/component.js:230-233 | the method's result matches the transition specification |
| Components.CommitState | src/component.js:247-250 | the new heap, next free identity and state match `CommittedState`: a partial state is merged into the clone; an updater's writes and creations land |
| Components.UpdaterLands | src/component.js:247-248 | an updater's writes land on every object it rewrites, including nested objects the clone shares with the previous state; its new objects are allocated after the clone; its value becomes the state |
| Components.MergeInCommits | src/component.js:247-250 | a partial state allocates only the clone, which becomes the state unless the merge throws `RangeError` |
| Components.RunUpdater | src/component.js:247-248 | the updater's writes are applied, then its new objects are allocated, and its value is the result |
| Components.Create | src/component.js:247-248 | the objects an updater creates are allocated in order |
| Components.AllocAll | src/component.js:247-248 | the allocated objects hold the created objects in order, and every other object is kept |
| Components.Rewritten | src/component.js:247-248 | the objects an updater writes are replaced and all others kept |
| Components.MixinMembersAre | src/component.js:345 | a name is a key the mixins lend exactly when some mixin has it as an own key besides the four it merges |
| Components.LastMixinDecides | src/component.js:337-345 | the last mixin with a key decides whether it lends a method: it does when it holds a function there, not when it holds a getter or any other value |
| Components.Lent | src/util.js:113-115 | after the copy, a lent key is a method exactly when it holds a function, and an own key hides the class's method of that name; every other name keeps its status |
| Components.ExtendedNoMixins | src/component.js:336-348 | with no mixins the extension cannot outgrow the stack |
| Components.MergeUndefinedFits | src/component.js:339-340 | a mixin without `state` merges `undefined`, which cannot outgrow the stack |
| Components.MergeExtension | src/component.js:333-352 | the mixins' states are merged into a fresh object; their hooks, directive tables and members are gathered, the members up to the merge that throws |
| Components.MergeMixins | src/component.js:337-346 | the loop over the mixins matches the merge, hook, table and member specifications, and stops at the first merge that throws |
| Components.GatherMixin | src/component.js:341-345 | one mixin's hooks are appended, its directives spread and its members added |
| Components.MergeMixinState | src/component.js:340 | one mixin's state is merged |
| Components.MixinStateWins | src/component.js:340 | for a non-plain value, the last mixin state holding the key decides it |
| Components.BuiltIns | src/directives.js:20-275 | the built-in directive table is well formed |
| Components.RunsOnThrow | src/component.js:225 | the directive runs on the found nodes in order, up to and including the first run that throws; the runs throw exactly when the directive throws on some node, and the error is that node's |
| Components.DirectiveRunsFound | src/component.js:221-226 | every run is a listed directive on a node found for its name |
| Components.DirectiveRunsThrow | src/component.js:221-226 | the runs throw exactly when some directive throws on a node found for it, and the error is that of the last run logged |
| Components.RunDirectives | src/component.js:221-226 | the loop logs exactly `DirectiveRuns`, returns its error and stops at the first run that throws |
| Components.RunDirective | src/component.js:225 | the inner loop logs exactly `RunsOn` and returns its error |
| Components.DirectiveRunsAppend | src/component.js:221-222 | running two tables concatenated runs the first, then the second unless a run of the first threw |
| Components.DropIdentityAttributes | src/component.js:40-45 | the method removes exactly the identity attributes the constructor removes |
| Components.WithoutIdentity | src/component.js:40-45 | only `d-alias`/`d-portal-name` may go; other attributes keep their values |
| Components.WithoutIdentitySame | src/component.js:40-45 | only attributes change |
| Components.RefStep | src/component.js:202-207 | `x[]` appends to a list (creating it) and throws on a single ref of that name; a plain name overwrites |
| Components.RefItems | src/component.js:199-201 | each found node pairs with its `d-ref` value, in order |
| Components.CollectStops | src/component.js:199-211 | collection stops at the first `TypeError` |
| Components.ListRefCollects | src/component.js:202-205 | a list ref holds exactly the nodes named `x[]`, in document order |
| Components.SingleRefLastWins | src/component.js:207 | the last node with a plain name is the ref |
| Components.Component.constructor | src/component.js:32-58 | fields come from the class, the stores are empty, and the identity attributes are read and dropped |
| Components.Component.ExtendInstance | src/component.js:61 | the instance gets the mixins' merged state, hooks and directives, and its methods follow `Lent`; or `RangeError` with the hooks and tables unchanged and only the mixins before the overflowing merge lent |
| Components.Component.ExtendInstanceAsWritten | src/component.js:335-346 | with any mixin the extension throws `TypeError` (the first merge goes into a fresh `{}` and cannot outgrow the stack), and the instance keeps its hooks, tables and methods |
| Components.Component.Lend | src/component.js:345 | the instance's methods after the mixins' own keys land, as `Lent` states |
| Components.Component.Absorb | src/component.js:341-351 | hooks are appended, directives spread and the own keys lent |
| Components.Component.RegisterHooks | src/component.js:220-228 | built-in, component-specific and class directives run in that order, and the first run that throws ends it with its error |
| Components.Component.AddRenderHook | dist/d_render.js:194 | one render hook is appended |
| Components.Component.AddStateHook | dist/d_render.js:378 | one state hook is appended |
| Components.Component.AddEventListener | src/component.js:78-82 | one listener is appended |
| Components.Component.RegisterRefs | src/component.js:198-212 | refs and removed `d-ref` attributes match the collection up to the first error |
| Components.Component.RegisterRef | src/component.js:199-211 | one loop step matches `RefStep` |
| Components.Component.Context | src/component.js:120-122 | a truthy stored context is returned; otherwise a new `{}` |
| Components.Component.SetContext | src/component.js:124-126 | only the element's context changes |
| Components.Component.RenderEventsCarry | src/component.js:262-265 | every event of a render cascade carries the same transition |
| Components.Component.Render | src/component.js:262-265 | render runs its own hooks, then each child that follows the render |
| Components.Component.RunRenderHooks | src/component.js:263 | the loop logs `RenderHookRuns` |
| Components.Component.RenderChildren | src/component.js:264 | the loop logs the cascade of the children |
| Components.Component.RenderChild | src/component.js:264 | one child renders iff `shouldFollowRender` holds |
| Components.Component.SetState | src/component.js:245-259 | the new state is committed, state hooks run with the previous state, rendering runs with the transition when asked, and a copy is taken |
| Components.Component.RenderAndCopy | src/component.js:256-258 | rendering when asked, then the copy |
| Components.Component.CommitAndNotify | src/component.js:247-255 | commit, state hooks, then the transition object |
| Components.Component.RunStateHooks | src/component.js:253 | the loop logs `StateHookRuns` |
| Loop.Iterate | src/directives.js:68-74 | an array yields its elements with null keys, any other object its entries, and `null`/`undefined` throws; indices count from 0 |
| Loop.ItemContextProps | src/directives.js:69-73 | the item context has the key, the item and the index under `<var>Key`, `<var>` and `<var>Index` |
| Loop.ChildContext | src/directives.js:80-81 | a child's context holds `_loopComponentKey` and `parentComponent` |
| Loop.ChildContextSpread | src/directives.js:80-81 | the other keys of a child's context are the item context's |
| Loop.ChildContextTracked | src/directives.js:104-110 | a new child is found again under `String(key)` |
| Loop.Tracked | src/directives.js:104-110 | the map holds only mounted children, under their context key |
| Loop.TrackedLastWins | src/directives.js:104-110 | among children sharing a key, the last one is tracked |
| Loop.Picked | src/directives.js:112-123 | reused children are exactly the tracked ones whose key is live |
| Loop.PlacementShape | src/directives.js:112-123 | the final order is distinct, made of reused children and new ones |
| Loop.PlacementInOrder | src/directives.js:112-123 | the children follow the items' order, one each, and only untracked keys are appended |
| Loop.RefreshedContext | src/directives.js:116-117 | a reused child's context gets the item's key, index and (non-plain) item; other keys keep the old context's values |
| Loop.RefreshedTop | src/directives.js:117 | the refresh is the two top-level merges into `{}`, leaving the old context and the item context unchanged |
| Loop.ItemOverContext | src/directives.js:117 | the item context's keys override the old context's |
| Loop.Refresh | src/directives.js:116-121 | a reused child gets the merged context and is moved to the end, or `RangeError` |
| Loop.Append | src/directives.js:80-84 | a new child with a fresh context is appended |
| Loop.AppendLast | src/directives.js:119 | the same for the render hook |
| Loop.MoveTracked | src/directives.js:114-121 | one reused item is placed |
| Loop.AppendUntracked | src/directives.js:119 | one new item is placed |
| Loop.PlaceItem | src/directives.js:112-123 | one item is placed, or the context merge overflows |
| Loop.PlaceItems | src/directives.js:112-123 | the children become the placement order after the remaining ones |
| Loop.StaleOf | src/directives.js:125-127 | stale children are exactly the tracked ones whose key is not live |
| Loop.RemoveStale | src/directives.js:125-127 | stale children are removed |
| Loop.RemoveNext | src/directives.js:125-127 | one stale child is removed |
| Loop.StaleNotPlaced | src/directives.js:125-127 | a stale child is never in the placement |
| Loop.Settled | src/directives.js:112-127 | after placement and removal, untracked children stay first, in order |
| Loop.LoopHook | src/directives.js:97-128 | unchanged results do nothing; otherwise the children are the untracked ones followed by the placement, and `lastLoopResults` is updated |
| Loop.FirstTemplate | src/directives.js:46 | the template is found among the children, or there is none |
| Loop.Prototype | src/directives.js:59 | the prototype has a truthy `d-component` (the shadow default when missing) and otherwise equals the first node |
| Loop.KeepOnly | src/directives.js:77-78 | only the template child remains |
| Loop.AppendItems | src/directives.js:86-89 | one child is appended per item, in order |
| Loop.AppendNext | src/directives.js:86-89 | one loop step |
| Loop.AppendFor | src/directives.js:80-84 | the item context and the child context are allocated, and the child is appended |
| Loop.DropKeys | src/directives.js:94 | `d-key` is removed from every child |
| Loop.LoopVar | src/directives.js:55 | the loop variable name is never empty |
| Loop.SetupError | src/directives.js:46-63 | a missing template throws the library's error; setup succeeds iff there is a template, a first node with `d-key`, and a loop source |
| Loop.Populate | src/directives.js:86-95 | one child per item is appended in order; then `d-loop` and `d-loop-var` are removed from the node and `d-key` from every child |
| Loop.DropDirectives | src/directives.js:91-95 | the attribute removals lead from the appended children to the populated node |
| Loop.DroppedKeys | src/directives.js:94 | each child has its template without `d-key` |
| Loop.DLoop | src/directives.js:42-136 | setup errors change nothing; otherwise the template is kept alone, the children are populated and one render hook is added |
| Mounting.RegisteredLookup | src/component.js:280-284 | registered names map to their last class and older names are kept |
| Mounting.Registry.Register | src/component.js:280-284 | the registry becomes `Registered` |
| Mounting.StartState | src/component.js:47-58 | `d-state` is evaluated and cloned, or the state is a new `{}` |
| Mounting.Construct | src/component.js:32-58 | the identity attributes are dropped, and evaluation errors propagate |
| Mounting.Initialize | src/component.js:47-61 | the state, hooks, directives and methods after the mixin extension |
| Mounting.ConstructorAttrs | src/component.js:40-45 | the identity and `d-ref` removals keep all other attributes |
| Mounting.NewComponent | src/component.js:32-67 | the constructor produces a fresh component for the element, changing only attributes; a component comes out only when no directive threw, and a directive's error is the constructor's |
| Mounting.Finish | src/component.js:62-65 | hooks run; a directive that throws ends the constructor with its error before any ref is registered and with the document and heap unchanged; otherwise refs are collected and the initial state is copied |
| Mounting.RunHooks | src/component.js:62 | the runs of the class's constructor, with their error |
| Mounting.RefsThenSeal | src/component.js:63-65 | refs, then the copy of the initial state |
| Mounting.AttachRefs | src/component.js:63 | refs match the collection |
| Mounting.Seal | src/component.js:65 | `initialState` is a fresh copy of the state |
| Mounting.ClassFor | src/component.js:370 | a registered class is chosen by name; otherwise `Component` |
| Mounting.Blanked | src/component.js:378-381 | the attribute is set to the empty string and the others are kept |
| Mounting.BlankedMounted | src/component.js:378-381 | blanking gives the mounted attribute shape |
| Mounting.CreateComponent | src/component.js:356-384 | created once per element; sets the context; ignores unknown classes when asked; otherwise mounts a fresh component and blanks `d-state`/`d-component`, which happens only when no directive of the constructor threw; a throw leaves the element unmounted |
| Mounting.CreateUnmounted | src/component.js:359-384 | the same for an element without a component |
| Mounting.MountNamed | src/component.js:361-384 | the class is looked up by name; mounted only when no directive threw |
| Mounting.Mount | src/component.js:370-384 | the component is constructed and registered on the element only when no directive threw; a throw leaves the element unmounted |
| Mounting.Store | src/component.js:371-381 | the component is stored on the element and its attributes take the mounted shape |
| Mounting.Attach | src/component.js:371-381 | `_dComponent` is set and the two attributes are blanked |

## Left out

- `debug.keepDirectives` (src/util.js:5) is taken as `false`. Its `true` branches, such as the `d-state` rewrite at src/component.js:251, are not modelled.
- `compileToFunc`, `compileWithComponent` and `fallbackCompileToFunc` (src/util.js:50-137) compile JavaScript. The values they produce are parameters of the model, and compile errors are not modelled.
- `getData`, `setData`, `emitEvent`, `findInside`, `isTag` and `querySelectorAll` are not modelled. Selector matching is a parameter (`matches`, `found`, `hooksFound`, `refsFound`).
- `d-debounce-show`, `d-debounce-class` and the `.debounce` timer are left out because they need timers. `DirectiveHelpers.RunWrapAll` records `.debounce` as a scheduled call. In the source the wrapper calls `getData` and `setData` (src/directive_helpers.js:97, 100). Line 1 does not import them, so a `.debounce` handler throws `ReferenceError`. That throw is not modelled.
- `Component`: `removeEventListener`, `eventsMap`, `afterInitialized`, `runAfterInitializedHook`, `parent`, `root`, `filterChildren`, `portalElements`, `findChildrenElements` and `_findTopLevel` are not modelled. The found sets are parameters, and the children are given.
- `createComponent` does not create nested components (src/component.js:373-374), and it does not run the `afterInitialized` hooks (src/component.js:376).
- `Components.Component.ExtendInstance`: models the call to `extendObject` (src/component.js:345) as the comment at src/component.js:293-295 describes it. Each mixin's own keys other than the four special keys are copied onto the instance. `methods` then follows `compileWithComponent` (src/util.js:113-115): a copied function is a method, and a copied getter or other value hides any method of that name. The call's exclusion list names only `renderHooks`, `stateHooks` and `componentSpecificDirectives`. An `extendObject` that honoured it would also copy `state` onto the instance, and the model does not. The model takes the comment's four special keys instead. As written the call throws, because src/util.js exports no `extendObject` (see Findings). Setters and property attributes are not modelled. Mixin functions are taken as already applied (src/component.js:334).
- `Components.Component.RegisterHooks`: a directive run is a logged event. Its outcome comes from the parameter `outcome` (`RunOutcome`). The hooks and listeners a run registers are not composed into the instance here; the members of `Registration`, `Directives` and `Loop` state them one directive at a time.
- `defineComponent` (src/component.js:324-331) is not modelled. A class is a `ClassDef` value.
- `registerComponents` does not re-run the document scan; src/d_render.js is not part of this model.
- `Util.DeepMerge`: a depth budget stands for the JavaScript stack, so `RangeError` fires at a fixed depth.
- `Loop.LoopHook`: the ensures gives the final child order and `lastLoopResults`, but not each reused child's new context or each new child's record. Those facts are stated per step, by `Loop.Refresh`, `Loop.RefreshedContext` and `Loop.AppendLast`.
- `Dom.Document.AppendNew`: the clone has no subtree (`children := []`), so a template's descendants are not copied.
- `Loop.Append`, `Loop.AppendFor` and `Loop.Populate` (through the predicates `LoopRecord` and `Populated`): the clone's attributes are stated as the template's, with `d-component` set to `ShadowComponent` when missing. `createComponent` on the clone would also drop the constructor attributes, register its directives, blank `d-component` and mount nested components; none of that is modelled.
- `Loop.FirstTemplate`: it looks at direct children only, whereas `querySelector` searches all descendants.
- `JsValues`: numbers are integers, so fractions, `NaN` and `-0` are not modelled. Strings are sequences of Unicode scalars, not UTF-16 units.
- `JsValues.ToJsString`: an array renders as `[object Object]`, so array keys collide in `Loop.KeysOf` and `Loop.TrackKey`, and `d-text`/`d-attr` write that text for an array. JavaScript joins the elements with commas.
- `JsValues.Stringify`: `toJSON` is ignored, so a `Date` in the loop results serialises as `{}` and a changed date does not re-run the loop. The model serialises every host object as `{}`. For a DOM node without expandos, JavaScript gives the same. An element carrying `_dComponent` is circular, because the component's `element` points back to it. There JavaScript throws `TypeError` and the model does not.
- `JsValues.PutObj`: new keys are appended. JavaScript orders integer-like keys first, ascending.
- `Loop.Tracked`, `Components.RefStep`, `Mounting.ClassFor`, `Components.ComponentMethods` and `Util.DeepMerge`: inherited `Object.prototype` keys such as `constructor` count as absent. `getDescriptor` (src/util.js:90-104) walks the prototype chain up to `Object.prototype`, so `toString`, `hasOwnProperty` and the other `Object.prototype` methods also resolve as component methods. `Components.ComponentMethods` holds only the methods of `Component.prototype`. In `deepMerge`, `obj[key] = newValue` (src/util.js:146) with a source's own `__proto__` key sets the target's prototype. The model stores an ordinary property instead.
- `Mounting.ClassFor`: `Classes[className]` also finds keys inherited from `Object.prototype`. With `d-component="constructor"`, JavaScript instantiates `Object`, and `ignoreIfClassNotFound` does not skip the element. The model treats such a name as unregistered and picks `Component`, or skips the element when asked.
- `Components.TransitionKeys`: the class's transition base is a function parameter of `ClassDef`, not a method that can read the component.
- `Components.CommitState`: an updater is a function of the heap and the clone. It returns the objects it rewrites, the objects it creates and its value, so it can write through objects shared with the previous state. It cannot call back into the component (`setState`, `render`), and a write to an identity the heap does not hold is dropped.
- `Directives.WriteEntries`: `d-style` writes raw values into a table. `CSSStyleDeclaration` coercion is not modelled, so `Directives.PutEntriesSettle` overclaims for values the browser rewrites.
- `Directives.WriteTable`: `d-prop` writes a property table kept apart from `value`, `disabled`, `readOnly`, `innerText` and `innerHTML`.
- `Directives.TextSettles`: `innerText`/`innerHTML` reads back exactly what was written. Browsers normalise it, so a write can repeat.
- `Directives.AttrStep`: a name is valid when it passes the DOM Standard's current rule for attribute local names: non-empty, with no ASCII white space, NULL, `/`, `=` or `>`. Browsers that still apply the older XML `Name` production reject more names, such as `1a`. Every element is taken to be an HTML element in an HTML document, so names are always lowercased. SVG and other foreign elements keep the case, and the model does not.
- `Directives.ModelSync` and `Directives.WriteText`: `d-value` on a non-control element stores the string, not the raw expando value.
- `Directives.ModelRadioNumber`: loose equality parses only an optional sign followed by digits. For example, `1 == "1.0"`, `16 == "0x10"` and `10 == "1e1"` are false in the model.
- `DirectiveHelpers.GenerateEventFunc`: models the corrected three-argument `addEventListener` call; see Findings.
- `DirectiveHelpers.GenerateDirectiveFunc`, `Registration.DModel`, `Registration.DOnStateChange`, `Registration.DOnRender` and `Loop.DLoop`: each models a push onto `renderHooks`/`stateHooks` in place of the undefined `addRenderHook`/`addStateHook`; see Findings.

## Findings

| source | as written | input that shows it | evidently intended | confidence | as-written member | corrected member |
|---|---|---|---|---|---|---|
| src/directive_helpers.js:33 | `component.addEventListener(identifier, event, node, handler)` passes four arguments to a three-parameter method (src/component.js:78) | any event directive, e.g. `d-click="foo"`: the method receives `'d-click'` as the event and `'click'` as the node, and `'click'.addEventListener` is not a function (`TypeError`) | `component.addEventListener(event, node, handler)` | not executed | DirectiveHelpers.EventListenerAsWrittenThrows | DirectiveHelpers.GenerateEventFunc |
| src/directive_helpers.js:61 | calls `component.addRenderHook`, which src/component.js does not define (nor `addStateHook` at src/directives.js:256) | any `d-show="x"`: the attribute is removed at line 60, then the call throws `TypeError` and no hook is registered | push onto `renderHooks`/`stateHooks`, as the bundle does at dist/d_render.js:194 | not executed | DirectiveHelpers.DirectiveFuncAsWrittenLoses | DirectiveHelpers.GenerateDirectiveFunc |
| src/component.js:345 | calls `extendObject`, which line 1 imports from `./util`; src/util.js exports no such name (src/util.js:183-202) | any class with a mixin, e.g. `defineComponent('C', { handleClick() {} })`: under a bundler the binding is `undefined`, so the call after the first mixin's merge throws `TypeError` and no instance is made (a native ES module fails to link instead) | copy each mixin's own keys onto the instance, other than the four the comment at src/component.js:293-295 names. That comment is the only statement of intent. It includes `state`, which the call's own exclusion list does not name. | not executed | Components.Component.ExtendInstanceAsWritten | Components.Component.ExtendInstance |
