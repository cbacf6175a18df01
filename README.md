# A verified model of the Bouer kernel's bookkeeping

Bouer is a small front-end framework: an instance controls a DOM element,
evaluates `{{ }}` placeholders and directives against reactive data, binds
form inputs in both directions and routes custom events. Around the reactive
core sits a layer of deterministic bookkeeping on dictionaries and lists.
This project models that layer in Dafny and proves what it promises:

- **Expression sandbox** (`evaluator.dfy`, module `Evaluator`). `exec`:
  - composes a scope from extras plus `$root`/`$mixin`, local data and global data;
  - warns on each global key that is shadowed;
  - spreads the scope onto the hidden frame's global table (class `Sandbox`);
  - runs the JavaScript engine, an oracle here, on the wrapper text;
  - turns a throw into `undefined` plus an error record;
  - deletes every spread key afterwards.

  `execRaw` never lets an error escape.
- **Event registry** (`event_handler.dfy`, module `EventHandler`). It covers:
  - parsing `on:<event>.<mod>…` attribute names;
  - listener options;
  - the per-name ordered subscription lists of class `EventHandler`, which `on` appends to, `off` filters, `emit` dispatches from, and the liveness sweep prunes.
- **Binder** (`binder.dfy`, module `Binder`):
  - two-way binding configuration (the bound property, the `prop | model` split, configuration errors);
  - the data-to-input and input-to-data rules, with bound arrays updated in place (class `BoundArray`);
  - the one-way placeholder setter;
  - the `binds` watch list and its liveness sweep (class `Binder`).
- **Keyed store** (`data_store.dfy`, module `DataStore`): the three
  dictionaries `wait`, `data` and `req`, with `set`, `get` (read-once) and
  `unset`.
- **Instance** (`bouer.dfy`, module `Bouer`):
  - the selector check and the default delimiter list;
  - the `$data`, `$req` and `$wait` facades;
  - the `refs` table, where the first key wins;
  - `set`, which moves properties onto a target and keeps the target's watches;
  - delegation of `on`, `off` and `emit` to the registry.
- `common.dfy` (module `Common`) holds the shared vocabulary:
  - dynamic values, node tokens and log records;
  - JavaScript-style `trim`, `split` and `join`, with their round trips;
  - an order-preserving filter.

Interfaces to the world are parameters:

- the JavaScript engine: a function from wrapper text, global table, `this` and arguments to a value or a throw, together with the global table the run leaves;
- the document's `querySelector`: a function from selector to an optional node;
- `isConnected`: a predicate on node tokens;
- the native-event test `'on' + name in input`: a predicate on names;
- whatever `typeof` gives for a bound element property: a `PropKind`;
- `toStr`, the stringification of objects: a function;
- the reactive properties an evaluation read: a sequence of watch identities.

Logger calls are recorded as `(level, subject)` pairs.

## Model

| member | source | states |
|---|---|---|
| Evaluator.Extras | src/core/Evaluator.ts:63 | the extras hold `aditional`'s keys plus `$root` and `$mixin`; `$root` carries the instance's data and `$mixin` the `Extend.mixin` helper; every other key keeps `aditional`'s value |
| Evaluator.ComposedScope | src/core/Evaluator.ts:63-76 | the scope's keys are the union of extras, local and global keys; local data wins; extras survive where local data is silent; global data only fills keys neither defines |
| Evaluator.ShadowWarnings | src/core/Evaluator.ts:69-72 | at most one warning per global key, each a warning about a key the local scope defines |
| Evaluator.ShadowWarningsExact | src/core/Evaluator.ts:69-74 | a warning names key k exactly when k is a global key that the local scope already defines |
| Evaluator.WrapperText | src/core/Evaluator.ts:95-96 | the `exec` wrapper starts with the strict-mode head, holds the expression verbatim after the mode keyword and a space, and ends with the `apply` tail |
| Evaluator.RawWrapperText | src/core/Evaluator.ts:43 | the `execRaw` wrapper is `(function(){ `, the expression verbatim, then ` }).apply(this, arguments)` |
| Evaluator.UnwrapWrapperText | src/core/Evaluator.ts:95-96 | the wrapper text keeps the expression verbatim; it is in statement mode exactly when `isReturn === false`, and in return mode when the flag is undefined |
| Evaluator.ExecRaw | src/core/Evaluator.ts:40-48 | `execRaw` never propagates an error; it logs at most one record, and exactly one error when the engine throws; `this` is the context when it is truthy, otherwise the instance |
| Evaluator.CopyLocal | src/core/Evaluator.ts:65-67 | the local-data loop leaves extras overridden by every local key |
| Evaluator.FillGlobal | src/core/Evaluator.ts:69-74 | the global-data loop adds exactly the global keys the scope lacks, and logs the shadowing warnings in key order |
| Evaluator.FilledAll | src/core/Evaluator.ts:69-74 | once every global key has been read, the scope the loop built is the local scope plus exactly the global entries it lacks |
| Evaluator.ComposeScope | src/core/Evaluator.ts:63-74 | both loops together compute the composed scope and its warnings |
| Evaluator.Sandbox.Spread | src/core/Evaluator.ts:80-91 | afterwards the global table holds every scope key with the scope's value, and nothing else changed |
| Evaluator.Sandbox.Teardown | src/core/Evaluator.ts:103 | afterwards exactly the given keys are gone from the table |
| Evaluator.Sandbox.Exec | src/core/Evaluator.ts:50-105 | the engine sees the composed scope on the table and `this` bound to the context when it is truthy, otherwise the instance; the result is the returned value, or `undefined` when the engine throws; the log is the warnings plus one error on a throw; afterwards the table is the one the evaluation left minus every scope key, whichever way it ended, so only globals the expression itself wrote outside the scope survive |
| EventHandler.ParseDirective | src/core/event/EventHandler.ts:66-69 | the event name and the modifiers contain no `.`; joined with `.` they give back the name after the prefix |
| EventHandler.ParseDirectiveOfJoin | src/core/event/EventHandler.ts:66-69 | parsing `prefix + name.mod1.mod2…` recovers the name and the modifiers in order |
| EventHandler.ListenerOptions | src/core/event/EventHandler.ts:105-111 | the options are exactly the modifiers that lower-case to `capture`, `once` or `passive` |
| EventHandler.Registered | src/core/event/EventHandler.ts:140-143 | `on` creates the list if it is absent and appends the subscription at its end; other names' lists are unchanged |
| EventHandler.Swept | src/core/event/EventHandler.ts:198-202 | a sweep keeps every name and never lengthens a list |
| EventHandler.KeptByOffAsWritten | src/core/event/EventHandler.ts:157-162 | as written: with a node, an entry is kept exactly when it is attached to that node; without a node, an entry of the name whose stored wrapper is the argument is removed, while entries of other names, and every entry when no callback is given, are kept |
| EventHandler.AfterOffAsWritten | src/core/event/EventHandler.ts:150-162 | as written, `off` filters only the named list: every name stays, other lists are unchanged, and nothing is added |
| EventHandler.SweptExact | src/core/event/EventHandler.ts:196-205 | after a sweep every name is still present; a subscription survives exactly when it was there and has no node or a connected one |
| EventHandler.SweptIdempotent | src/core/event/EventHandler.ts:198-202 | a second sweep with the same liveness changes nothing |
| EventHandler.OffAsWrittenWithNode | src/core/event/EventHandler.ts:157-160 | as written, `off` with a node keeps exactly the entries attached to that node |
| EventHandler.OffAsWrittenKeepsListener | src/core/event/EventHandler.ts:157-162 | as written, `off` with the function that was given to `on` removes nothing, because the list stores wrappers |
| EventHandler.OffAsWrittenByWrapper | src/core/event/EventHandler.ts:157-162 | as written, `off` without a node keeps exactly the entries whose stored wrapper is not the argument |
| EventHandler.OnThenOffByWrapper | src/core/event/EventHandler.ts:127-162 | as written, passing back the wrapper that `on` returned removes that subscription |
| EventHandler.KeptByOff | src/core/event/EventHandler.ts:147-163 | intended filter: with a node, that node's entries go; without one, the entries registered with the argument or holding it as their wrapper go; no callback and no node keeps all |
| EventHandler.AfterOff | src/core/event/EventHandler.ts:147-163 | intended `off` filters only the named list: every name stays, other lists are unchanged, and nothing is added |
| EventHandler.OffExact | src/core/event/EventHandler.ts:147-163 | intended `off`: an unknown name is a no-op and other names are untouched; with a node it drops that node's entries; otherwise it drops exactly the entries registered for the callback or holding it as their wrapper |
| EventHandler.OnThenOff | src/core/event/EventHandler.ts:127-162 | `on` then `off` with the same function: the subscription survives as written and is removed by the intended version; the intended version also removes it by its returned wrapper |
| EventHandler.NodeDispatches | src/core/event/EventHandler.ts:181-184 | with a node, every dispatch is an event on that node, at most one per entry |
| EventHandler.NodeDispatchesExact | src/core/event/EventHandler.ts:181-184 | with a node, the dispatches are exactly the entries attached to it, in list order, each on the node with that entry's callback |
| EventHandler.AllDispatches | src/core/event/EventHandler.ts:186-190 | without a node there is one dispatch per entry, in order: on the entry's node if it has one, otherwise a direct call |
| EventHandler.EventHandler.On | src/core/event/EventHandler.ts:119-145 | the subscription carries a fresh wrapper bound to the context when it is truthy, otherwise the instance, and is appended to its name's list |
| EventHandler.EventHandler.Off | src/core/event/EventHandler.ts:147-163 | the registry becomes the intended `off` of the old registry |
| EventHandler.EventHandler.Handle | src/core/event/EventHandler.ts:56-117 | a missing owner element or an empty trimmed expression logs an error and registers nothing; otherwise a non-native event is registered on the owner element with the parsed name and options |
| EventHandler.EventHandler.Emit | src/core/event/EventHandler.ts:165-194 | an unknown name is a no-op; with a node, only that node's entries are dispatched and nothing is removed; without a node and without `once`, every entry is dispatched in order; in every case other names are untouched, nothing is added, and entries with a node are never removed |
| EventHandler.EventHandler.Cleanup | src/core/event/EventHandler.ts:196-205 | the registry becomes one sweep of the old registry |
| Binder.PropertyToBind | src/core/binder/Binder.ts:72-77 | the bare directive binds the input-type table's property for the element's `type` or else its tag name; `e-bind:x` binds something exactly when the name has a `:`, and the result contains no `:` |
| Binder.DefaultProperty | src/core/binder/Binder.ts:29-34 | checkboxes and radios bind `checked`, number inputs `valueAsNumber`, and every other key `value` |
| Binder.PropertyToBindNamed | src/core/binder/Binder.ts:76 | `e-bind:<prop>` (optionally followed by `:…`) binds `<prop>` |
| Binder.ParseBindValue | src/core/binder/Binder.ts:81-92 | a model, when there is one, is never empty |
| Binder.ParseBindValueOf | src/core/binder/Binder.ts:81-92 | for a property and a model joined by a vertical bar, part 0 is the trimmed property; a non-blank part 1 is the trimmed model; a blank part 1 falls back to the quoted trimmed `value` attribute when that is not blank, and to no model otherwise |
| Binder.ParseBindValueBare | src/core/binder/Binder.ts:89-92 | with no vertical bar, the model is the quoted trimmed `value` attribute when that is not blank, and none otherwise |
| Binder.BindError | src/core/binder/Binder.ts:94-104 | an error is raised exactly for an array binding with no model that is not a select-multiple; a single select gets its own message |
| Binder.DisplayValue | src/core/binder/Binder.ts:129 | what is written is never an object, null or undefined: null and undefined become `''`, an object its stringified text, and any other value is written unchanged |
| Binder.ResetValue | src/core/binder/Binder.ts:118-122 | the reset value is falsy and not nullish (`false`, `0` or `''` by kind) |
| Binder.IndexOf | src/core/binder/Binder.ts:117 | `indexOf` is -1 exactly for an absent value; otherwise it is the first index holding the value |
| Binder.ToInput | src/core/binder/Binder.ts:106-130 | a configuration error writes nothing (the error record it logs is the one Binder.BindError gives); a plain binding writes the display value; a select-multiple marks exactly the options whose trimmed value is in the array; a checkbox array resets the control by kind when the cached model value is absent, and writes nothing otherwise |
| Binder.ToInputBeforeFirstInput | src/core/binder/Binder.ts:117-122 | before any input-to-data update the cached model value (declared at line 84) is `undefined`, so a checkbox array resets the control even when the model's value is in the array |
| Binder.SelectedValues | src/core/binder/Binder.ts:135-139 | the collected values are at most one per option |
| Binder.SelectedValuesComplete | src/core/binder/Binder.ts:135-139 | every selected option's trimmed value is collected |
| Binder.SelectedValuesSound | src/core/binder/Binder.ts:135-139 | only selected options' trimmed values are collected |
| Binder.SelectRoundTrip | src/core/binder/Binder.ts:111-142 | for a select-multiple, data to input then back keeps exactly the array values that some option offers |
| Binder.SpliceOne | src/core/binder/Binder.ts:149 | `splice(start, 1)` with a start in range removes that element; a start past the end changes nothing |
| Binder.Toggled | src/core/binder/Binder.ts:146-149 | a truthy input appends the model value; a falsy one removes exactly one element of a non-empty array |
| Binder.UncheckRemovesModel | src/core/binder/Binder.ts:146-149 | unchecking removes exactly one occurrence of a present model value |
| Binder.UncheckAbsentDropsLast | src/core/binder/Binder.ts:149 | unchecking an absent model value drops the array's last element (`splice(-1, 1)`) |
| Binder.CheckThenUncheck | src/core/binder/Binder.ts:146-149 | checking then unchecking an absent model value restores the array |
| Binder.BoundArray.ReplaceWithSelected | src/core/binder/Binder.ts:134-142 | the array afterwards holds the selected options' trimmed values, in option order |
| Binder.BoundArray.Toggle | src/core/binder/Binder.ts:145-150 | a truthy input appends the model value; a falsy one splices at its index |
| Binder.FromInput | src/core/binder/Binder.ts:88-155 | a configuration error is logged and writes nothing; a plain binding sets the bound property of the data; an array binding is updated in place and the data object is not reassigned; a checkbox array fills the model cache only while it is falsy and toggles the cached value |
| Binder.ReplaceFirstAt | src/core/binder/Binder.ts:222 | replacing with a string pattern changes exactly its first occurrence |
| Binder.ReplaceFirstAbsent | src/core/binder/Binder.ts:222 | a text without the pattern is unchanged |
| Binder.ReplaceFirst | src/core/binder/Binder.ts:222 | a string-pattern replace leaves a text without the pattern unchanged, and otherwise trades one pattern's length for the replacement's (Binder.ReplaceFirstAt says which occurrence) |
| Binder.TextOf | src/core/binder/Binder.ts:221-222 | null and undefined results give the empty text; strings are used as they are |
| Binder.Substituted | src/core/binder/Binder.ts:205-226 | a definition, with no contract of its own: the setter's text is folded over the fields in order, each field's first placeholder occurrence in the earlier fields' text being replaced by its result's text. Binder.Setter is proved equal to it, and Binder.SubstitutedOne and Binder.SubstitutedUntouched state what it yields |
| Binder.SubstitutedUntouched | src/core/binder/Binder.ts:220-221 | a template holding none of the placeholders comes out unchanged, whatever the fields evaluate to |
| Binder.SubstitutedOne | src/core/binder/Binder.ts:220-221 | one field whose placeholder first occurs at `i`: exactly that occurrence is replaced by its result's text (`null`/`undefined` as `''`), and the text around it is kept |
| Binder.Setter | src/core/binder/Binder.ts:205-226 | the text is the template with each field's placeholder replaced, left to right, by its result's text; the HTML flag is set exactly when some field uses the `html` delimiter |
| Binder.OneWayAttribute | src/core/binder/Binder.ts:195-196 | an `e-<name>` directive writes `<name>` exactly when it has the prefix and `eReplace` is absent |
| Binder.WatchOf | src/core/binder/Binder.ts:256-266 | `watch` yields a watch exactly when a property was read; it is the last property read and has no node |
| Binder.SweepPartition | src/core/binder/Binder.ts:270-279 | kept and destroyed binds together are the old binds, each as often as before, and no kept bind is destroyed |
| Binder.Binder.Track | src/core/binder/Binder.ts:159-164 | one watch on the bound node is appended per captured property, in order; earlier binds are untouched |
| Binder.Binder.Cleanup | src/core/binder/Binder.ts:269-280 | afterwards `binds` is the binds with no node or a connected node, in order; the destroyed ones are the others, in order |
| DataStore.DataStore.Set | src/core/store/DataStore.ts:20-23 | the `wait` bucket is refused with a warning and nothing changes; any other bucket maps the key to the value, overwriting, and the other buckets are untouched |
| DataStore.DataStore.Get | src/core/store/DataStore.ts:25-29 | the result is what the bucket held under the key; with `once === true` the key is gone afterwards, otherwise nothing changes |
| DataStore.DataStore.Unset | src/core/store/DataStore.ts:31-33 | only the one key of the one bucket is removed |
| DataStore.DataStore.SetThenGet | src/core/store/DataStore.ts:20-29 | `set` then `get` on `data` or `req` returns the value just stored |
| Bouer.CheckSelector | src/instance/Bouer.ts:183-184 | the selector is refused exactly when it is missing or all white space |
| Bouer.WithDefaults | src/instance/Bouer.ts:219-223 | the user's delimiters come first, in order, followed by `common` `{{ }}` and then `html` `{{:html }}` |
| Bouer.WaitGetAsWritten | src/instance/Bouer.ts:260-270 | as written, every non-empty key yields `undefined` and changes nothing |
| Bouer.WaitLookup | src/instance/Bouer.ts:263-269 | the lines after the guard: a missing key yields `undefined`; a stored entry yields its data and survives exactly when its flag is explicitly false |
| Bouer.WaitGetResult | src/instance/Bouer.ts:260-270 | intended `$wait.get`: an empty or missing key yields `undefined`; a stored entry yields its data and is removed unless its flag is explicitly false |
| Bouer.WaitSetResult | src/instance/Bouer.ts:271-296 | a new key gets `{data, nodes: [], once: once ?? false}`; an existing key gets its data replaced, its waiting nodes recompiled, and is removed when `once` is true; no other key changes |
| Bouer.WaitSetThenGet | src/instance/Bouer.ts:259-298 | with the intended guard, data set for a new key is what `get` returns, and the entry outlives the read exactly when `once` was not true |
| Bouer.WaitSetThenGetAsWritten | src/instance/Bouer.ts:261 | as written, the same sequence yields `undefined` instead of the data |
| Bouer.RefKey | src/instance/Bouer.ts:315 | an element's key is its trimmed ref value when that is not blank, else its name; it is empty exactly when both are |
| Bouer.RefTable | src/instance/Bouer.ts:312-326 | the table never has the empty key |
| Bouer.RefLog | src/instance/Bouer.ts:312-326 | at most one record per element, each an error or a warning |
| Bouer.RefTableComplete | src/instance/Bouer.ts:312-328 | every element with a non-empty key (trimmed ref value, else name) is in `refs` |
| Bouer.RefTableSound | src/instance/Bouer.ts:312-328 | every key of `refs` is some element's non-empty key |
| Bouer.RefTableFirstWins | src/instance/Bouer.ts:322-325 | the first element with a key is the one stored under it |
| Bouer.RefTableAccounts | src/instance/Bouer.ts:313-326 | the table entries and the log records together number the elements: each element is stored or logged, never both and never twice |
| Bouer.RefLogKeyless | src/instance/Bouer.ts:315-320 | an element with no key is logged as an error under its name |
| Bouer.RefLogTaken | src/instance/Bouer.ts:322-323 | an element whose key an earlier element took is logged as a warning under that key |
| Bouer.Refs | src/instance/Bouer.ts:311-329 | the getter's loop computes that table and that log |
| Bouer.WatchUnion | src/instance/Bouer.ts:447-450 | the source property's own watches stay first, in order |
| Bouer.WatchUnionMembers | src/instance/Bouer.ts:447-450 | the merged list holds exactly the watches of either list |
| Bouer.WatchUnionDistinct | src/instance/Bouer.ts:447-450 | merging introduces no duplicates |
| Bouer.WatchUnionIdempotent | src/instance/Bouer.ts:447-450 | merging the same destination again changes nothing |
| Bouer.MergeWatches | src/instance/Bouer.ts:447-450 | the merge loop computes that list |
| Bouer.Transferred | src/instance/Bouer.ts:443-450 | the moved property keeps the input's value; with no earlier target property it is the input's property itself (Bouer.WatchUnion orders the merged watches) |
| Bouer.TransferredKeepsWatches | src/instance/Bouer.ts:443-450 | after one key moves, its property is watched by every watch of the input property and of the target's earlier property |
| Bouer.Bouer.Set | src/instance/Bouer.ts:405-456 | non-object input is refused with an error and the target is untouched; otherwise the target gains every input key, each input key holds the moved property with merged watches, and every other key is untouched |
| Bouer.Bouer.Transfer | src/instance/Bouer.ts:443-450 | one key moves onto the target, merging watches when the target had that key |
| Bouer.Bouer.New | src/instance/Bouer.ts:183-189 | an instance is created exactly when the selector passes the check and the document has an element matching it; each refusal carries its own message; the instance controls the matched element |
| Bouer.Bouer.DataGet | src/instance/Bouer.ts:241 | an empty key yields null; otherwise the stored data, or `undefined` for a missing key |
| Bouer.Bouer.DataSet | src/instance/Bouer.ts:242-252 | an existing key is logged and not overwritten; otherwise the key maps to the data and the other buckets are untouched |
| Bouer.Bouer.DataUnset | src/instance/Bouer.ts:253 | removes the key from `data` only, and reports true |
| Bouer.Bouer.ReqGet | src/instance/Bouer.ts:256 | an empty or missing key yields `undefined`; otherwise the stored request data |
| Bouer.Bouer.ReqUnset | src/instance/Bouer.ts:257 | removes the key from `req` only, and reports true |
| Bouer.Bouer.WaitGet | src/instance/Bouer.ts:260-270 | the `wait` bucket and the result follow the intended `$wait.get`; the other buckets are untouched |
| Bouer.Bouer.WaitSet | src/instance/Bouer.ts:271-296 | the `wait` bucket and the recompiled nodes follow `$wait.set`; the other buckets are untouched |
| Bouer.Bouer.WaitUnset | src/instance/Bouer.ts:297 | removes the key from `wait` only, and reports true |
| Bouer.Bouer.On | src/instance/Bouer.ts:519-541 | registers on the instance's registry with the instance as context |
| Bouer.Bouer.Off | src/instance/Bouer.ts:549-560 | the registry becomes the intended `off` of the old one |
| Bouer.Bouer.Emit | src/instance/Bouer.ts:577-593 | emits with the options' element as the attached node, with the registry's guarantees: an unknown name is a no-op; with an element only its entries are dispatched and nothing changes; without `once` every entry is dispatched in order; the names stay, other lists are untouched, nothing is added and entries with a node survive |

## Left out

- DOM work is not modelled (`querySelector` for the instance element is the `query` parameter of Bouer.Bouer.New):
  - `addEventListener` and `dispatchEvent`;
  - `removeAttribute` and `setAttribute`;
  - `querySelector` and `querySelectorAll` (the `refs` elements are a parameter). In the source a syntactically invalid selector makes `querySelector` throw; the total `query` of Bouer.Bouer.New turns that case into the not-found refusal;
  - the hidden iframe (src/core/Evaluator.ts:27-38);
  - building and compiling HTML snippets (src/core/binder/Binder.ts:231-238).

  None of these is visible here beyond the tokens, predicates and returned values named above.
- The JavaScript engine (`Function(...).apply`) is an oracle. It is foreign, dynamic code.
- Timers are not modelled: the `taskRunner` intervals, the `lazy` debounce and `beforeunload`. Each sweep is modelled as one pass, not its recurrence.
- `Reactive`, `ReactiveEvent`, `Watch`, `Extend`, `Prop`, `IoC` and `Utils` are not part of this model, because their bodies are not available:
  - an `AfterGet` capture is a given sequence of watch identities;
  - `Reactive.transform` (including `$data.set`'s `toReactive`) is not modelled;
  - `notify` is not modelled;
  - `destroy()` is represented by the list of destroyed binds.
- JavaScript `in` and `[]` also find inherited properties such as `toString` or `constructor`. The model uses plain map membership, so keys that name such a property behave like any other key. This affects:
  - `key in dataToUse` (src/core/Evaluator.ts:70);
  - `$data.get` (src/instance/Bouer.ts:241);
  - `$data.set` (src/instance/Bouer.ts:243);
  - `$wait.set` (src/instance/Bouer.ts:272);
  - `refs` (src/instance/Bouer.ts:322);
  - the store's `get` (src/core/store/DataStore.ts:26);
  - the registry lookups `this.$events[eventName]` (src/core/event/EventHandler.ts:140, 154, 167). For example, in the source `on` for the name `constructor` finds `Object` and fails on `push`, while the model appends.
- Evaluator.ExecRaw: it runs in the main window, whose global table is not modelled. The table its run leaves is discarded.
- Evaluator.Sandbox.Exec:
  - The engine's run is an oracle that also returns the global table it leaves. The globals an expression writes are therefore whatever that oracle says; the contract ties the final table to it, and the old-table equation holds only for runs that leave the spread table as they found it.
  - It does not model the special handling of non-configurable global properties (src/core/Evaluator.ts:83-88). Descriptors are not modelled.
  - As in the source, a global of the same name is deleted by the spread and not restored by the teardown.
- Common.Trim: white space is space, tab, line feed, carriage return, form feed and vertical tab. The other Unicode spaces JavaScript trims are not included. Common.ToLower folds ASCII letters only.
- Common.Value: numbers are integers. Floating point, `NaN` and `valueAsNumber`'s fractional values are not modelled.
- Binder.ReplaceFirstAt: the `$&` / `$1` replacement patterns of `String.prototype.replace` are not modelled. The replacement text is inserted verbatim.
- Binder.Setter:
  - the delimiter `action` hook (src/core/binder/Binder.ts:224-225) is not modelled, since it is user code;
  - the HTML branch is reported through the flag only;
  - the template is the trimmed attribute value that `create` captured.
- Binder.FromInput: evaluating the model expression is the `evaluated` parameter. The cache `bindModelValue` (src/core/binder/Binder.ts:84, 145) is the `ModelCache` object. Binder.ToInput reads its value.
- Binder.ToInput: `typeof ownerElement[prop]` is the `PropKind` parameter.
- Other parts of `create` are not modelled: attaching input listeners (src/core/binder/Binder.ts:175-184) and the returned `propertyBindConfig` record.
- EventHandler.EventHandler.Emit and Bouer.Bouer.Emit: the case `once === true` without a node is not fully stated. For it, the contracts only say:
  - no new entry appears;
  - entries with a node all stay;
  - other names are untouched.

  The model splices while walking the live list by index, like a native `forEach`. The shown source does not fix `Utils.forEach`'s iteration order under mutation. Which direct entries go therefore depends on that hidden helper.
- EventHandler.EventHandler.Emit and Bouer.Bouer.Emit: direct callbacks are assumed to return normally. In the source, the call at src/core/event/EventHandler.ts:190 is not inside a `try`, so a throwing listener ends `emit`: later entries are not dispatched, and a `once` entry is not spliced. The model always dispatches every entry. A listener on a node cannot cut the walk short this way, because `dispatchEvent` reports the exception instead of rethrowing it. The model's callbacks are tokens, so this error path is not captured.
- EventHandler.EventHandler.Handle:
  - the modifier functions invoked on the event (src/core/event/EventHandler.ts:79-85) are not modelled;
  - neither is the evaluation done when the event fires;
  - the handler is an identity token.
- EventHandler.EventHandler.Off and Bouer.Bouer.Off use the intended filter, listed under Findings. The code as written is EventHandler.AfterOffAsWritten. The intended filter keeps the as-written removal by the wrapper `on` returned.
- Bouer.Bouer.WaitGet follows the corrected guard, listed under Findings. The code as written is Bouer.WaitGetAsWritten.
- Bouer.Bouer.Set:
  - the `targetObject == null` check (src/instance/Bouer.ts:415-418) is not modelled. The target here is always an object;
  - the input object is a map of values, so aliasing is not captured. In the source the merged watches are pushed onto the input's own reactive property (src/instance/Bouer.ts:447-449). After `Prop.transfer` (src/instance/Bouer.ts:443) the target's key holds that same property, so the input object sees the merged watches too. The model records only the target's new cell.
- Bouer.WithDefaults: the source pushes the defaults into the caller's own array in place. The model returns a new sequence, so aliasing is not captured.
- Bouer.Bouer.WaitSet:
  - the new entry's `context` field is not modelled;
  - neither is the value returned by the first branch;
  - recompilation of the waiting nodes is reported as the list of nodes.
- `Bouer.watch` (src/instance/Bouer.ts:491-499) delegates to `Binder.onPropertyChange`, which is not part of this model. `Binder.watch` is modelled as Binder.WatchOf.
- Binder.WatchOf: in the source every `AfterGet` emitted while reading the property creates a live watch (src/core/binder/Binder.ts:261), and only the last is returned. The model keeps only the returned one and forgets the earlier watches.
- Other `Bouer` members are glue and not modelled: `toJsObj`, `react`, `unbind`, routing, components, skeleton, middleware, lifecycle hooks and `destroy`.
- Logger messages are abstracted to a level and the key or name they report.

## Findings

| source | as written | input that shows it | evidently intended | confidence | as-written member | corrected member |
|---|---|---|---|---|---|---|
| src/instance/Bouer.ts:261 | `$wait.get` returns `undefined` when the key is truthy, so no stored entry is ever read | `$wait.set('k', d)` then `$wait.get('k')` gives `undefined` instead of `d` | return `undefined` only for a falsy key | high (not executed) | Bouer.WaitSetThenGetAsWritten | Bouer.WaitGetResult |
| src/core/event/EventHandler.ts:161 | `off` compares the argument with the stored wrapper built at line 129, never with the function given to `on` | `on({eventName: 'x', callback: f})` then `off({eventName: 'x', callback: f})` leaves the subscription registered | remove the subscriptions registered with that function (and, as now, those whose returned wrapper is passed back) | high (not executed) | EventHandler.OnThenOff | EventHandler.OffExact |
| src/core/event/EventHandler.ts:158-159 | `off` with a node keeps only the entries attached to that node and removes all others | subscriptions on nodes n and m, then `off({eventName, attachedNode: n})` removes m's and keeps n's | remove the entries attached to the given node | medium (not executed) | EventHandler.OffAsWrittenWithNode | EventHandler.OffExact |
