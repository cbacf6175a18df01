/** The instance: its construction checks, the default delimiters, the
    `$data` / `$req` / `$wait` facades over the keyed store, the `refs`
    table, the watch-preserving `set`, and the event delegation. */
module Bouer {
  import opened Common
  import DS = DataStore
  import EH = EventHandler

  // ------------------------------------------------------------ construction

  /** A missing selector, or one that is blank once trimmed, is refused. */
  function CheckSelector(selector: Option<string>): (r: Result<string>)
    ensures r.Failure? <==> selector.None? || forall i :: 0 <= i < |selector.value| ==> IsSpace(selector.value[i])
    ensures r.Ok? ==> r.value == selector.value
  {
    TrimBounds(selector.GetOr(""));
    if selector.None? || Trim(selector.value) == "" then Failure("Invalid selector provided to the instance.")
    else Ok(selector.value)
  }

  /** The error raised when no element matches the selector. */
  function NotFoundMessage(selector: string): string {
    "Element with selector \U{201C}" + selector + "\U{201D} not found."
  }

  /** A placeholder delimiter. */
  datatype Delimiter = Delimiter(name: string, open: string, close: string)

  const CommonDelimiter := Delimiter("common", "{{", "}}")
  const HtmlDelimiter := Delimiter("html", "{{:html ", "}}")

  /** The user's delimiters keep their order and come first; the two
      built-in ones follow, `common` before `html`. */
  function WithDefaults(user: seq<Delimiter>): (r: seq<Delimiter>)
    ensures |r| == |user| + 2
    ensures r[..|user|] == user
    ensures r[|user|] == CommonDelimiter && r[|user| + 1] == HtmlDelimiter
  {
    user + [CommonDelimiter, HtmlDelimiter]
  }

  // ------------------------------------------------------------ the $wait facade

  /** `$wait.get` as written: the guard returns `undefined` for every
      non-empty key, so only the empty key ever reaches the lookup. */
  function WaitGetAsWritten(wait: map<string, DS.WaitEntry>, key: string): (r: (Value, map<string, DS.WaitEntry>))
    ensures key != "" ==> r == (Undefined, wait)
  {
    if key != "" then (Undefined, wait) else WaitLookup(wait, key)
  }

  /** Lines after the guard: a missing entry gives `undefined`; a found one
      gives its data and is removed unless its flag is explicitly false. */
  function WaitLookup(wait: map<string, DS.WaitEntry>, key: string): (r: (Value, map<string, DS.WaitEntry>))
    ensures key !in wait ==> r == (Undefined, wait)
    ensures key in wait ==> r.0 == wait[key].data && (key in r.1 <==> wait[key].once == Some(false))
    ensures r.1 == wait || r.1 == wait - {key}
  {
    if key !in wait then (Undefined, wait)
    else (wait[key].data, if wait[key].once.GetOr(true) then wait - {key} else wait)
  }

  /** `$wait.get` as evidently intended: an empty key gives `undefined`; a
      stored entry is delivered, and kept for a later read only when it was
      stored with `once` false. */
  function WaitGetResult(wait: map<string, DS.WaitEntry>, key: string): (r: (Value, map<string, DS.WaitEntry>))
    ensures key == "" || key !in wait ==> r == (Undefined, wait)
    ensures key != "" && key in wait ==> r.0 == wait[key].data
    ensures r.1 == wait || r.1 == wait - {key}
    ensures key != "" && key in wait ==> (key in r.1 <==> wait[key].once == Some(false))
  {
    if key == "" then (Undefined, wait) else WaitLookup(wait, key)
  }

  /** `$wait.set`: a new key gets an entry with no waiting nodes and the flag
      `once ?? false`; an existing key gets its data replaced, its waiting
      nodes are recompiled (returned here), and with `once` true the entry is
      then removed. No other key changes. */
  function WaitSetResult(wait: map<string, DS.WaitEntry>, key: string, data: Value, once: Option<bool>)
    : (r: (map<string, DS.WaitEntry>, seq<Node>))
    ensures key !in wait ==> r.0 == wait[key := DS.WaitEntry(data, [], Some(once.GetOr(false)))] && r.1 == []
    ensures key in wait ==> r.1 == wait[key].nodes
    ensures key in wait && once == Some(true) ==> key !in r.0
    ensures key in wait && once != Some(true) ==> key in r.0 && r.0[key] == wait[key].(data := data)
    ensures forall k :: k != key ==> (k in r.0 <==> k in wait) && (k in wait ==> r.0[k] == wait[k])
  {
    if key !in wait then (wait[key := DS.WaitEntry(data, [], Some(once.GetOr(false)))], [])
    else
      var entry := wait[key].(data := data);
      (if once.GetOr(false) then wait - {key} else wait[key := entry], wait[key].nodes)
  }

  /** Data delivered with `$wait.set` for a new key is what `$wait.get`
      returns for it; the entry outlives the read only when `once` was
      not true. */
  lemma WaitSetThenGet(wait: map<string, DS.WaitEntry>, key: string, data: Value, once: Option<bool>)
    requires key != "" && key !in wait
    ensures var w := WaitSetResult(wait, key, data, once).0;
            && WaitGetResult(w, key).0 == data
            && (key in WaitGetResult(w, key).1 <==> once != Some(true))
  {
    var w := WaitSetResult(wait, key, data, once).0;
    assert w[key].once == Some(once.GetOr(false));
  }

  /** As written, the same sequence yields `undefined`. */
  lemma WaitSetThenGetAsWritten(wait: map<string, DS.WaitEntry>, key: string, data: Value, once: Option<bool>)
    requires key != "" && key !in wait && data != Undefined
    ensures WaitGetAsWritten(WaitSetResult(wait, key, data, once).0, key).0 == Undefined
    ensures WaitGetAsWritten(WaitSetResult(wait, key, data, once).0, key).0
            != WaitGetResult(WaitSetResult(wait, key, data, once).0, key).0
  {
    WaitSetThenGet(wait, key, data, once);
  }

  // ------------------------------------------------------------ refs

  /** An element carrying the ref attribute: its attribute value, its
      `name` (empty when absent) and its node. */
  datatype RefElement = RefElement(refValue: string, name: string, node: Node)

  /** The key of an element: its trimmed ref value, else its name. */
  function RefKey(e: RefElement): (k: string)
    ensures Trim(e.refValue) != "" ==> k == Trim(e.refValue)
    ensures k == "" <==> Trim(e.refValue) == "" && e.name == ""
  {
    var t := Trim(e.refValue);
    if t != "" then t else e.name
  }

  /** The `refs` table built from the elements in document order. */
  function RefTable(elements: seq<RefElement>): (table: map<string, Node>)
    ensures "" !in table
  {
    if elements == [] then map[]
    else
      var table := RefTable(elements[..|elements| - 1]);
      var e := elements[|elements| - 1];
      var k := RefKey(e);
      if k == "" || k in table then table else table[k := e.node]
  }

  /** What building the table logs: an error for an element without a key,
      a warning for a key already taken. */
  function RefLog(elements: seq<RefElement>): (log: seq<Log>)
    ensures |log| <= |elements|
    ensures forall i :: 0 <= i < |log| ==> log[i].level == ErrorLevel || log[i].level == WarnLevel
  {
    if elements == [] then []
    else
      var init := elements[..|elements| - 1];
      var e := elements[|elements| - 1];
      var k := RefKey(e);
      RefLog(init) + (if k == "" then [Log(ErrorLevel, e.name)]
                      else if k in RefTable(init) then [Log(WarnLevel, k)] else [])
  }

  /** A key already in the table keeps its node when one more element is read. */
  lemma RefTableKeeps(elements: seq<RefElement>, k: string)
    requires elements != [] && k in RefTable(elements[..|elements| - 1])
    ensures k in RefTable(elements) && RefTable(elements)[k] == RefTable(elements[..|elements| - 1])[k]
  {
  }

  /** An element with a non-empty key always lands in the table. */
  lemma {:induction false} RefTableComplete(elements: seq<RefElement>, i: nat)
    requires i < |elements| && RefKey(elements[i]) != ""
    ensures RefKey(elements[i]) in RefTable(elements)
  {
    var init := elements[..|elements| - 1];
    var k := RefKey(elements[i]);
    if i < |init| {
      assert init[i] == elements[i];
      RefTableComplete(init, i);
      RefTableKeeps(elements, k);
    } else {
      var table := RefTable(init);
      assert RefTable(elements) == if k in table then table else table[k := elements[i].node];
    }
  }

  /** Every key of the table is the non-empty key of some element, and the
      node stored under it is that of the first element with the key. */
  lemma {:induction false} RefTableSound(elements: seq<RefElement>, k: string) returns (i: nat)
    requires k in RefTable(elements)
    ensures i < |elements| && RefKey(elements[i]) == k && k != ""
    ensures RefTable(elements)[k] == elements[i].node
    ensures forall j :: 0 <= j < i ==> RefKey(elements[j]) != k
  {
    var init := elements[..|elements| - 1];
    if k in RefTable(init) {
      i := RefTableSound(init, k);
      RefTableKeeps(elements, k);
      assert forall j :: 0 <= j <= i ==> init[j] == elements[j];
    } else {
      i := |elements| - 1;
      forall j | 0 <= j < i ensures RefKey(elements[j]) != k {
        if RefKey(elements[j]) == k {
          assert init[j] == elements[j];
          RefTableComplete(init, j);
        }
      }
    }
  }

  /** The first element with a key wins: later duplicates do not replace it. */
  lemma RefTableFirstWins(elements: seq<RefElement>, i: nat)
    requires i < |elements| && RefKey(elements[i]) != ""
    requires forall j :: 0 <= j < i ==> RefKey(elements[j]) != RefKey(elements[i])
    ensures RefKey(elements[i]) in RefTable(elements)
    ensures RefTable(elements)[RefKey(elements[i])] == elements[i].node
  {
    RefTableComplete(elements, i);
    var first := RefTableSound(elements, RefKey(elements[i]));
  }

  /** Every element is either stored or logged, exactly once. */
  lemma {:induction false} RefTableAccounts(elements: seq<RefElement>)
    ensures |RefTable(elements)| + |RefLog(elements)| == |elements|
  {
    if elements != [] {
      RefTableAccounts(elements[..|elements| - 1]);
    }
  }

  /** An element without a key is logged as an error under its name. */
  lemma {:induction false} RefLogKeyless(elements: seq<RefElement>, i: nat)
    requires i < |elements| && RefKey(elements[i]) == ""
    ensures Log(ErrorLevel, elements[i].name) in RefLog(elements)
  {
    var init := elements[..|elements| - 1];
    if i < |init| {
      assert init[i] == elements[i];
      RefLogKeyless(init, i);
    }
  }

  /** An element whose key an earlier element already took is logged as a
      warning under that key. */
  lemma {:induction false} RefLogTaken(elements: seq<RefElement>, j: nat, i: nat)
    requires j < i < |elements| && RefKey(elements[i]) != "" && RefKey(elements[j]) == RefKey(elements[i])
    ensures Log(WarnLevel, RefKey(elements[i])) in RefLog(elements)
  {
    var init := elements[..|elements| - 1];
    assert init[j] == elements[j];
    if i < |init| {
      assert init[i] == elements[i];
      RefLogTaken(init, j, i);
    } else {
      RefTableComplete(init, j);
    }
  }

  /** The `refs` getter's loop. */
  method Refs(elements: seq<RefElement>) returns (refs: map<string, Node>, log: seq<Log>)
    ensures refs == RefTable(elements) && log == RefLog(elements)
  {
    refs := map[];
    log := [];
    for i := 0 to |elements|
      invariant refs == RefTable(elements[..i]) && log == RefLog(elements[..i])
    {
      var e := elements[i];
      assert elements[..i + 1][..i] == elements[..i];
      var key := RefKey(e);
      if key == "" {
        log := log + [Log(ErrorLevel, e.name)];
      } else if key in refs {
        log := log + [Log(WarnLevel, key)];
      } else {
        refs := refs[key := e.node];
      }
    }
    assert elements[..|elements|] == elements;
  }

  // ------------------------------------------------------------ set

  /** The source property's watch list after `set`: its own watches, then
      each destination watch it does not hold yet, in order. Watches are
      compared by identity. */
  function WatchUnion(src: seq<nat>, dst: seq<nat>): (r: seq<nat>)
    ensures |src| <= |r| && r[..|src|] == src
  {
    if dst == [] then src
    else
      var u := WatchUnion(src, dst[..|dst| - 1]);
      var w := dst[|dst| - 1];
      if w in u then u else u + [w]
  }

  lemma {:induction false} WatchUnionMembers(src: seq<nat>, dst: seq<nat>, w: nat)
    ensures w in WatchUnion(src, dst) <==> w in src || w in dst
  {
    if dst != [] {
      var init := dst[..|dst| - 1];
      WatchUnionMembers(src, init, w);
      assert dst == init + [dst[|dst| - 1]];
    }
  }

  /** The merge introduces no duplicates. */
  lemma {:induction false} WatchUnionDistinct(src: seq<nat>, dst: seq<nat>)
    requires Distinct(src)
    ensures Distinct(WatchUnion(src, dst))
  {
    if dst != [] {
      WatchUnionDistinct(src, dst[..|dst| - 1]);
    }
  }

  /** Merging the same destination twice changes nothing more. */
  lemma {:induction false} WatchUnionIdempotent(src: seq<nat>, dst: seq<nat>)
    ensures WatchUnion(WatchUnion(src, dst), dst) == WatchUnion(src, dst)
  {
    var u := WatchUnion(src, dst);
    forall w | w in dst ensures w in u {
      WatchUnionMembers(src, dst, w);
    }
    WatchUnionHolds(u, dst);
  }

  lemma {:induction false} WatchUnionHolds(src: seq<nat>, dst: seq<nat>)
    requires forall w :: w in dst ==> w in src
    ensures WatchUnion(src, dst) == src
  {
    if dst != [] {
      WatchUnionHolds(src, dst[..|dst| - 1]);
      assert dst[|dst| - 1] in dst;
    }
  }

  /** The merge loop of `set`. */
  method MergeWatches(src: seq<nat>, dst: seq<nat>) returns (merged: seq<nat>)
    ensures merged == WatchUnion(src, dst)
  {
    merged := src;
    for i := 0 to |dst|
      invariant merged == WatchUnion(src, dst[..i])
    {
      assert dst[..i + 1][..i] == dst[..i];
      if dst[i] !in merged {
        merged := merged + [dst[i]];
      }
    }
    assert dst[..|dst|] == dst;
  }

  /** A reactive property: its value and the identities of its watches. */
  datatype Cell = Cell(value: Value, watches: seq<nat>)

  /** An object whose reactive properties `set` writes in place. */
  class DataObject {
    var props: map<string, Cell>

    constructor (props: map<string, Cell>)
      ensures this.props == props
    {
      this.props := props;
    }
  }

  /** What `set` leaves under an input key: the input's property, carrying
      the target property's earlier watches as well. */
  function Transferred(target: map<string, Cell>, input: map<string, Cell>, k: string): (c: Cell)
    requires k in input
    ensures c.value == input[k].value
    ensures k !in target ==> c == input[k]
  {
    Cell(input[k].value, if k in target then WatchUnion(input[k].watches, target[k].watches) else input[k].watches)
  }

  /** Moving one key keeps every watch the target property had. */
  lemma TransferredKeepsWatches(target: map<string, Cell>, input: map<string, Cell>, k: string, w: nat)
    requires k in input
    ensures w in Transferred(target, input, k).watches <==>
              w in input[k].watches || (k in target && w in target[k].watches)
  {
    if k in target {
      WatchUnionMembers(input[k].watches, target[k].watches, w);
    }
  }

  // ------------------------------------------------------------ the instance

  class Bouer {
    const el: Node
    const instance: Value
    const store: DS.DataStore
    const events: EH.EventHandler

    ghost predicate Valid()
      reads events
    {
      events.Valid() && events.owner == instance
    }

    constructor (el: Node, instance: Value)
      ensures Valid() && fresh(store) && fresh(events) && this.el == el && this.instance == instance
      ensures store.wait == map[] && store.data == map[] && store.req == map[]
      ensures events.events == map[] && events.owner == instance
    {
      this.el := el;
      this.instance := instance;
      store := new DS.DataStore();
      events := new EH.EventHandler(instance);
    }

    /** The constructor's two refusals: a refused selector, then a selector
        no element matches. `query` is the document's `querySelector`. */
    static method New(selector: Option<string>, query: string -> Option<Node>, instance: Value) returns (r: Result<Bouer>)
      ensures r.Failure? <==> CheckSelector(selector).Failure? || query(selector.value).None?
      ensures CheckSelector(selector).Failure? ==> r == Failure("Invalid selector provided to the instance.")
      ensures CheckSelector(selector).Ok? && query(selector.value).None? ==>
                r == Failure(NotFoundMessage(selector.value))
      ensures r.Ok? ==> fresh(r.value) && r.value.Valid() && r.value.instance == instance
                        && r.value.el == query(selector.value).value
    {
      var checked := CheckSelector(selector);
      if checked.Failure? {
        return Failure(checked.reason);
      }
      var found := query(selector.value);
      if found.None? {
        return Failure(NotFoundMessage(selector.value));
      }
      var b := new Bouer(found.value, instance);
      return Ok(b);
    }

    /** `$data.get`: an empty key gives null, a missing key undefined. */
    method DataGet(key: string) returns (v: Value)
      ensures key == "" ==> v == Null
      ensures key != "" && key in store.data ==> v == store.data[key]
      ensures key != "" && key !in store.data ==> v == Undefined
    {
      if key == "" {
        return Null;
      }
      v := if key in store.data then store.data[key] else Undefined;
    }

    /** `$data.set`: an existing key is logged and kept; otherwise the
        store's `set` maps it to the data. */
    method DataSet(key: string, value: Value) returns (log: seq<Log>)
      modifies store
      ensures key in old(store.data) ==> log == [Log(InfoLevel, key)] && unchanged(store)
      ensures key !in old(store.data) ==>
                log == [] && store.data == old(store.data)[key := value]
                && store.wait == old(store.wait) && store.req == old(store.req)
    {
      if key in store.data {
        return [Log(InfoLevel, key)];
      }
      log := store.Set(DS.DataBucket, key, value);
    }

    /** `$data.unset`: `delete` on an own key reports true. */
    method DataUnset(key: string) returns (deleted: bool)
      modifies store
      ensures deleted
      ensures store.data == old(store.data) - {key} && store.wait == old(store.wait) && store.req == old(store.req)
    {
      store.Unset(DS.DataBucket, key);
      deleted := true;
    }

    /** `$req.get`: an empty or missing key gives undefined. */
    method ReqGet(key: string) returns (v: Value)
      ensures key != "" && key in store.req ==> v == store.req[key]
      ensures key == "" || key !in store.req ==> v == Undefined
    {
      v := if key != "" && key in store.req then store.req[key] else Undefined;
    }

    method ReqUnset(key: string) returns (deleted: bool)
      modifies store
      ensures deleted
      ensures store.req == old(store.req) - {key} && store.wait == old(store.wait) && store.data == old(store.data)
    {
      store.Unset(DS.ReqBucket, key);
      deleted := true;
    }

    /** `$wait.get`, with the guard as evidently intended. */
    method WaitGet(key: string) returns (v: Value)
      modifies store
      ensures (v, store.wait) == WaitGetResult(old(store.wait), key)
      ensures store.data == old(store.data) && store.req == old(store.req)
    {
      if key == "" {
        return Undefined;
      }
      if key !in store.wait {
        return Undefined;
      }
      var waited := store.wait[key];
      if waited.once.GetOr(true) {
        store.Unset(DS.WaitBucket, key);
      }
      v := waited.data;
    }

    /** `$wait.set`; returns the nodes recompiled with the new data. */
    method WaitSet(key: string, data: Value, once: Option<bool>) returns (recompiled: seq<Node>)
      modifies store
      ensures (store.wait, recompiled) == WaitSetResult(old(store.wait), key, data, once)
      ensures store.data == old(store.data) && store.req == old(store.req)
    {
      if key !in store.wait {
        store.wait := store.wait[key := DS.WaitEntry(data, [], Some(once.GetOr(false)))];
        return [];
      }
      var waiting := store.wait[key].(data := data);
      store.wait := store.wait[key := waiting];
      recompiled := waiting.nodes;
      if once.GetOr(false) {
        store.Unset(DS.WaitBucket, key);
        assert store.wait == old(store.wait) - {key};
      }
    }

    method WaitUnset(key: string) returns (deleted: bool)
      modifies store
      ensures deleted
      ensures store.wait == old(store.wait) - {key} && store.data == old(store.data) && store.req == old(store.req)
    {
      store.Unset(DS.WaitBucket, key);
      deleted := true;
    }

    /** One key of `set`: the input property moves onto the target, and
        when the target had one, its watches are merged into it. */
    method Transfer(data: map<string, Cell>, key: string, target: DataObject)
      requires key in data
      modifies target
      ensures target.props == old(target.props)[key := Transferred(old(target.props), data, key)]
    {
      var cell := data[key];
      if key in target.props {
        var merged := MergeWatches(cell.watches, target.props[key].watches);
        target.props := target.props[key := Cell(cell.value, merged)];
      } else {
        target.props := target.props[key := cell];
      }
    }

    /** `set`: a non-object input is refused with an error and the target is
        returned untouched; otherwise every input property moves onto the
        target, keeping the watches the target's property had. */
    method Set(input: Option<map<string, Cell>>, inputKeys: seq<string>, target: DataObject) returns (log: seq<Log>)
      requires input.Some? ==> KeysOf(inputKeys, input.value)
      modifies target
      ensures input.None? ==> log == [Log(ErrorLevel, "inputData")] && target.props == old(target.props)
      ensures input.Some? ==> log == []
      ensures input.Some? ==> forall k :: k in target.props <==> k in old(target.props) || k in input.value
      ensures input.Some? ==> forall k :: k in input.value ==> target.props[k] == Transferred(old(target.props), input.value, k)
      ensures input.Some? ==> forall k :: k in old(target.props) && k !in input.value ==> target.props[k] == old(target.props)[k]
    {
      if input.None? {
        return [Log(ErrorLevel, "inputData")];
      }
      var data := input.value;
      var before := target.props;
      log := [];
      for i := 0 to |inputKeys|
        invariant forall k :: k in target.props <==> k in before || k in inputKeys[..i]
        invariant forall k :: k in inputKeys[..i] ==> target.props[k] == Transferred(before, data, k)
        invariant forall k :: k in before && k !in inputKeys[..i] ==> target.props[k] == before[k]
      {
        var key := inputKeys[i];
        assert inputKeys[..i + 1] == inputKeys[..i] + [key];
        assert key !in inputKeys[..i];
        Transfer(data, key, target);
      }
      assert inputKeys[..|inputKeys|] == inputKeys;
    }

    /** `on`, with the instance as the context. */
    method On(eventName: string, callback: EH.Callback, attachedNode: Option<Node>, modifiers: set<string>)
      returns (sub: EH.Subscription)
      requires Valid()
      modifies events
      ensures Valid()
      ensures sub == EH.Subscription(eventName, attachedNode, modifiers, callback,
                                     EH.Wrapper(old(events.nextSerial)), instance)
      ensures events.events == EH.Registered(old(events.events), sub)
    {
      sub := events.On(eventName, callback, attachedNode, Some(instance), modifiers);
    }

    method Off(eventName: string, callback: Option<EH.Callback>, attachedNode: Option<Node>)
      requires Valid()
      modifies events
      ensures Valid()
      ensures events.events == EH.AfterOff(old(events.events), eventName, callback, attachedNode)
    {
      events.Off(eventName, callback, attachedNode);
    }

    /** `emit`, with the options' element as the attached node. */
    method Emit(eventName: string, element: Option<Node>, once: Option<bool>) returns (dispatched: seq<EH.Dispatch>)
      requires Valid()
      modifies events
      ensures Valid()
      ensures eventName !in old(events.events) ==> events.events == old(events.events) && dispatched == []
      ensures eventName in old(events.events) && element.Some? ==>
                events.events == old(events.events)
                && dispatched == EH.NodeDispatches(old(events.events)[eventName], element.value)
      ensures eventName in old(events.events) && element.None? && once != Some(true) ==>
                events.events == old(events.events) && dispatched == EH.AllDispatches(old(events.events)[eventName])
      ensures events.events.Keys == old(events.events).Keys
      ensures forall k :: k in events.events && k != eventName ==> events.events[k] == old(events.events)[k]
      ensures eventName in old(events.events) ==>
                && (forall s :: s in events.events[eventName] ==> s in old(events.events)[eventName])
                && (forall s :: s in old(events.events)[eventName] && s.attachedNode.Some? ==> s in events.events[eventName])
    {
      dispatched := events.Emit(eventName, once, element);
    }
  }
}
