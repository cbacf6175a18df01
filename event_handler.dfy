/** The event-subscription registry (`EventHandler`): the `on:<event>.<mod>`
    directive parser, and a per-name ordered list of subscriptions that `on`
    appends to, `off` filters, `emit` dispatches from and the liveness sweep
    prunes. */
module EventHandler {
  import opened Common

  /** Callback identities. `Listener` is a function the caller supplied;
      `Wrapper` is the closure `on` builds around it (a fresh identity every
      time `on` runs). */
  datatype Callback = Listener(id: nat) | Wrapper(serial: nat)

  datatype Subscription = Subscription(
    eventName: string,
    attachedNode: Option<Node>,
    modifiers: set<string>,
    listener: Callback,   // the function given to `on`
    callback: Callback,   // the stored wrapper that applies it to `context`
    context: Value)

  /** What `emit` does with one subscription: dispatch a custom event on its
      node (after adding the callback as a one-time listener there), or call
      the callback directly. */
  datatype Dispatch = OnNode(node: Node, callback: Callback) | Direct(callback: Callback)

  type Registry = map<string, seq<Subscription>>

  const ListenerOptionNames: set<string> := {"capture", "once", "passive"}

  // ------------------------------------------------------------ parsing

  /** `handle`'s reading of the attribute name: drop the prefix's length,
      split on `.`; the first part is the event name, the rest the modifiers
      in order. */
  function ParseDirective(nodeName: string, prefix: string): (r: (string, seq<string>))
    ensures '.' !in r.0 && forall i :: 0 <= i < |r.1| ==> '.' !in r.1[i]
    ensures Join([r.0] + r.1, '.') == SubstrFrom(nodeName, |prefix|)
  {
    var parts := Split(SubstrFrom(nodeName, |prefix|), '.');
    SplitNoSeparator(SubstrFrom(nodeName, |prefix|), '.');
    JoinSplit(SubstrFrom(nodeName, |prefix|), '.');
    assert [parts[0]] + parts[1..] == parts;
    (parts[0], parts[1..])
  }

  /** Parsing recovers the event name and modifiers a directive was written
      with. */
  lemma ParseDirectiveOfJoin(prefix: string, eventName: string, modifiers: seq<string>)
    requires '.' !in eventName && forall i :: 0 <= i < |modifiers| ==> '.' !in modifiers[i]
    ensures ParseDirective(prefix + Join([eventName] + modifiers, '.'), prefix) == (eventName, modifiers)
  {
    var parts := [eventName] + modifiers;
    var name := prefix + Join(parts, '.');
    assert SubstrFrom(name, |prefix|) == Join(parts, '.');
    SplitJoin(parts, '.');
    assert parts[1..] == modifiers;
  }

  /** The listener options `handle` builds: the modifiers that lower-case to
      `capture`, `once` or `passive`, lower-cased. */
  function OptionsOf(modifiers: seq<string>): set<string> {
    set m | m in modifiers && ToLower(m) in ListenerOptionNames :: ToLower(m)
  }

  method ListenerOptions(modifiers: seq<string>) returns (opts: set<string>)
    ensures opts == OptionsOf(modifiers)
    ensures opts <= ListenerOptionNames
    ensures forall o :: o in opts <==> exists i :: 0 <= i < |modifiers| && ToLower(modifiers[i]) == o && o in ListenerOptionNames
  {
    opts := {};
    for i := 0 to |modifiers|
      invariant opts == OptionsOf(modifiers[..i])
    {
      var md := ToLower(modifiers[i]);
      assert modifiers[..i + 1] == modifiers[..i] + [modifiers[i]];
      if md in ListenerOptionNames {
        opts := opts + {md};
      }
    }
    assert modifiers[..|modifiers|] == modifiers;
  }

  // ------------------------------------------------------------ registry functions

  function ListOf(events: Registry, eventName: string): seq<Subscription> {
    if eventName in events then events[eventName] else []
  }

  /** The registry after `on` appended `sub`. */
  function Registered(events: Registry, sub: Subscription): (r: Registry)
    ensures r.Keys == events.Keys + {sub.eventName}
    ensures r[sub.eventName] == ListOf(events, sub.eventName) + [sub]
    ensures forall k :: k in events && k != sub.eventName ==> r[k] == events[k]
  {
    events[sub.eventName := ListOf(events, sub.eventName) + [sub]]
  }

  predicate Alive(s: Subscription, connected: Node -> bool) {
    s.attachedNode.None? || connected(s.attachedNode.value)
  }

  function KeepAlive(connected: Node -> bool): Subscription -> bool {
    (s: Subscription) => Alive(s, connected)
  }

  /** One pass of `cleanup`: every list keeps the subscriptions with no node
      or a connected node, in order. */
  function Swept(events: Registry, connected: Node -> bool): (r: Registry)
    ensures r.Keys == events.Keys
    ensures forall k :: k in r ==> |r[k]| <= |events[k]|
  {
    map k | k in events :: Filter(events[k], KeepAlive(connected))
  }

  lemma SweptExact(events: Registry, connected: Node -> bool, k: string, s: Subscription)
    ensures k in Swept(events, connected) <==> k in events
    ensures k in events ==> (s in Swept(events, connected)[k] <==> s in events[k] && Alive(s, connected))
  {
    if k in events {
      FilterMembership(events[k], KeepAlive(connected), s);
    }
  }

  lemma SweptIdempotent(events: Registry, connected: Node -> bool)
    ensures Swept(Swept(events, connected), connected) == Swept(events, connected)
  {
    forall k | k in events
      ensures Filter(Filter(events[k], KeepAlive(connected)), KeepAlive(connected))
              == Filter(events[k], KeepAlive(connected))
    {
      FilterIdempotent(events[k], KeepAlive(connected));
    }
  }

  /** The filter `off` applies, as written: with a node, keep the entries
      attached to that node; without one, keep the entries whose stored
      callback is not the argument. */
  function KeptByOffAsWritten(eventName: string, callback: Option<Callback>, attachedNode: Option<Node>): (keep: Subscription -> bool)
    ensures attachedNode.Some? ==> forall s: Subscription :: keep(s) <==> s.attachedNode == attachedNode
    ensures attachedNode.None? ==> forall s: Subscription :: s.eventName != eventName ==> keep(s)
    ensures attachedNode.None? && callback.None? ==> forall s: Subscription :: keep(s)
    ensures attachedNode.None? && callback.Some? ==>
              forall s: Subscription :: s.eventName == eventName && s.callback == callback.value ==> !keep(s)
  {
    (s: Subscription) => if attachedNode.Some? then s.attachedNode == attachedNode
         else !(s.eventName == eventName && callback == Some(s.callback))
  }

  /** The registry after `off`, as written: only the list under `eventName`
      is filtered. */
  function AfterOffAsWritten(events: Registry, eventName: string, callback: Option<Callback>, attachedNode: Option<Node>): (r: Registry)
    ensures r.Keys == events.Keys
    ensures forall k :: k in events && k != eventName ==> r[k] == events[k]
    ensures eventName in events ==> |r[eventName]| <= |events[eventName]|
  {
    if eventName !in events then events
    else events[eventName := Filter(events[eventName], KeptByOffAsWritten(eventName, callback, attachedNode))]
  }

  /** As written, `off` with a node removes every entry NOT attached to it. */
  lemma OffAsWrittenWithNode(events: Registry, eventName: string, callback: Option<Callback>, node: Node, s: Subscription)
    requires eventName in events
    ensures s in AfterOffAsWritten(events, eventName, callback, Some(node))[eventName]
            <==> s in events[eventName] && s.attachedNode == Some(node)
  {
    FilterMembership(events[eventName], KeptByOffAsWritten(eventName, callback, Some(node)), s);
  }

  /** As written, `off` without a node removes exactly the entries whose
      stored wrapper is the argument. */
  lemma OffAsWrittenByWrapper(events: Registry, eventName: string, w: Callback, s: Subscription)
    requires eventName in events
    requires forall t :: t in events[eventName] ==> t.eventName == eventName
    ensures s in AfterOffAsWritten(events, eventName, Some(w), None)[eventName]
            <==> s in events[eventName] && s.callback != w
  {
    FilterMembership(events[eventName], KeptByOffAsWritten(eventName, Some(w), None), s);
  }

  /** As written, the one way to remove a subscription is to pass back the
      wrapper `on` returned in it. */
  lemma OnThenOffByWrapper(events: Registry, sub: Subscription)
    ensures sub !in AfterOffAsWritten(Registered(events, sub), sub.eventName, Some(sub.callback), None)[sub.eventName]
  {
    var r := Registered(events, sub);
    FilterMembership(r[sub.eventName], KeptByOffAsWritten(sub.eventName, Some(sub.callback), None), sub);
  }

  /** As written, `off` with the listener that was given to `on` removes
      nothing, because the registry stores wrappers, never listeners. */
  lemma OffAsWrittenKeepsListener(events: Registry, eventName: string, id: nat)
    requires forall k, s :: k in events && s in events[k] ==> s.callback.Wrapper?
    ensures AfterOffAsWritten(events, eventName, Some(Listener(id)), None) == events
  {
    if eventName in events {
      FilterAll(events[eventName], KeptByOffAsWritten(eventName, Some(Listener(id)), None));
    }
  }

  /** The filter `off` evidently means: with a node, drop that node's
      entries; without one, drop the entries registered for the listener, or
      whose stored wrapper is the argument (as the code as written does). */
  function KeptByOff(callback: Option<Callback>, attachedNode: Option<Node>): (keep: Subscription -> bool)
    ensures attachedNode.Some? ==> forall s: Subscription :: s.attachedNode == attachedNode ==> !keep(s)
    ensures attachedNode.None? && callback.None? ==> forall s: Subscription :: keep(s)
    ensures attachedNode.None? && callback.Some? ==>
              forall s: Subscription :: s.listener == callback.value || s.callback == callback.value ==> !keep(s)
  {
    (s: Subscription) => if attachedNode.Some? then s.attachedNode != attachedNode
         else callback != Some(s.listener) && callback != Some(s.callback)
  }

  /** The registry after the intended `off`: only the list under `eventName`
      is filtered. */
  function AfterOff(events: Registry, eventName: string, callback: Option<Callback>, attachedNode: Option<Node>): (r: Registry)
    ensures r.Keys == events.Keys
    ensures forall k :: k in events && k != eventName ==> r[k] == events[k]
    ensures eventName in events ==> |r[eventName]| <= |events[eventName]|
  {
    if eventName !in events then events
    else events[eventName := Filter(events[eventName], KeptByOff(callback, attachedNode))]
  }

  lemma OffExact(events: Registry, eventName: string, callback: Option<Callback>, attachedNode: Option<Node>, k: string, s: Subscription)
    ensures AfterOff(events, eventName, callback, attachedNode).Keys == events.Keys
    ensures k in events && k != eventName ==> AfterOff(events, eventName, callback, attachedNode)[k] == events[k]
    ensures eventName in events ==>
              (s in AfterOff(events, eventName, callback, attachedNode)[eventName]
               <==> s in events[eventName]
                    && (if attachedNode.Some? then s.attachedNode != attachedNode
                        else callback != Some(s.listener) && callback != Some(s.callback)))
  {
    if eventName in events {
      FilterMembership(events[eventName], KeptByOff(callback, attachedNode), s);
    }
  }

  /** `on` followed by `off` with the same listener: as written the
      subscription survives; the intended `off` removes it. */
  lemma OnThenOff(events: Registry, sub: Subscription, id: nat)
    requires forall k, s :: k in events && s in events[k] ==> s.callback.Wrapper?
    requires sub.callback.Wrapper? && sub.listener == Listener(id)
    ensures sub in AfterOffAsWritten(Registered(events, sub), sub.eventName, Some(Listener(id)), None)[sub.eventName]
    ensures sub !in AfterOff(Registered(events, sub), sub.eventName, Some(Listener(id)), None)[sub.eventName]
    ensures sub !in AfterOff(Registered(events, sub), sub.eventName, Some(sub.callback), None)[sub.eventName]
  {
    var r := Registered(events, sub);
    OffAsWrittenKeepsListener(r, sub.eventName, id);
    OffExact(r, sub.eventName, Some(Listener(id)), None, sub.eventName, sub);
    OffExact(r, sub.eventName, Some(sub.callback), None, sub.eventName, sub);
  }

  /** The dispatches of `emit` with a node: one per entry attached to it. */
  function NodeDispatches(list: seq<Subscription>, node: Node): (d: seq<Dispatch>)
    ensures |d| <= |list|
    ensures forall i :: 0 <= i < |d| ==> d[i].OnNode? && d[i].node == node
  {
    if list == [] then []
    else
      var last := list[|list| - 1];
      NodeDispatches(list[..|list| - 1], node)
        + (if last.attachedNode == Some(node) then [OnNode(node, last.callback)] else [])
  }

  function AttachedTo(node: Node): Subscription -> bool {
    (s: Subscription) => s.attachedNode == Some(node)
  }

  /** With a node, `emit` dispatches exactly the entries attached to that
      node, in list order, each on the node with its own callback. */
  lemma {:induction false} NodeDispatchesExact(list: seq<Subscription>, node: Node)
    ensures var f := Filter(list, AttachedTo(node));
            && |NodeDispatches(list, node)| == |f|
            && forall i :: 0 <= i < |f| ==> NodeDispatches(list, node)[i] == OnNode(node, f[i].callback)
  {
    if list != [] {
      var init := list[..|list| - 1];
      var last := list[|list| - 1];
      NodeDispatchesExact(init, node);
      assert list == init + [last];
      FilterAppend(init, last, AttachedTo(node));
    }
  }

  function DispatchOf(s: Subscription): Dispatch {
    if s.attachedNode.Some? then OnNode(s.attachedNode.value, s.callback) else Direct(s.callback)
  }

  /** The dispatches of `emit` without a node: one per entry, in order. */
  function AllDispatches(list: seq<Subscription>): (d: seq<Dispatch>)
    ensures |d| == |list|
    ensures forall i :: 0 <= i < |list| ==> d[i] == DispatchOf(list[i])
  {
    seq(|list|, i requires 0 <= i < |list| => DispatchOf(list[i]))
  }

  // ------------------------------------------------------------ the registry object

  class EventHandler {
    var events: Registry
    var nextSerial: nat
    const owner: Value

    /** Every stored callback is a wrapper this handler issued, and every
        subscription sits in the list of its own event name. */
    ghost predicate Valid()
      reads this
    {
      && (forall k, s :: k in events && s in events[k] ==> s.callback.Wrapper? && s.callback.serial < nextSerial)
      && (forall k, s :: k in events && s in events[k] ==> s.eventName == k)
    }

    constructor (owner: Value)
      ensures Valid() && events == map[] && nextSerial == 0 && this.owner == owner
    {
      this.owner := owner;
      events := map[];
      nextSerial := 0;
    }

    /** `on`: appends one subscription, whose callback is a fresh wrapper
        bound to the context or the owning instance, to the end of its
        name's list. */
    method On(eventName: string, listener: Callback, attachedNode: Option<Node>,
              context: Option<Value>, modifiers: set<string>)
      returns (sub: Subscription)
      requires Valid()
      modifies this
      ensures Valid()
      ensures sub == Subscription(eventName, attachedNode, modifiers, listener,
                                  Wrapper(old(nextSerial)), OrElse(context, owner))
      ensures events == Registered(old(events), sub)
      ensures nextSerial == old(nextSerial) + 1
    {
      sub := Subscription(eventName, attachedNode, modifiers, listener, Wrapper(nextSerial), OrElse(context, owner));
      if eventName !in events {
        events := events[eventName := []];
      }
      events := events[eventName := events[eventName] + [sub]];
      nextSerial := nextSerial + 1;
    }

    /** `off`, as evidently intended (see `AfterOffAsWritten`). An unknown name is
        a no-op. */
    method Off(eventName: string, callback: Option<Callback>, attachedNode: Option<Node>)
      requires Valid()
      modifies this
      ensures Valid()
      ensures events == AfterOff(old(events), eventName, callback, attachedNode)
      ensures nextSerial == old(nextSerial)
    {
      if eventName !in events {
        return;
      }
      var kept := Filter(events[eventName], KeptByOff(callback, attachedNode));
      forall s | s in kept ensures s in events[eventName] {
        FilterMembership(events[eventName], KeptByOff(callback, attachedNode), s);
      }
      events := events[eventName := kept];
    }

    /** `handle`: an attribute without an owner element, or with an empty
        trimmed expression, logs an error and registers nothing; otherwise a
        custom event is registered through `on` (a native one is left to the
        DOM). */
    method Handle(nodeName: string, nodeValue: Option<string>, ownerElement: Option<Node>,
                  prefix: string, isNativeEvent: string -> bool, handler: Callback, context: Option<Value>)
      returns (log: seq<Log>, sub: Option<Subscription>)
      requires Valid()
      modifies this
      ensures Valid()
      ensures ownerElement.None? || Trim(nodeValue.GetOr("")) == "" ==>
                log == [Log(ErrorLevel, nodeName)] && sub.None?
                && events == old(events) && nextSerial == old(nextSerial)
      ensures ownerElement.Some? && Trim(nodeValue.GetOr("")) != "" ==>
                var (name, mods) := ParseDirective(nodeName, prefix);
                && log == []
                && (isNativeEvent(name) ==> sub.None? && events == old(events) && nextSerial == old(nextSerial))
                && (!isNativeEvent(name) ==>
                      && sub == Some(Subscription(name, ownerElement, OptionsOf(mods), handler,
                                                  Wrapper(old(nextSerial)), OrElse(context, owner)))
                      && events == Registered(old(events), sub.value))
    {
      if ownerElement.None? {
        return [Log(ErrorLevel, nodeName)], None;
      }
      var expression := Trim(nodeValue.GetOr(""));
      var (name, mods) := ParseDirective(nodeName, prefix);
      if expression == "" {
        return [Log(ErrorLevel, nodeName)], None;
      }
      var opts := ListenerOptions(mods);
      log := [];
      if isNativeEvent(name) {
        sub := None;
      } else {
        var s := On(name, handler, ownerElement, context, opts);
        sub := Some(s);
      }
    }

    /** `emit`. An unknown name is a no-op. With a node, only that node's
        entries are dispatched and nothing is removed. Without one, each
        entry is dispatched on its node or called directly; with
        `once === true` a directly called entry is spliced out while the
        list is being walked by index, so only node-less entries can go. */
    method Emit(eventName: string, once: Option<bool>, attachedNode: Option<Node>)
      returns (dispatched: seq<Dispatch>)
      requires Valid()
      modifies this
      ensures Valid() && nextSerial == old(nextSerial)
      ensures events.Keys == old(events).Keys
      ensures forall k :: k in events && k != eventName ==> events[k] == old(events)[k]
      ensures eventName !in old(events) ==> events == old(events) && dispatched == []
      ensures eventName in old(events) && attachedNode.Some? ==>
                events == old(events) && dispatched == NodeDispatches(old(events)[eventName], attachedNode.value)
      ensures eventName in old(events) && attachedNode.None? && once != Some(true) ==>
                events == old(events) && dispatched == AllDispatches(old(events)[eventName])
      ensures eventName in old(events) ==>
                && (forall s :: s in events[eventName] ==> s in old(events)[eventName])
                && (forall s :: s in old(events)[eventName] && s.attachedNode.Some? ==> s in events[eventName])
    {
      if eventName !in events {
        return [];
      }
      var list := events[eventName];
      var live := list;
      var i := 0;
      dispatched := [];
      while i < |live|
        invariant 0 <= i <= |live| + 1
        invariant unchanged(this)
        invariant attachedNode.Some? ==> live == list && i <= |list| && dispatched == NodeDispatches(list[..i], attachedNode.value)
        invariant attachedNode.None? && once != Some(true) ==>
                    live == list && i <= |list| && dispatched == AllDispatches(list[..i])
        invariant forall s :: s in live ==> s in list
        invariant forall s :: s in list && s.attachedNode.Some? ==> s in live
        decreases |live| + 1 - i
      {
        var evt := live[i];
        if attachedNode.Some? {
          assert list[..i + 1] == list[..i] + [evt];
          if evt.attachedNode == attachedNode {
            dispatched := dispatched + [OnNode(attachedNode.value, evt.callback)];
          }
        } else if evt.attachedNode.Some? {
          assert once != Some(true) ==> list[..i + 1] == list[..i] + [evt];
          dispatched := dispatched + [OnNode(evt.attachedNode.value, evt.callback)];
        } else {
          assert once != Some(true) ==> list[..i + 1] == list[..i] + [evt];
          dispatched := dispatched + [Direct(evt.callback)];
          if once == Some(true) {
            SpliceKeepsNodes(live, i);
            live := live[..i] + live[i + 1..];
          }
        }
        i := i + 1;
      }
      if attachedNode.Some? || once != Some(true) {
        assert list[..|list|] == list;
      }
      events := events[eventName := live];
    }

    /** Splicing out a node-less entry keeps every entry that has a node
        and adds none. */
    static lemma SpliceKeepsNodes(live: seq<Subscription>, i: nat)
      requires i < |live| && live[i].attachedNode.None?
      ensures forall s :: s in live[..i] + live[i + 1..] ==> s in live
      ensures forall s :: s in live && s.attachedNode.Some? ==> s in live[..i] + live[i + 1..]
    {
      var rest := live[..i] + live[i + 1..];
      forall s | s in live && s.attachedNode.Some? ensures s in rest {
        var j :| 0 <= j < |live| && live[j] == s;
        if j < i {
          assert rest[j] == s;
        } else {
          assert rest[j - 1] == s;
        }
      }
    }

    /** One pass of the periodic `cleanup`. */
    method Cleanup(connected: Node -> bool)
      requires Valid()
      modifies this
      ensures Valid() && nextSerial == old(nextSerial)
      ensures events == Swept(old(events), connected)
    {
      var pending := events.Keys;
      while pending != {}
        invariant pending <= events.Keys && events.Keys == old(events).Keys && nextSerial == old(nextSerial)
        invariant forall k :: k in events ==>
                    events[k] == if k in pending then old(events)[k] else Filter(old(events)[k], KeepAlive(connected))
        invariant Valid()
        decreases pending
      {
        var key :| key in pending;
        var kept := Filter(events[key], KeepAlive(connected));
        forall s | s in kept ensures s in events[key] {
          FilterMembership(events[key], KeepAlive(connected), s);
        }
        events := events[key := kept];
        pending := pending - {key};
      }
    }
  }
}
