/** The expression sandbox (`Evaluator`): composes a scope from extras, local
    data and global data, spreads it onto the hidden frame's global table,
    runs an opaque evaluator on a wrapper text, and removes the spread keys. */
module Evaluator {
  import opened Common

  const RootKey: string := "$root"
  const MixinKey: string := "$mixin"

  /** What the JavaScript engine does with a wrapper text: a value or a throw. */
  datatype Outcome = Returned(value: Value) | Threw(error: string)

  /** One run of the engine: its outcome, and the global table as the run
      leaves it (the body may add, change or delete globals). */
  datatype Run = Run(outcome: Outcome, table: map<string, Value>)

  /** The engine: wrapper text, the global table it sees, `this`, arguments. */
  type Engine = (string, map<string, Value>, Value, seq<Value>) -> Run

  /** What `exec` reads from its owning instance: `data` (as `$root`),
      `Extend.mixin` (as `$mixin`) and `globalData` with its key order. */
  datatype Instance = Instance(
    owner: Value, root: Value, mixin: Value,
    globalKeys: seq<string>, globalData: map<string, Value>)

  /** The options object of `exec`. */
  datatype ExecOptions = ExecOptions(
    dataKeys: seq<string>, data: map<string, Value>,
    expression: string, isReturn: Option<bool>,
    aditional: Option<map<string, Value>>, args: seq<Value>, context: Option<Value>)

  /** `Extend.obj(aditional || {}, { $root, $mixin })`: a shallow merge in
      which the later object wins. */
  function Extras(aditional: Option<map<string, Value>>, root: Value, mixin: Value): (m: map<string, Value>)
    ensures m.Keys == aditional.GetOr(map[]).Keys + {RootKey, MixinKey}
    ensures m[RootKey] == root && m[MixinKey] == mixin
    ensures forall k :: k in aditional.GetOr(map[]) && k != RootKey && k != MixinKey ==>
              m[k] == aditional.GetOr(map[])[k]
  {
    aditional.GetOr(map[])[RootKey := root][MixinKey := mixin]
  }

  /** The scope `exec` composes: local data overrides the extras, and global
      data only fills keys that neither of them defines. */
  function ComposedScope(base: map<string, Value>, data: map<string, Value>, global: map<string, Value>): (scope: map<string, Value>)
    ensures scope.Keys == base.Keys + data.Keys + global.Keys
    ensures forall k :: k in data ==> scope[k] == data[k]
    ensures forall k :: k in base && k !in data ==> scope[k] == base[k]
    ensures forall k :: k in global && k !in base && k !in data ==> scope[k] == global[k]
  {
    var local := base + data;
    local + (map k | k in global && k !in local :: global[k])
  }

  /** One warning per global key, in key order, that the local scope already
      defines. */
  function ShadowWarnings(globalKeys: seq<string>, local: set<string>): (w: seq<Log>)
    ensures |w| <= |globalKeys|
    ensures forall i :: 0 <= i < |w| ==> w[i].level == WarnLevel && w[i].subject in local
  {
    if globalKeys == [] then []
    else
      var last := globalKeys[|globalKeys| - 1];
      ShadowWarnings(globalKeys[..|globalKeys| - 1], local)
        + (if last in local then [Log(WarnLevel, last)] else [])
  }

  lemma {:induction false} ShadowWarningsExact(globalKeys: seq<string>, local: set<string>, k: string)
    requires Distinct(globalKeys)
    ensures Log(WarnLevel, k) in ShadowWarnings(globalKeys, local) <==> k in globalKeys && k in local
  {
    if globalKeys != [] {
      var init := globalKeys[..|globalKeys| - 1];
      assert Distinct(init);
      ShadowWarningsExact(init, local, k);
      assert globalKeys == init + [globalKeys[|globalKeys| - 1]];
    }
  }

  /** The mode keyword of the wrapper: empty exactly when `isReturn === false`. */
  function ReturnKeyword(isReturn: Option<bool>): string {
    if isReturn == Some(false) then "" else "return"
  }

  const WrapperHead: string := "return(function(){\"use strict\"; "
  const WrapperTail: string := " }).apply(this, arguments)"

  /** The source text `exec` hands to `Function`. */
  function WrapperText(expression: string, isReturn: Option<bool>): (text: string)
    ensures WrapperHead <= text
    ensures var start := |WrapperHead| + |ReturnKeyword(isReturn)| + 1;
            && |text| == start + |expression| + |WrapperTail|
            && text[start..start + |expression|] == expression
            && text[start + |expression|..] == WrapperTail
  {
    WrapperHead + ReturnKeyword(isReturn) + " " + expression + WrapperTail
  }

  /** Reads a wrapper text back: whether it returns, and the expression. */
  function Unwrap(text: string): Option<(bool, string)> {
    var ret := WrapperHead + "return ";
    var run := WrapperHead + " ";
    if |text| < |WrapperTail| || text[|text| - |WrapperTail|..] != WrapperTail then None
    else if ret <= text && |ret| <= |text| - |WrapperTail| then
      Some((true, text[|ret|..|text| - |WrapperTail|]))
    else if run <= text && |run| <= |text| - |WrapperTail| then
      Some((false, text[|run|..|text| - |WrapperTail|]))
    else None
  }

  /** The wrapper keeps the expression verbatim and its mode recoverable:
      statement mode exactly when `isReturn === false`. */
  lemma UnwrapWrapperText(expression: string, isReturn: Option<bool>)
    ensures Unwrap(WrapperText(expression, isReturn)) == Some((isReturn != Some(false), expression))
  {
    var text := WrapperText(expression, isReturn);
    var ret := WrapperHead + "return ";
    var run := WrapperHead + " ";
    if isReturn == Some(false) {
      assert text == run + expression + WrapperTail;
      assert !(ret <= text) by {
        assert text[|WrapperHead|] == ' ';
        assert ret[|WrapperHead|] == 'r';
      }
    } else {
      assert text == ret + expression + WrapperTail;
    }
  }

  /** The source text `execRaw` hands to the main window's `Function`. */
  function RawWrapperText(expression: string): (text: string)
    ensures |text| == 13 + |expression| + 26
    ensures text[..13] == "(function(){ " && text[13..13 + |expression|] == expression
    ensures text[13 + |expression|..] == " }).apply(this, arguments)"
  {
    "(function(){ " + expression + " }).apply(this, arguments)"
  }

  /** `execRaw`: runs statements with `this` bound to the given context or
      the owning instance, and never lets an error escape: a throw becomes
      exactly one error record. */
  function ExecRaw(expression: string, context: Option<Value>, owner: Value,
                   ambient: map<string, Value>, engine: Engine): (log: seq<Log>)
    ensures |log| <= 1
    ensures log == [] <==> engine(RawWrapperText(expression), ambient, OrElse(context, owner), []).outcome.Returned?
    ensures forall i :: 0 <= i < |log| ==> log[i].level == ErrorLevel
  {
    match engine(RawWrapperText(expression), ambient, OrElse(context, owner), []).outcome
    case Returned(_) => []
    case Threw(e) => [Log(ErrorLevel, e)]
  }

  /** The first `dataToUse` loop of `exec`: every local key is copied over
      the extras. */
  method CopyLocal(base: map<string, Value>, dataKeys: seq<string>, data: map<string, Value>)
    returns (scope: map<string, Value>)
    requires KeysOf(dataKeys, data)
    ensures scope == base + data
  {
    scope := base;
    for i := 0 to |dataKeys|
      invariant forall k :: k in scope <==> k in base || k in dataKeys[..i]
      invariant forall k :: k in scope ==> scope[k] == if k in dataKeys[..i] then data[k] else base[k]
    {
      scope := scope[dataKeys[i] := data[dataKeys[i]]];
    }
    assert dataKeys[..|dataKeys|] == dataKeys;
  }

  /** The scope the second `dataToUse` loop has built after reading `keys`:
      a key of the global data that the scope lacks is copied from it. */
  function Filled(local: map<string, Value>, keys: seq<string>, global: map<string, Value>): map<string, Value>
  {
    if keys == [] then local
    else
      var prev := Filled(local, keys[..|keys| - 1], global);
      var key := keys[|keys| - 1];
      if key in prev || key !in global then prev else prev[key := global[key]]
  }

  /** The filled scope holds the local keys with their values, and the read
      global keys with the global values. */
  lemma {:induction false} FilledExact(local: map<string, Value>, keys: seq<string>, global: map<string, Value>, k: string)
    ensures k in Filled(local, keys, global) <==> k in local || (k in keys && k in global)
    ensures k in Filled(local, keys, global) ==>
              Filled(local, keys, global)[k] == if k in local then local[k] else global[k]
  {
    if keys != [] {
      var init := keys[..|keys| - 1];
      FilledExact(local, init, global, k);
      assert keys == init + [keys[|keys| - 1]];
    }
  }

  /** The second `dataToUse` loop of `exec`: each global key is copied unless
      the scope already has it, in which case a warning is logged instead. */
  method FillGlobal(local: map<string, Value>, globalKeys: seq<string>, global: map<string, Value>)
    returns (scope: map<string, Value>, warnings: seq<Log>)
    requires KeysOf(globalKeys, global)
    ensures scope == local + (map k | k in global && k !in local :: global[k])
    ensures warnings == ShadowWarnings(globalKeys, local.Keys)
  {
    scope := local;
    warnings := [];
    for j := 0 to |globalKeys|
      invariant scope == Filled(local, globalKeys[..j], global)
      invariant warnings == ShadowWarnings(globalKeys[..j], local.Keys)
    {
      var key := globalKeys[j];
      ShadowWarningsStep(globalKeys, j, local.Keys);
      FilledStep(local, globalKeys, global, j);
      if key in scope {
        warnings := warnings + [Log(WarnLevel, key)];
      } else {
        scope := scope[key := global[key]];
      }
    }
    assert globalKeys[..|globalKeys|] == globalKeys;
    FilledAll(local, globalKeys, global);
  }

  /** With distinct keys, the key read next is in the scope built so far
      exactly when the local scope defines it. */
  lemma FilledStep(local: map<string, Value>, keys: seq<string>, global: map<string, Value>, j: nat)
    requires Distinct(keys) && j < |keys| && keys[j] in global
    ensures keys[j] in Filled(local, keys[..j], global) <==> keys[j] in local
    ensures Filled(local, keys[..j + 1], global)
            == if keys[j] in Filled(local, keys[..j], global) then Filled(local, keys[..j], global)
               else Filled(local, keys[..j], global)[keys[j] := global[keys[j]]]
  {
    DistinctPrefix(keys, j);
    FilledExact(local, keys[..j], global, keys[j]);
    assert keys[..j + 1][..j] == keys[..j];
  }

  /** Reading every key of the global data fills the local scope with
      exactly the global entries it lacks. */
  lemma FilledAll(local: map<string, Value>, keys: seq<string>, global: map<string, Value>)
    requires KeysOf(keys, global)
    ensures Filled(local, keys, global) == local + (map k | k in global && k !in local :: global[k])
  {
    var scope := Filled(local, keys, global);
    forall k ensures k in scope <==> k in local || k in global
      ensures k in scope ==> scope[k] == if k in local then local[k] else global[k]
    {
      FilledExact(local, keys, global, k);
    }
    FilledScope(local, global, scope);
  }

  /** A scope holding the local keys with their values and otherwise exactly
      the global keys with theirs is the local scope filled from the global. */
  lemma FilledScope(local: map<string, Value>, global: map<string, Value>, scope: map<string, Value>)
    requires forall k :: k in scope <==> k in local || k in global
    requires forall k :: k in scope ==> scope[k] == if k in local then local[k] else global[k]
    ensures scope == local + (map k | k in global && k !in local :: global[k])
  {
  }

  lemma ShadowWarningsStep(keys: seq<string>, j: nat, local: set<string>)
    requires j < |keys|
    ensures ShadowWarnings(keys[..j + 1], local)
            == ShadowWarnings(keys[..j], local) + (if keys[j] in local then [Log(WarnLevel, keys[j])] else [])
  {
    assert keys[..j + 1][..j] == keys[..j];
  }

  lemma DistinctPrefix(keys: seq<string>, j: nat)
    requires Distinct(keys) && j < |keys|
    ensures keys[j] !in keys[..j]
  {
  }

  /** Both `dataToUse` loops of `exec`. */
  method ComposeScope(aditional: Option<map<string, Value>>, root: Value, mixin: Value,
                      dataKeys: seq<string>, data: map<string, Value>,
                      globalKeys: seq<string>, global: map<string, Value>)
    returns (scope: map<string, Value>, warnings: seq<Log>)
    requires KeysOf(dataKeys, data) && KeysOf(globalKeys, global)
    ensures scope == ComposedScope(Extras(aditional, root, mixin), data, global)
    ensures warnings == ShadowWarnings(globalKeys, (Extras(aditional, root, mixin) + data).Keys)
  {
    var local := CopyLocal(Extras(aditional, root, mixin), dataKeys, data);
    scope, warnings := FillGlobal(local, globalKeys, global);
  }

  /** The hidden frame's global object, shared by every `exec` call. */
  class Sandbox {
    var table: map<string, Value>

    constructor (initial: map<string, Value>)
      ensures table == initial
    {
      table := initial;
    }

    /** Spreads every scope key onto the table (`delete` then transfer). */
    method Spread(scope: map<string, Value>)
      modifies this
      ensures table == old(table) + scope
    {
      var pending := scope.Keys;
      while pending != {}
        invariant pending <= scope.Keys
        invariant forall k :: k in table <==> k in old(table) || (k in scope && k !in pending)
        invariant forall k :: k in table ==>
                    table[k] == if k in scope && k !in pending then scope[k] else old(table)[k]
        decreases pending
      {
        var key :| key in pending;
        table := (table - {key})[key := scope[key]];
        pending := pending - {key};
      }
      assert table == old(table) + scope;
    }

    /** Deletes every given key from the table. */
    method Teardown(keys: set<string>)
      modifies this
      ensures table == old(table) - keys
    {
      var pending := keys;
      while pending != {}
        invariant pending <= keys
        invariant table == old(table) - (keys - pending)
        decreases pending
      {
        var key :| key in pending;
        table := table - {key};
        pending := pending - {key};
      }
    }

    /** `exec`: composes the scope, spreads it, evaluates the wrapper with
        `this` bound to the given context or the owning instance, swallows a
        throw into `undefined` plus an error record, and deletes every spread
        key from the table the evaluation left, whether or not it threw. */
    method Exec(inst: Instance, opts: ExecOptions, engine: Engine)
      returns (result: Value, log: seq<Log>, ghost scope: map<string, Value>)
      requires KeysOf(opts.dataKeys, opts.data) && KeysOf(inst.globalKeys, inst.globalData)
      modifies this
      ensures scope == ComposedScope(Extras(opts.aditional, inst.root, inst.mixin), opts.data, inst.globalData)
      ensures forall k :: k in scope ==> k !in table
      ensures var run := engine(WrapperText(opts.expression, opts.isReturn), old(table) + scope,
                                OrElse(opts.context, inst.owner), opts.args);
              && table == run.table - scope.Keys
              && (run.table == old(table) + scope ==> table == old(table) - scope.Keys)
              && result == (if run.outcome.Returned? then run.outcome.value else Undefined)
              && log == ShadowWarnings(inst.globalKeys, (Extras(opts.aditional, inst.root, inst.mixin) + opts.data).Keys)
                        + (if run.outcome.Threw? then [Log(ErrorLevel, run.outcome.error)] else [])
    {
      var dataToUse, warnings := ComposeScope(opts.aditional, inst.root, inst.mixin,
                                              opts.dataKeys, opts.data, inst.globalKeys, inst.globalData);
      scope := dataToUse;
      Spread(dataToUse);
      var run := engine(WrapperText(opts.expression, opts.isReturn), table,
                        OrElse(opts.context, inst.owner), opts.args);
      table := run.table;
      match run.outcome {
        case Returned(v) =>
          result := v;
          log := warnings;
        case Threw(e) =>
          result := Undefined;
          log := warnings + [Log(ErrorLevel, e)];
      }
      Teardown(dataToUse.Keys);
    }
  }
}
