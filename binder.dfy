/** The binder: two-way binding configuration and update rules, the
    placeholder setter of one-way bindings, and the list of watches (`binds`)
    with its liveness sweep. */
module Binder {
  import opened Common

  // ------------------------------------------------------------ configuration

  /** `DEFAULT_BINDER_PROPERTIES[key] || 'value'`. */
  function DefaultProperty(key: string): (r: string)
    ensures r == "checked" <==> key == "checkbox" || key == "radio"
    ensures r == "valueAsNumber" <==> key == "number"
    ensures r != "checked" && r != "valueAsNumber" ==> r == "value"
  {
    if key == "text" then "value"
    else if key == "number" then "valueAsNumber"
    else if key == "checkbox" || key == "radio" then "checked"
    else "value"
  }

  /** The element property a two-way directive binds: for the bare directive
      the input-type table, looked up by the element's `type` or else its
      tag name; otherwise the text after the first `:` (`undefined` when the
      name has no `:`). */
  function PropertyToBind(directive: string, bindPrefix: string, elementType: string, localName: string): (r: Option<string>)
    requires bindPrefix <= directive
    ensures directive == bindPrefix ==>
              r == Some(DefaultProperty(if elementType != "" then elementType else localName))
    ensures directive != bindPrefix ==> (r.Some? <==> ':' in directive)
    ensures r.Some? && directive != bindPrefix ==> ':' !in r.value
  {
    if directive == bindPrefix then
      Some(DefaultProperty(if elementType != "" then elementType else localName))
    else
      var parts := Split(directive, ':');
      SplitNoSeparator(directive, ':');
      JoinSplit(directive, ':');
      assert |parts| == 1 ==> directive == parts[0];
      assert |parts| > 1 ==> ':' in directive by {
        if |parts| > 1 {
          assert directive == parts[0] + [':'] + Join(parts[1..], ':');
          assert directive[|parts[0]|] == ':';
        }
      }
      if |parts| > 1 then Some(parts[1]) else None
  }

  /** `e-bind:<prop>` binds `<prop>`, whatever follows a further `:`. */
  lemma PropertyToBindNamed(head: string, prop: string, tail: string, bindPrefix: string, elementType: string, localName: string)
    requires ':' !in head && ':' !in prop
    requires bindPrefix <= head + [':'] + prop + tail
    requires bindPrefix != head + [':'] + prop + tail
    requires tail == [] || tail[0] == ':'
    ensures PropertyToBind(head + [':'] + prop + tail, bindPrefix, elementType, localName) == Some(prop)
  {
    var directive := head + [':'] + prop + tail;
    assert directive == head + [':'] + (prop + tail);
    SplitPrefix(head, prop + tail, ':');
    if tail == [] {
      assert prop + tail == prop;
      SplitWithout(prop, ':');
    } else {
      assert prop + tail == prop + [':'] + tail[1..];
      SplitPrefix(prop, tail[1..], ':');
    }
  }

  /** The `prop | model` split of a two-way directive's value. */
  datatype BindConfig = BindConfig(property: string, model: Option<string>)

  function TrimAll(parts: seq<string>): (r: seq<string>)
    ensures |r| == |parts| && forall i :: 0 <= i < |parts| ==> r[i] == Trim(parts[i])
  {
    seq(|parts|, i requires 0 <= i < |parts| => Trim(parts[i]))
  }

  /** Part 0 of the trimmed `|`-split is the bound property, part 1 the model;
      an empty or missing model falls back to the quoted, trimmed `value`
      attribute when that is not empty. */
  function ParseBindValue(value: string, valueAttr: Option<string>): (c: BindConfig)
    ensures c.model.Some? ==> c.model.value != ""
  {
    var parts := TrimAll(Split(value, '|'));
    var attr := Trim(valueAttr.GetOr(""));
    BindConfig(parts[0],
      if |parts| > 1 && parts[1] != "" then Some(parts[1])
      else if attr != "" then Some("'" + attr + "'")
      else None)
  }

  lemma ParseBindValueOf(prop: string, model: string, valueAttr: Option<string>)
    requires '|' !in prop && '|' !in model
    ensures ParseBindValue(prop + "|" + model, valueAttr).property == Trim(prop)
    ensures Trim(model) != "" ==> ParseBindValue(prop + "|" + model, valueAttr).model == Some(Trim(model))
    ensures Trim(model) == "" && Trim(valueAttr.GetOr("")) == "" ==>
              ParseBindValue(prop + "|" + model, valueAttr).model.None?
    ensures Trim(model) == "" && Trim(valueAttr.GetOr("")) != "" ==>
              ParseBindValue(prop + "|" + model, valueAttr).model == Some("'" + Trim(valueAttr.GetOr("")) + "'")
  {
    var value := prop + "|" + model;
    assert value == prop + ['|'] + model;
    SplitPrefix(prop, model, '|');
    SplitWithout(model, '|');
    assert Split(value, '|') == [prop, model];
    var parts := TrimAll([prop, model]);
    assert parts == [Trim(prop), Trim(model)];
  }

  lemma ParseBindValueBare(prop: string, valueAttr: Option<string>)
    requires '|' !in prop
    ensures ParseBindValue(prop, valueAttr).property == Trim(prop)
    ensures Trim(valueAttr.GetOr("")) == "" ==> ParseBindValue(prop, valueAttr).model.None?
    ensures Trim(valueAttr.GetOr("")) != "" ==>
              ParseBindValue(prop, valueAttr).model == Some("'" + Trim(valueAttr.GetOr("")) + "'")
  {
    SplitWithout(prop, '|');
  }

  /** The configuration errors of a two-way callback: an array binding with
      no model is refused unless the element is a select-multiple; a single
      select gets its own message. */
  function BindError(isSelect: bool, isMultiple: bool, boundIsArray: bool, model: Option<string>, directive: string): (e: Option<Log>)
    ensures e.Some? <==> boundIsArray && model.None? && !(isSelect && isMultiple)
    ensures e.Some? ==> e.value.level == ErrorLevel
    ensures e.Some? && isSelect ==> e.value.subject == "select"
    ensures e.Some? && !isSelect ==> e.value.subject == directive
  {
    var isSelectMultiple := isSelect && isMultiple;
    if isSelect && !isSelectMultiple && boundIsArray && model.None? then Some(Log(ErrorLevel, "select"))
    else if !isSelectMultiple && boundIsArray && model.None? then Some(Log(ErrorLevel, directive))
    else None
  }

  // ------------------------------------------------------------ data -> input

  datatype SelectOption = SelectOption(value: string, selected: bool)

  /** What the kind of the bound element property is (`typeof`). */
  datatype PropKind = BooleanProp | NumberProp | OtherProp

  /** What a data-to-input update writes to the element. */
  datatype InputWrite = NoWrite | SetProperty(value: Value) | SelectOptions(selected: seq<bool>)

  /** The default data-to-input rule: objects are stringified, null and
      undefined become the empty string, anything else is written as is. */
  function DisplayValue(v: Value, stringify: Value -> string): (r: Value)
    ensures !IsNullish(r) && !r.Ref?
    ensures IsNullish(v) ==> r == Str("")
    ensures v.Ref? ==> r == Str(stringify(v))
    ensures !IsNullish(v) && !v.Ref? ==> r == v
  {
    if v.Ref? then Str(stringify(v)) else if IsNullish(v) then Str("") else v
  }

  /** The value an unchecked array-bound control is reset to, by kind. */
  function ResetValue(kind: PropKind): (r: Value)
    ensures !Truthy(r) && !IsNullish(r)
  {
    match kind
    case BooleanProp => Bool(false)
    case NumberProp => Num(0)
    case OtherProp => Str("")
  }

  /** `indexOf`: the first index of `v`, or -1. */
  function IndexOf(s: seq<Value>, v: Value): (i: int)
    ensures -1 <= i < |s|
    ensures i == -1 <==> v !in s
    ensures i >= 0 ==> s[i] == v && v !in s[..i]
  {
    if s == [] then -1
    else if s[0] == v then 0
    else
      var j := IndexOf(s[1..], v);
      assert j >= 0 ==> s[..j + 1] == [s[0]] + s[1..][..j];
      if j == -1 then -1 else j + 1
  }

  /** The data-to-input branch of the two-way callback. `items` is the bound
      array's contents when the bound value is an array; `modelValue` is the
      callback's cached model value (`ModelCache`), which this branch reads
      but never fills. */
  function ToInput(isSelect: bool, isMultiple: bool, items: Option<seq<Value>>, model: Option<string>,
                   modelValue: Value, kind: PropKind, value: Value,
                   options: seq<SelectOption>, stringify: Value -> string): (w: InputWrite)
    ensures BindError(isSelect, isMultiple, items.Some?, model, "").Some? ==> w == NoWrite
    ensures items.None? ==> w == SetProperty(DisplayValue(value, stringify))
    ensures items.Some? && isSelect && isMultiple ==>
              w.SelectOptions? && |w.selected| == |options|
              && forall i :: 0 <= i < |options| ==> (w.selected[i] <==> Str(Trim(options[i].value)) in items.value)
    ensures items.Some? && !(isSelect && isMultiple) && model.Some? ==>
              w == if modelValue in items.value then NoWrite else SetProperty(ResetValue(kind))
  {
    if BindError(isSelect, isMultiple, items.Some?, model, "").Some? then NoWrite
    else if items.None? then SetProperty(DisplayValue(value, stringify))
    else if isSelect && isMultiple then
      SelectOptions(seq(|options|, i requires 0 <= i < |options| => Str(Trim(options[i].value)) in items.value))
    else if IndexOf(items.value, modelValue) == -1 then SetProperty(ResetValue(kind))
    else NoWrite
  }

  function ApplySelection(options: seq<SelectOption>, selected: seq<bool>): (r: seq<SelectOption>)
    requires |selected| == |options|
    ensures |r| == |options|
    ensures forall i :: 0 <= i < |r| ==> r[i] == SelectOption(options[i].value, selected[i])
  {
    seq(|options|, i requires 0 <= i < |options| => SelectOption(options[i].value, selected[i]))
  }

  // ------------------------------------------------------------ input -> data

  /** The trimmed values of the selected options, in option order. */
  function SelectedValues(options: seq<SelectOption>): (r: seq<Value>)
    ensures |r| <= |options|
  {
    if options == [] then []
    else
      var last := options[|options| - 1];
      SelectedValues(options[..|options| - 1]) + (if last.selected then [Str(Trim(last.value))] else [])
  }

  /** Every selected option's trimmed value is collected. */
  lemma {:induction false} SelectedValuesComplete(options: seq<SelectOption>, i: nat)
    requires i < |options| && options[i].selected
    ensures Str(Trim(options[i].value)) in SelectedValues(options)
  {
    var init := options[..|options| - 1];
    if i < |init| {
      assert init[i] == options[i];
      SelectedValuesComplete(init, i);
    }
  }

  /** Only selected options' trimmed values are collected. */
  lemma {:induction false} SelectedValuesSound(options: seq<SelectOption>, v: Value) returns (i: nat)
    requires v in SelectedValues(options)
    ensures i < |options| && options[i].selected && v == Str(Trim(options[i].value))
  {
    var init := options[..|options| - 1];
    var last := options[|options| - 1];
    if v in SelectedValues(init) {
      i := SelectedValuesSound(init, v);
      assert init[i] == options[i];
    } else {
      i := |options| - 1;
    }
  }

  /** Data-to-input followed by input-to-data on a select-multiple keeps
      exactly the bound values that some option offers. */
  lemma SelectRoundTrip(options: seq<SelectOption>, items: seq<Value>, v: Value)
    ensures var selected := seq(|options|, i requires 0 <= i < |options| => Str(Trim(options[i].value)) in items);
            v in SelectedValues(ApplySelection(options, selected))
            <==> v in items && exists i :: 0 <= i < |options| && v == Str(Trim(options[i].value))
  {
    var selected := seq(|options|, i requires 0 <= i < |options| => Str(Trim(options[i].value)) in items);
    var applied := ApplySelection(options, selected);
    if v in SelectedValues(applied) {
      var i := SelectedValuesSound(applied, v);
      assert v == Str(Trim(options[i].value));
    }
    if v in items && exists i :: 0 <= i < |options| && v == Str(Trim(options[i].value)) {
      var i :| 0 <= i < |options| && v == Str(Trim(options[i].value));
      SelectedValuesComplete(applied, i);
    }
  }

  /** `splice(start, 1)` with JavaScript's reading of a negative start (from
      the end, clamped at 0) and of a start past the end (nothing removed). */
  function SpliceOne(s: seq<Value>, start: int): (r: seq<Value>)
    ensures start >= |s| ==> r == s
    ensures 0 <= start < |s| ==> r == s[..start] + s[start + 1..]
  {
    var k := if start < 0 then (if |s| + start < 0 then 0 else |s| + start) else start;
    if k >= |s| then s else s[..k] + s[k + 1..]
  }

  /** The checkbox-array rule: a truthy input appends the model value, a
      falsy one splices at `indexOf(model)`. */
  function Toggled(items: seq<Value>, checked: Value, model: Value): (r: seq<Value>)
    ensures Truthy(checked) ==> r == items + [model]
    ensures !Truthy(checked) ==> |r| == if items == [] then 0 else |items| - 1
  {
    if Truthy(checked) then items + [model] else SpliceOne(items, IndexOf(items, model))
  }

  /** Unchecking removes the first occurrence of the model value. */
  lemma UncheckRemovesModel(items: seq<Value>, checked: Value, model: Value)
    requires !Truthy(checked) && model in items
    ensures multiset(Toggled(items, checked, model)) == multiset(items) - multiset{model}
  {
    var i := IndexOf(items, model);
    assert items == items[..i] + [items[i]] + items[i + 1..];
  }

  /** Unchecking a value that is not in the array drops its last element
      (`splice(-1, 1)`). */
  lemma UncheckAbsentDropsLast(items: seq<Value>, checked: Value, model: Value)
    requires !Truthy(checked) && model !in items && items != []
    ensures Toggled(items, checked, model) == items[..|items| - 1]
  {
    assert items[|items|..] == [];
  }

  /** Checking then unchecking the same absent value restores the array. */
  lemma CheckThenUncheck(items: seq<Value>, on: Value, off: Value, model: Value)
    requires Truthy(on) && !Truthy(off) && model !in items
    ensures Toggled(Toggled(items, on, model), off, model) == items
  {
    var t := items + [model];
    assert IndexOf(t, model) == |items| by {
      assert t[|items|] == model;
      assert t[..|items|] == items;
    }
  }

  /** A bound array: the two-way callback mutates it in place. */
  class BoundArray {
    var items: seq<Value>

    constructor (items: seq<Value>)
      ensures this.items == items
    {
      this.items := items;
    }

    /** Input-to-data on a select-multiple: empty the array, then push the
        selected options' trimmed values. */
    method ReplaceWithSelected(options: seq<SelectOption>)
      modifies this
      ensures items == SelectedValues(options)
    {
      var collection: seq<Value> := [];
      for i := 0 to |options|
        invariant collection == SelectedValues(options[..i])
      {
        assert options[..i + 1][..i] == options[..i];
        if options[i].selected {
          collection := collection + [Str(Trim(options[i].value))];
        }
      }
      assert options[..|options|] == options;
      items := [];
      items := items + collection;
    }

    /** Input-to-data on a checkbox array. */
    method Toggle(checked: Value, model: Value)
      modifies this
      ensures items == Toggled(old(items), checked, model)
    {
      if Truthy(checked) {
        items := items + [model];
      } else {
        items := SpliceOne(items, IndexOf(items, model));
      }
    }
  }

  /** The two-way callback's `bindModelValue`: `undefined` until the first
      input-to-data update of a checkbox array evaluates the model, which is
      then kept while it stays truthy. */
  class ModelCache {
    var value: Value

    constructor ()
      ensures value == Undefined
    {
      value := Undefined;
    }
  }

  /** Before the first input-to-data update the cache is `undefined`, so a
      data-to-input update of a checkbox array resets the control unless the
      array holds `undefined`, even when the model's value is in it. */
  lemma ToInputBeforeFirstInput(isSelect: bool, isMultiple: bool, items: seq<Value>, model: string,
                                kind: PropKind, value: Value, options: seq<SelectOption>, stringify: Value -> string)
    requires !(isSelect && isMultiple) && Undefined !in items
    ensures ToInput(isSelect, isMultiple, Some(items), Some(model), Undefined, kind, value, options, stringify)
            == SetProperty(ResetValue(kind))
  {
  }

  /** What a two-way binding is bound to: a plain value or an array. */
  datatype Bound = Scalar(value: Value) | ArrayBound(arr: BoundArray)

  /** The input-to-data branch of the two-way callback. A configuration error
      is logged and nothing is written; an array is updated in place; any
      other binding writes `data[property] = value`. A checkbox array first
      fills the cache with `evaluated` (what evaluating the model gives) when
      the cached value is falsy, then toggles the cached value. */
  method FromInput(isSelect: bool, isMultiple: bool, config: BindConfig, bound: Bound,
                   value: Value, cache: ModelCache, evaluated: Value, options: seq<SelectOption>,
                   data: map<string, Value>, directive: string)
    returns (newData: map<string, Value>, log: seq<Log>)
    modifies cache, if bound.ArrayBound? then {bound.arr} else {}
    ensures var e := BindError(isSelect, isMultiple, bound.ArrayBound?, config.model, directive);
            e.Some? ==> log == [e.value] && newData == data
                        && (bound.ArrayBound? ==> bound.arr.items == old(bound.arr.items))
    ensures BindError(isSelect, isMultiple, bound.ArrayBound?, config.model, directive).None? ==> log == []
    ensures bound.Scalar? ==> newData == data[config.property := value]
    ensures bound.ArrayBound? ==> newData == data
    ensures bound.ArrayBound? && isSelect && isMultiple ==> bound.arr.items == SelectedValues(options)
    ensures bound.ArrayBound? && !(isSelect && isMultiple) && config.model.Some? ==>
              && cache.value == OrElse(Some(old(cache.value)), evaluated)
              && bound.arr.items == Toggled(old(bound.arr.items), value, cache.value)
    ensures !(bound.ArrayBound? && !(isSelect && isMultiple) && config.model.Some?) ==>
              cache.value == old(cache.value)
  {
    var e := BindError(isSelect, isMultiple, bound.ArrayBound?, config.model, directive);
    if e.Some? {
      return data, [e.value];
    }
    log := [];
    match bound {
      case Scalar(_) =>
        newData := data[config.property := value];
      case ArrayBound(arr) =>
        newData := data;
        if isSelect && isMultiple {
          arr.ReplaceWithSelected(options);
        } else {
          cache.value := OrElse(Some(cache.value), evaluated);
          arr.Toggle(value, cache.value);
        }
    }
  }

  // ------------------------------------------------------------ one-way setter

  /** A placeholder found in a text: the full text to replace, the
      expression inside it, and the delimiter's name. */
  datatype Field = Field(field: string, expression: string, delimiterName: Option<string>)

  predicate OccursAt(s: string, pat: string, j: int) {
    0 <= j && j + |pat| <= |s| && s[j..j + |pat|] == pat
  }

  function FirstIndexFrom(s: string, pat: string, from: nat): (r: Option<nat>)
    requires from <= |s| + 1
    ensures r.Some? ==> from <= r.value && OccursAt(s, pat, r.value)
                        && forall j :: from <= j < r.value ==> !OccursAt(s, pat, j)
    ensures r.None? ==> forall j :: from <= j ==> !OccursAt(s, pat, j)
    decreases |s| + 1 - from
  {
    if from + |pat| > |s| then None
    else if s[from..from + |pat|] == pat then Some(from)
    else FirstIndexFrom(s, pat, from + 1)
  }

  /** The first position of `pat` in `s`, as `indexOf` finds it. */
  function FirstIndex(s: string, pat: string): (r: Option<nat>)
    ensures r.Some? ==> OccursAt(s, pat, r.value) && forall j :: 0 <= j < r.value ==> !OccursAt(s, pat, j)
    ensures r.None? ==> forall j :: !OccursAt(s, pat, j)
  {
    FirstIndexFrom(s, pat, 0)
  }

  /** `String.prototype.replace` with a string pattern: only the first
      occurrence is replaced. */
  function ReplaceFirst(s: string, pat: string, rep: string): (r: string)
    ensures FirstIndex(s, pat).None? ==> r == s
    ensures FirstIndex(s, pat).Some? ==> |r| == |s| - |pat| + |rep|
  {
    match FirstIndex(s, pat)
    case None => s
    case Some(i) => s[..i] + rep + s[i + |pat|..]
  }

  lemma ReplaceFirstAt(s: string, pat: string, rep: string, i: nat)
    requires OccursAt(s, pat, i) && forall j :: 0 <= j < i ==> !OccursAt(s, pat, j)
    ensures ReplaceFirst(s, pat, rep) == s[..i] + rep + s[i + |pat|..]
  {
  }

  lemma ReplaceFirstAbsent(s: string, pat: string, rep: string)
    requires forall j :: !OccursAt(s, pat, j)
    ensures ReplaceFirst(s, pat, rep) == s
  {
  }

  /** `toStr` of a result after null and undefined became `''`. */
  function TextOf(v: Value, stringify: Value -> string): (t: string)
    ensures IsNullish(v) ==> t == ""
    ensures v.Str? ==> t == v.s
  {
    if IsNullish(v) then "" else if v.Str? then v.s else stringify(v)
  }

  /** The setter's text: each field in turn replaces its placeholder's first
      occurrence with the text of its result. */
  function Substituted(template: string, fields: seq<Field>, eval: string -> Value, stringify: Value -> string): string {
    if fields == [] then template
    else
      var last := fields[|fields| - 1];
      ReplaceFirst(Substituted(template, fields[..|fields| - 1], eval, stringify),
                   last.field, TextOf(eval(last.expression), stringify))
  }

  /** A template that holds none of the placeholders comes out unchanged,
      whatever the fields evaluate to. */
  lemma {:induction false} SubstitutedUntouched(template: string, fields: seq<Field>, eval: string -> Value, stringify: Value -> string)
    requires forall i, j :: 0 <= i < |fields| ==> !OccursAt(template, fields[i].field, j)
    ensures Substituted(template, fields, eval, stringify) == template
  {
    if fields != [] {
      var init := fields[..|fields| - 1];
      assert forall i :: 0 <= i < |init| ==> init[i] == fields[i];
      SubstitutedUntouched(template, init, eval, stringify);
      ReplaceFirstAbsent(template, fields[|fields| - 1].field, TextOf(eval(fields[|fields| - 1].expression), stringify));
    }
  }

  /** One field whose placeholder first occurs at `i`: the result is the
      template with that occurrence, and only it, replaced by the text of
      the field's result. */
  lemma SubstitutedOne(template: string, field: Field, eval: string -> Value, stringify: Value -> string, i: nat)
    requires OccursAt(template, field.field, i) && forall j :: 0 <= j < i ==> !OccursAt(template, field.field, j)
    ensures Substituted(template, [field], eval, stringify)
            == template[..i] + TextOf(eval(field.expression), stringify) + template[i + |field.field|..]
  {
    assert [field][..0] == [];
    ReplaceFirstAt(template, field.field, TextOf(eval(field.expression), stringify), i);
  }

  predicate HasHtmlField(fields: seq<Field>) {
    exists i :: 0 <= i < |fields| && fields[i].delimiterName == Some("html")
  }

  /** The one-way `setter` loop (the delimiter `action` hook left aside). */
  method Setter(template: string, fields: seq<Field>, eval: string -> Value, stringify: Value -> string)
    returns (text: string, isHtml: bool)
    ensures text == Substituted(template, fields, eval, stringify)
    ensures isHtml == HasHtmlField(fields)
  {
    text := template;
    isHtml := false;
    for i := 0 to |fields|
      invariant text == Substituted(template, fields[..i], eval, stringify)
      invariant isHtml == HasHtmlField(fields[..i])
    {
      var field := fields[i];
      assert fields[..i + 1][..i] == fields[..i];
      assert fields[..i + 1][i] == field;
      if field.delimiterName == Some("html") {
        isHtml := true;
      }
      var result := eval(field.expression);
      text := ReplaceFirst(text, field.field, TextOf(result, stringify));
      assert HasHtmlField(fields[..i + 1]) <==> HasHtmlField(fields[..i]) || field.delimiterName == Some("html") by {
        if HasHtmlField(fields[..i + 1]) {
          var j :| 0 <= j < i + 1 && fields[..i + 1][j].delimiterName == Some("html");
          if j < i {
            assert fields[..i][j] == fields[..i + 1][j];
          }
        }
        if HasHtmlField(fields[..i]) {
          var j :| 0 <= j < i && fields[..i][j].delimiterName == Some("html");
          assert fields[..i + 1][j] == fields[..i][j];
        }
      }
    }
    assert fields[..|fields|] == fields;
  }

  /** The name a definable-property directive `e-<name>` writes, when the
      directive has that prefix and replacing was not turned off. */
  function OneWayAttribute(directive: string, propertyPrefix: string, eReplaceGiven: bool): (r: Option<string>)
    ensures r.Some? <==> propertyPrefix <= directive && !eReplaceGiven
    ensures r.Some? ==> directive == propertyPrefix + r.value
  {
    if propertyPrefix <= directive && !eReplaceGiven then Some(directive[|propertyPrefix|..]) else None
  }

  // ------------------------------------------------------------ the watch list

  /** A watch a binding holds on one reactive property, with the node whose
      liveness decides its fate (none for `Binder.watch`). */
  datatype Watch = Watch(reactive: nat, node: Option<Node>)

  function KeepBind(connected: Node -> bool): Watch -> bool {
    (w: Watch) => w.node.None? || connected(w.node.value)
  }

  function DropBind(connected: Node -> bool): Watch -> bool {
    (w: Watch) => w.node.Some? && !connected(w.node.value)
  }

  /** `Binder.watch`: the watch of the last property read while reading the
      target property; never attached to a node, so never swept. */
  function WatchOf(captured: seq<nat>): (w: Option<Watch>)
    ensures w.Some? <==> captured != []
    ensures w.Some? ==> w.value.node.None? && w.value.reactive == captured[|captured| - 1]
  {
    if captured == [] then None else Some(Watch(captured[|captured| - 1], None))
  }

  /** One sweep keeps the binds with no node or a connected node in order,
      destroys the rest in order, and every bind lands in exactly one of the
      two, as often as it occurred. */
  lemma SweepPartition(binds: seq<Watch>, connected: Node -> bool)
    ensures multiset(Filter(binds, KeepBind(connected))) + multiset(Filter(binds, DropBind(connected))) == multiset(binds)
    ensures forall w :: w in Filter(binds, DropBind(connected)) ==> w !in Filter(binds, KeepBind(connected))
  {
    forall w: Watch ensures DropBind(connected)(w) == !KeepBind(connected)(w) {
      assert KeepBind(connected)(w) == (w.node.None? || connected(w.node.value));
      assert DropBind(connected)(w) == (w.node.Some? && !connected(w.node.value));
    }
    FilterPartition(binds, KeepBind(connected), DropBind(connected));
    forall w | w in Filter(binds, DropBind(connected)) ensures w !in Filter(binds, KeepBind(connected)) {
      FilterMembership(binds, DropBind(connected), w);
      FilterMembership(binds, KeepBind(connected), w);
    }
  }

  class Binder {
    var binds: seq<Watch>

    constructor ()
      ensures binds == []
    {
      binds := [];
    }

    /** The `AfterGet` capture of `create`: one watch attached to the bound
        node is appended for every reactive property the evaluation read. */
    method Track(reactives: seq<nat>, node: Node)
      modifies this
      ensures |binds| == |old(binds)| + |reactives|
      ensures binds[..|old(binds)|] == old(binds)
      ensures forall i :: 0 <= i < |reactives| ==> binds[|old(binds)| + i] == Watch(reactives[i], Some(node))
    {
      for i := 0 to |reactives|
        invariant |binds| == |old(binds)| + i
        invariant binds[..|old(binds)|] == old(binds)
        invariant forall j :: 0 <= j < i ==> binds[|old(binds)| + j] == Watch(reactives[j], Some(node))
      {
        binds := binds + [Watch(reactives[i], Some(node))];
      }
    }

    /** One pass of the periodic `cleanup`; returns the binds it destroyed,
        in the order `destroy()` was called on them. */
    method Cleanup(connected: Node -> bool) returns (destroyed: seq<Watch>)
      modifies this
      ensures binds == Filter(old(binds), KeepBind(connected))
      ensures destroyed == Filter(old(binds), DropBind(connected))
    {
      var all := binds;
      var available: seq<Watch> := [];
      destroyed := [];
      for i := 0 to |all|
        invariant available == Filter(all[..i], KeepBind(connected))
        invariant destroyed == Filter(all[..i], DropBind(connected))
      {
        var bind := all[i];
        assert all[..i + 1] == all[..i] + [bind];
        FilterAppend(all[..i], bind, KeepBind(connected));
        FilterAppend(all[..i], bind, DropBind(connected));
        if bind.node.None? || connected(bind.node.value) {
          available := available + [bind];
        } else {
          destroyed := destroyed + [bind];
        }
      }
      assert all[..|all|] == all;
      binds := available;
    }
  }
}
