/** GetX509NameObject: an X.509 name (an ordered list of attribute entries)
    turned into a JavaScript object with a null prototype. Each entry becomes
    a property keyed by its attribute name; a key that occurs more than once
    holds an array of its values in entry order, a key that occurs once holds
    the value itself. OpenSSL's entries and V8's conversions are taken as
    given: each entry carries the results of converting its name and its data
    to JavaScript values, and a fault oracle says which engine calls fail. */
module X509Name {
  import opened Wrappers

  /** The JavaScript values the name object is built from. */
  datatype JsValue = Undefined | Str(s: string) | Arr(items: seq<JsValue>)

  /** One name entry, as converted by ToV8Value: `None` where the conversion failed. */
  datatype NameEntry = NameEntry(name: Option<string>, value: Option<JsValue>)

  /** The engine calls on the result object that can fail (their `Maybe` is empty). */
  datatype EngineCall = HasCall | GetCall | SetCall

  /** The properties of a JavaScript object. */
  type Properties = map<string, JsValue>

  // ---------------------------------------------------------------------------
  // The two Set templates

  /** Set of a named property. An empty value fails; `undefined` is skipped and
      still counts as success; otherwise the property is written unless the
      engine's Set fails. Only the named property can change. */
  function SetProperty(target: Properties, name: string, maybeValue: Option<JsValue>, setFails: bool): (r: Option<Properties>)
    ensures r.Some? <==> maybeValue.Some? && (maybeValue.value == Undefined || !setFails)
    ensures r.Some? ==> forall k :: k != name ==> (k in r.value <==> k in target) && (k in target ==> r.value[k] == target[k])
    ensures r.Some? && maybeValue.value == Undefined ==> r.value == target
    ensures r.Some? && maybeValue.value != Undefined ==> name in r.value && r.value[name] == maybeValue.value
  {
    if maybeValue.None? then None
    else if maybeValue.value == Undefined then Some(target)
    else if setFails then None
    else Some(target[name := maybeValue.value])
  }

  /** Set of an indexed element of an array, at an index up to its length. The
      same rules as SetProperty; only the element at `index` can change. */
  function SetElement(elements: seq<JsValue>, index: nat, maybeValue: Option<JsValue>, setFails: bool): (r: Option<seq<JsValue>>)
    requires index <= |elements|
    ensures r.Some? <==> maybeValue.Some? && (maybeValue.value == Undefined || !setFails)
    ensures r.Some? && maybeValue.value == Undefined ==> r.value == elements
    ensures r.Some? && maybeValue.value != Undefined ==>
      && |r.value| == (if index == |elements| then |elements| + 1 else |elements|)
      && r.value[index] == maybeValue.value
      && forall j :: 0 <= j < |elements| && j != index ==> r.value[j] == elements[j]
  {
    if maybeValue.None? then None
    else if maybeValue.value == Undefined then Some(elements)
    else if setFails then None
    else if index == |elements| then Some(elements + [maybeValue.value])
    else Some(elements[index := maybeValue.value])
  }

  // ---------------------------------------------------------------------------
  // One entry, and all of them in order

  /** The loop body for entry `index`: convert, look the key up, and then
      either store the value, turn a single value into a pair, or append to
      the array. `None` aborts the whole name object. */
  function EntryStep(result: Properties, entry: NameEntry, index: nat, fails: (nat, EngineCall) -> bool): Option<Properties> {
    if entry.name.None? || entry.value.None? then None
    else if fails(index, HasCall) then None
    else
      var name, value := entry.name.value, entry.value.value;
      if name in result then
        if fails(index, GetCall) then None
        else
          var accum := result[name];
          if !accum.Arr? then SetProperty(result, name, Some(Arr([accum, value])), fails(index, SetCall))
          else
            var appended := SetElement(accum.items, |accum.items|, Some(value), fails(index, SetCall));
            if appended.None? then None else Some(result[name := Arr(appended.value)])
      else SetProperty(result, name, Some(value), fails(index, SetCall))
  }

  /** The entries from `index` on, applied in order to `result`. */
  function FoldEntries(entries: seq<NameEntry>, fails: (nat, EngineCall) -> bool, index: nat, result: Properties): Option<Properties>
    requires index <= |entries|
    decreases |entries| - index
  {
    if index == |entries| then Some(result)
    else
      var next := EntryStep(result, entries[index], index, fails);
      if next.None? then None else FoldEntries(entries, fails, index + 1, next.value)
  }

  /** The name object of `entries`, starting from an empty object. */
  function NameObject(entries: seq<NameEntry>, fails: (nat, EngineCall) -> bool): Option<Properties> {
    FoldEntries(entries, fails, 0, map[])
  }

  /** GetX509NameObject: the entries in index order, mutating the result object. */
  method GetX509NameObject(entries: seq<NameEntry>, fails: (nat, EngineCall) -> bool) returns (r: Option<Properties>)
    ensures r == NameObject(entries, fails)
  {
    var result: Properties := map[];
    var i := 0;
    while i < |entries|
      invariant 0 <= i <= |entries|
      invariant FoldEntries(entries, fails, i, result) == NameObject(entries, fails)
      decreases |entries| - i
    {
      var entry := entries[i];
      if entry.name.None? || entry.value.None? {
        return None;
      }
      var name, value := entry.name.value, entry.value.value;
      if fails(i, HasCall) {
        return None;
      }
      var multiple := name in result;
      if multiple {
        if fails(i, GetCall) {
          return None;
        }
        var accum := result[name];
        if !accum.Arr? {
          var written := SetProperty(result, name, Some(Arr([accum, value])), fails(i, SetCall));
          if written.None? {
            return None;
          }
          result := written.value;
        } else {
          var written := SetElement(accum.items, |accum.items|, Some(value), fails(i, SetCall));
          if written.None? {
            return None;
          }
          result := result[name := Arr(written.value)];
        }
      } else {
        var written := SetProperty(result, name, Some(value), fails(i, SetCall));
        if written.None? {
          return None;
        }
        result := written.value;
      }
      i := i + 1;
    }
    return Some(result);
  }

  // ---------------------------------------------------------------------------
  // What one entry does

  /** A key seen for the first time is stored as the single value. */
  lemma FirstValueStored(result: Properties, name: string, value: JsValue, index: nat, fails: (nat, EngineCall) -> bool)
    requires name !in result && value != Undefined
    requires !fails(index, HasCall) && !fails(index, SetCall)
    ensures EntryStep(result, NameEntry(Some(name), Some(value)), index, fails) == Some(result[name := value])
  {
  }

  /** An undefined value for a new key is skipped, and the entry still succeeds. */
  lemma UndefinedSkipped(result: Properties, name: string, index: nat, fails: (nat, EngineCall) -> bool)
    requires name !in result && !fails(index, HasCall)
    ensures EntryStep(result, NameEntry(Some(name), Some(Undefined)), index, fails) == Some(result)
  {
  }

  /** A second value replaces the single one by the pair [old, new]. */
  lemma SecondValuePaired(result: Properties, name: string, value: JsValue, index: nat, fails: (nat, EngineCall) -> bool)
    requires name in result && !result[name].Arr?
    requires !fails(index, HasCall) && !fails(index, GetCall) && !fails(index, SetCall)
    ensures EntryStep(result, NameEntry(Some(name), Some(value)), index, fails) == Some(result[name := Arr([result[name], value])])
  {
  }

  /** A further value is appended to the array; its earlier elements stay as they were. */
  lemma FurtherValueAppended(result: Properties, name: string, value: JsValue, index: nat, fails: (nat, EngineCall) -> bool)
    requires name in result && result[name].Arr? && value != Undefined
    requires !fails(index, HasCall) && !fails(index, GetCall) && !fails(index, SetCall)
    ensures var r := EntryStep(result, NameEntry(Some(name), Some(value)), index, fails);
      && r.Some? && name in r.value && r.value[name].Arr?
      && r.value[name].items == result[name].items + [value]
      && forall k :: k in result && k != name ==> k in r.value && r.value[k] == result[k]
  {
  }

  // ---------------------------------------------------------------------------
  // Aborts

  /** A failed conversion of any entry, or a failed Has for any entry, aborts the whole object. */
  lemma {:induction false} AbortAt(entries: seq<NameEntry>, fails: (nat, EngineCall) -> bool, index: nat, result: Properties, bad: nat)
    requires index <= bad < |entries|
    requires entries[bad].name.None? || entries[bad].value.None? || fails(bad, HasCall)
    ensures FoldEntries(entries, fails, index, result) == None
    decreases |entries| - index
  {
    if index < bad {
      var next := EntryStep(result, entries[index], index, fails);
      if next.Some? {
        AbortAt(entries, fails, index + 1, next.value, bad);
      }
    }
  }

  lemma AnyConversionFailureAborts(entries: seq<NameEntry>, fails: (nat, EngineCall) -> bool, bad: nat)
    requires bad < |entries|
    requires entries[bad].name.None? || entries[bad].value.None? || fails(bad, HasCall)
    ensures NameObject(entries, fails) == None
  {
    AbortAt(entries, fails, 0, map[], bad);
  }

  // ---------------------------------------------------------------------------
  // Index order

  /** The entries are handled in index order: one more entry is one more step after all the others. */
  lemma {:induction false} FoldSnoc(entries: seq<NameEntry>, entry: NameEntry, fails: (nat, EngineCall) -> bool, index: nat, result: Properties)
    requires index <= |entries|
    ensures var before := FoldEntries(entries, fails, index, result);
      FoldEntries(entries + [entry], fails, index, result)
        == if before.None? then None else EntryStep(before.value, entry, |entries|, fails)
    decreases |entries| - index
  {
    var all := entries + [entry];
    if index == |entries| {
      var next := EntryStep(result, entry, index, fails);
      if next.Some? {
        assert FoldEntries(all, fails, index + 1, next.value) == Some(next.value);
      }
    } else {
      assert all[index] == entries[index];
      var next := EntryStep(result, entries[index], index, fails);
      if next.Some? {
        FoldSnoc(entries, entry, fails, index + 1, next.value);
      }
    }
  }

  lemma NameObjectSnoc(entries: seq<NameEntry>, entry: NameEntry, fails: (nat, EngineCall) -> bool)
    ensures var before := NameObject(entries, fails);
      NameObject(entries + [entry], fails) == if before.None? then None else EntryStep(before.value, entry, |entries|, fails)
  {
    FoldSnoc(entries, entry, fails, 0, map[]);
  }

  // ---------------------------------------------------------------------------
  // The grouping, when nothing fails

  /** An entry whose name and data converted to strings. */
  predicate IsStringEntry(entry: NameEntry) {
    entry.name.Some? && entry.value.Some? && entry.value.value.Str?
  }

  predicate AllStringEntries(entries: seq<NameEntry>) {
    forall j :: 0 <= j < |entries| ==> IsStringEntry(entries[j])
  }

  ghost predicate NoEngineFaults(fails: (nat, EngineCall) -> bool) {
    forall j: nat, call: EngineCall :: !fails(j, call)
  }

  /** The values of the entries named `key`, in entry order. */
  function ValuesOf(entries: seq<NameEntry>, key: string): seq<JsValue>
    decreases |entries|
  {
    if |entries| == 0 then []
    else
      var last := entries[|entries| - 1];
      ValuesOf(entries[..|entries| - 1], key) + if last.name == Some(key) && last.value.Some? then [last.value.value] else []
  }

  /** A single value as itself, several as an array. */
  function Group(values: seq<JsValue>): JsValue {
    if |values| == 1 then values[0] else Arr(values)
  }

  function Names(entries: seq<NameEntry>): set<string> {
    set j | 0 <= j < |entries| && entries[j].name.Some? :: entries[j].name.value
  }

  /** The intended name object: every name, with its values grouped. */
  function Grouped(entries: seq<NameEntry>): Properties {
    map key | key in Names(entries) :: Group(ValuesOf(entries, key))
  }

  /** A name occurs exactly when it has values, and every value is a string. */
  lemma {:induction false} ValuesOfNames(entries: seq<NameEntry>, key: string)
    requires AllStringEntries(entries)
    ensures key in Names(entries) <==> |ValuesOf(entries, key)| > 0
    ensures forall j :: 0 <= j < |ValuesOf(entries, key)| ==> ValuesOf(entries, key)[j].Str?
    decreases |entries|
  {
    if |entries| > 0 {
      var init := entries[..|entries| - 1];
      var last := entries[|entries| - 1];
      assert AllStringEntries(init) by {
        forall j | 0 <= j < |init| ensures IsStringEntry(init[j]) {
          assert init[j] == entries[j];
        }
      }
      ValuesOfNames(init, key);
      assert IsStringEntry(last);
      if key in Names(entries) {
        var j :| 0 <= j < |entries| && entries[j].name == Some(key);
        if j < |entries| - 1 {
          assert init[j] == entries[j];
          assert key in Names(init);
        }
      }
      if key in Names(init) {
        var j :| 0 <= j < |init| && init[j].name == Some(key);
        assert entries[j] == init[j];
      }
    }
  }

  lemma ValuesOfSnoc(prefix: seq<NameEntry>, entry: NameEntry, key: string)
    ensures ValuesOf(prefix + [entry], key)
         == ValuesOf(prefix, key) + if entry.name == Some(key) && entry.value.Some? then [entry.value.value] else []
  {
    var all := prefix + [entry];
    assert all[..|all| - 1] == prefix;
  }

  lemma NamesSnoc(prefix: seq<NameEntry>, entry: NameEntry)
    requires entry.name.Some?
    ensures Names(prefix + [entry]) == Names(prefix) + {entry.name.value}
  {
    var all := prefix + [entry];
    forall k | k in Names(all) ensures k in Names(prefix) + {entry.name.value} {
      var j :| 0 <= j < |all| && all[j].name == Some(k);
      if j < |prefix| {
        assert prefix[j] == all[j];
      }
    }
    forall k | k in Names(prefix) ensures k in Names(all) {
      var j :| 0 <= j < |prefix| && prefix[j].name == Some(k);
      assert all[j] == prefix[j];
    }
    assert all[|prefix|] == entry;
  }

  /** Grouping one more entry changes only the property of its name. */
  lemma GroupedSnoc(prefix: seq<NameEntry>, entry: NameEntry)
    requires entry.name.Some? && entry.value.Some?
    ensures Grouped(prefix + [entry])
         == Grouped(prefix)[entry.name.value := Group(ValuesOf(prefix, entry.name.value) + [entry.value.value])]
  {
    var all := prefix + [entry];
    var key := entry.name.value;
    NamesSnoc(prefix, entry);
    forall k | k in Names(all)
      ensures ValuesOf(all, k) == if k == key then ValuesOf(prefix, k) + [entry.value.value] else ValuesOf(prefix, k)
    {
      ValuesOfSnoc(prefix, entry, k);
    }
  }

  /** One clean entry moves the grouping of the entries before it to the grouping including it. */
  lemma StepGroups(prefix: seq<NameEntry>, entry: NameEntry, index: nat, fails: (nat, EngineCall) -> bool)
    requires AllStringEntries(prefix) && IsStringEntry(entry) && NoEngineFaults(fails)
    ensures EntryStep(Grouped(prefix), entry, index, fails) == Some(Grouped(prefix + [entry]))
  {
    var key, value := entry.name.value, entry.value.value;
    GroupedSnoc(prefix, entry);
    ValuesOfNames(prefix, key);
    var before := Grouped(prefix);
    var values := ValuesOf(prefix, key);
    assert !fails(index, HasCall) && !fails(index, GetCall) && !fails(index, SetCall);
    if key in before {
      assert values[0].Str?;
      if |values| == 1 {
        assert before[key] == values[0];
        assert [values[0], value] == values + [value];
      } else {
        assert before[key] == Arr(values);
      }
    }
  }

  /** The rest of the fold, from a grouped prefix, reaches the grouping of all entries. */
  lemma {:induction false} FoldGroups(entries: seq<NameEntry>, fails: (nat, EngineCall) -> bool, index: nat)
    requires AllStringEntries(entries) && NoEngineFaults(fails) && index <= |entries|
    ensures FoldEntries(entries, fails, index, Grouped(entries[..index])) == Some(Grouped(entries))
    decreases |entries| - index
  {
    if index == |entries| {
      assert entries[..index] == entries;
    } else {
      var prefix := entries[..index];
      assert AllStringEntries(prefix) by {
        forall j | 0 <= j < |prefix| ensures IsStringEntry(prefix[j]) {
          assert prefix[j] == entries[j];
        }
      }
      StepGroups(prefix, entries[index], index, fails);
      assert prefix + [entries[index]] == entries[..index + 1];
      FoldGroups(entries, fails, index + 1);
    }
  }

  /** Without failures, every name holds its single value or the array of its
      values in entry order, and no other property is created. */
  lemma NameObjectGroups(entries: seq<NameEntry>, fails: (nat, EngineCall) -> bool)
    requires AllStringEntries(entries) && NoEngineFaults(fails)
    ensures NameObject(entries, fails) == Some(Grouped(entries))
  {
    assert entries[..0] == [];
    assert Grouped([]) == map[];
    FoldGroups(entries, fails, 0);
  }
}
