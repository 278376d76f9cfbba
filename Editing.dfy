/**
 * `manual_edit_kv_pairs` of the fourth application: the edit buffer kept in
 * `st.session_state["updated_json"]`, its two widget callbacks `update_key` and
 * `update_value`, and the loop that rebuilds the buffer from the key and value
 * text inputs. Widget state is the map `widgets` from widget id to the text the
 * session holds for it.
 */
module Editing {
  import opened Wrappers
  import opened PyDict
  import opened Extraction

  /** The id of the key text input of entry `key`: `f"key_{key}"`. */
  function KeyWidgetId(key: string): string
  {
    "key_" + key
  }

  /** The id of the value text input of entry `key`: `f"value_{key}"`. */
  function ValueWidgetId(key: string): string
  {
    "value_" + key
  }

  /** `st.text_input(value=default, key=id)`: the text the session holds for the widget, else the default. */
  function TextInput(widgets: map<string, string>, id: string, default: string): string
  {
    if id in widgets then widgets[id] else default
  }

  /** The key each entry's key input returns, in iteration order. */
  function EditedKeys(d: Dict, widgets: map<string, string>): (ks: seq<string>)
    ensures |ks| == |d.order|
    ensures forall i :: 0 <= i < |d.order| ==> ks[i] == TextInput(widgets, KeyWidgetId(d.order[i]), d.order[i])
  {
    seq(|d.order|, i requires 0 <= i < |d.order| => TextInput(widgets, KeyWidgetId(d.order[i]), d.order[i]))
  }

  /** The value each entry's value input returns, in iteration order. */
  function EditedValues(d: Dict, widgets: map<string, string>): (vs: seq<string>)
    requires WellFormed(d)
    ensures |vs| == |d.order|
    ensures forall i :: 0 <= i < |d.order| ==> vs[i] == TextInput(widgets, ValueWidgetId(d.order[i]), d.table[d.order[i]])
  {
    seq(|d.order|, i requires 0 <= i < |d.order| => TextInput(widgets, ValueWidgetId(d.order[i]), d.table[d.order[i]]))
  }

  /** The dict the rebuild loop leaves in the buffer: `new_updated_data[new_key] = new_value` for every entry, in order. */
  function Rebuilt(d: Dict, widgets: map<string, string>): Dict
    requires WellFormed(d)
  {
    FromPairs(EditedKeys(d, widgets), EditedValues(d, widgets))
  }

  /**
   * The rebuilt dict holds exactly the edited keys, in the order in which they
   * were first written, and never more entries than the buffer had.
   */
  lemma RebuiltKeys(d: Dict, widgets: map<string, string>)
    requires WellFormed(d)
    ensures WellFormed(Rebuilt(d, widgets))
    ensures forall k :: k in Rebuilt(d, widgets).table <==> k in EditedKeys(d, widgets)
    ensures |Rebuilt(d, widgets).order| <= |d.order|
    ensures InFirstWriteOrder(EditedKeys(d, widgets), Rebuilt(d, widgets).order)
  {
    var ks, vs := EditedKeys(d, widgets), EditedValues(d, widgets);
    FromPairsKeys(ks, vs);
    FromPairsSize(ks, vs);
    FromPairsOrder(ks, vs);
  }

  /** Last write wins: when several entries are edited to the same key, the last one's value stays. */
  lemma RebuiltLastWrite(d: Dict, widgets: map<string, string>, i: nat)
    requires WellFormed(d) && i < |d.order|
    requires forall j :: i < j < |d.order| ==> EditedKeys(d, widgets)[j] != EditedKeys(d, widgets)[i]
    ensures EditedKeys(d, widgets)[i] in Rebuilt(d, widgets).table
    ensures Rebuilt(d, widgets).table[EditedKeys(d, widgets)[i]] == EditedValues(d, widgets)[i]
  {
    FromPairsLastWrite(EditedKeys(d, widgets), EditedValues(d, widgets), i);
  }

  /** When every input returns its default, the rebuild gives back the buffer unchanged, order included. */
  lemma RebuiltDefaults(d: Dict, widgets: map<string, string>)
    requires WellFormed(d)
    requires forall k :: k in d.table ==> TextInput(widgets, KeyWidgetId(k), k) == k
    requires forall k :: k in d.table ==> TextInput(widgets, ValueWidgetId(k), d.table[k]) == d.table[k]
    ensures Rebuilt(d, widgets) == d
  {
    assert EditedKeys(d, widgets) == d.order;
    assert EditedValues(d, widgets) == ValuesOf(d);
    FromPairsIdentity(d);
  }

  /** On the first render no widget holds any text, so the rebuild is the identity. */
  lemma RebuiltFirstRender(d: Dict)
    requires WellFormed(d)
    ensures Rebuilt(d, map[]) == d
  {
    RebuiltDefaults(d, map[]);
  }

  /** The rebuild loop of `manual_edit_kv_pairs`, over a snapshot of the buffer's items. */
  method CollectEdits(items: Dict, widgets: map<string, string>) returns (edited: Dict)
    requires WellFormed(items)
    ensures edited == Rebuilt(items, widgets)
  {
    ghost var ks, vs := EditedKeys(items, widgets), EditedValues(items, widgets);
    edited := Empty;
    var i := 0;
    while i < |items.order|
      invariant 0 <= i <= |items.order|
      invariant edited == FromPairs(ks[..i], vs[..i])
    {
      var key := items.order[i];
      var value := items.table[key];
      var newKey := TextInput(widgets, KeyWidgetId(key), key);
      var newValue := TextInput(widgets, ValueWidgetId(key), value);
      assert newKey == ks[i] && newValue == vs[i];
      FromPairsSnoc(ks, vs, i);
      edited := Assign(edited, newKey, newValue);
      i := i + 1;
    }
    assert ks[..i] == ks && vs[..i] == vs;
  }

  /** `update_key` renames only when the new key is non-empty and differs from the old one. */
  predicate RenameFires(oldKey: string, newKey: string)
  {
    newKey != "" && oldKey != newKey
  }

  /** `d[new_key] = d.pop(old_key)` when the rename fires, else `d`. */
  function RenameKey(d: Dict, oldKey: string, newKey: string): (r: Dict)
    requires WellFormed(d)
    requires RenameFires(oldKey, newKey) ==> oldKey in d.table
    ensures WellFormed(r)
    ensures !RenameFires(oldKey, newKey) ==> r == d
  {
    if RenameFires(oldKey, newKey) then
      var popped := Pop(d, oldKey);
      Assign(popped.0, newKey, popped.1)
    else d
  }

  /**
   * A fired rename moves the value: the old key is gone, the new key holds the
   * old key's value (overwriting an entry already there), every other entry is
   * unchanged, and a new key goes to the end of the iteration order.
   */
  lemma RenameKeyMoves(d: Dict, oldKey: string, newKey: string)
    requires WellFormed(d) && RenameFires(oldKey, newKey) && oldKey in d.table
    ensures var r := RenameKey(d, oldKey, newKey);
            && oldKey !in r.table
            && newKey in r.table && r.table[newKey] == d.table[oldKey]
            && (forall k :: k != oldKey && k != newKey ==> (k in r.table <==> k in d.table))
            && (forall k :: k != oldKey && k != newKey && k in d.table ==> r.table[k] == d.table[k])
            && (newKey !in d.table ==> r.order == RemoveKey(d.order, oldKey) + [newKey] && |r.order| == |d.order|)
            && (newKey in d.table ==> r.order == RemoveKey(d.order, oldKey) && |r.order| == |d.order| - 1)
  {
  }

  /** The call site passes the widget id as the new key, so a fired callback always renames `k` to `"key_" + k`. */
  lemma CallSiteRenamesToWidgetId(d: Dict, key: string)
    requires WellFormed(d) && key in d.table
    ensures RenameFires(key, KeyWidgetId(key))
    ensures key !in RenameKey(d, key, KeyWidgetId(key)).table
    ensures KeyWidgetId(key) in RenameKey(d, key, KeyWidgetId(key)).table
    ensures RenameKey(d, key, KeyWidgetId(key)).table[KeyWidgetId(key)] == d.table[key]
  {
    assert |KeyWidgetId(key)| == |key| + 4;
  }

  /** Renaming `"Name"` to `"FullName"` in `{"Name": "John"}` through the call site yields `{"key_Name": "John"}`. */
  lemma CallSiteCounterexample()
    ensures RenameKey(Dict(["Name"], map["Name" := "John"]), "Name", KeyWidgetId("Name"))
            == Dict(["key_Name"], map["key_Name" := "John"])
    ensures RenameKey(Dict(["Name"], map["Name" := "John"]), "Name", "FullName")
            == Dict(["FullName"], map["FullName" := "John"])
  {
    var d := Dict(["Name"], map["Name" := "John"]);
    assert RemoveKey(d.order, "Name") == [];
    assert KeyWidgetId("Name") == "key_Name";
    assert map["Name" := "John"] - {"Name"} == map[];
  }

  /** `st.session_state["updated_json"]` and the operations of `manual_edit_kv_pairs` on it. */
  class EditSession {
    /** The buffer; a session without the entry is modelled as holding the empty dict. */
    var buffer: Dict

    ghost predicate Valid()
      reads this
    {
      WellFormed(buffer)
    }

    constructor ()
      ensures Valid() && buffer == Empty
    {
      buffer := Empty;
    }

    /** `update_key(old_key, new_key)`; `pop` raises `KeyError` unless `old_key` is present. */
    method UpdateKey(oldKey: string, newKey: string)
      requires Valid()
      requires RenameFires(oldKey, newKey) ==> oldKey in buffer.table
      modifies this
      ensures Valid()
      ensures buffer == RenameKey(old(buffer), oldKey, newKey)
      ensures RenameFires(oldKey, newKey) ==>
                && oldKey !in buffer.table
                && newKey in buffer.table && buffer.table[newKey] == old(buffer).table[oldKey]
                && (forall k :: k != oldKey && k != newKey ==> (k in buffer.table <==> k in old(buffer).table))
                && (forall k :: k != oldKey && k != newKey && k in old(buffer).table ==> buffer.table[k] == old(buffer).table[k])
      ensures !RenameFires(oldKey, newKey) ==> buffer == old(buffer)
    {
      if newKey != "" && oldKey != newKey {
        RenameKeyMoves(buffer, oldKey, newKey);
        var popped := Pop(buffer, oldKey);
        buffer := Assign(popped.0, newKey, popped.1);
      }
    }

    /** `update_value(key)`: the buffer entry takes the text of the value input; nothing else changes. */
    method UpdateValue(key: string, widgets: map<string, string>)
      requires Valid()
      requires ValueWidgetId(key) in widgets
      modifies this
      ensures Valid()
      ensures buffer == Assign(old(buffer), key, widgets[ValueWidgetId(key)])
      ensures key in buffer.table && buffer.table[key] == widgets[ValueWidgetId(key)]
      ensures forall k :: k != key ==> (k in buffer.table <==> k in old(buffer).table)
      ensures forall k :: k != key && k in old(buffer).table ==> buffer.table[k] == old(buffer).table[k]
      ensures key in old(buffer).table ==> buffer.order == old(buffer).order
    {
      buffer := Assign(buffer, key, widgets[ValueWidgetId(key)]);
    }

    /** The key input's `on_change`, wired as written: `args=(key, f"key_{key}")`. */
    method OnKeyChange(key: string)
      requires Valid() && key in buffer.table
      modifies this
      ensures Valid()
      ensures buffer == RenameKey(old(buffer), key, KeyWidgetId(key))
      ensures key !in buffer.table
      ensures KeyWidgetId(key) in buffer.table && buffer.table[KeyWidgetId(key)] == old(buffer).table[key]
    {
      CallSiteRenamesToWidgetId(buffer, key);
      UpdateKey(key, KeyWidgetId(key));
    }

    /** The key input's `on_change` as intended: the new key is the text the key input holds. */
    method OnKeyChangeIntended(key: string, widgets: map<string, string>)
      requires Valid() && key in buffer.table && KeyWidgetId(key) in widgets
      modifies this
      ensures Valid()
      ensures buffer == RenameKey(old(buffer), key, widgets[KeyWidgetId(key)])
      ensures RenameFires(key, widgets[KeyWidgetId(key)]) ==>
                && key !in buffer.table
                && widgets[KeyWidgetId(key)] in buffer.table
                && buffer.table[widgets[KeyWidgetId(key)]] == old(buffer).table[key]
      ensures !RenameFires(key, widgets[KeyWidgetId(key)]) ==> buffer == old(buffer)
    {
      UpdateKey(key, widgets[KeyWidgetId(key)]);
    }

    /**
     * `manual_edit_kv_pairs(extracted_data)`: a value that is not a dict returns
     * `None` and leaves the buffer alone; for a dict, an empty buffer is first filled
     * with a copy of the data as its inputs display it, the buffer is replaced by the
     * rebuilt dict, and that dict is returned.
     */
    method ManualEdit(extracted: Json, widgets: map<string, string>) returns (result: Option<Dict>)
      requires Valid()
      requires IsDict(extracted) ==> WellFormed(Displayed(extracted))
      modifies this
      ensures Valid()
      ensures !IsDict(extracted) ==> result == None && buffer == old(buffer)
      ensures IsDict(extracted) ==>
                && result == Some(buffer)
                && buffer == Rebuilt(if old(buffer).order == [] then Displayed(extracted) else old(buffer), widgets)
    {
      if !IsDict(extracted) {
        return None;
      }
      if buffer.order == [] {
        buffer := Displayed(extracted);
      }
      var edited := CollectEdits(buffer, widgets);
      RebuiltKeys(buffer, widgets);
      buffer := edited;
      result := Some(buffer);
    }
  }
}
