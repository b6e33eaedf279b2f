/** What the settings writers do to the config document. */
module ConfigUpdates {
  import opened Prelude

  datatype Json =
    | Null
    | Bool(b: bool)
    | Number(digits: string)
    | Text(text: string)
    | Array(items: seq<Json>)
    | Object(fields: Doc)

  type Doc = map<string, Json>

  /** One call of a `save_*` writer. */
  datatype Update =
    | SetValues(values: seq<(string, Json)>)
    | SetIn(block: string, key: string, value: Json)
    | BindShortcut(keys: string, action: string)
    | ResetShortcuts

  // ---- shortcuts ----

  /** `keystrokes_conflict`: the same chord once parsed; texts that do not parse
      only match themselves. `canonical` is the keystroke parser. */
  predicate KeystrokesConflict<K(==)>(canonical: string -> Option<K>, a: string, b: string) {
    if canonical(a).Some? && canonical(b).Some? then canonical(a) == canonical(b) else a == b
  }

  lemma ConflictIsEquivalence<K>(canonical: string -> Option<K>, a: string, b: string, c: string)
    ensures KeystrokesConflict(canonical, a, a)
    ensures KeystrokesConflict(canonical, a, b) ==> KeystrokesConflict(canonical, b, a)
    ensures KeystrokesConflict(canonical, a, b) && KeystrokesConflict(canonical, b, c)
            ==> KeystrokesConflict(canonical, a, c)
  {
  }

  /** A binding that `keys` and `action` displace. */
  predicate Displaced<K(==)>(canonical: string -> Option<K>, oldKeys: string, oldValue: Json, keys: string,
                        action: string) {
    oldValue == Text(action) || KeystrokesConflict(canonical, oldKeys, keys)
  }

  function MergeShortcut<K(==)>(canonical: string -> Option<K>, shortcuts: Doc, keys: string, action: string): Doc {
    (map k | k in shortcuts && !Displaced(canonical, k, shortcuts[k], keys, action) :: shortcuts[k])[keys := Text(action)]
  }

  /** `merge_shortcut`, on the map it is given. */
  class ShortcutMap {
    var bindings: Doc

    constructor (bindings: Doc)
      ensures this.bindings == bindings
    {
      this.bindings := bindings;
    }

    method Merge<K(==)>(canonical: string -> Option<K>, keys: string, action: string)
      modifies this
      ensures bindings == MergeShortcut(canonical, old(bindings), keys, action)
    {
      var keysToRemove := set k | k in bindings && Displaced(canonical, k, bindings[k], keys, action);
      ghost var before := bindings;
      var left := keysToRemove;
      while left != {}
        invariant left <= keysToRemove
        invariant bindings == map k | k in before && (k in left || k !in keysToRemove) :: before[k]
        decreases |left|
      {
        var k :| k in left;
        left := left - {k};
        bindings := bindings - {k};
      }
      assert bindings == map k | k in before && k !in keysToRemove :: before[k];
      bindings := bindings[keys := Text(action)];
    }
  }

  function Merged<K(==)>(canonical: string -> Option<K>, start: Doc, merges: seq<(string, string)>): Doc {
    if merges == [] then start
    else
      var last := merges[|merges| - 1];
      MergeShortcut(canonical, Merged(canonical, start, merges[..|merges| - 1]), last.0, last.1)
  }

  /** The same text, or texts of one chord. */
  predicate SameChord<K(==)>(canonical: string -> Option<K>, a: string, b: string) {
    a == b || (canonical(a).Some? && canonical(a) == canonical(b))
  }

  /** A merge takes a binding's action or its chord. */
  predicate Takes<K(==)>(canonical: string -> Option<K>, merge: (string, string), keys: string, value: Json) {
    value == Text(merge.1) || SameChord(canonical, keys, merge.0)
  }

  lemma DisplacedIsTaken<K>(canonical: string -> Option<K>, keys: string, value: Json, merge: (string, string))
    ensures Displaced(canonical, keys, value, merge.0, merge.1) <==> Takes(canonical, merge, keys, value)
    ensures KeystrokesConflict(canonical, keys, merge.0) <==> SameChord(canonical, keys, merge.0)
  {
  }

  /** No merge from `from` on displaces the binding of `keys` to `value`. */
  predicate Untouched<K(==)>(canonical: string -> Option<K>, keys: string, value: Json,
                        merges: seq<(string, string)>, from: nat) {
    forall j | from <= j < |merges| :: !Takes(canonical, merges[j], keys, value)
  }

  /** Merge `i` makes the binding, and none after it displaces it. */
  predicate MadeAt<K(==)>(canonical: string -> Option<K>, merges: seq<(string, string)>, i: nat, keys: string,
                     value: Json) {
    i < |merges| && merges[i].0 == keys && value == Text(merges[i].1) && Untouched(canonical, keys, value, merges, i + 1)
  }

  ghost predicate Made<K>(canonical: string -> Option<K>, merges: seq<(string, string)>, keys: string, value: Json) {
    exists i: nat :: MadeAt(canonical, merges, i, keys, value)
  }

  /** Where a binding that stands after the merges comes from. */
  ghost predicate Survives<K>(canonical: string -> Option<K>, start: Doc, merges: seq<(string, string)>,
                              keys: string, value: Json) {
    || (keys in start && start[keys] == value && Untouched(canonical, keys, value, merges, 0))
    || Made(canonical, merges, keys, value)
  }

  lemma UntouchedOneMore<K>(canonical: string -> Option<K>, keys: string, value: Json,
                            front: seq<(string, string)>, last: (string, string), from: nat)
    requires from <= |front|
    ensures Untouched(canonical, keys, value, front + [last], from)
       <==> Untouched(canonical, keys, value, front, from) && !Takes(canonical, last, keys, value)
  {
    var all := front + [last];
    assert all[|front|] == last && forall j | from <= j < |front| :: all[j] == front[j];
  }

  lemma MadeOneMore<K>(canonical: string -> Option<K>, keys: string, value: Json, front: seq<(string, string)>,
                       last: (string, string))
    ensures Made(canonical, front + [last], keys, value)
       <==> (last.0 == keys && value == Text(last.1))
            || (Made(canonical, front, keys, value) && !Takes(canonical, last, keys, value))
  {
    var all, n := front + [last], |front|;
    assert all[n] == last && forall j | 0 <= j < n :: all[j] == front[j];
    if i: nat :| MadeAt(canonical, all, i, keys, value) {
      if i < n {
        UntouchedOneMore(canonical, keys, value, front, last, i + 1);
        assert MadeAt(canonical, front, i, keys, value);
      }
    }
    if i: nat :| MadeAt(canonical, front, i, keys, value) {
      UntouchedOneMore(canonical, keys, value, front, last, i + 1);
      if !Takes(canonical, last, keys, value) {
        assert MadeAt(canonical, all, i, keys, value);
      }
    }
    if last.0 == keys && value == Text(last.1) {
      assert MadeAt(canonical, all, n, keys, value);
    }
  }

  /** A binding stands after any sequence of merges exactly when it was made and
      no later merge took its action or its chord. */
  lemma {:induction false} BindingSurvives<K>(canonical: string -> Option<K>, start: Doc,
                                              merges: seq<(string, string)>, keys: string, value: Json)
    ensures (keys in Merged(canonical, start, merges) && Merged(canonical, start, merges)[keys] == value)
       <==> Survives(canonical, start, merges, keys, value)
  {
    if merges != [] {
      var front, last := merges[..|merges| - 1], merges[|merges| - 1];
      assert merges == front + [last];
      BindingSurvives(canonical, start, front, keys, value);
      ConflictIsEquivalence(canonical, last.0, last.0, last.0);
      DisplacedIsTaken(canonical, keys, value, last);
      UntouchedOneMore(canonical, keys, value, front, last, 0);
      MadeOneMore(canonical, keys, value, front, last);
    }
  }

  /** From an empty map on, every action has one chord and every chord one action. */
  lemma {:induction false} MergedIsOneToOne<K>(canonical: string -> Option<K>, merges: seq<(string, string)>,
                                               a: string, b: string)
    requires a in Merged(canonical, map[], merges) && b in Merged(canonical, map[], merges) && a != b
    ensures Merged(canonical, map[], merges)[a] != Merged(canonical, map[], merges)[b]
    ensures !SameChord(canonical, a, b)
  {
    DisplacedIsTaken(canonical, a, Null, (b, ""));
    if merges != [] {
      var front, last := merges[..|merges| - 1], merges[|merges| - 1];
      ConflictIsEquivalence(canonical, a, b, b);
      ConflictIsEquivalence(canonical, b, a, a);
      if a != last.0 && b != last.0 {
        MergedIsOneToOne(canonical, front, a, b);
      }
    }
  }

  // ---- the document ----

  /** A `Null` clears the field. */
  function SetField(doc: Doc, key: string, value: Json): Doc { if value.Null? then doc - {key} else doc[key := value] }

  function SetFields(doc: Doc, values: seq<(string, Json)>): Doc {
    if values == [] then doc
    else
      var last := values[|values| - 1];
      SetField(SetFields(doc, values[..|values| - 1]), last.0, last.1)
  }

  /** The fields of a block; anything that is not an object counts as empty. */
  function BlockOf(doc: Doc, name: string): Doc {
    if name in doc && doc[name].Object? then doc[name].fields else map[]
  }

  function Apply<K(==)>(canonical: string -> Option<K>, u: Update, doc: Doc): Doc {
    match u
    case SetValues(values) => SetFields(doc, values)
    case SetIn(block, key, value) => doc[block := Object(SetField(BlockOf(doc, block), key, value))]
    case BindShortcut(keys, action) =>
      doc["shortcuts" := Object(MergeShortcut(canonical, BlockOf(doc, "shortcuts"), keys, action))]
    case ResetShortcuts => doc - {"shortcuts"}
  }

  /** The top-level fields an update is about. */
  function Touches(u: Update): set<string> {
    match u
    case SetValues(values) => set i | 0 <= i < |values| :: values[i].0
    case SetIn(block, _, _) => {block}
    case BindShortcut(_, _) => {"shortcuts"}
    case ResetShortcuts => {"shortcuts"}
  }

  /** A writer leaves every field it is not about, known or unknown, as it found it. */
  lemma {:induction false} ApplyTouchesOnly<K>(canonical: string -> Option<K>, u: Update, doc: Doc, field: string)
    requires field !in Touches(u)
    ensures field in Apply(canonical, u, doc) <==> field in doc
    ensures field in doc ==> Apply(canonical, u, doc)[field] == doc[field]
    decreases if u.SetValues? then |u.values| else 0
  {
    if u.SetValues? && u.values != [] {
      var front := u.values[..|u.values| - 1];
      assert forall i | 0 <= i < |front| :: front[i] == u.values[i] && u.values[i].0 in Touches(u);
      ApplyTouchesOnly(canonical, SetValues(front), doc, field);
      assert u.values[|u.values| - 1].0 in Touches(u);
    }
  }

  // ---- what an update leaves in the document ----

  function FieldOf(doc: Doc, key: string): Option<Json> { if key in doc then Some(doc[key]) else None }

  /** A field inside a block, when the block is there and is an object. */
  function FieldIn(doc: Doc, block: string, key: string): Option<Json> {
    if block in doc && doc[block].Object? then FieldOf(doc[block].fields, key) else None
  }

  function Cleared(value: Json): Option<Json> { if value.Null? then None else Some(value) }

  /** Value `i` is the last one given for the field. */
  predicate LastGiven(values: seq<(string, Json)>, i: nat, field: string) {
    i < |values| && values[i].0 == field && forall j | i < j < |values| :: values[j].0 != field
  }

  predicate NeverGiven(values: seq<(string, Json)>, field: string) { forall i | 0 <= i < |values| :: values[i].0 != field }

  /** The last value given for a field decides; a field given none is as before. */
  predicate SetsLast(values: seq<(string, Json)>, before: Doc, after: Doc, field: string) {
    && (forall i: nat | i < |values| && LastGiven(values, i, field) :: FieldOf(after, field) == Cleared(values[i].1))
    && (NeverGiven(values, field) ==> FieldOf(after, field) == FieldOf(before, field))
  }

  /** Everything an update does to a document, field by field. */
  ghost predicate Writes<K>(canonical: string -> Option<K>, u: Update, before: Doc, after: Doc) {
    match u
    case SetValues(values) => forall field :: SetsLast(values, before, after, field)
    case SetIn(block, key, value) =>
      && (forall field | field != block :: FieldOf(after, field) == FieldOf(before, field))
      && block in after && after[block].Object? && FieldIn(after, block, key) == Cleared(value)
      && forall k | k != key :: FieldIn(after, block, k) == FieldIn(before, block, k)
    case BindShortcut(keys, action) =>
      && (forall field | field != "shortcuts" :: FieldOf(after, field) == FieldOf(before, field))
      && FieldIn(after, "shortcuts", keys) == Some(Text(action))
      && forall k | k != keys ::
           FieldIn(after, "shortcuts", k)
           == var was := FieldIn(before, "shortcuts", k);
              if was.Some? && !Takes(canonical, (keys, action), k, was.value) then was else None
    case ResetShortcuts =>
      && (forall field | field != "shortcuts" :: FieldOf(after, field) == FieldOf(before, field))
      && FieldOf(after, "shortcuts") == None
  }

  lemma {:induction false} LastValueIsSet(doc: Doc, values: seq<(string, Json)>, i: nat, field: string)
    requires LastGiven(values, i, field)
    ensures FieldOf(SetFields(doc, values), field) == Cleared(values[i].1)
    decreases |values|
  {
    var n := |values| - 1;
    if i < n {
      LastValueIsSet(doc, values[..n], i, field);
    }
  }

  lemma {:induction false} NoValueIsSet(doc: Doc, values: seq<(string, Json)>, field: string)
    requires NeverGiven(values, field)
    ensures FieldOf(SetFields(doc, values), field) == FieldOf(doc, field)
  {
    if values != [] {
      NoValueIsSet(doc, values[..|values| - 1], field);
    }
  }

  lemma SetFieldsSetsLast(doc: Doc, values: seq<(string, Json)>, field: string)
    ensures SetsLast(values, doc, SetFields(doc, values), field)
  {
    forall i: nat | LastGiven(values, i, field) ensures FieldOf(SetFields(doc, values), field) == Cleared(values[i].1) {
      LastValueIsSet(doc, values, i, field);
    }
    if NeverGiven(values, field) {
      NoValueIsSet(doc, values, field);
    }
  }

  /** What the writers change is what they were asked to, and they leave the rest. */
  lemma ApplyWrites<K>(canonical: string -> Option<K>, u: Update, doc: Doc)
    ensures Writes(canonical, u, doc, Apply(canonical, u, doc))
  {
    match u {
      case SetValues(values) =>
        forall field ensures SetsLast(values, doc, SetFields(doc, values), field) {
          SetFieldsSetsLast(doc, values, field);
        }
      case SetIn(_, _, _) =>
      case BindShortcut(keys, action) =>
        forall k, v: Json ensures Displaced(canonical, k, v, keys, action) <==> Takes(canonical, (keys, action), k, v) {
          DisplacedIsTaken(canonical, k, v, (keys, action));
        }
      case ResetShortcuts =>
    }
  }

  /** The raw document between load and write, changed in place by the writers. */
  class ConfigDocument {
    var root: Doc

    constructor (root: Doc)
      ensures this.root == root
    {
      this.root := root;
    }

    /** The loop of `save_config_values_checked`. */
    method SetValues<K(==)>(canonical: string -> Option<K>, values: seq<(string, Json)>)
      modifies this
      ensures root == Apply(canonical, Update.SetValues(values), old(root))
    {
      for i := 0 to |values|
        invariant root == SetFields(old(root), values[..i])
      {
        var (key, value) := values[i];
        if value.Null? {
          root := root - {key};
        } else {
          root := root[key := value];
        }
        assert values[..i + 1][..i] == values[..i];
      }
      assert values[..|values|] == values;
    }

    /** `apply_terminal_field` and `apply_agent_panel_field`. */
    method SetIn<K(==)>(canonical: string -> Option<K>, block: string, key: string, value: Json)
      modifies this
      ensures root == Apply(canonical, Update.SetIn(block, key, value), old(root))
    {
      if block !in root {
        root := root[block := Object(map[])];
      }
      if !root[block].Object? {
        root := root[block := Object(map[])];
      }
      var fields := root[block].fields;
      if value.Null? {
        fields := fields - {key};
      } else {
        fields := fields[key := value];
      }
      root := root[block := Object(fields)];
    }

    /** The change `save_shortcut_checked` makes. */
    method BindShortcut<K(==)>(canonical: string -> Option<K>, keys: string, action: string)
      modifies this
      ensures root == Apply(canonical, Update.BindShortcut(keys, action), old(root))
    {
      if "shortcuts" !in root || !root["shortcuts"].Object? {
        root := root["shortcuts" := Object(map[])];
      }
      var shortcuts := new ShortcutMap(root["shortcuts"].fields);
      shortcuts.Merge(canonical, keys, action);
      root := root["shortcuts" := Object(shortcuts.bindings)];
    }
  }
}
