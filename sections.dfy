/** The eight section components (HideoutOptions, EconomyOptions, OtherTweaks,
    TraderChanges, InsuranceChanges, StashOptions, SecureContainersOptions,
    CraftingChanges). They share one body of logic over a section key and a table of
    dotted field keys: `getValue`, `setValue`, `deepClone`, the `handleChange`,
    `handleUndo` and section-reset state updaters, the per-field `changed` flag and
    `sectionChanged`. The model gives that logic once; the tables follow. */
module Sections {
  import opened Wrappers
  import opened Json
  import opened KeyPath
  import opened Tree

  // ---------------------------------------------------------------------------
  // getValue / setValue / deepClone

  /** `getValue(obj, key)`: split the key on dots and read along the path. */
  function GetValue(o: Json, key: string): (r: Json)
    ensures !o.Obj? ==> r == Undef
  {
    Read(o, Split(key))
  }

  /** The read gives `undefined` as soon as it meets a value that is not an object. */
  lemma GetValueLeavesObject(o: Json, key: string, i: nat)
    requires i < |Split(key)| && !Read(o, Split(key)[..i]).Obj?
    ensures GetValue(o, key) == Undef
  {
    var p := Split(key);
    assert p == p[..i] + p[i..];
    ReadAppend(o, p[..i], p[i..]);
  }

  /** `setValue(obj, key, value)`, which mutates `obj` in place; `None` when it throws.
      It throws only when `obj` itself is not an object (a TypeError on `undefined`
      or `null`, and on a primitive in strict-mode module code); missing or
      non-object intermediates are replaced by `{}`. */
  function SetValue(o: Json, key: string, v: Json): (r: Option<Json>)
    ensures r.Some? <==> o.Obj?
  {
    if o.Obj? then Some(Obj(SetIn(o.members, Split(key), v))) else None
  }

  /** Get after set, for every dotted key. */
  lemma GetAfterSet(o: Json, key: string, v: Json)
    requires o.Obj?
    ensures GetValue(SetValue(o, key, v).value, key) == v
  {
    ReadSetIn(o.members, Split(key), v);
  }

  /** Every path that is neither a prefix nor an extension of the key's path reads
      as before. */
  lemma SetValueFrame(o: Json, key: string, v: Json, r: Path)
    requires o.Obj? && Disjoint(Split(key), r)
    ensures Read(SetValue(o, key, v).value, r) == Read(o, r)
  {
    SetInFrame(o.members, Split(key), v, r);
  }

  /** Afterwards each intermediate on the key's path is an object, so the walk
      never fails; the object itself keeps its keys in order and gains the first
      segment at the end only if it was new. */
  lemma SetValueCreates(o: Json, key: string, v: Json, i: nat)
    requires o.Obj? && i < |Split(key)|
    ensures Read(SetValue(o, key, v).value, Split(key)[..i]).Obj?
    ensures var p := Split(key);
      Keys(SetValue(o, key, v).value.members) ==
        (if p[0] in Keys(o.members) then Keys(o.members) else Keys(o.members) + [p[0]])
  {
    SetInCreates(o.members, Split(key), v, i);
    SetInKeys(o.members, Split(key), v);
  }

  /** On a well-formed object the result is well formed again. */
  lemma SetValueWellFormed(o: Json, key: string, v: Json)
    requires o.Obj? && WellFormed(o) && WellFormed(v)
    ensures WellFormed(SetValue(o, key, v).value)
  {
    SetInWellFormed(o.members, Split(key), v);
  }

  /** `deepClone(obj)`, `JSON.parse(JSON.stringify(obj))`: `None` for `undefined`,
      whose serialisation `undefined` does not parse. */
  function DeepClone(j: Json): (r: Option<Json>)
    ensures r.Some? <==> j != Undef
    ensures r.Some? ==> Clean(r.value)
  {
    if j == Undef then None else CloneClean(j); Some(Clone(j))
  }

  // ---------------------------------------------------------------------------
  // The section and its flags

  /** A component: the top-level key it edits and its table of dotted field keys. */
  datatype Section = Section(key: string, fields: seq<string>)

  /** The subtree a component edits, `config.<key>` (and `originalConfig?.<key>`). */
  function SectionOf(config: Json, s: Section): (r: Json)
    ensures !config.Obj? ==> r == Undef
    ensures config.Obj? ==> r == Lookup(config.members, s.key)
  {
    if config.Obj? then
      ReadCons(config.members, [s.key]);
      assert [s.key][1..] == [];
      Read(config, [s.key])
    else Read(config, [s.key])
  }

  /** A field's `changed` flag, `value !== origValue`. */
  predicate Changed(ho: Json, original: Json, key: string)
    ensures !ho.Obj? && !original.Obj? ==> !Changed(ho, original, key)
  {
    GetValue(ho, key) != GetValue(original, key)
  }

  /** `fields.some(field => getValue(ho, field.key) !== getValue(original, field.key))`. */
  predicate SectionChanged(ho: Json, original: Json, fields: seq<string>)
    ensures !ho.Obj? && !original.Obj? ==> !SectionChanged(ho, original, fields)
    decreases |fields|
  {
    |fields| > 0 && (Changed(ho, original, fields[0]) || SectionChanged(ho, original, fields[1..]))
  }

  /** `sectionChanged` holds exactly when some field of the table is changed. */
  lemma {:induction false} SectionChangedSome(ho: Json, original: Json, fields: seq<string>)
    ensures SectionChanged(ho, original, fields) <==>
      exists i :: 0 <= i < |fields| && Changed(ho, original, fields[i])
    decreases |fields|
  {
    if |fields| > 0 {
      SectionChangedSome(ho, original, fields[1..]);
      if SectionChanged(ho, original, fields[1..]) {
        var i :| 0 <= i < |fields[1..]| && Changed(ho, original, fields[1..][i]);
        assert Changed(ho, original, fields[i + 1]);
      }
      if exists i :: 0 <= i < |fields| && Changed(ho, original, fields[i]) {
        var i :| 0 <= i < |fields| && Changed(ho, original, fields[i]);
        if i > 0 {
          assert fields[1..][i - 1] == fields[i];
        }
      }
    }
  }

  // ---------------------------------------------------------------------------
  // The state updaters

  /** What a `setConfig(prev => ...)` updater does: keep `prev`, return a new
      document, or throw (which unmounts the React tree). */
  datatype Update = Kept | Updated(next: Json) | Crashed

  /** `handleChange(key, value)`: clone `prev`, `setValue` on the clone's section,
      return the clone. */
  function ChangeUpdate(prev: Json, s: Section, key: string, value: Json): (r: Update)
    ensures !r.Kept?
    ensures r.Updated? ==> prev.Obj? && r.next.Obj?
  {
    match DeepClone(prev)
    case None => Crashed
    case Some(next) =>
      if !next.Obj? then Crashed
      else match SetValue(Lookup(next.members, s.key), key, value)
        case None => Crashed
        case Some(sec) => Updated(Obj(Assign(next.members, s.key, sec)))
  }

  /** `handleUndo(key)`: the same, writing the snapshot's value at the key. */
  function UndoUpdate(prev: Json, originalConfig: Json, s: Section, key: string): (r: Update)
    ensures !r.Kept?
    ensures r.Updated? ==> prev.Obj? && r.next.Obj?
  {
    ChangeUpdate(prev, s, key, GetValue(SectionOf(originalConfig, s), key))
  }

  /** The section reset: clone `prev` and replace its section by a clone of the
      snapshot's. */
  function ResetUpdate(prev: Json, originalConfig: Json, s: Section): (r: Update)
    ensures !r.Kept?
    ensures r.Updated? ==> prev.Obj? && r.next.Obj?
  {
    match DeepClone(prev)
    case None => Crashed
    case Some(next) =>
      if !next.Obj? then Crashed
      else match DeepClone(SectionOf(originalConfig, s))
        case None => Crashed
        case Some(orig) => Updated(Obj(Assign(next.members, s.key, orig)))
  }

  /** Cloning a well-formed object keeps each property's section a clone of it. */
  lemma SectionOfClone(prev: Json, s: Section)
    requires WellFormed(prev)
    ensures SectionOf(Clone(prev), s) == Clone(SectionOf(prev, s))
  {
    ReadClone(prev, [s.key]);
  }

  /** `handleChange` throws exactly when the section is not an object. */
  lemma ChangeSucceeds(prev: Json, s: Section, key: string, value: Json)
    requires WellFormed(prev)
    ensures ChangeUpdate(prev, s, key, value).Crashed? <==> !SectionOf(prev, s).Obj?
    ensures ChangeUpdate(prev, s, key, value).Kept? == false
  {
    if prev.Obj? {
      var cm := CloneMembers(prev.members);
      LookupClone(prev.members, s.key);
      ReadCons(prev.members, [s.key]);
      assert DeepClone(prev) == Some(Obj(cm));
      var sec := Lookup(cm, s.key);
      assert sec.Obj? <==> SectionOf(prev, s).Obj?;
    }
  }

  /** After `handleChange(key, value)` the section holds `value` at the key, and
      every path of the document disjoint from the edited one holds the clone of
      what it held: the whole document outside `<section>.<key>` is unchanged except
      that `undefined` properties are gone. */
  lemma ChangeSetsField(prev: Json, s: Section, key: string, value: Json, r: Path)
    requires WellFormed(prev) && SectionOf(prev, s).Obj?
    ensures ChangeUpdate(prev, s, key, value).Updated?
    ensures var next := ChangeUpdate(prev, s, key, value).next;
      GetValue(SectionOf(next, s), key) == value &&
      (Disjoint([s.key] + Split(key), r) ==> Read(next, r) == Clone(Read(prev, r)))
  {
    SectionOfClone(prev, s);
    var cm := CloneMembers(prev.members);
    var sec := Lookup(cm, s.key);
    ReadCons(cm, [s.key]);
    var sec' := SetValue(sec, key, value).value;
    var next := Obj(Assign(cm, s.key, sec'));
    LookupAssign(cm, s.key, sec', s.key);
    ReadCons(Assign(cm, s.key, sec'), [s.key]);
    GetAfterSet(sec, key, value);
    if Disjoint([s.key] + Split(key), r) {
      ReadClone(prev, r);
      var p := [s.key] + Split(key);
      assert r != [] by { assert r == [] ==> r <= p; }
      ReadCons(Assign(cm, s.key, sec'), r);
      ReadCons(cm, r);
      LookupAssign(cm, s.key, sec', r[0]);
      if r[0] == s.key {
        assert p[0] == s.key && p[1..] == Split(key);
        DisjointTail(p, r);
        SetValueFrame(sec, key, value, r[1..]);
      }
    }
  }

  /** After `handleUndo(key)` the field's `changed` flag is off. */
  lemma UndoClearsChanged(prev: Json, originalConfig: Json, s: Section, key: string)
    requires WellFormed(prev) && SectionOf(prev, s).Obj?
    ensures UndoUpdate(prev, originalConfig, s, key).Updated?
    ensures !Changed(SectionOf(UndoUpdate(prev, originalConfig, s, key).next, s),
                     SectionOf(originalConfig, s), key)
  {
    ChangeSetsField(prev, s, key, GetValue(SectionOf(originalConfig, s), key), []);
  }

  /** No field of a section differs from the same section. */
  lemma {:induction false} SectionChangedSelf(ho: Json, fields: seq<string>)
    ensures !SectionChanged(ho, ho, fields)
    decreases |fields|
  {
    if |fields| > 0 {
      SectionChangedSelf(ho, fields[1..]);
    }
  }

  /** The reset throws exactly when `prev` is not an object or the snapshot has no
      such section. */
  lemma ResetSucceeds(prev: Json, originalConfig: Json, s: Section)
    ensures ResetUpdate(prev, originalConfig, s).Crashed? <==>
      !prev.Obj? || SectionOf(originalConfig, s) == Undef
    ensures ResetUpdate(prev, originalConfig, s).Kept? == false
  {
  }

  /** After the reset the section equals the snapshot's, so `sectionChanged` is
      false for any table, and every other section holds the clone of what it held. */
  lemma ResetRestoresSection(prev: Json, originalConfig: Json, s: Section, r: Path)
    requires prev.Obj? && WellFormed(prev) && Clean(SectionOf(originalConfig, s))
    ensures ResetUpdate(prev, originalConfig, s).Updated?
    ensures var next := ResetUpdate(prev, originalConfig, s).next;
      SectionOf(next, s) == SectionOf(originalConfig, s) &&
      !SectionChanged(SectionOf(next, s), SectionOf(originalConfig, s), s.fields) &&
      (r != [] && r[0] != s.key ==> Read(next, r) == Clone(Read(prev, r)))
  {
    var orig := SectionOf(originalConfig, s);
    CloneOfClean(orig);
    var cm := CloneMembers(prev.members);
    var m' := Assign(cm, s.key, orig);
    LookupAssign(cm, s.key, orig, s.key);
    ReadCons(m', [s.key]);
    SectionChangedSelf(orig, s.fields);
    if r != [] && r[0] != s.key {
      ReadClone(prev, r);
      ReadCons(m', r);
      ReadCons(cm, r);
      LookupAssign(cm, s.key, orig, r[0]);
    }
  }

  // ---------------------------------------------------------------------------
  // A component's laws, for one field of its table

  /** For field `i` of the table: `handleChange` sets it and leaves every disjoint
      path as its clone; `handleUndo` turns its `changed` flag off; the section
      reset turns `sectionChanged` off. */
  predicate ComponentLaws(prev: Json, originalConfig: Json, s: Section, i: nat, value: Json, r: Path)
    requires i < |s.fields|
  {
    var key := s.fields[i];
    var change := ChangeUpdate(prev, s, key, value);
    var undo := UndoUpdate(prev, originalConfig, s, key);
    var reset := ResetUpdate(prev, originalConfig, s);
    change.Updated? && GetValue(SectionOf(change.next, s), key) == value &&
    (Disjoint([s.key] + Split(key), r) ==> Read(change.next, r) == Clone(Read(prev, r))) &&
    undo.Updated? && !Changed(SectionOf(undo.next, s), SectionOf(originalConfig, s), key) &&
    reset.Updated? && !SectionChanged(SectionOf(reset.next, s), SectionOf(originalConfig, s), s.fields)
  }

  /** The laws hold for every field of any table, on a well-formed document whose
      section is an object, against a snapshot section free of `undefined`. */
  lemma ComponentContract(prev: Json, originalConfig: Json, s: Section, i: nat, value: Json, r: Path)
    requires WellFormed(prev) && SectionOf(prev, s).Obj? && Clean(SectionOf(originalConfig, s))
    requires i < |s.fields|
    ensures ComponentLaws(prev, originalConfig, s, i, value, r)
  {
    ChangeSetsField(prev, s, s.fields[i], value, r);
    UndoClearsChanged(prev, originalConfig, s, s.fields[i]);
    ResetRestoresSection(prev, originalConfig, s, []);
  }
}
