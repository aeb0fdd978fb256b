/** From a loaded document to the edit form and back to the saved payload. */
module LoadSave {
  import opened Forms
  import opened Schema
  import opened RowKeys
  import opened RowKeyLoops
  import opened EditorSession

  const SYSTEM: set<string> := {"id", "createdAt", "updatedAt", "hash"}

  predicate Editable(f: Field) { !f.hidden && f.name !in SYSTEM }

  function EditableFields(fs: seq<Field>): seq<Field> {
    if fs == [] then [] else (if Editable(fs[0]) then [fs[0]] else []) + EditableFields(fs[1..])
  }

  /** A populated reference is replaced by its id; anything primitive stays. */
  function IdOf(x: Tree): Tree {
    match x
    case Leaf(_) => x
    case Obj(m) => Prop(m, "id")
    case Arr(_) => UNDEF
  }

  function RelValue(v: Tree): Tree {
    if v.Arr? then Arr(seq(|v.items|, i requires 0 <= i < |v.items| => IdOf(v.items[i]))) else IdOf(v)
  }

  /** `a ?? b`. */
  function Coalesce(a: Tree, b: Tree): Tree { if Nullish(a) then b else a }

  function Fallback(f: Field): Tree { Coalesce(f.default, if f.hasMany then Arr([]) else NULL) }

  /** What the form starts with for one field. */
  function Normal(f: Field, doc: map<string, Tree>): (v: Tree)
    ensures v != UNDEF
  {
    var val := Prop(doc, f.name);
    Coalesce(if f.kind.Relation? then RelValue(val) else val, Fallback(f))
  }

  /** The form before rows are keyed. */
  function RawForm(fs: seq<Field>, doc: map<string, Tree>): map<string, Tree> {
    if fs == [] then map[]
    else
      var f := fs[|fs| - 1];
      var form := RawForm(fs[..|fs| - 1], doc);
      if f.kind.Password? then form else form[f.name := Normal(f, doc)]
  }

  function Picked(f: Field, v: Tree): bool {
    if f.kind.Password? then v.Leaf? && v.p.Str? && v.p.s != "" else v != UNDEF
  }

  /** The payload before row keys are stripped. */
  function RawPayload(fs: seq<Field>, form: map<string, Tree>): map<string, Tree> {
    if fs == [] then map[]
    else
      var f := fs[|fs| - 1];
      var out := RawPayload(fs[..|fs| - 1], form);
      if Picked(f, Prop(form, f.name)) then out[f.name := Prop(form, f.name)] else out
  }

  function Payload(fs: seq<Field>, form: map<string, Tree>): map<string, Tree> { StripMap(RawPayload(fs, form)) }

  lemma RawFormStep(fs: seq<Field>, i: nat, doc: map<string, Tree>)
    requires i < |fs|
    ensures RawForm(fs[..i + 1], doc)
         == if fs[i].kind.Password? then RawForm(fs[..i], doc) else RawForm(fs[..i], doc)[fs[i].name := Normal(fs[i], doc)]
  {
    assert fs[..i + 1][..i] == fs[..i];
  }

  method InitialForm(fields: seq<Field>, doc: map<string, Tree>, keys: KeySource) returns (form: Option<map<string, Tree>>)
    modifies keys
    ensures Agrees(form, keys.next,
      KeyRecord(EditableFields(fields), RawForm(EditableFields(fields), doc), keys.gen, old(keys.next)))
  {
    var editable := EditableFields(fields);
    var raw: map<string, Tree> := map[];
    for i := 0 to |editable|
      invariant raw == RawForm(editable[..i], doc) && keys.next == old(keys.next)
    {
      var f := editable[i];
      RawFormStep(editable, i, doc);
      if f.kind.Password? { continue; }
      var val := Prop(doc, f.name);
      if f.kind.Relation? { val := RelValue(val); }
      raw := raw[f.name := Coalesce(Coalesce(val, f.default), if f.hasMany then Arr([]) else NULL)];
    }
    assert editable[..|editable|] == editable;
    form := WithRowKeys(editable, Obj(raw), keys);
  }

  method BuildPayload(fields: seq<Field>, form: map<string, Tree>) returns (out: map<string, Tree>)
    ensures out == Payload(fields, form)
  {
    out := map[];
    for i := 0 to |fields|
      invariant out == RawPayload(fields[..i], form)
    {
      var f := fields[i];
      assert fields[..i + 1][..i] == fields[..i];
      var v := Prop(form, f.name);
      if f.kind.Password? {
        if v.Leaf? && v.p.Str? && |v.p.s| > 0 { out := out[f.name := v]; }
        continue;
      }
      if v != UNDEF { out := out[f.name := v]; }
    }
    assert fields[..|fields|] == fields;
    var stripped := StripRowKeys(Obj(out));
    out := stripped.fields;
  }

  /** Exactly the visible, non-system fields are editable, and they still form a
      schema. */
  lemma EditableFieldsExact(fs: seq<Field>)
    ensures forall f :: f in EditableFields(fs) <==>
      f in fs && !f.hidden && f.name != "id" && f.name != "createdAt" && f.name != "updatedAt" && f.name != "hash"
    ensures SchemaOk(fs) ==> SchemaOk(EditableFields(fs))
  {
    EditableIn(fs);
    if SchemaOk(fs) { EditableSchema(fs); }
  }

  lemma {:induction false} EditableIn(fs: seq<Field>)
    ensures forall f :: f in EditableFields(fs) <==> f in fs && Editable(f)
  {
    if fs != [] {
      EditableIn(fs[1..]);
      assert fs == [fs[0]] + fs[1..];
    }
  }

  lemma {:induction false} EditableSchema(fs: seq<Field>)
    requires SchemaOk(fs)
    ensures SchemaOk(EditableFields(fs))
  {
    if fs != [] {
      EditableSchema(fs[1..]);
      EditableIn(fs[1..]);
      var rest := EditableFields(fs[1..]);
      forall j | 0 <= j < |rest| ensures rest[j].name != fs[0].name {
        assert rest[j] in fs[1..];
      }
      var all := EditableFields(fs);
      assert forall j | 0 <= j < |all| :: all[j].name != KEY && all[j].name != TYPE && KindOk(all[j].kind);
    }
  }

  /** A reference list loads as its ids, whether the server populated each entry or not. */
  lemma PopulatedListLoadsAsIds(ids: seq<Tree>, docs: seq<Tree>)
    requires |docs| == |ids|
    requires forall i | 0 <= i < |ids| :: ids[i].Leaf? && (docs[i] == ids[i] || (docs[i].Obj? && Prop(docs[i].fields, "id") == ids[i]))
    ensures RelValue(Arr(docs)) == Arr(ids)
  {
    assert RelValue(Arr(docs)).items == ids;
  }

  // --- The unedited form saves what it loaded ----------------------------------------------

  predicate UniqueNames(fs: seq<Field>) { forall i, j | 0 <= i < j < |fs| :: fs[i].name != fs[j].name }

  lemma {:induction false} RawFormProp(fs: seq<Field>, doc: map<string, Tree>, name: string)
    requires UniqueNames(fs)
    ensures forall i | 0 <= i < |fs| && fs[i].name == name ::
      Prop(RawForm(fs, doc), name) == if fs[i].kind.Password? then UNDEF else Normal(fs[i], doc)
    ensures (forall i | 0 <= i < |fs| :: fs[i].name != name) ==> name !in RawForm(fs, doc)
    decreases |fs|
  {
    if fs != [] {
      var init := fs[..|fs| - 1];
      RawFormProp(init, doc, name);
      assert forall i | 0 <= i < |init| :: init[i] == fs[i];
    }
  }

  lemma {:induction false} RawPayloadProp(fs: seq<Field>, form: map<string, Tree>, name: string)
    requires UniqueNames(fs)
    ensures forall i | 0 <= i < |fs| && fs[i].name == name ::
      Prop(RawPayload(fs, form), name) == if Picked(fs[i], Prop(form, name)) then Prop(form, name) else UNDEF
    ensures (forall i | 0 <= i < |fs| :: fs[i].name != name) ==> name !in RawPayload(fs, form)
    ensures name in RawPayload(fs, form) ==> RawPayload(fs, form)[name] != UNDEF
    decreases |fs|
  {
    if fs != [] {
      var init := fs[..|fs| - 1];
      RawPayloadProp(init, form, name);
      assert forall i | 0 <= i < |init| :: init[i] == fs[i];
    }
  }

  lemma {:induction false} RawFormDefined(fs: seq<Field>, doc: map<string, Tree>)
    ensures forall k | k in RawForm(fs, doc) ::
      RawForm(fs, doc)[k] != UNDEF && exists i | 0 <= i < |fs| :: fs[i].name == k && !fs[i].kind.Password?
    decreases |fs|
  {
    if fs != [] { RawFormDefined(fs[..|fs| - 1], doc); }
  }

  /** A form whose every property is a defined value of a non-password field is
      picked whole. */
  lemma PayloadIsForm(fs: seq<Field>, form: map<string, Tree>)
    requires UniqueNames(fs)
    requires forall k | k in form :: form[k] != UNDEF && exists i | 0 <= i < |fs| :: fs[i].name == k && !fs[i].kind.Password?
    ensures RawPayload(fs, form) == form
  {
    forall k ensures (k in RawPayload(fs, form) <==> k in form) && Prop(RawPayload(fs, form), k) == Prop(form, k)
    {
      RawPayloadProp(fs, form, k);
      if k in form {
        var i :| 0 <= i < |fs| && fs[i].name == k && !fs[i].kind.Password?;
        assert Picked(fs[i], Prop(form, k));
      }
    }
  }

  lemma {:induction false} KeyedDefined(fs: seq<Field>, m: map<string, Tree>, gen: KeyGen, n: nat)
    requires KeyRecord(fs, m, gen, n).Keyed? && forall k | k in m :: m[k] != UNDEF
    ensures var out := KeyRecord(fs, m, gen, n).v; out.Keys == m.Keys && forall k | k in out :: out[k] != UNDEF
    decreases |fs|
  {
    if fs != [] {
      var f := fs[0];
      var m1, n1 := m, n;
      if f.name in m {
        var r := KeyValue(f.kind, m[f.name], gen, n);
        m1, n1 := m[f.name := r.v], r.next;
        assert r.v != UNDEF;
      }
      KeyedDefined(fs[1..], m1, gen, n1);
    }
  }

  /** Loading a document and saving the untouched form sends, for every editable
      non-password field, exactly its normalized value, row keys gone. */
  lemma SavesWhatWasLoaded(fs: seq<Field>, doc: map<string, Tree>, gen: KeyGen, n: nat)
    requires SchemaOk(fs) && AllLists(fs, RawForm(fs, doc), Records)
    ensures var loaded := KeyRecord(fs, RawForm(fs, doc), gen, n);
      loaded.Keyed? && Payload(fs, loaded.v) == StripMap(RawForm(fs, doc))
    ensures forall i | 0 <= i < |fs| ::
      Prop(StripMap(RawForm(fs, doc)), fs[i].name) == if fs[i].kind.Password? then UNDEF else Strip(Normal(fs[i], doc))
  {
    var raw := RawForm(fs, doc);
    StripKeyRecord(fs, raw, gen, n);
    RawFormDefined(fs, doc);
    KeyedDefined(fs, raw, gen, n);
    PayloadIsForm(fs, KeyRecord(fs, raw, gen, n).v);
    forall i | 0 <= i < |fs|
      ensures Prop(StripMap(raw), fs[i].name) == if fs[i].kind.Password? then UNDEF else Strip(Normal(fs[i], doc))
    {
      RawFormProp(fs, doc, fs[i].name);
      assert fs[i].name != KEY;
    }
  }

  /** What an untouched field without references saves: the stored value, without one
      the field's default, and without either an empty list or null. */
  lemma SavedValue(fs: seq<Field>, doc: map<string, Tree>, gen: KeyGen, n: nat, i: nat)
    requires SchemaOk(fs) && AllLists(fs, RawForm(fs, doc), Records)
    requires i < |fs| && !fs[i].kind.Password? && (fs[i].kind.Relation? ==> Prop(doc, fs[i].name).Leaf?)
    ensures var loaded := KeyRecord(fs, RawForm(fs, doc), gen, n);
      var stored, default := Prop(doc, fs[i].name), fs[i].default;
      loaded.Keyed? &&
      var saved := Prop(Payload(fs, loaded.v), fs[i].name);
      if stored != UNDEF && stored != NULL then saved == Strip(stored)
      else if default != UNDEF && default != NULL then saved == Strip(default)
      else saved == if fs[i].hasMany then Arr([]) else NULL
  {
    SavesWhatWasLoaded(fs, doc, gen, n);
    StrippedItems([]);
  }

  /** What any form saves: of a password exactly a non-empty text, of every other field
      its value without row keys, and nothing else. */
  lemma PayloadExact(fs: seq<Field>, form: map<string, Tree>, name: string)
    requires SchemaOk(fs)
    ensures (forall i | 0 <= i < |fs| :: fs[i].name != name) ==> name !in Payload(fs, form)
    ensures forall i | 0 <= i < |fs| && fs[i].name == name ::
      var v := Prop(form, name);
      Prop(Payload(fs, form), name)
        == if !fs[i].kind.Password? then Strip(v)
           else if v.Leaf? && v.p.Str? && |v.p.s| > 0 then v else UNDEF
  {
    RawPayloadProp(fs, form, name);
    if name != KEY { StripProp(RawPayload(fs, form), name); }
  }

  // --- Loading the payload again --------------------------------------------------------------

  predicate FlatIds(v: Tree) { v.Leaf? || (v.Arr? && forall i | 0 <= i < |v.items| :: v.items[i].Leaf?) }

  /** A normalized reference that loading again leaves as it is: plain ids, or the
      field's own default when that is a record without an `id`. */
  predicate Settled(f: Field, v: Tree) {
    FlatIds(v) || (v.Obj? && Nullish(Prop(v.fields, "id")) && Strip(v) == Strip(Fallback(f)))
  }

  /** No record without keys is its own `id`, and neither is a list. */
  lemma IdDiffers(x: Tree)
    requires Strip(x) == x && !x.Leaf?
    ensures Strip(IdOf(x)) == IdOf(x) != x
  {
    if x.Obj? && "id" in x.fields {
      assert "id" != KEY;
      assert StripMap(x.fields)["id"] == Strip(x.fields["id"]);
      assert Child(x, "id") == x.fields["id"] && HasChild(x, "id");
    }
  }

  lemma StrippedItems(xs: seq<Tree>)
    requires forall i | 0 <= i < |xs| :: Strip(xs[i]) == xs[i]
    ensures Strip(Arr(xs)) == Arr(xs)
  {
    assert Strip(Arr(xs)).items == xs;
  }

  lemma FixedRelationIff(v: Tree)
    requires Strip(v) == v
    ensures RelValue(v) == v <==> FlatIds(v)
    ensures v.Arr? ==> Strip(RelValue(v)) == RelValue(v)
    ensures v.Obj? ==> Strip(RelValue(v)) == RelValue(v) && RelValue(v) != v
  {
    if v.Arr? {
      var ids := RelValue(v).items;
      forall i | 0 <= i < |v.items|
        ensures Strip(ids[i]) == ids[i] && (ids[i] == v.items[i] <==> v.items[i].Leaf?)
      {
        StripSeqAt(v.items, i);
        if !v.items[i].Leaf? { IdDiffers(v.items[i]); }
      }
      StrippedItems(ids);
      assert ids == v.items <==> FlatIds(v);
    } else if v.Obj? {
      IdDiffers(v);
    }
  }

  /** What the second save sends for a field equals what the first sent exactly when
      the normalized value is settled; fields that hold no reference always are. */
  lemma NormalAgainIff(f: Field, doc: map<string, Tree>, again: map<string, Tree>)
    requires Prop(again, f.name) == Strip(Normal(f, doc))
    ensures Strip(Normal(f, again)) == Strip(Normal(f, doc)) <==> !f.kind.Relation? || Settled(f, Normal(f, doc))
    ensures !f.kind.Relation? ==> Normal(f, again) == Strip(Normal(f, doc))
  {
    var v := Normal(f, doc);
    var s := Strip(v);
    StripIdempotent(v);
    if v == NULL { assert Fallback(f) == NULL; }
    if f.kind.Relation? {
      FixedRelationIff(s);
      if v.Arr? {
        assert forall i | 0 <= i < |v.items| :: s.items[i].Leaf? <==> v.items[i].Leaf?;
        assert FlatIds(s) <==> FlatIds(v);
      } else if v.Obj? {
        assert Nullish(Prop(s.fields, "id")) <==> Nullish(Prop(v.fields, "id"));
      }
    }
  }

  lemma {:induction false} StripKeepsRecords(fs: seq<Field>, m: map<string, Tree>)
    requires SchemaOk(fs) && AllLists(fs, m, Records)
    ensures AllLists(fs, StripMap(m), Records)
    decreases fs, 0
  {
    forall i | 0 <= i < |fs| ensures ValueLists(fs[i].kind, Prop(StripMap(m), fs[i].name), Records) {
      assert Prop(StripMap(m), fs[i].name) == Strip(Prop(m, fs[i].name));
      StripKeepsValueRecords(fs[i].kind, Prop(m, fs[i].name));
    }
  }

  lemma {:induction false} StripKeepsValueRecords(k: Kind, v: Tree)
    requires KindOk(k) && ValueLists(k, v, Records)
    ensures ValueLists(k, Strip(v), Records)
    decreases k, 1
  {
    if k.Group? && v.Obj? {
      StripKeepsRecords(k.sub, v.fields);
    } else if k.RowList() && v.Arr? {
      forall i | 0 <= i < |v.items| ensures RowLists(k, Strip(v).items[i], Records) {
        StripKeepsRowRecords(k, v.items[i]);
      }
    }
  }

  lemma {:induction false} StripKeepsRowRecords(k: Kind, row: Tree)
    requires k.RowList() && KindOk(k) && RowLists(k, row, Records)
    ensures RowLists(k, Strip(row), Records)
    decreases k, 0
  {
    RowFieldsStrip(k, row.fields);
    var sub := RowFields(k, row.fields);
    if sub.Some? { StripKeepsRecords(sub.value, row.fields); }
  }

  /** Load, save, load the saved document, save again: the same payload exactly when
      every normalized reference is settled. */
  lemma LoadSaveFixedPointIff(fs: seq<Field>, doc: map<string, Tree>, gen: KeyGen, n: nat, n': nat)
    requires SchemaOk(fs) && AllLists(fs, RawForm(fs, doc), Records)
    ensures var first := KeyRecord(fs, RawForm(fs, doc), gen, n);
      first.Keyed? &&
      var saved := Payload(fs, first.v);
      var second := KeyRecord(fs, RawForm(fs, saved), gen, n');
      second.Keyed? &&
      (Payload(fs, second.v) == saved <==> forall i | 0 <= i < |fs| && fs[i].kind.Relation? :: Settled(fs[i], Normal(fs[i], doc)))
  {
    SavesWhatWasLoaded(fs, doc, gen, n);
    var raw := RawForm(fs, doc);
    var saved := StripMap(raw);
    SavedRecords(fs, doc, saved);
    SavesWhatWasLoaded(fs, saved, gen, n');
    var again := StripMap(RawForm(fs, saved));
    forall i | 0 <= i < |fs| && !fs[i].kind.Password?
      ensures Prop(again, fs[i].name) == Prop(saved, fs[i].name) <==> !fs[i].kind.Relation? || Settled(fs[i], Normal(fs[i], doc))
    {
      NormalAgainIff(fs[i], doc, saved);
    }
    SameFields(fs, doc, saved);
  }

  /** Loading what was saved meets only rows that are records. */
  lemma SavedRecords(fs: seq<Field>, doc: map<string, Tree>, saved: map<string, Tree>)
    requires SchemaOk(fs) && AllLists(fs, RawForm(fs, doc), Records) && saved == StripMap(RawForm(fs, doc))
    ensures AllLists(fs, RawForm(fs, saved), Records)
  {
    StripKeepsRecords(fs, RawForm(fs, doc));
    forall i | 0 <= i < |fs| ensures ValueLists(fs[i].kind, Prop(RawForm(fs, saved), fs[i].name), Records) {
      RawFormProp(fs, doc, fs[i].name);
      RawFormProp(fs, saved, fs[i].name);
      if fs[i].kind.Group? || fs[i].kind.RowList() {
        StripProp(RawForm(fs, doc), fs[i].name);
        NormalAgainIff(fs[i], doc, saved);
      }
    }
  }

  /** Two payloads of the same fields are equal when they are on every field. */
  lemma SameFields(fs: seq<Field>, doc: map<string, Tree>, saved: map<string, Tree>)
    requires SchemaOk(fs) && saved == StripMap(RawForm(fs, doc))
    ensures var again := StripMap(RawForm(fs, saved));
      again == saved <==> forall i | 0 <= i < |fs| && !fs[i].kind.Password? :: Prop(again, fs[i].name) == Prop(saved, fs[i].name)
  {
    var again := StripMap(RawForm(fs, saved));
    if forall i | 0 <= i < |fs| && !fs[i].kind.Password? :: Prop(again, fs[i].name) == Prop(saved, fs[i].name) {
      forall k ensures (k in again <==> k in saved) && Prop(again, k) == Prop(saved, k) {
        RawFormProp(fs, doc, k);
        RawFormProp(fs, saved, k);
        RawFormDefined(fs, doc);
        RawFormDefined(fs, saved);
        if i :| 0 <= i < |fs| && fs[i].name == k {
          StripNotUndefined(Normal(fs[i], doc));
          StripNotUndefined(Normal(fs[i], saved));
        }
      }
    }
  }

  lemma StripNotUndefined(v: Tree)
    requires v != UNDEF
    ensures Strip(v) != UNDEF
  {
  }

  /** Saving the untouched form keeps a single stored record's reference exactly when
      its `id` is neither null nor missing, or is what the field falls back to anyway. */
  lemma ReferenceKeptIff(fs: seq<Field>, doc: map<string, Tree>, gen: KeyGen, n: nat, i: nat, a: map<string, Tree>)
    requires SchemaOk(fs) && AllLists(fs, RawForm(fs, doc), Records)
    requires i < |fs| && fs[i].kind.Relation? && Prop(doc, fs[i].name) == Obj(a) && Prop(a, "id").Leaf?
    ensures var loaded := KeyRecord(fs, RawForm(fs, doc), gen, n);
      var id := Prop(a, "id");
      loaded.Keyed? &&
      var saved := Prop(Payload(fs, loaded.v), fs[i].name);
      && (saved == id <==> !Nullish(id) || id == Fallback(fs[i]))
      && (id == UNDEF || id == NULL ==> saved == Strip(Fallback(fs[i])))
  {
    SavesWhatWasLoaded(fs, doc, gen, n);
  }

  /** In a list plain entries stay, a record is saved as its own `id`, and a record without
      one, or a list, is lost. */
  lemma ListedReferencesKeptIff(fs: seq<Field>, doc: map<string, Tree>, gen: KeyGen, n: nat, i: nat, items: seq<Tree>)
    requires SchemaOk(fs) && AllLists(fs, RawForm(fs, doc), Records)
    requires i < |fs| && fs[i].kind.Relation? && Prop(doc, fs[i].name) == Arr(items)
    ensures var loaded := KeyRecord(fs, RawForm(fs, doc), gen, n);
      loaded.Keyed? &&
      var saved := Prop(Payload(fs, loaded.v), fs[i].name);
      && saved.Arr? && |saved.items| == |items|
      && forall j | 0 <= j < |items| :: saved.items[j]
           == match items[j]
              case Leaf(_) => items[j]
              case Obj(a) => Strip(Prop(a, "id"))
              case Arr(_) => UNDEF
  {
    SavesWhatWasLoaded(fs, doc, gen, n);
    var ids := RelValue(Arr(items)).items;
    forall j | 0 <= j < |items| ensures StripSeq(ids)[j] == Strip(IdOf(items[j])) { StripSeqAt(ids, j); }
  }

  /** A polymorphic reference has no `id` of its own: it is gone after one save. The
      payload without it is a fixed point all the same. */
  lemma PolymorphicReferenceLost(name: string, collection: string, id: string)
    requires name != KEY
    ensures var fs := [Field(name, Relation, false, false, UNDEF)];
      var doc := map[name := Obj(map["relationTo" := Leaf(Str(collection)), "value" := Leaf(Str(id))])];
      Payload(fs, RawForm(fs, doc)) == map[name := NULL]
  {
    var f := Field(name, Relation, false, false, UNDEF);
    var fs := [f];
    var doc := map[name := Obj(map["relationTo" := Leaf(Str(collection)), "value" := Leaf(Str(id))])];
    assert fs[..0] == [];
    assert RawForm([], doc) == map[];
    assert "id" != "value" by { assert |"id"| != |"value"|; }
    assert Normal(f, doc) == NULL;
    assert RawForm(fs, doc) == map[name := NULL];
    assert RawPayload([], map[name := NULL]) == map[];
    assert RawPayload(fs, map[name := NULL]) == map[name := NULL];
    var saved := map[name := NULL];
    assert saved[name] == NULL && Strip(saved[name]) == NULL;
    assert StripMap(saved).Keys == saved.Keys && StripMap(saved)[name] == Strip(saved[name]);
    assert StripMap(saved) == saved;
  }
}
