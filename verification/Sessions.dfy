/** Whole editing sessions: user actions interleaved with preview patches, from
    loading a document to the data that is saved. */
module Sessions {
  import opened Decimals
  import opened Forms
  import opened Schema
  import opened RowKeys
  import opened EditorSession
  import opened LoadSave
  import opened PreviewPatch

  datatype Step = User(e: Edit) | FromPreview(path: Path, v: Prim)

  /** One step on the keyed form; `key` is what `genKey()` would return. */
  function StepKeyed(fs: seq<Field>, m: map<string, Tree>, s: Step, key: string): map<string, Tree> {
    match s
    case User(e) => if Offered(fs, m, e) then ApplyKeyed(fs, m, e, key) else m
    case FromPreview(path, v) => Rec(Patch(Obj(m), path, v))
  }

  function RunKeyed(fs: seq<Field>, m: map<string, Tree>, steps: seq<Step>, gen: KeyGen, n: nat): map<string, Tree>
    decreases |steps|
  {
    if steps == [] then m else RunKeyed(fs, StepKeyed(fs, m, steps[0], gen(n)), steps[1..], gen, n + 1)
  }

  function StepPlain(fs: seq<Field>, m: map<string, Tree>, s: Step): map<string, Tree> {
    match s
    case User(e) => if Offered(fs, m, PlainEdit(e)) then ApplyPlain(fs, m, PlainEdit(e)) else m
    case FromPreview(path, v) => Rec(Patch(Obj(m), path, v))
  }

  function RunPlain(fs: seq<Field>, m: map<string, Tree>, steps: seq<Step>): map<string, Tree>
    decreases |steps|
  {
    if steps == [] then m else RunPlain(fs, StepPlain(fs, m, steps[0]), steps[1..])
  }

  // --- When rows stay keyed -----------------------------------------------------------

  ghost const ANY: iset<string> := iset k: string | true

  /** Every row list the schema reaches is fully keyed, with pairwise distinct string keys. */
  ghost predicate WellKeyed(fs: seq<Field>, m: map<string, Tree>) { AllLists(fs, m, Distinct(ANY)) }

  ghost predicate WellKeyedThroughout(fs: seq<Field>, m: map<string, Tree>, steps: seq<Step>, gen: KeyGen, n: nat)
    decreases |steps|
  {
    WellKeyed(fs, m) && (steps != [] ==> WellKeyedThroughout(fs, StepKeyed(fs, m, steps[0], gen(n)), steps[1..], gen, n + 1))
  }

  /** What a caller can check before a step: a row added to a list gets a key that
      list does not hold, and an accepted patch passes the walk through the schema. */
  ghost predicate Guard(fs: seq<Field>, m: map<string, Tree>, s: Step, key: string, keys: iset<string>) {
    match s
    case User(e) => Offered(fs, m, e) ==> KeyIsNew(fs, m, e, key)
    case FromPreview(path, v) => PatchValue(v) && Patchable(Obj(m), path) ==> PatchSafe(fs, m, path, v, keys)
  }

  ghost predicate Guarded(fs: seq<Field>, m: map<string, Tree>, steps: seq<Step>, gen: KeyGen, n: nat)
    decreases |steps|
  {
    steps != [] ==>
      && Guard(fs, m, steps[0], gen(n), ANY)
      && Guarded(fs, StepKeyed(fs, m, steps[0], gen(n)), steps[1..], gen, n + 1)
  }

  lemma StepKeepsKeysIff(fs: seq<Field>, m: map<string, Tree>, s: Step, key: string, keys: iset<string>, more: iset<string>)
    requires SchemaOk(fs) && AllLists(fs, m, Distinct(keys)) && keys <= more && key in more
    ensures AllLists(fs, StepKeyed(fs, m, s, key), Distinct(more)) <==> Guard(fs, m, s, key, more)
  {
    Weaken(fs, m, Distinct(keys), Distinct(more));
    match s
    case User(e) => if Offered(fs, m, e) { EditKeepsKeysIff(fs, m, e, key, keys, more); }
    case FromPreview(path, v) =>
      if PatchValue(v) && Patchable(Obj(m), path) { PatchKeepsKeysIff(fs, m, path, v, more); }
  }

  /** Rows are keyed and distinct at every moment of a session exactly when every
      step passes its guard. */
  lemma {:induction false} SessionKeysIff(fs: seq<Field>, m: map<string, Tree>, steps: seq<Step>, gen: KeyGen, n: nat)
    requires SchemaOk(fs) && WellKeyed(fs, m)
    ensures WellKeyedThroughout(fs, m, steps, gen, n) <==> Guarded(fs, m, steps, gen, n)
    decreases |steps|
  {
    if steps != [] {
      var next := StepKeyed(fs, m, steps[0], gen(n));
      StepKeepsKeysIff(fs, m, steps[0], gen(n), ANY, ANY);
      if WellKeyed(fs, next) { SessionKeysIff(fs, next, steps[1..], gen, n + 1); }
    }
  }

  ghost predicate Ordinary(s: Step) {
    s.FromPreview? && s.path != [] ==> s.path[|s.path| - 1] != KEY && s.path[|s.path| - 1] != TYPE
  }

  lemma OrdinaryStep(fs: seq<Field>, m: map<string, Tree>, s: Step, gen: KeyGen, n: nat)
    requires SchemaOk(fs) && Injective(gen) && AllLists(fs, m, Distinct(Used(gen, n))) && Ordinary(s)
    ensures Guard(fs, m, s, gen(n), ANY)
    ensures AllLists(fs, StepKeyed(fs, m, s, gen(n)), Distinct(Used(gen, n + 1)))
  {
    UsedGrows(gen, n, n + 1);
    StepKeepsKeysIff(fs, m, s, gen(n), Used(gen, n), Used(gen, n + 1));
    match s
    case User(e) => if Offered(fs, m, e) { UnusedIsNew(fs, m, e, gen(n), Used(gen, n)); }
    case FromPreview(path, v) =>
      if Patchable(Obj(m), path) {
        OrdinaryPatchSafe(fs, m, path, v, ANY);
        OrdinaryPatchSafe(fs, m, path, v, Used(gen, n + 1));
      }
  }

  lemma {:induction false} UnusedIsNew(fs: seq<Field>, m: map<string, Tree>, e: Edit, key: string, keys: iset<string>)
    requires Offered(fs, m, e) && AllLists(fs, m, Distinct(keys)) && key !in keys
    ensures KeyIsNew(fs, m, e, key)
    decreases e
  {
    var k := fs[FieldIndex(fs, e.name)].kind;
    var v := Prop(m, e.name);
    assert ValueLists(k, v, Distinct(keys));
    match e
    case InGroup(_, inner) =>
      GroupLists(k, v, Distinct(keys));
      UnusedIsNew(k.sub, Rec(v), inner, key, keys);
    case InRow(_, r, inner) =>
      assert RowLists(k, Rows(v)[r], Distinct(keys));
      UnusedIsNew(RowFields(k, Rows(v)[r].fields).value, Rows(v)[r].fields, inner, key, keys);
    case Add(_, _) => assert forall i | 0 <= i < |Rows(v)| :: GoodKey(Rows(v)[i], keys);
    case Duplicate(_, _) => assert forall i | 0 <= i < |Rows(v)| :: GoodKey(Rows(v)[i], keys);
    case _ =>
  }

  /** With a fresh generator, sessions whose patches end in neither `_key` nor
      `blockType` pass every guard. */
  lemma {:induction false} OrdinaryGuarded(fs: seq<Field>, m: map<string, Tree>, steps: seq<Step>, gen: KeyGen, n: nat)
    requires SchemaOk(fs) && Injective(gen) && AllLists(fs, m, Distinct(Used(gen, n)))
    requires forall i | 0 <= i < |steps| :: Ordinary(steps[i])
    ensures Guarded(fs, m, steps, gen, n)
    decreases |steps|
  {
    if steps != [] {
      OrdinaryStep(fs, m, steps[0], gen, n);
      OrdinaryGuarded(fs, StepKeyed(fs, m, steps[0], gen(n)), steps[1..], gen, n + 1);
    }
  }

  // --- When the keyed session is the plain one ------------------------------------------

  /** Only drags are restricted: their rows must be found by their ids. */
  predicate StepFaithful(fs: seq<Field>, m: map<string, Tree>, s: Step) {
    s.User? && Offered(fs, m, s.e) ==> Faithful(fs, m, s.e)
  }

  predicate StepTelling(fs: seq<Field>, m: map<string, Tree>, s: Step) {
    s.User? && Offered(fs, m, s.e) ==> Telling(fs, m, s.e)
  }

  predicate DragsFaithful(fs: seq<Field>, m: map<string, Tree>, steps: seq<Step>, gen: KeyGen, n: nat)
    decreases |steps|
  {
    steps != [] ==>
      StepFaithful(fs, m, steps[0]) && DragsFaithful(fs, StepKeyed(fs, m, steps[0], gen(n)), steps[1..], gen, n + 1)
  }

  predicate DragsTelling(fs: seq<Field>, m: map<string, Tree>, steps: seq<Step>, gen: KeyGen, n: nat)
    decreases |steps|
  {
    steps != [] ==>
      StepTelling(fs, m, steps[0]) && DragsTelling(fs, StepKeyed(fs, m, steps[0], gen(n)), steps[1..], gen, n + 1)
  }

  /** At every moment of the session the stripped form is the plain form. */
  predicate RefinesThroughout(fs: seq<Field>, m: map<string, Tree>, p: map<string, Tree>, steps: seq<Step>, gen: KeyGen, n: nat)
    decreases |steps|
  {
    StripMap(m) == p
    && (steps != [] ==> RefinesThroughout(fs, StepKeyed(fs, m, steps[0], gen(n)), StepPlain(fs, p, steps[0]), steps[1..], gen, n + 1))
  }

  lemma StepRefinesIff(fs: seq<Field>, m: map<string, Tree>, s: Step, key: string)
    requires SchemaOk(fs)
    ensures var same := StripMap(StepKeyed(fs, m, s, key)) == StepPlain(fs, StripMap(m), s);
      && (StepFaithful(fs, m, s) ==> same)
      && (StepTelling(fs, m, s) ==> (same <==> StepFaithful(fs, m, s)))
  {
    match s
    case User(e) =>
      OfferedStrip(fs, m, e);
      if Offered(fs, m, e) { EditRefinesIff(fs, m, e, key); }
    case FromPreview(path, v) =>
      PatchStrip(Obj(m), path, v);
      PatchedRecord(m, path, v);
  }

  lemma PatchedRecord(m: map<string, Tree>, path: Path, v: Prim)
    ensures Patch(Obj(m), path, v).Obj?
  {
    if PatchValue(v) && Patchable(Obj(m), path) { GetUndef(path[1..]); }
  }

  /** The stripped form follows the plain session step by step if every drag is
      faithful, and, where dragged rows differ in more than their keys, only then. */
  lemma {:induction false} SessionRefinesIff(fs: seq<Field>, m: map<string, Tree>, steps: seq<Step>, gen: KeyGen, n: nat)
    requires SchemaOk(fs)
    ensures DragsFaithful(fs, m, steps, gen, n) ==> RefinesThroughout(fs, m, StripMap(m), steps, gen, n)
    ensures DragsTelling(fs, m, steps, gen, n) ==>
      (RefinesThroughout(fs, m, StripMap(m), steps, gen, n) <==> DragsFaithful(fs, m, steps, gen, n))
    decreases |steps|
  {
    if steps != [] {
      StepRefinesIff(fs, m, steps[0], gen(n));
      SessionRefinesIff(fs, StepKeyed(fs, m, steps[0], gen(n)), steps[1..], gen, n + 1);
    }
  }

  /** A session on the keyed form is, after stripping, the same session on plain data. */
  lemma {:induction false} SessionRefines(fs: seq<Field>, m: map<string, Tree>, steps: seq<Step>, gen: KeyGen, n: nat)
    requires SchemaOk(fs) && DragsFaithful(fs, m, steps, gen, n)
    ensures StripMap(RunKeyed(fs, m, steps, gen, n)) == RunPlain(fs, StripMap(m), steps)
    decreases |steps|
  {
    if steps != [] {
      StepRefinesIff(fs, m, steps[0], gen(n));
      SessionRefines(fs, StepKeyed(fs, m, steps[0], gen(n)), steps[1..], gen, n + 1);
    }
  }

  /** Drags are faithful as long as rows are keyed and distinct. */
  lemma {:induction false} GuardedFaithful(fs: seq<Field>, m: map<string, Tree>, steps: seq<Step>, gen: KeyGen, n: nat)
    requires SchemaOk(fs) && WellKeyed(fs, m) && Guarded(fs, m, steps, gen, n)
    ensures DragsFaithful(fs, m, steps, gen, n)
    decreases |steps|
  {
    if steps != [] {
      var s := steps[0];
      if s.User? && Offered(fs, m, s.e) { KeyedFaithful(fs, m, s.e, ANY); }
      StepKeepsKeysIff(fs, m, s, gen(n), ANY, ANY);
      GuardedFaithful(fs, StepKeyed(fs, m, s, gen(n)), steps[1..], gen, n + 1);
    }
  }

  /** Sessions without drags need no keys at all. */
  lemma {:induction false} NoDragsFaithful(fs: seq<Field>, m: map<string, Tree>, steps: seq<Step>, gen: KeyGen, n: nat)
    requires forall i | 0 <= i < |steps| && steps[i].User? :: !Drags(steps[i].e)
    ensures DragsFaithful(fs, m, steps, gen, n)
    decreases |steps|
  {
    if steps != [] {
      var s := steps[0];
      if s.User? && Offered(fs, m, s.e) { NoDragFaithful(fs, m, s.e); }
      NoDragsFaithful(fs, StepKeyed(fs, m, s, gen(n)), steps[1..], gen, n + 1);
    }
  }

  /** What a step of a session does: an action lands at its path, an accepted patch is
      read back, and everything else changes nothing. */
  lemma StepActs(fs: seq<Field>, m: map<string, Tree>, s: Step, key: string)
    requires SchemaOk(fs)
    ensures s.User? && Offered(fs, m, s.e) ==>
      var (k, shown) := Shown(fs, m, s.e);
      Leaves(k, shown, Innermost(s.e), key, Get(Obj(StepKeyed(fs, m, s, key)), Target(s.e)))
    ensures s.User? && !Offered(fs, m, s.e) ==> StepKeyed(fs, m, s, key) == m
    ensures s.FromPreview? ==>
      var takes := (s.v.Str? || s.v.Num?) && s.path != [] && "" !in s.path && Get(Obj(m), s.path).Leaf? && Get(Obj(m), s.path) != UNDEF;
      if takes then Get(Obj(StepKeyed(fs, m, s, key)), s.path) == Leaf(s.v) else StepKeyed(fs, m, s, key) == m
  {
    match s
    case User(e) => if Offered(fs, m, e) { EditLands(fs, m, e, key); }
    case FromPreview(path, v) =>
      PatchTakesIff(Obj(m), path, v);
      PatchedRecord(m, path, v);
  }

  // --- From load to save ----------------------------------------------------------------

  /** What is saved depends on the form only through what stripping leaves. */
  lemma {:induction false} PayloadOfStripped(fs: seq<Field>, form: map<string, Tree>)
    requires SchemaOk(fs)
    ensures Payload(fs, form) == RawPayload(fs, StripMap(form))
    decreases |fs|
  {
    if fs != [] {
      var f := fs[|fs| - 1];
      PayloadOfStripped(fs[..|fs| - 1], form);
      StripProp(form, f.name);
      if Prop(form, f.name) != UNDEF { StripNotUndefined(Prop(form, f.name)); }
      StripSet(RawPayload(fs[..|fs| - 1], form), f.name, Prop(form, f.name));
    } else {
      assert StripMap(map[]) == map[];
    }
  }

  /** `initialForm`, a session, `buildPayload`: what is saved is picked from the plain
      session on the normalized document, and the keys have left no trace. */
  lemma LoadEditSave(fields: seq<Field>, doc: map<string, Tree>, steps: seq<Step>, gen: KeyGen, n: nat)
    requires SchemaOk(fields) && AllLists(EditableFields(fields), RawForm(EditableFields(fields), doc), Records)
    requires var fs := EditableFields(fields);
      var loaded := KeyRecord(fs, RawForm(fs, doc), gen, n);
      loaded.Keyed? ==> DragsFaithful(fs, loaded.v, steps, gen, loaded.next)
    ensures var fs := EditableFields(fields);
      var loaded := KeyRecord(fs, RawForm(fs, doc), gen, n);
      loaded.Keyed? && Payload(fs, RunKeyed(fs, loaded.v, steps, gen, loaded.next))
                    == RawPayload(fs, RunPlain(fs, StripMap(RawForm(fs, doc)), steps))
  {
    var fs := EditableFields(fields);
    EditableFieldsExact(fields);
    StripKeyRecord(fs, RawForm(fs, doc), gen, n);
    var loaded := KeyRecord(fs, RawForm(fs, doc), gen, n);
    SessionRefines(fs, loaded.v, steps, gen, loaded.next);
    PayloadOfStripped(fs, RunKeyed(fs, loaded.v, steps, gen, loaded.next));
  }

  /** A freshly loaded form with distinct supplied keys meets that condition for every
      session of ordinary patches. */
  lemma LoadedFaithful(fs: seq<Field>, raw: map<string, Tree>, steps: seq<Step>, gen: KeyGen, n: nat)
    requires SchemaOk(fs) && Injective(gen) && AllLists(fs, raw, Supplied(Used(gen, n)))
    requires forall i | 0 <= i < |steps| :: Ordinary(steps[i])
    ensures var loaded := KeyRecord(fs, raw, gen, n);
      && AllLists(fs, raw, Records) && loaded.Keyed? && WellKeyed(fs, loaded.v)
      && DragsFaithful(fs, loaded.v, steps, gen, loaded.next)
  {
    Weaken(fs, raw, Supplied(Used(gen, n)), Records);
    KeyRecordGood(fs, raw, gen, n);
    var loaded := KeyRecord(fs, raw, gen, n);
    OrdinaryGuarded(fs, loaded.v, steps, gen, loaded.next);
    Weaken(fs, loaded.v, Distinct(Used(gen, loaded.next)), Distinct(ANY));
    GuardedFaithful(fs, loaded.v, steps, gen, loaded.next);
  }

  // --- The conditions are needed ------------------------------------------------------------

  function Scalar(name: string, k: Kind): Field { Field(name, k, false, false, UNDEF) }

  function Row(key: string, title: string): Tree {
    Obj(map[KEY := Leaf(Str(key)), "t" := Leaf(Str(title))])
  }

  function TitleRows(): seq<Field> { [Scalar("rows", Array([Scalar("t", Plain)]))] }

  function TwoRows(second: string): map<string, Tree> {
    map["rows" := Arr([Row("a", "one"), Row(second, "two")])]
  }

  const SAME_KEY: Step := FromPreview(["rows", "1", KEY], Str("a"))
  const DRAG: Step := User(Drag("rows", 0, 1))

  lemma SecondKeyPatched()
    ensures Rec(Patch(Obj(TwoRows("b")), ["rows", "1", KEY], Str("a"))) == TwoRows("a")
    ensures Patch(Obj(StripMap(TwoRows("b"))), ["rows", "1", KEY], Str("a")) == Obj(StripMap(TwoRows("b")))
  {
    var one, two := Row("a", "one"), Row("b", "two");
    var path := ["rows", "1", KEY];
    assert Index("1") == Some(1) by { assert Dec(1) == "1"; IndexOfDec(1); }
    assert path[1..] == ["1", KEY] && path[1..][1..] == [KEY] && path[1..][1..][1..] == [];
    assert Get(two, [KEY]) == Leaf(Str("b"));
    assert Get(Arr([one, two]), ["1", KEY]) == Leaf(Str("b"));
    assert Put(two, [KEY], Leaf(Str("a"))) == Row("a", "two");
    assert Put(Arr([one, two]), ["1", KEY], Leaf(Str("a"))) == Arr([one, Row("a", "two")]);
    assert Put(Obj(TwoRows("b")), path, Leaf(Str("a"))) == Obj(TwoRows("a"));
    GetStrip(Obj(TwoRows("b")), path);
  }

  lemma StripTwoRows(second: string)
    ensures var one, two := Obj(map["t" := Leaf(Str("one"))]), Obj(map["t" := Leaf(Str("two"))]);
      StripMap(TwoRows(second)) == map["rows" := Arr([one, two])]
  {
    StripRow("a", "one");
    StripRow(second, "two");
    assert StripSeq([Row("a", "one"), Row(second, "two")]) == [Strip(Row("a", "one")), Strip(Row(second, "two"))];
    assert StripMap(TwoRows(second)).Keys == {"rows"};
  }

  lemma StripRow(key: string, title: string)
    ensures Strip(Row(key, title)) == Obj(map["t" := Leaf(Str(title))])
  {
    assert StripMap(Row(key, title).fields).Keys == {"t"};
  }

  lemma TwoRowsKeyed()
    ensures SchemaOk(TitleRows()) && AllLists(TitleRows(), TwoRows("b"), Distinct(iset{"a", "b"}))
  {
    var rows := [Row("a", "one"), Row("b", "two")];
    assert KeyOf(rows[0]) != KeyOf(rows[1]);
    assert ListOk(rows, Distinct(iset{"a", "b"}));
    assert ValueLists(TitleRows()[0].kind, Arr(rows), Distinct(iset{"a", "b"}));
  }

  lemma DragWithSameKeys(key: string)
    ensures StepKeyed(TitleRows(), TwoRows("a"), DRAG, key) == TwoRows("a")
  {
    var rows := [Row("a", "one"), Row("a", "two")];
    assert Rows(Prop(TwoRows("a"), "rows")) == rows;
    assert Id(rows[0]) == Id(rows[1]);
    assert DragByKey(rows, Id(rows[0]), Id(rows[1])) == rows;
  }

  lemma DragOnPlainData(p: map<string, Tree>, one: Tree, two: Tree)
    requires p == map["rows" := Arr([one, two])]
    ensures StepPlain(TitleRows(), p, DRAG) == map["rows" := Arr([two, one])]
  {
    assert Rows(Prop(p, "rows")) == [one, two];
    assert ArrayMove([one, two], 0, 1) == [two, one];
  }

  /** A patch that gives two rows the same key makes the next drag do nothing,
      so the saved rows are not in the order the user put them in. */
  lemma KeyPatchLosesDrag(gen: KeyGen)
    ensures SchemaOk(TitleRows()) && AllLists(TitleRows(), TwoRows("b"), Distinct(iset{"a", "b"}))
    ensures StripMap(RunKeyed(TitleRows(), TwoRows("b"), [SAME_KEY, DRAG], gen, 0))
         != RunPlain(TitleRows(), StripMap(TwoRows("b")), [SAME_KEY, DRAG])
  {
    var fs, m, m1, p := TitleRows(), TwoRows("b"), TwoRows("a"), StripMap(TwoRows("b"));
    TwoRowsKeyed();
    SecondKeyPatched();
    StripTwoRows("a");
    StripTwoRows("b");
    assert [SAME_KEY, DRAG][1..] == [DRAG] && [DRAG][1..] == [];
    DragWithSameKeys(gen(1));
    assert RunKeyed(fs, m1, [DRAG], gen, 1) == RunKeyed(fs, m1, [], gen, 2) == m1;
    assert RunKeyed(fs, m, [SAME_KEY, DRAG], gen, 0) == m1;
    var one, two := Obj(map["t" := Leaf(Str("one"))]), Obj(map["t" := Leaf(Str("two"))]);
    DragOnPlainData(p, one, two);
    var end := map["rows" := Arr([two, one])];
    assert RunPlain(fs, p, [DRAG]) == RunPlain(fs, end, []) == end;
    assert RunPlain(fs, p, [SAME_KEY, DRAG]) == end;
    assert one.fields["t"] != two.fields["t"] && end["rows"].items[0] != p["rows"].items[0];
  }

  function PageBlocks(): Kind { Blocks([BlockDef("hero", []), BlockDef("cards", [Scalar("items", Array([]))])]) }

  function PageRow(slug: string): map<string, Tree> {
    map[KEY := Leaf(Str("a")), TYPE := Leaf(Str(slug)), "items" := Arr([Obj(map[])])]
  }

  lemma PageRowFields()
    ensures RowFields(PageBlocks(), PageRow("hero")) == Some([])
    ensures RowFields(PageBlocks(), PageRow("cards")) == Some([Scalar("items", Array([]))])
  {
    var defs := PageBlocks().defs;
    assert |"hero"| != |"cards"|;
    assert DefIndex(defs, Leaf(Str("hero"))) == 0;
    assert DefIndex(defs[1..], Leaf(Str("cards"))) == 0;
    assert DefIndex(defs, Leaf(Str("cards"))) == 1;
  }

  lemma PageTypePatched()
    ensures Patchable(Obj(map["layout" := Arr([Obj(PageRow("hero"))])]), ["layout", "0", TYPE])
    ensures Patch(Obj(map["layout" := Arr([Obj(PageRow("hero"))])]), ["layout", "0", TYPE], Str("cards"))
         == Obj(map["layout" := Arr([Obj(PageRow("cards"))])])
  {
    var row := PageRow("hero");
    var path := ["layout", "0", TYPE];
    assert Index("0") == Some(0) by { assert Dec(0) == "0"; IndexOfDec(0); }
    assert path[1..] == ["0", TYPE] && path[1..][1..] == [TYPE] && path[1..][1..][1..] == [];
    assert Get(Obj(row), [TYPE]) == Leaf(Str("hero"));
    assert Get(Arr([Obj(row)]), ["0", TYPE]) == Leaf(Str("hero"));
    assert row[TYPE := Leaf(Str("cards"))] == PageRow("cards");
    assert Put(Obj(row), [TYPE], Leaf(Str("cards"))) == Obj(PageRow("cards"));
    assert Put(Arr([Obj(row)]), ["0", TYPE], Leaf(Str("cards"))) == Arr([Obj(PageRow("cards"))]);
  }

  /** A patch of `blockType` can bring unkeyed rows under the editor: rows the old
      block definition did not name are rows of the new one. */
  lemma TypePatchUnkeys()
    ensures var fs := [Scalar("layout", PageBlocks())];
      var m := map["layout" := Arr([Obj(PageRow("hero"))])];
      && AllLists(fs, m, Distinct(iset{"a"}))
      && Patchable(Obj(m), ["layout", "0", TYPE])
      && !AllLists(fs, Rec(Patch(Obj(m), ["layout", "0", TYPE], Str("cards"))), Present)
  {
    PageTypePatched();
    HeroKeyed();
    CardsListUnkeyed();
  }

  lemma HeroKeyed()
    ensures AllLists([Scalar("layout", PageBlocks())], map["layout" := Arr([Obj(PageRow("hero"))])], Distinct(iset{"a"}))
  {
    PageRowFields();
    assert ValueLists(PageBlocks(), Arr([Obj(PageRow("hero"))]), Distinct(iset{"a"}));
  }

  lemma CardsListUnkeyed()
    ensures !AllLists([Scalar("layout", PageBlocks())], map["layout" := Arr([Obj(PageRow("cards"))])], Present)
  {
    PageRowFields();
    CardsUnkeyed();
    var k, out := PageBlocks(), [Obj(PageRow("cards"))];
    assert !RowLists(k, out[0], Present);
    assert !ValueLists(k, Arr(out), Present);
    var fs := [Scalar("layout", k)];
    assert fs[0].kind == k && Prop(map["layout" := Arr(out)], fs[0].name) == Arr(out);
  }

  lemma CardsUnkeyed()
    ensures !AllLists([Scalar("items", Array([]))], PageRow("cards"), Present)
  {
    var items := Scalar("items", Array([]));
    var rows := [Obj(map[])];
    assert !HasKey(rows[0]) && !ListOk(rows, Present);
    assert Prop(PageRow("cards"), items.name) == Arr(rows);
    assert !ValueLists(items.kind, Arr(rows), Present);
    assert [items][0] == items;
  }
}
