/** The nested form editor as a whole: what every row operation does to the
    keyed form, and what it means on plain data. */
module EditorSession {
  import opened Decimals
  import opened Forms
  import opened Schema
  import opened RowKeys

  /** One user action, addressed the way the nested inputs are nested. Rows are
      named by the position they are displayed at. */
  datatype Edit =
    | SetField(name: string, v: Tree)
    | InGroup(name: string, inner: Edit)
    | InRow(name: string, row: nat, inner: Edit)
    | Add(name: string, slug: string)
    | Remove(name: string, row: nat)
    | Duplicate(name: string, row: nat)
    | Drag(name: string, row: nat, over: nat)

  function FieldIndex(fs: seq<Field>, name: string): (i: nat)
    ensures i <= |fs|
    ensures i < |fs| ==> fs[i].name == name
    ensures forall j | 0 <= j < i :: fs[j].name != name
  {
    if fs == [] || fs[0].name == name then 0 else 1 + FieldIndex(fs[1..], name)
  }

  function Rows(v: Tree): seq<Tree> { if v.Arr? then v.items else [] }

  function Rec(v: Tree): map<string, Tree> { if v.Obj? then v.fields else map[] }

  /** The editor renders a control for this action in the current form. */
  predicate Offered(fs: seq<Field>, m: map<string, Tree>, e: Edit)
    decreases e
  {
    var i := FieldIndex(fs, e.name);
    var rows := Rows(Prop(m, e.name));
    i < |fs| && var k := fs[i].kind;
    match e
    case SetField(_, _) => k.Leafy()
    case InGroup(_, inner) => k.Group? && Offered(k.sub, Rec(Prop(m, e.name)), inner)
    case InRow(_, r, inner) =>
      && k.RowList() && r < |rows| && rows[r].Obj?
      && var sub := RowFields(k, rows[r].fields);
         sub.Some? && Offered(sub.value, rows[r].fields, inner)
    case Add(_, slug) => k.Array? || (k.Blocks? && DefIndex(k.defs, Leaf(Str(slug))) < |k.defs|)
    case Remove(_, r) => k.RowList() && r < |rows|
    case Duplicate(_, r) => k.Blocks? && r < |rows| && rows[r].Obj?
    case Drag(_, r, over) => k.RowList() && r < |rows| && over < |rows|
  }

  // --- The keyed form, as the inputs compute it -----------------------------------

  function IndexOf(ids: seq<Tree>, id: Tree): (i: nat)
    ensures i <= |ids| && (i < |ids| <==> id in ids)
    ensures i < |ids| ==> ids[i] == id
    ensures forall j | 0 <= j < i :: ids[j] != id
  {
    if ids == [] || ids[0] == id then 0 else 1 + IndexOf(ids[1..], id)
  }

  /** `String(row._key)`. Rows without a key all have the id `undefined`; the texts
      of fractions and of containers are left as they are. */
  function Id(row: Tree): Tree {
    var key := KeyOf(row);
    match key
    case Leaf(Undefined) => Leaf(Str("undefined"))
    case Leaf(Null) => Leaf(Str("null"))
    case Leaf(Bool(b)) => Leaf(Str(if b then "true" else "false"))
    case Leaf(Num(x)) =>
      var i := x.Floor;
      if x != i as real then key else Leaf(Str(if i < 0 then "-" + Dec(-i) else Dec(i)))
    case _ => key
  }

  /** Different keys with one id: a missing key, null, a boolean or a whole number
      counts as its text. */
  lemma IdsCollide(n: nat, b: bool)
    ensures Id(Obj(map[])) == Id(Obj(map[KEY := Leaf(Str("undefined"))]))
    ensures Id(Obj(map[KEY := NULL])) == Id(Obj(map[KEY := Leaf(Str("null"))]))
    ensures Id(Obj(map[KEY := Leaf(Bool(b))])) == Id(Obj(map[KEY := Leaf(Str(if b then "true" else "false"))]))
    ensures Id(Obj(map[KEY := Leaf(Num(n as real))])) == Id(Obj(map[KEY := Leaf(Str(Dec(n)))]))
  {
  }

  function Ids(rows: seq<Tree>): seq<Tree> { seq(|rows|, i requires 0 <= i < |rows| => Id(rows[i])) }

  /** `Sortable.handleEnd`: the drag library reports row ids; positions are
      recovered by searching for them, and equal ids are no move at all. */
  function DragByKey(rows: seq<Tree>, active: Tree, over: Tree): seq<Tree> {
    var ids := Ids(rows);
    if active == over then rows
    else
      var from, to := IndexOf(ids, active), IndexOf(ids, over);
      if from < |ids| && to < |ids| then ArrayMove(rows, from, to) else rows
  }

  function NewRow(k: Kind, key: string, slug: string): map<string, Tree> {
    var row := map[KEY := Leaf(Str(key))];
    if k.Blocks? then row[TYPE := Leaf(Str(slug))] else row
  }

  /** `{ ...v, _key: r._key }`, and for a block also `blockType: r.blockType`. */
  function Rekey(k: Kind, next: map<string, Tree>, row: map<string, Tree>): map<string, Tree> {
    var keyed := next[KEY := Prop(row, KEY)];
    if k.Blocks? then keyed[TYPE := Prop(row, TYPE)] else keyed
  }

  function ApplyKeyed(fs: seq<Field>, m: map<string, Tree>, e: Edit, key: string): map<string, Tree>
    requires Offered(fs, m, e)
    decreases e
  {
    var k := fs[FieldIndex(fs, e.name)].kind;
    var rows := Rows(Prop(m, e.name));
    match e
    case SetField(name, v) => m[name := v]
    case InGroup(name, inner) => m[name := Obj(ApplyKeyed(k.sub, Rec(Prop(m, name)), inner, key))]
    case InRow(name, r, inner) =>
      var row := rows[r].fields;
      var next := ApplyKeyed(RowFields(k, row).value, row, inner, key);
      m[name := Arr(rows[r := Obj(Rekey(k, next, row))])]
    case Add(name, slug) => m[name := Arr(rows + [Obj(NewRow(k, key, slug))])]
    case Remove(name, r) => m[name := Arr(RemoveRow(rows, r))]
    case Duplicate(name, r) => m[name := Arr(DuplicateRow(rows, r, key))]
    case Drag(name, r, over) => m[name := Arr(DragByKey(rows, Id(rows[r]), Id(rows[over])))]
  }

  // --- What the same actions mean on plain, unkeyed data ---------------------------

  function ApplyPlain(fs: seq<Field>, m: map<string, Tree>, e: Edit): map<string, Tree>
    requires Offered(fs, m, e)
    decreases e
  {
    var k := fs[FieldIndex(fs, e.name)].kind;
    var rows := Rows(Prop(m, e.name));
    match e
    case SetField(name, v) => m[name := v]
    case InGroup(name, inner) => m[name := Obj(ApplyPlain(k.sub, Rec(Prop(m, name)), inner))]
    case InRow(name, r, inner) =>
      var row := rows[r].fields;
      var next := ApplyPlain(RowFields(k, row).value, row, inner);
      m[name := Arr(rows[r := Obj(if k.Blocks? then next[TYPE := Prop(row, TYPE)] else next)])]
    case Add(name, slug) => m[name := Arr(rows + [Obj(if k.Blocks? then map[TYPE := Leaf(Str(slug))] else map[])])]
    case Remove(name, r) => m[name := Arr(RemoveRow(rows, r))]
    case Duplicate(name, r) => m[name := Arr(InsertAfter(rows, r, rows[r]))]
    case Drag(name, r, over) => m[name := Arr(ArrayMove(rows, r, over))]
  }

  function PlainEdit(e: Edit): (p: Edit)
    ensures p.name == e.name
  {
    match e
    case SetField(name, v) => SetField(name, Strip(v))
    case InGroup(name, inner) => InGroup(name, PlainEdit(inner))
    case InRow(name, r, inner) => InRow(name, r, PlainEdit(inner))
    case _ => e
  }

  // --- Stripping commutes with reading the form ------------------------------------

  lemma StripProp(m: map<string, Tree>, name: string)
    requires name != KEY
    ensures Prop(StripMap(m), name) == Strip(Prop(m, name))
    ensures Rows(Strip(Prop(m, name))) == StripSeq(Rows(Prop(m, name)))
    ensures Rec(Strip(Prop(m, name))) == StripMap(Rec(Prop(m, name)))
  {
    assert StripSeq([]) == [];
    assert StripMap(map[]) == map[];
  }

  /** The controls on screen do not depend on the keys. */
  lemma {:induction false} OfferedStrip(fs: seq<Field>, m: map<string, Tree>, e: Edit)
    requires SchemaOk(fs)
    ensures Offered(fs, m, e) <==> Offered(fs, StripMap(m), PlainEdit(e))
    decreases e
  {
    var i := FieldIndex(fs, e.name);
    if i < |fs| {
      var k := fs[i].kind;
      assert KindOk(k);
      StripProp(m, e.name);
      var rows := Rows(Prop(m, e.name));
      match e
      case InGroup(_, inner) => if k.Group? { OfferedStrip(k.sub, Rec(Prop(m, e.name)), inner); }
      case InRow(_, r, inner) =>
        if k.RowList() && r < |rows| && rows[r].Obj? {
          var row := rows[r].fields;
          RowFieldsStrip(k, row);
          var sub := RowFields(k, row);
          if sub.Some? { OfferedStrip(sub.value, row, inner); }
        }
      case _ =>
    }
  }

  lemma StripSet(m: map<string, Tree>, name: string, v: Tree)
    requires name != KEY
    ensures StripMap(m[name := v]) == StripMap(m)[name := Strip(v)]
  {
  }

  lemma StripSeqOps(rows: seq<Tree>, row: Tree)
    ensures StripSeq(rows + [row]) == StripSeq(rows) + [Strip(row)]
    ensures forall i: nat | i < |rows| :: StripSeq(RemoveRow(rows, i)) == RemoveRow(StripSeq(rows), i)
    ensures forall i: nat | i < |rows| :: StripSeq(InsertAfter(rows, i, row)) == InsertAfter(StripSeq(rows), i, Strip(row))
    ensures forall i: nat, j: nat | i < |rows| && j < |rows| ::
      StripSeq(ArrayMove(rows, i, j)) == ArrayMove(StripSeq(rows), i, j)
  {
  }

  lemma StripSeqUpdate(rows: seq<Tree>, i: nat, row: Tree)
    requires i < |rows|
    ensures StripSeq(rows[i := row]) == StripSeq(rows)[i := Strip(row)]
  {
  }

  lemma ArrayMoveNowhere(rows: seq<Tree>, i: nat)
    requires i < |rows|
    ensures ArrayMove(rows, i, i) == rows
  {
  }

  // --- When a drag moves the rows the user meant --------------------------------------

  /** Searching for the row's id finds the row itself. */
  predicate FirstWithId(rows: seq<Tree>, r: nat)
    requires r < |rows|
  {
    forall j | 0 <= j < r :: Id(rows[j]) != Id(rows[r])
  }

  predicate DragFaithful(rows: seq<Tree>, r: nat, over: nat)
    requires r < |rows| && over < |rows|
  {
    r == over || (FirstWithId(rows, r) && FirstWithId(rows, over))
  }

  lemma IdFound(rows: seq<Tree>, r: nat)
    requires r < |rows|
    ensures var i := IndexOf(Ids(rows), Id(rows[r]));
      i <= r && Id(rows[i]) == Id(rows[r]) && (i == r <==> FirstWithId(rows, r))
  {
    var ids := Ids(rows);
    var i := IndexOf(ids, ids[r]);
    assert ids[r] == Id(rows[r]) && ids[i] == Id(rows[i]);
    assert forall j | 0 <= j < i :: ids[j] == Id(rows[j]);
  }

  /** What a drag really does: the first rows carrying the two ids are moved. */
  lemma DragByKeyMoves(rows: seq<Tree>, r: nat, over: nat)
    requires r < |rows| && over < |rows|
    ensures var from, to := IndexOf(Ids(rows), Id(rows[r])), IndexOf(Ids(rows), Id(rows[over]));
      && from <= r && to <= over && (from == to <==> Id(rows[r]) == Id(rows[over]))
      && (from == r <==> FirstWithId(rows, r)) && (to == over <==> FirstWithId(rows, over))
      && DragByKey(rows, Id(rows[r]), Id(rows[over])) == ArrayMove(rows, from, to)
  {
    IdFound(rows, r);
    IdFound(rows, over);
    ArrayMoveNowhere(rows, IndexOf(Ids(rows), Id(rows[r])));
  }

  predicate NoRepeats(xs: seq<Tree>) { forall i, j | 0 <= i < j < |xs| :: xs[i] != xs[j] }

  /** Two moves of different rows, neither source nor target further down in the
      first, never agree on a list without repetitions. */
  lemma MovesDiffer(xs: seq<Tree>, from: nat, to: nat, r: nat, over: nat)
    requires from <= r < |xs| && to <= over < |xs| && r != over && (from, to) != (r, over)
    requires NoRepeats(xs)
    ensures ArrayMove(xs, from, to) != ArrayMove(xs, r, over)
  {
    if ArrayMove(xs, from, to) == ArrayMove(xs, r, over) {
      ArrayMoveAt(xs, from, to, to);
      ArrayMoveAt(xs, r, over, to);
      ArrayMoveAt(xs, from, to, over);
      ArrayMoveAt(xs, r, over, over);
    }
  }

  /** A faithful drag moves by position; an unfaithful one shows wherever the rows
      differ in more than their keys. */
  lemma DragRefinesIff(rows: seq<Tree>, r: nat, over: nat)
    requires r < |rows| && over < |rows|
    ensures DragFaithful(rows, r, over) ==> DragByKey(rows, Id(rows[r]), Id(rows[over])) == ArrayMove(rows, r, over)
    ensures NoRepeats(StripSeq(rows)) ==>
      (StripSeq(DragByKey(rows, Id(rows[r]), Id(rows[over]))) == ArrayMove(StripSeq(rows), r, over) <==> DragFaithful(rows, r, over))
  {
    DragByKeyMoves(rows, r, over);
    StripSeqOps(rows, UNDEF);
    var from, to := IndexOf(Ids(rows), Id(rows[r])), IndexOf(Ids(rows), Id(rows[over]));
    if r == over {
      ArrayMoveNowhere(rows, from);
      ArrayMoveNowhere(rows, r);
    } else if (from, to) != (r, over) && NoRepeats(StripSeq(rows)) {
      MovesDiffer(StripSeq(rows), from, to, r, over);
    }
  }

  /** Row `i` of a list with these ids whose rows all differ. */
  function Numbered(rows: seq<Tree>, i: nat): Tree
    requires i < |rows|
  {
    Obj(map[KEY := KeyOf(rows[i]), "n" := Leaf(Num(i as real))])
  }

  function NumberedRows(rows: seq<Tree>): seq<Tree> { seq(|rows|, i requires 0 <= i < |rows| => Numbered(rows, i)) }

  lemma NumberedDiffer(rows: seq<Tree>)
    ensures SameIds(NumberedRows(rows), rows) && NoRepeats(StripSeq(NumberedRows(rows)))
  {
    var xs := NumberedRows(rows);
    forall i, j | 0 <= i < j < |xs| ensures StripSeq(xs)[i] != StripSeq(xs)[j] {
      StripSeqAt(xs, i);
      StripSeqAt(xs, j);
      NumberKept(rows, i);
      NumberKept(rows, j);
    }
  }

  lemma NumberKept(rows: seq<Tree>, i: nat)
    requires i < |rows|
    ensures Prop(StripMap(Numbered(rows, i).fields), "n") == Leaf(Num(i as real))
  {
    assert "n" != KEY by { assert |"n"| != |KEY|; }
    StripProp(Numbered(rows, i).fields, "n");
  }

  predicate SameIds(xs: seq<Tree>, rows: seq<Tree>) {
    |xs| == |rows| && forall i | 0 <= i < |rows| :: Id(xs[i]) == Id(rows[i])
  }

  predicate DragRight(xs: seq<Tree>, r: nat, over: nat)
    requires r < |xs| && over < |xs|
  {
    StripSeq(DragByKey(xs, Id(xs[r]), Id(xs[over]))) == ArrayMove(StripSeq(xs), r, over)
  }

  lemma FaithfulIsRight(xs: seq<Tree>, rows: seq<Tree>, r: nat, over: nat)
    requires r < |rows| && over < |rows| && SameIds(xs, rows)
    ensures DragFaithful(xs, r, over) <==> DragFaithful(rows, r, over)
    ensures DragFaithful(rows, r, over) ==> DragRight(xs, r, over)
    ensures NoRepeats(StripSeq(xs)) && DragRight(xs, r, over) ==> DragFaithful(rows, r, over)
  {
    SameIdsFaithful(xs, rows, r);
    SameIdsFaithful(xs, rows, over);
    DragRefinesIff(xs, r, over);
    StripSeqOps(xs, UNDEF);
  }

  lemma SameIdsFaithful(xs: seq<Tree>, rows: seq<Tree>, r: nat)
    requires r < |rows| && SameIds(xs, rows)
    ensures FirstWithId(xs, r) <==> FirstWithId(rows, r)
  {
  }

  /** The ids alone decide: dragging by key is right for whatever rows carry them
      exactly when the drag is faithful. */
  lemma DragRightForAllRowsIff(rows: seq<Tree>, r: nat, over: nat)
    requires r < |rows| && over < |rows|
    ensures DragFaithful(rows, r, over) <==> forall xs | SameIds(xs, rows) :: DragRight(xs, r, over)
  {
    forall xs | SameIds(xs, rows) ensures DragFaithful(rows, r, over) ==> DragRight(xs, r, over) {
      FaithfulIsRight(xs, rows, r, over);
    }
    NumberedDiffer(rows);
    FaithfulIsRight(NumberedRows(rows), rows, r, over);
  }

  /** With distinct keys every drag is faithful. */
  lemma DistinctFaithful(rows: seq<Tree>, r: nat, over: nat, keys: iset<string>)
    requires r < |rows| && over < |rows| && ListOk(rows, Distinct(keys))
    ensures DragFaithful(rows, r, over)
  {
    assert forall i | 0 <= i < |rows| :: GoodKey(rows[i], keys) && Id(rows[i]) == KeyOf(rows[i]);
  }

  /** With distinct keys, dragging by key is dragging by position. */
  lemma DragByKeyIsByPosition(rows: seq<Tree>, r: nat, over: nat, keys: iset<string>)
    requires r < |rows| && over < |rows| && ListOk(rows, Distinct(keys))
    ensures DragByKey(rows, Id(rows[r]), Id(rows[over])) == ArrayMove(rows, r, over)
  {
    DistinctFaithful(rows, r, over, keys);
    DragRefinesIff(rows, r, over);
  }

  /** The action is no drag, or a drag of rows that are found by their ids. */
  predicate Faithful(fs: seq<Field>, m: map<string, Tree>, e: Edit)
    requires Offered(fs, m, e)
    decreases e
  {
    var k := fs[FieldIndex(fs, e.name)].kind;
    var rows := Rows(Prop(m, e.name));
    match e
    case InGroup(name, inner) => Faithful(k.sub, Rec(Prop(m, name)), inner)
    case InRow(_, r, inner) => Faithful(RowFields(k, rows[r].fields).value, rows[r].fields, inner)
    case Drag(_, r, over) => DragFaithful(rows, r, over)
    case _ => true
  }

  /** If the action is a drag, its rows differ in more than their keys. */
  predicate Telling(fs: seq<Field>, m: map<string, Tree>, e: Edit)
    requires Offered(fs, m, e)
    decreases e
  {
    var k := fs[FieldIndex(fs, e.name)].kind;
    var rows := Rows(Prop(m, e.name));
    match e
    case InGroup(name, inner) => Telling(k.sub, Rec(Prop(m, name)), inner)
    case InRow(_, r, inner) => Telling(RowFields(k, rows[r].fields).value, rows[r].fields, inner)
    case Drag(_, _, _) => NoRepeats(StripSeq(rows))
    case _ => true
  }

  predicate Drags(e: Edit) {
    match e
    case InGroup(_, inner) => Drags(inner)
    case InRow(_, _, inner) => Drags(inner)
    case _ => e.Drag?
  }

  lemma {:induction false} NoDragFaithful(fs: seq<Field>, m: map<string, Tree>, e: Edit)
    requires Offered(fs, m, e) && !Drags(e)
    ensures Faithful(fs, m, e)
    decreases e
  {
    var k := fs[FieldIndex(fs, e.name)].kind;
    var v := Prop(m, e.name);
    match e
    case InGroup(_, inner) => NoDragFaithful(k.sub, Rec(v), inner);
    case InRow(_, r, inner) => NoDragFaithful(RowFields(k, Rows(v)[r].fields).value, Rows(v)[r].fields, inner);
    case _ =>
  }

  /** Where every list is keyed with distinct keys, every action is faithful. */
  lemma {:induction false} KeyedFaithful(fs: seq<Field>, m: map<string, Tree>, e: Edit, keys: iset<string>)
    requires Offered(fs, m, e) && AllLists(fs, m, Distinct(keys))
    ensures Faithful(fs, m, e)
    decreases e
  {
    var k := fs[FieldIndex(fs, e.name)].kind;
    var v := Prop(m, e.name);
    assert ValueLists(k, v, Distinct(keys));
    match e
    case InGroup(_, inner) =>
      GroupLists(k, v, Distinct(keys));
      KeyedFaithful(k.sub, Rec(v), inner, keys);
    case InRow(_, r, inner) =>
      assert RowLists(k, Rows(v)[r], Distinct(keys));
      KeyedFaithful(RowFields(k, Rows(v)[r].fields).value, Rows(v)[r].fields, inner, keys);
    case Drag(_, r, over) => DistinctFaithful(Rows(v), r, over, keys);
    case _ =>
  }

  // --- Refinement ---------------------------------------------------------------------

  /** A faithful action on the keyed form is, after stripping, the same action on
      the plain data. */
  lemma {:induction false} FaithfulRefines(fs: seq<Field>, m: map<string, Tree>, e: Edit, key: string)
    requires SchemaOk(fs) && Offered(fs, m, e) && Faithful(fs, m, e)
    ensures Offered(fs, StripMap(m), PlainEdit(e))
    ensures StripMap(ApplyKeyed(fs, m, e, key)) == ApplyPlain(fs, StripMap(m), PlainEdit(e))
    decreases e
  {
    OfferedStrip(fs, m, e);
    var k := fs[FieldIndex(fs, e.name)].kind;
    var v := Prop(m, e.name);
    var rows := Rows(v);
    assert KindOk(k);
    StripProp(m, e.name);
    match e
    case SetField(name, x) => StripSet(m, name, x);
    case InGroup(name, inner) =>
      FaithfulRefines(k.sub, Rec(v), inner, key);
      StripSet(m, name, Obj(ApplyKeyed(k.sub, Rec(v), inner, key)));
    case InRow(name, r, inner) =>
      var row := rows[r].fields;
      RowFieldsStrip(k, row);
      FaithfulRefines(RowFields(k, row).value, row, inner, key);
      var next := ApplyKeyed(RowFields(k, row).value, row, inner, key);
      StripRekey(k, next, row);
      StripSeqUpdate(rows, r, Obj(Rekey(k, next, row)));
      StripSet(m, name, Arr(rows[r := Obj(Rekey(k, next, row))]));
    case Add(name, slug) =>
      StripNewRow(k, key, slug);
      StripSeqOps(rows, Obj(NewRow(k, key, slug)));
      StripSet(m, name, Arr(rows + [Obj(NewRow(k, key, slug))]));
    case Remove(name, r) =>
      StripSeqOps(rows, UNDEF);
      StripSet(m, name, Arr(RemoveRow(rows, r)));
    case Duplicate(name, r) =>
      var copy := Obj(rows[r].fields[KEY := Leaf(Str(key))]);
      StripIgnoresKey(rows[r].fields, Leaf(Str(key)));
      StripSeqOps(rows, copy);
      StripSet(m, name, Arr(InsertAfter(rows, r, copy)));
    case Drag(name, r, over) =>
      DragRefinesIff(rows, r, over);
      StripSeqOps(rows, UNDEF);
      StripSet(m, name, Arr(ArrayMove(rows, r, over)));
  }

  /** An unfaithful drag of rows that differ shows in the field it was made in. */
  lemma {:induction false} UnfaithfulDiffers(fs: seq<Field>, m: map<string, Tree>, e: Edit, key: string)
    requires SchemaOk(fs) && Offered(fs, m, e) && !Faithful(fs, m, e) && Telling(fs, m, e)
    ensures Offered(fs, StripMap(m), PlainEdit(e)) && e.name != KEY && e.name != TYPE
    ensures Prop(StripMap(ApplyKeyed(fs, m, e, key)), e.name) != Prop(ApplyPlain(fs, StripMap(m), PlainEdit(e)), e.name)
    decreases e
  {
    OfferedStrip(fs, m, e);
    var k := fs[FieldIndex(fs, e.name)].kind;
    var v := Prop(m, e.name);
    var rows := Rows(v);
    assert KindOk(k);
    StripProp(m, e.name);
    match e
    case InGroup(name, inner) =>
      UnfaithfulDiffers(k.sub, Rec(v), inner, key);
      StripSet(m, name, Obj(ApplyKeyed(k.sub, Rec(v), inner, key)));
    case InRow(name, r, inner) =>
      var row := rows[r].fields;
      RowFieldsStrip(k, row);
      var sub := RowFields(k, row).value;
      UnfaithfulDiffers(sub, row, inner, key);
      var next := ApplyKeyed(sub, row, inner, key);
      StripSet(m, name, Arr(rows[r := Obj(Rekey(k, next, row))]));
      RowShows(k, next, ApplyPlain(sub, StripMap(row), PlainEdit(inner)), row, inner.name, rows, r);
    case Drag(name, r, over) =>
      DragRefinesIff(rows, r, over);
      StripSet(m, name, Arr(DragByKey(rows, Id(rows[r]), Id(rows[over]))));
    case _ =>
  }

  /** A difference inside a row shows in the list. */
  lemma RowShows(k: Kind, next: map<string, Tree>, plain: map<string, Tree>, row: map<string, Tree>, name: string,
                 rows: seq<Tree>, r: nat)
    requires r < |rows| && name != TYPE && Prop(StripMap(next), name) != Prop(plain, name)
    ensures Strip(Arr(rows[r := Obj(Rekey(k, next, row))]))
         != Arr(StripSeq(rows)[r := Obj(if k.Blocks? then plain[TYPE := Prop(StripMap(row), TYPE)] else plain)])
  {
    var t := Prop(StripMap(row), TYPE);
    var x, y := StripMap(Rekey(k, next, row)), if k.Blocks? then plain[TYPE := t] else plain;
    StripRekey(k, next, row);
    StripSeqUpdate(rows, r, Obj(Rekey(k, next, row)));
    assert Prop(x, name) == Prop(StripMap(next), name) && Prop(y, name) == Prop(plain, name);
    assert StripSeq(rows)[r := Obj(x)][r] == Obj(x) && StripSeq(rows)[r := Obj(y)][r] == Obj(y);
  }

  /** Every user action on the keyed form is, after stripping, the same action on
      the plain data: always if it is faithful, and only then if it is telling. */
  lemma EditRefinesIff(fs: seq<Field>, m: map<string, Tree>, e: Edit, key: string)
    requires SchemaOk(fs) && Offered(fs, m, e)
    ensures Offered(fs, StripMap(m), PlainEdit(e))
    ensures var same := StripMap(ApplyKeyed(fs, m, e, key)) == ApplyPlain(fs, StripMap(m), PlainEdit(e));
      && (Faithful(fs, m, e) ==> same)
      && (Telling(fs, m, e) ==> (same <==> Faithful(fs, m, e)))
  {
    OfferedStrip(fs, m, e);
    if Faithful(fs, m, e) {
      FaithfulRefines(fs, m, e, key);
    } else if Telling(fs, m, e) {
      UnfaithfulDiffers(fs, m, e, key);
    }
  }

  lemma StripRekey(k: Kind, next: map<string, Tree>, row: map<string, Tree>)
    ensures StripMap(Rekey(k, next, row))
         == if k.Blocks? then StripMap(next)[TYPE := Prop(StripMap(row), TYPE)] else StripMap(next)
  {
    StripIgnoresKey(next, Prop(row, KEY));
    StripProp(row, TYPE);
    StripSet(next[KEY := Prop(row, KEY)], TYPE, Prop(row, TYPE));
  }

  lemma StripNewRow(k: Kind, key: string, slug: string)
    ensures StripMap(NewRow(k, key, slug)) == if k.Blocks? then map[TYPE := Leaf(Str(slug))] else map[]
  {
    var bare := map[KEY := Leaf(Str(key))];
    assert StripMap(bare) == map[];
    StripSet(bare, TYPE, Leaf(Str(slug)));
  }

  lemma EmptyLists(fs: seq<Field>, d: Demand)
    ensures AllLists(fs, map[], d)
  {
  }

  lemma GroupLists(k: Kind, v: Tree, d: Demand)
    requires k.Group? && ValueLists(k, v, d)
    ensures AllLists(k.sub, Rec(v), d)
  {
    if !v.Obj? { EmptyLists(k.sub, d); }
  }

  // --- Every action keeps every row list keyed, with distinct keys ------------------

  /** `next` agrees with `row` on everything the schema of the row does not name. */
  lemma {:induction false} AppliedKeepsRest(fs: seq<Field>, m: map<string, Tree>, e: Edit, key: string, other: string)
    requires Offered(fs, m, e) && other != e.name
    ensures Prop(ApplyKeyed(fs, m, e, key), other) == Prop(m, other)
  {
  }

  /** The fresh key is not yet in the one list the action adds a row to. */
  predicate KeyIsNew(fs: seq<Field>, m: map<string, Tree>, e: Edit, key: string)
    requires Offered(fs, m, e)
    decreases e
  {
    var k := fs[FieldIndex(fs, e.name)].kind;
    var rows := Rows(Prop(m, e.name));
    match e
    case InGroup(name, inner) => KeyIsNew(k.sub, Rec(Prop(m, name)), inner, key)
    case InRow(_, r, inner) => KeyIsNew(RowFields(k, rows[r].fields).value, rows[r].fields, inner, key)
    case Add(_, _) => NoneHas(rows, key)
    case Duplicate(_, _) => NoneHas(rows, key)
    case _ => true
  }

  predicate NoneHas(rows: seq<Tree>, key: string) { forall i | 0 <= i < |rows| :: KeyOf(rows[i]) != Leaf(Str(key)) }

  /** An action keeps every reached list fully keyed with distinct keys exactly when
      the key it may hand out is new to the list it adds a row to. */
  lemma {:induction false} EditKeepsKeysIff(fs: seq<Field>, m: map<string, Tree>, e: Edit, key: string,
                                            keys: iset<string>, more: iset<string>)
    requires SchemaOk(fs) && AllLists(fs, m, Distinct(keys)) && Offered(fs, m, e)
    requires keys <= more && key in more
    ensures AllLists(fs, ApplyKeyed(fs, m, e, key), Distinct(more)) <==> KeyIsNew(fs, m, e, key)
    decreases e, 1
  {
    var i := FieldIndex(fs, e.name);
    var out := ApplyKeyed(fs, m, e, key);
    EditedValueLists(fs, m, e, key, keys, more);
    Weaken(fs, m, Distinct(keys), Distinct(more));
    forall j | 0 <= j < |fs| && j != i ensures ValueLists(fs[j].kind, Prop(out, fs[j].name), Distinct(more)) {
      AppliedKeepsRest(fs, m, e, key, fs[j].name);
      assert ValueLists(fs[j].kind, Prop(m, fs[j].name), Distinct(more));
    }
    assert fs[i].name == e.name;
  }

  lemma {:induction false} EditedValueLists(fs: seq<Field>, m: map<string, Tree>, e: Edit, key: string,
                                            keys: iset<string>, more: iset<string>)
    requires SchemaOk(fs) && AllLists(fs, m, Distinct(keys)) && Offered(fs, m, e)
    requires keys <= more && key in more
    ensures ValueLists(fs[FieldIndex(fs, e.name)].kind, Prop(ApplyKeyed(fs, m, e, key), e.name), Distinct(more))
       <==> KeyIsNew(fs, m, e, key)
    decreases e, 0
  {
    var k := fs[FieldIndex(fs, e.name)].kind;
    var v := Prop(m, e.name);
    var rows := Rows(v);
    assert KindOk(k) && ValueLists(k, v, Distinct(keys));
    match e
    case SetField(_, _) =>
    case InGroup(_, inner) =>
      GroupLists(k, v, Distinct(keys));
      EditKeepsKeysIff(k.sub, Rec(v), inner, key, keys, more);
    case InRow(_, r, inner) => RowEdited(k, rows, r, inner, key, keys, more);
    case Add(_, slug) =>
      NewRowLists(k, key, slug, Distinct(more));
      RowsWeaken(k, rows, keys, more);
      RowAdded(k, rows, |rows|, Obj(NewRow(k, key, slug)), key, more);
      assert rows[..|rows|] + [Obj(NewRow(k, key, slug))] + rows[|rows|..] == rows + [Obj(NewRow(k, key, slug))];
    case Remove(_, r) =>
      RowsWeaken(k, rows, keys, more);
      RemoveLists(k, rows, r, more);
    case Duplicate(_, r) => RowDuplicated(k, rows, r, key, keys, more);
    case Drag(_, r, over) =>
      DragByKeyIsByPosition(rows, r, over, keys);
      RowsWeaken(k, rows, keys, more);
      ArrayMoveLists(k, rows, r, over, more);
  }

  lemma {:induction false} RowEdited(k: Kind, rows: seq<Tree>, r: nat, inner: Edit, key: string,
                                     keys: iset<string>, more: iset<string>)
    requires k.RowList() && KindOk(k) && ValueLists(k, Arr(rows), Distinct(keys)) && r < |rows|
    requires rows[r].Obj? && RowFields(k, rows[r].fields).Some?
    requires Offered(RowFields(k, rows[r].fields).value, rows[r].fields, inner)
    requires keys <= more && key in more
    ensures var row := rows[r].fields;
      var sub := RowFields(k, row).value;
      var out := Obj(Rekey(k, ApplyKeyed(sub, row, inner, key), row));
      ValueLists(k, Arr(rows[r := out]), Distinct(more)) <==> KeyIsNew(sub, row, inner, key)
    decreases inner, 2
  {
    var row := rows[r].fields;
    var sub := RowFields(k, row).value;
    assert RowLists(k, rows[r], Distinct(keys));
    EditKeepsKeysIff(sub, row, inner, key, keys, more);
    var next := ApplyKeyed(sub, row, inner, key);
    RekeyLists(k, next, row, sub, Distinct(more));
    RowsWeaken(k, rows, keys, more);
    assert HasKey(rows[r]);
    OnlyRowChanged(k, rows, r, Obj(Rekey(k, next, row)), more);
  }

  lemma RemoveLists(k: Kind, rows: seq<Tree>, r: nat, keys: iset<string>)
    requires k.RowList() && ValueLists(k, Arr(rows), Distinct(keys)) && r < |rows|
    ensures ValueLists(k, Arr(RemoveRow(rows, r)), Distinct(keys))
  {
    var out := RemoveRow(rows, r);
    assert forall i | 0 <= i < |out| :: out[i] == rows[if i < r then i else i + 1];
  }

  lemma RowDuplicated(k: Kind, rows: seq<Tree>, r: nat, key: string, keys: iset<string>, more: iset<string>)
    requires k.RowList() && KindOk(k) && ValueLists(k, Arr(rows), Distinct(keys)) && r < |rows| && rows[r].Obj?
    requires keys <= more && key in more
    ensures ValueLists(k, Arr(DuplicateRow(rows, r, key)), Distinct(more)) <==> NoneHas(rows, key)
  {
    var copy := rows[r].fields[KEY := Leaf(Str(key))];
    RowsWeaken(k, rows, keys, more);
    assert RowLists(k, rows[r], Distinct(more));
    SameRowLists(k, rows[r].fields, copy, Distinct(more));
    RowAdded(k, rows, r + 1, Obj(copy), key, more);
  }

  lemma RowsWeaken(k: Kind, rows: seq<Tree>, keys: iset<string>, more: iset<string>)
    requires k.RowList() && ValueLists(k, Arr(rows), Distinct(keys)) && keys <= more
    ensures ValueLists(k, Arr(rows), Distinct(more))
  {
    WeakenValue(k, Arr(rows), Distinct(keys), Distinct(more));
  }

  /** Two records agreeing outside `_key` are edited with the same fields and
      have the same row lists. */
  lemma SameRowLists(k: Kind, row: map<string, Tree>, twin: map<string, Tree>, d: Demand)
    requires k.RowList() && KindOk(k) && RowLists(k, Obj(row), d)
    requires forall x | x != KEY :: Prop(twin, x) == Prop(row, x)
    ensures RowLists(k, Obj(twin), d)
  {
    var sub := RowFields(k, row);
    assert RowFields(k, twin) == sub;
    if sub.Some? {
      assert forall i | 0 <= i < |sub.value| :: Prop(twin, sub.value[i].name) == Prop(row, sub.value[i].name);
    }
  }

  lemma RekeyLists(k: Kind, next: map<string, Tree>, row: map<string, Tree>, sub: seq<Field>, d: Demand)
    requires k.RowList() && KindOk(k) && RowFields(k, row) == Some(sub)
    ensures RowLists(k, Obj(Rekey(k, next, row)), d) <==> AllLists(sub, next, d)
  {
    var out := Rekey(k, next, row);
    assert k.Blocks? ==> Prop(out, TYPE) == Prop(row, TYPE);
    assert RowFields(k, out) == Some(sub);
    assert forall i | 0 <= i < |sub| :: Prop(out, sub[i].name) == Prop(next, sub[i].name);
  }

  lemma NewRowLists(k: Kind, key: string, slug: string, d: Demand)
    requires k.RowList() && KindOk(k)
    ensures RowLists(k, Obj(NewRow(k, key, slug)), d)
  {
    var row := NewRow(k, key, slug);
    var sub := RowFields(k, row);
    if sub.Some? {
      assert forall i | 0 <= i < |sub.value| :: Prop(row, sub.value[i].name) == UNDEF;
    }
  }

  lemma OnlyRowChanged(k: Kind, rows: seq<Tree>, r: nat, out: Tree, keys: iset<string>)
    requires k.RowList() && r < |rows| && ValueLists(k, Arr(rows), Distinct(keys))
    requires HasKey(rows[r]) && HasKey(out) && KeyOf(out) == KeyOf(rows[r])
    ensures ValueLists(k, Arr(rows[r := out]), Distinct(keys)) <==> RowLists(k, out, Distinct(keys))
  {
    var next := rows[r := out];
    assert next[r] == out && forall j | 0 <= j < |rows| && j != r :: next[j] == rows[j];
  }

  lemma RowAdded(k: Kind, rows: seq<Tree>, at: nat, row: Tree, key: string, keys: iset<string>)
    requires k.RowList() && at <= |rows| && key in keys && ValueLists(k, Arr(rows), Distinct(keys))
    requires RowLists(k, row, Distinct(keys)) && HasKey(row) && KeyOf(row) == Leaf(Str(key))
    ensures ValueLists(k, Arr(rows[..at] + [row] + rows[at..]), Distinct(keys)) <==> NoneHas(rows, key)
  {
    var out := rows[..at] + [row] + rows[at..];
    assert forall i | 0 <= i < |out| :: out[i] == if i < at then rows[i] else if i == at then row else rows[i - 1];
    if ListOk(out, Distinct(keys)) { RowAddedWas(rows, at, row, out, keys); }
  }

  lemma RowAddedWas(rows: seq<Tree>, at: nat, row: Tree, out: seq<Tree>, keys: iset<string>)
    requires at <= |rows| && out == rows[..at] + [row] + rows[at..] && ListOk(out, Distinct(keys))
    ensures forall i | 0 <= i < |rows| :: KeyOf(rows[i]) != KeyOf(row)
  {
    forall i | 0 <= i < |rows| ensures KeyOf(rows[i]) != KeyOf(row) {
      var j := if i < at then i else i + 1;
      assert out[j] == rows[i] && out[at] == row;
      assert KeyOf(out[j]) != KeyOf(out[at]);
    }
  }

  /** The position a row now at `i` had before it was moved. */
  function MovedFrom(i: int, from: int, to: int): int {
    if i == to then from
    else
      var j := if i < to then i else i - 1;
      if j < from then j else j + 1
  }

  lemma ArrayMoveAt(rows: seq<Tree>, from: nat, to: nat, i: nat)
    requires from < |rows| && to < |rows| && i < |rows|
    ensures 0 <= MovedFrom(i, from, to) < |rows|
    ensures ArrayMove(rows, from, to)[i] == rows[MovedFrom(i, from, to)]
  {
    var without := RemoveRow(rows, from);
    assert forall j | 0 <= j < |without| :: without[j] == rows[if j < from then j else j + 1];
  }

  lemma ArrayMoveLists(k: Kind, rows: seq<Tree>, from: nat, to: nat, keys: iset<string>)
    requires k.RowList() && from < |rows| && to < |rows| && ValueLists(k, Arr(rows), Distinct(keys))
    ensures ValueLists(k, Arr(ArrayMove(rows, from, to)), Distinct(keys))
  {
    var out := ArrayMove(rows, from, to);
    forall i | 0 <= i < |out|
      ensures HasKey(out[i]) && GoodKey(out[i], keys) && RowLists(k, out[i], Distinct(keys))
    {
      ArrayMoveAt(rows, from, to, i);
    }
    forall i, j | 0 <= i < j < |out| ensures KeyOf(out[i]) != KeyOf(out[j]) {
      ArrayMoveAt(rows, from, to, i);
      ArrayMoveAt(rows, from, to, j);
      assert MovedFrom(i, from, to) != MovedFrom(j, from, to);
    }
  }

  // --- Where an action lands, and what it leaves there ------------------------------------

  /** The path of the field an action changes. */
  function Target(e: Edit): (p: Path)
    ensures p != [] && p[0] == e.name
  {
    match e
    case InGroup(name, inner) => [name] + Target(inner)
    case InRow(name, r, inner) => [name, Dec(r)] + Target(inner)
    case _ => [e.name]
  }

  function Innermost(e: Edit): Edit {
    match e
    case InGroup(_, inner) => Innermost(inner)
    case InRow(_, _, inner) => Innermost(inner)
    case _ => e
  }

  /** The value the innermost input shows, and the kind of its field. */
  function Shown(fs: seq<Field>, m: map<string, Tree>, e: Edit): (Kind, Tree)
    requires Offered(fs, m, e)
    decreases e
  {
    var k := fs[FieldIndex(fs, e.name)].kind;
    var v := Prop(m, e.name);
    match e
    case InGroup(_, inner) => Shown(k.sub, Rec(v), inner)
    case InRow(_, r, inner) => Shown(RowFields(k, Rows(v)[r].fields).value, Rows(v)[r].fields, inner)
    case _ => (k, v)
  }

  /** What the field holds after the action, in terms of what it showed. */
  ghost predicate Leaves(k: Kind, shown: Tree, e: Edit, key: string, now: Tree) {
    var rows := if shown.Arr? then shown.items else [];
    match e
    case SetField(_, v) => now == v
    case Add(_, slug) =>
      var bare := map["_key" := Leaf(Str(key))];
      now == Arr(rows + [Obj(if k.Array? then bare else bare["blockType" := Leaf(Str(slug))])])
    case Remove(_, r) => r < |rows| && now == Arr(rows[..r] + rows[r + 1..])
    case Duplicate(_, r) =>
      r < |rows| && rows[r].Obj?
      && now == Arr(rows[..r + 1] + [Obj(rows[r].fields["_key" := Leaf(Str(key))])] + rows[r + 1..])
    case Drag(_, r, over) =>
      r < |rows| && over < |rows| && now.Arr? && |now.items| == |rows|
      && (DragFaithful(rows, r, over) ==>
            now.items[over] == rows[r] && now.items[..over] + now.items[over + 1..] == rows[..r] + rows[r + 1..])
    case _ => false
  }

  lemma OthersKeepOrder(rows: seq<Tree>, from: nat, to: nat)
    requires from < |rows| && to < |rows|
    ensures var out := ArrayMove(rows, from, to);
      out[to] == rows[from] && out[..to] + out[to + 1..] == rows[..from] + rows[from + 1..]
  {
  }

  lemma LeavesHere(fs: seq<Field>, m: map<string, Tree>, e: Edit, key: string)
    requires Offered(fs, m, e) && !e.InGroup? && !e.InRow?
    ensures Leaves(Shown(fs, m, e).0, Shown(fs, m, e).1, e, key, Prop(ApplyKeyed(fs, m, e, key), e.name))
  {
    if e.Drag? { DragLeaves(Rows(Prop(m, e.name)), e.row, e.over); }
  }

  lemma DragLeaves(rows: seq<Tree>, r: nat, over: nat)
    requires r < |rows| && over < |rows|
    ensures var out := DragByKey(rows, Id(rows[r]), Id(rows[over]));
      && |out| == |rows|
      && (DragFaithful(rows, r, over) ==> out[over] == rows[r] && out[..over] + out[over + 1..] == rows[..r] + rows[r + 1..])
  {
    DragByKeyMoves(rows, r, over);
    DragRefinesIff(rows, r, over);
    OthersKeepOrder(rows, r, over);
  }

  lemma GetInRecord(m: map<string, Tree>, path: Path)
    requires path != []
    ensures Get(Obj(m), path) == Get(Prop(m, path[0]), path[1..])
  {
  }

  /** Reading on from a row of a list. */
  lemma GetInRow(rows: seq<Tree>, r: nat, path: Path)
    requires r < |rows|
    ensures Get(Arr(rows), [Dec(r)] + path) == Get(rows[r], path)
  {
    IndexOfDec(r);
    assert ([Dec(r)] + path)[1..] == path;
  }

  lemma GetRekeyed(k: Kind, next: map<string, Tree>, row: map<string, Tree>, path: Path)
    requires path != [] && path[0] != KEY && path[0] != TYPE
    ensures Get(Obj(Rekey(k, next, row)), path) == Get(Obj(next), path)
  {
  }

  /** At any nesting depth an action changes the field its path names, to exactly what
      the innermost action makes of the value shown there. */
  lemma {:induction false} EditLands(fs: seq<Field>, m: map<string, Tree>, e: Edit, key: string)
    requires SchemaOk(fs) && Offered(fs, m, e)
    ensures var (k, shown) := Shown(fs, m, e);
      Leaves(k, shown, Innermost(e), key, Get(Obj(ApplyKeyed(fs, m, e, key)), Target(e)))
    decreases e
  {
    var k := fs[FieldIndex(fs, e.name)].kind;
    var v := Prop(m, e.name);
    var out := ApplyKeyed(fs, m, e, key);
    assert KindOk(k);
    GetInRecord(out, Target(e));
    match e
    case InGroup(name, inner) =>
      EditLands(k.sub, Rec(v), inner, key);
      assert Target(e)[1..] == Target(inner);
    case InRow(name, r, inner) =>
      var rows := Rows(v);
      var sub := RowFields(k, rows[r].fields).value;
      EditLands(sub, rows[r].fields, inner, key);
      var next := ApplyKeyed(sub, rows[r].fields, inner, key);
      assert Target(e)[1..] == [Dec(r)] + Target(inner);
      GetInRow(rows[r := Obj(Rekey(k, next, rows[r].fields))], r, Target(inner));
      GetRekeyed(k, next, rows[r].fields, Target(inner));
    case _ =>
      LeavesHere(fs, m, e, key);
      assert Target(e)[1..] == [];
  }

  /** No group on the way holds a list, which its input would drop. */
  predicate GroupsHoldRecords(fs: seq<Field>, m: map<string, Tree>, e: Edit)
    requires Offered(fs, m, e)
    decreases e
  {
    var k := fs[FieldIndex(fs, e.name)].kind;
    var v := Prop(m, e.name);
    match e
    case InGroup(_, inner) => !v.Arr? && GroupsHoldRecords(k.sub, Rec(v), inner)
    case InRow(_, r, inner) => GroupsHoldRecords(RowFields(k, Rows(v)[r].fields).value, Rows(v)[r].fields, inner)
    case _ => true
  }

  /** Every path that parts from the action's path reads as before. */
  lemma {:induction false} EditFrame(fs: seq<Field>, m: map<string, Tree>, e: Edit, key: string, q: Path)
    requires SchemaOk(fs) && Offered(fs, m, e) && GroupsHoldRecords(fs, m, e)
    requires !(q <= Target(e)) && !(Target(e) <= q)
    ensures Get(Obj(ApplyKeyed(fs, m, e, key)), q) == Get(Obj(m), q)
    decreases e, 0
  {
    var k := fs[FieldIndex(fs, e.name)].kind;
    var v := Prop(m, e.name);
    var out := ApplyKeyed(fs, m, e, key);
    assert KindOk(k);
    GetInRecord(out, q);
    GetInRecord(m, q);
    if q[0] != e.name {
      AppliedKeepsRest(fs, m, e, key, q[0]);
    } else {
      var rest := q[1..];
      assert rest != [];
      match e
      case InGroup(_, inner) =>
        PartsLater(q, Target(e), Target(inner));
        EditFrame(k.sub, Rec(v), inner, key, rest);
        if v.Leaf? {
          GetLeaf(v.p, rest);
          GetInRecord(map[], rest);
          GetUndef(rest[1..]);
        }
      case InRow(_, r, inner) => RowFrame(k, Rows(v), r, inner, key, rest);
      case _ =>
    }
  }

  lemma PartsLater(q: Path, t: Path, inner: Path)
    requires q != [] && t != [] && q[0] == t[0] && t[1..] == inner && !(q <= t) && !(t <= q)
    ensures !(q[1..] <= inner) && !(inner <= q[1..])
  {
  }

  lemma {:induction false} RowFrame(k: Kind, rows: seq<Tree>, r: nat, inner: Edit, key: string, q: Path)
    requires k.RowList() && KindOk(k) && r < |rows| && rows[r].Obj? && RowFields(k, rows[r].fields).Some?
    requires var sub := RowFields(k, rows[r].fields).value;
      Offered(sub, rows[r].fields, inner) && GroupsHoldRecords(sub, rows[r].fields, inner)
    requires q != [] && !(q <= [Dec(r)] + Target(inner)) && !([Dec(r)] + Target(inner) <= q)
    ensures var next := ApplyKeyed(RowFields(k, rows[r].fields).value, rows[r].fields, inner, key);
      Get(Arr(rows[r := Obj(Rekey(k, next, rows[r].fields))]), q) == Get(Arr(rows), q)
    decreases inner, 1
  {
    var row := rows[r].fields;
    var sub := RowFields(k, row).value;
    var next := ApplyKeyed(sub, row, inner, key);
    var now := rows[r := Obj(Rekey(k, next, row))];
    if q[0] == Dec(r) {
      PartsLater(q, [Dec(r)] + Target(inner), Target(inner));
      var rest := q[1..];
      assert q == [Dec(r)] + rest;
      GetInRow(rows, r, rest);
      GetInRow(now, r, rest);
      EditFrame(sub, row, inner, key, rest);
      RekeyedReads(k, next, row, inner, sub, key, rest);
    } else if Index(q[0]).Some? && Index(q[0]).value == r {
      DecOfIndex(q[0]);
    } else {
      assert Child(Arr(now), q[0]) == Child(Arr(rows), q[0]);
    }
  }

  /** Keeping a row's `_key` and `blockType` changes no path beside the inner action. */
  lemma RekeyedReads(k: Kind, next: map<string, Tree>, row: map<string, Tree>, inner: Edit, sub: seq<Field>, key: string, q: Path)
    requires SchemaOk(sub) && Offered(sub, row, inner) && next == ApplyKeyed(sub, row, inner, key)
    requires q != [] && Get(Obj(next), q) == Get(Obj(row), q)
    ensures Get(Obj(Rekey(k, next, row)), q) == Get(Obj(row), q)
  {
    assert inner.name != KEY && inner.name != TYPE;
    AppliedKeepsRest(sub, row, inner, key, KEY);
    AppliedKeepsRest(sub, row, inner, key, TYPE);
    assert Prop(Rekey(k, next, row), q[0]) == Prop(next, q[0]);
  }

  /** Every plain, password and reference field takes whatever is typed into it, and
      only that field changes. */
  lemma FieldTakesInput(fs: seq<Field>, m: map<string, Tree>, i: nat, v: Tree, key: string)
    requires SchemaOk(fs) && i < |fs| && (fs[i].kind == Plain || fs[i].kind == Password || fs[i].kind == Relation)
    ensures Offered(fs, m, SetField(fs[i].name, v)) && ApplyKeyed(fs, m, SetField(fs[i].name, v), key) == m[fs[i].name := v]
  {
    FieldIndexAt(fs, i);
  }

  /** Inside a group, and inside a row that is a record with fields, everything is offered
      that its own fields offer. */
  lemma ControlsNest(fs: seq<Field>, m: map<string, Tree>, i: nat, r: nat, inner: Edit)
    requires SchemaOk(fs) && i < |fs|
    ensures var (k, v) := (fs[i].kind, Prop(m, fs[i].name));
      && (k.Group? ==> (Offered(fs, m, InGroup(fs[i].name, inner)) <==> Offered(k.sub, if v.Obj? then v.fields else map[], inner)))
      && ((k.Array? || k.Blocks?) && v.Arr? && r < |v.items| && v.items[r].Obj? && RowFields(k, v.items[r].fields).Some? ==>
            (Offered(fs, m, InRow(fs[i].name, r, inner)) <==> Offered(RowFields(k, v.items[r].fields).value, v.items[r].fields, inner)))
  {
    FieldIndexAt(fs, i);
  }

  /** Every row of a list can be removed and dragged to every place, a block duplicated. */
  lemma RowControls(fs: seq<Field>, m: map<string, Tree>, i: nat, rows: seq<Tree>, r: nat, over: nat)
    requires SchemaOk(fs) && i < |fs| && (fs[i].kind.Array? || fs[i].kind.Blocks?)
    requires Prop(m, fs[i].name) == Arr(rows) && r < |rows| && over < |rows|
    ensures Offered(fs, m, Remove(fs[i].name, r)) && Offered(fs, m, Drag(fs[i].name, r, over))
    ensures fs[i].kind.Blocks? && rows[r].Obj? ==> Offered(fs, m, Duplicate(fs[i].name, r))
  {
    FieldIndexAt(fs, i);
  }

  lemma {:induction false} FieldIndexAt(fs: seq<Field>, i: nat)
    requires i < |fs| && forall a, b | 0 <= a < b < |fs| :: fs[a].name != fs[b].name
    ensures FieldIndex(fs, fs[i].name) == i
  {
    if i > 0 { FieldIndexAt(fs[1..], i - 1); }
  }

  lemma {:induction false} DefIndexAt(defs: seq<BlockDef>, b: nat)
    requires b < |defs| && forall j | 0 <= j < b :: defs[j].slug != defs[b].slug
    ensures DefIndex(defs, Leaf(Str(defs[b].slug))) == b
  {
    if b > 0 { DefIndexAt(defs[1..], b - 1); }
  }

  /** A row can be added to every list, with any of its block definitions, and what can
      be done in a row of that definition can be done in the new one at once. */
  lemma AddedRowIsEditable(fs: seq<Field>, m: map<string, Tree>, i: nat, b: nat, key: string, inner: Edit)
    requires SchemaOk(fs) && i < |fs| && (fs[i].kind.Array? || fs[i].kind.Blocks?)
    requires fs[i].kind.Blocks? ==> b < |fs[i].kind.defs| && forall j | 0 <= j < b :: fs[i].kind.defs[j].slug != fs[i].kind.defs[b].slug
    ensures var k := fs[i].kind;
      var (slug, sub) := if k.Array? then ("", k.sub) else (k.defs[b].slug, k.defs[b].fields);
      var add := Add(fs[i].name, slug);
      Offered(fs, m, add) &&
      var next := ApplyKeyed(fs, m, add, key);
      var last := |Rows(Prop(m, fs[i].name))|;
      Offered(fs, next, InRow(fs[i].name, last, inner)) <==> Offered(sub, NewRow(k, key, slug), inner)
  {
    FieldIndexAt(fs, i);
    if fs[i].kind.Blocks? { DefIndexAt(fs[i].kind.defs, b); }
  }

  // --- What undoes what --------------------------------------------

  /** Removing the copy undoes a duplicate, keys and all. */
  lemma RemoveUndoesDuplicate(fs: seq<Field>, m: map<string, Tree>, name: string, r: nat, key: string, key': string)
    requires Offered(fs, m, Duplicate(name, r))
    ensures var next := ApplyKeyed(fs, m, Duplicate(name, r), key);
      Offered(fs, next, Remove(name, r + 1)) && ApplyKeyed(fs, next, Remove(name, r + 1), key') == m
  {
    var rows := Rows(Prop(m, name));
    var next := ApplyKeyed(fs, m, Duplicate(name, r), key);
    assert RemoveRow(DuplicateRow(rows, r, key), r + 1) == rows;
    assert Rows(Prop(next, name)) == DuplicateRow(rows, r, key);
    assert next[name := Arr(rows)] == m;
  }

  /** Removing the last row undoes an addition to a list. */
  lemma RemoveUndoesAdd(fs: seq<Field>, m: map<string, Tree>, name: string, slug: string, key: string, key': string)
    requires Offered(fs, m, Add(name, slug)) && Prop(m, name).Arr?
    ensures var next := ApplyKeyed(fs, m, Add(name, slug), key);
      var last := |Rows(Prop(m, name))|;
      Offered(fs, next, Remove(name, last)) && ApplyKeyed(fs, next, Remove(name, last), key') == m
  {
    var rows := Rows(Prop(m, name));
    var k := fs[FieldIndex(fs, name)].kind;
    var next := ApplyKeyed(fs, m, Add(name, slug), key);
    assert RemoveRow(rows + [Obj(NewRow(k, key, slug))], |rows|) == rows;
    assert next[name := Arr(rows)] == m;
  }

  lemma DragApplied(fs: seq<Field>, m: map<string, Tree>, name: string, rows: seq<Tree>, r: nat, over: nat,
                    key: string, keys: iset<string>)
    requires FieldIndex(fs, name) < |fs| && fs[FieldIndex(fs, name)].kind.RowList()
    requires Prop(m, name) == Arr(rows) && r < |rows| && over < |rows| && ListOk(rows, Distinct(keys))
    ensures Offered(fs, m, Drag(name, r, over))
    ensures ApplyKeyed(fs, m, Drag(name, r, over), key) == m[name := Arr(ArrayMove(rows, r, over))]
  {
    DragByKeyIsByPosition(rows, r, over, keys);
  }

  lemma MoveBack(rows: seq<Tree>, i: nat, j: nat)
    requires i < |rows| && j < |rows|
    ensures ArrayMove(ArrayMove(rows, i, j), j, i) == rows
  {
    assert RemoveRow(ArrayMove(rows, i, j), j) == RemoveRow(rows, i);
  }

  lemma DragBack(fs: seq<Field>, m: map<string, Tree>, next: map<string, Tree>, name: string, rows: seq<Tree>,
                 r: nat, over: nat, key: string, keys: iset<string>)
    requires FieldIndex(fs, name) < |fs| && fs[FieldIndex(fs, name)].kind.RowList()
    requires name in m && m[name] == Arr(rows) && r < |rows| && over < |rows|
    requires next == m[name := Arr(ArrayMove(rows, r, over))] && ListOk(ArrayMove(rows, r, over), Distinct(keys))
    ensures Offered(fs, next, Drag(name, over, r)) && ApplyKeyed(fs, next, Drag(name, over, r), key) == m
  {
    var moved := ArrayMove(rows, r, over);
    MoveBack(rows, r, over);
    assert Prop(next, name) == Arr(moved) && next[name := Arr(rows)] == m;
    DragApplied(fs, next, name, moved, over, r, key, keys);
  }

  /** Dragging a row back to where it was undoes a drag, by key both times. */
  lemma DragUndoesDrag(fs: seq<Field>, m: map<string, Tree>, name: string, r: nat, over: nat,
                       key: string, key': string, keys: iset<string>)
    requires SchemaOk(fs) && AllLists(fs, m, Distinct(keys)) && Offered(fs, m, Drag(name, r, over))
    ensures var next := ApplyKeyed(fs, m, Drag(name, r, over), key);
      Offered(fs, next, Drag(name, over, r)) && ApplyKeyed(fs, next, Drag(name, over, r), key') == m
  {
    var rows := Rows(Prop(m, name));
    var k := fs[FieldIndex(fs, name)].kind;
    assert ValueLists(k, Prop(m, name), Distinct(keys));
    ArrayMoveLists(k, rows, r, over, keys);
    DragApplied(fs, m, name, rows, r, over, key, keys);
    DragBack(fs, m, ApplyKeyed(fs, m, Drag(name, r, over), key), name, rows, r, over, key', keys);
  }
}
