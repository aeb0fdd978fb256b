/** Preview patches on the keyed form: they were addressed on stripped data, and
    some of them can disturb the row keys. */
module PreviewPatch {
  import opened Forms
  import opened Schema
  import opened RowKeys
  import opened EditorSession

  // --- Stripping commutes with reading and writing paths -----------------------------

  lemma ChildStrip(t: Tree, seg: string)
    ensures Child(Strip(t), seg) == if seg == KEY then UNDEF else Strip(Child(t, seg))
    ensures HasChild(Strip(t), seg) <==> HasChild(t, seg) && seg != KEY
  {
    assert !Decimals.IsDigit(KEY[0]);
  }

  /** Path lookup commutes with stripping: a preview path hits the same node of
      the keyed form; a path through `_key` does not exist in the preview. */
  lemma {:induction false} GetStrip(t: Tree, path: Path)
    ensures Get(Strip(t), path) == if KEY in path then UNDEF else Strip(Get(t, path))
    decreases |path|
  {
    if path != [] {
      ChildStrip(t, path[0]);
      if path[0] == KEY { GetUndef(path[1..]); }
      else { GetStrip(Child(t, path[0]), path[1..]); }
      assert KEY in path <==> path[0] == KEY || KEY in path[1..];
    }
  }

  lemma {:induction false} PutStrip(t: Tree, path: Path, leaf: Tree)
    requires Resolves(t, path) && leaf.Leaf? && Get(t, path).Leaf?
    ensures KEY in path ==> Strip(Put(t, path, leaf)) == Strip(t)
    ensures KEY !in path ==> Resolves(Strip(t), path) && Strip(Put(t, path, leaf)) == Put(Strip(t), path, leaf)
    decreases |path|
  {
    GetStrip(t, path);
    if path != [] {
      var seg, rest := path[0], path[1..];
      GetUndef(rest);
      ChildStrip(t, seg);
      PutStrip(Child(t, seg), rest, leaf);
      assert KEY in path <==> seg == KEY || KEY in rest;
      WithChildStrip(t, seg, Put(Child(t, seg), rest, leaf));
    }
  }

  lemma WithChildStrip(t: Tree, seg: string, c: Tree)
    requires HasChild(t, seg)
    ensures seg == KEY || Strip(c) == Strip(Child(t, seg)) ==> Strip(WithChild(t, seg, c)) == Strip(t)
    ensures seg != KEY ==> HasChild(Strip(t), seg) && Strip(WithChild(t, seg, c)) == WithChild(Strip(t), seg, Strip(c))
  {
    ChildStrip(t, seg);
    match t
    case Obj(m) =>
      if seg == KEY { StripIgnoresKey(m, c); }
      else { StripSet(m, seg, c); }
    case Arr(xs) => StripSeqUpdate(xs, Index(seg).value, c);
  }

  /** Patching then stripping is stripping then patching, for every path. */
  lemma PatchStrip(t: Tree, path: Path, v: Prim)
    ensures Strip(Patch(t, path, v)) == Patch(Strip(t), path, v)
  {
    GetStrip(t, path);
    if PatchValue(v) && Patchable(t, path) { PutStrip(t, path, Leaf(v)); }
  }

  /** The preview stamps row `i` of a list with `name.i`, counting rows of the
      stripped form; in the keyed form that path is the same row. */
  lemma StampedPathHitsRow(m: map<string, Tree>, name: string, i: nat)
    requires name != KEY && i < |Rows(Prop(StripMap(m), name))|
    ensures i < |Rows(Prop(m, name))| && Get(Obj(m), [name, Decimals.Dec(i)]) == Rows(Prop(m, name))[i]
    ensures Strip(Get(Obj(m), [name, Decimals.Dec(i)])) == Rows(Prop(StripMap(m), name))[i]
  {
    StripProp(m, name);
    IndexOfDec(i);
    var path := [name, Decimals.Dec(i)];
    assert path[1..] == [Decimals.Dec(i)] && path[1..][1..] == [];
    assert Get(Prop(m, name), path[1..]) == Get(Rows(Prop(m, name))[i], []);
  }

  // --- Typing in the editor and patching from the preview -------------------------------

  lemma PutInRecord(m: map<string, Tree>, path: Path, leaf: Tree)
    requires path != [] && Resolves(Obj(m), path)
    ensures path[0] in m && Resolves(m[path[0]], path[1..])
    ensures Put(Obj(m), path, leaf) == Obj(m[path[0] := Put(m[path[0]], path[1..], leaf)])
  {
    GetUndef(path[1..]);
  }

  lemma PutInRow(rows: seq<Tree>, r: nat, path: Path, leaf: Tree)
    requires r < |rows| && Resolves(rows[r], path)
    ensures Resolves(Arr(rows), [Decimals.Dec(r)] + path)
    ensures Put(Arr(rows), [Decimals.Dec(r)] + path, leaf) == Arr(rows[r := Put(rows[r], path, leaf)])
  {
    GetInRow(rows, r, path);
    IndexOfDec(r);
    assert ([Decimals.Dec(r)] + path)[1..] == path;
  }

  /** Writing a row back with its own `_key` and `blockType` changes nothing. */
  lemma RekeyIsSame(k: Kind, row: map<string, Tree>, sub: seq<Field>, inner: Edit, key: string)
    requires k.RowList() && KindOk(k) && KEY in row && RowFields(k, row) == Some(sub) && Offered(sub, row, inner)
    requires Prop(row, KEY) != UNDEF
    ensures var next := ApplyKeyed(sub, row, inner, key); Rekey(k, next, row) == next
  {
    var next := ApplyKeyed(sub, row, inner, key);
    assert inner.name == sub[FieldIndex(sub, inner.name)].name;
    AppliedKeepsRest(sub, row, inner, key, KEY);
    AppliedKeepsRest(sub, row, inner, key, TYPE);
    assert KEY in next && next[KEY := Prop(row, KEY)] == next;
    if k.Blocks? {
      assert Prop(row, TYPE) != UNDEF;
      assert TYPE in next && next[TYPE := Prop(row, TYPE)] == next;
    }
  }

  lemma {:induction false} TypingInRow(k: Kind, rows: seq<Tree>, r: nat, inner: Edit, v: Prim, key: string, keys: iset<string>)
    requires k.RowList() && KindOk(k) && r < |rows| && ValueLists(k, Arr(rows), Distinct(keys))
    requires rows[r].Obj? && RowFields(k, rows[r].fields).Some?
    requires var sub := RowFields(k, rows[r].fields).value;
      Offered(sub, rows[r].fields, inner) && GroupsHoldRecords(sub, rows[r].fields, inner)
    requires Innermost(inner).SetField? && Innermost(inner).v == Leaf(v) && Resolves(rows[r], Target(inner))
    ensures var next := ApplyKeyed(RowFields(k, rows[r].fields).value, rows[r].fields, inner, key);
      Obj(Rekey(k, next, rows[r].fields)) == Put(rows[r], Target(inner), Leaf(v))
    decreases inner, 1
  {
    var sub := RowFields(k, rows[r].fields).value;
    assert RowLists(k, rows[r], Distinct(keys)) && HasKey(rows[r]) && GoodKey(rows[r], keys);
    TypingIsPatching(sub, rows[r].fields, inner, v, key, keys);
    RekeyIsSame(k, rows[r].fields, sub, inner, key);
  }

  /** Typing a value into an input, at any nesting depth, is patching the path of its
      field: the editor and the preview write alike. */
  lemma {:induction false} TypingIsPatching(fs: seq<Field>, m: map<string, Tree>, e: Edit, v: Prim, key: string, keys: iset<string>)
    requires SchemaOk(fs) && AllLists(fs, m, Distinct(keys)) && Offered(fs, m, e)
    requires Innermost(e).SetField? && Innermost(e).v == Leaf(v)
    requires GroupsHoldRecords(fs, m, e) && Resolves(Obj(m), Target(e))
    ensures Obj(ApplyKeyed(fs, m, e, key)) == Put(Obj(m), Target(e), Leaf(v))
    ensures PatchValue(v) && Patchable(Obj(m), Target(e)) ==> Obj(ApplyKeyed(fs, m, e, key)) == Patch(Obj(m), Target(e), v)
    decreases e, 0
  {
    var k := fs[FieldIndex(fs, e.name)].kind;
    var x := Prop(m, e.name);
    assert KindOk(k) && ValueLists(k, x, Distinct(keys));
    PutInRecord(m, Target(e), Leaf(v));
    match e
    case InGroup(_, inner) =>
      assert Target(e)[1..] == Target(inner);
      if x.Leaf? { GetLeaf(x.p, Target(inner)); }
      GroupLists(k, x, Distinct(keys));
      TypingIsPatching(k.sub, Rec(x), inner, v, key, keys);
    case InRow(_, r, inner) =>
      var rows := Rows(x);
      assert Target(e)[1..] == [Decimals.Dec(r)] + Target(inner);
      GetInRow(rows, r, Target(inner));
      TypingInRow(k, rows, r, inner, v, key, keys);
      PutInRow(rows, r, Target(inner), Leaf(v));
    case SetField(_, _) => assert Target(e)[1..] == [];
    case _ =>
  }

  // --- When a patch keeps every row list keyed -----------------------------------------

  /** Follows the path through the schema. Only two leaves matter: a row's `_key`,
      which must stay a string distinct from its siblings', and a block's
      `blockType`, after which the row is edited with another field list. */
  ghost predicate PatchSafe(fs: seq<Field>, m: map<string, Tree>, path: Path, v: Prim, keys: iset<string>)
    requires path != []
    decreases |path|, 0
  {
    var i := FieldIndex(fs, path[0]);
    i < |fs| && |path| > 1 ==> ValueSafe(fs[i].kind, Prop(m, path[0]), path[1..], v, keys)
  }

  ghost predicate ValueSafe(k: Kind, x: Tree, path: Path, v: Prim, keys: iset<string>)
    requires path != []
    decreases |path|, 1
  {
    && (k.Group? && x.Obj? ==> PatchSafe(k.sub, x.fields, path, v, keys))
    && (k.RowList() && HasChild(x, path[0]) && x.Arr? && Child(x, path[0]).Obj? && |path| > 1 ==>
          RowSafe(k, x.items, Index(path[0]).value, path[1..], v, keys))
  }

  ghost predicate RowSafe(k: Kind, rows: seq<Tree>, r: nat, path: Path, v: Prim, keys: iset<string>)
    requires k.RowList() && r < |rows| && rows[r].Obj? && path != []
    decreases |path|, 1
  {
    var row := rows[r].fields;
    if path == [KEY] then
      v.Str? && v.s in keys && forall j | 0 <= j < |rows| && j != r :: KeyOf(rows[j]) != Leaf(v)
    else if path == [TYPE] then
      k.Blocks? ==> RowLists(k, Obj(row[TYPE := Leaf(v)]), Distinct(keys))
    else
      var sub := RowFields(k, row);
      sub.Some? ==> PatchSafe(sub.value, row, path, v, keys)
  }

  /** Exactly the safe patches keep every reached row list keyed with distinct keys. */
  lemma {:induction false} PatchKeepsKeysIff(fs: seq<Field>, m: map<string, Tree>, path: Path, v: Prim, keys: iset<string>)
    requires SchemaOk(fs) && AllLists(fs, m, Distinct(keys))
    requires PatchValue(v) && Patchable(Obj(m), path)
    ensures Patch(Obj(m), path, v).Obj?
    ensures AllLists(fs, Patch(Obj(m), path, v).fields, Distinct(keys)) <==> PatchSafe(fs, m, path, v, keys)
    decreases |path|, 0
  {
    var seg, rest := path[0], path[1..];
    GetUndef(rest);
    assert HasChild(Obj(m), seg);
    var c := Put(m[seg], rest, Leaf(v));
    var out := m[seg := c];
    assert Patch(Obj(m), path, v) == Obj(out);
    var i := FieldIndex(fs, seg);
    if i < |fs| {
      assert ValueLists(fs[i].kind, Prop(m, seg), Distinct(keys));
      if rest == [] {
        assert c == Leaf(v);
      } else {
        PatchableChild(Obj(m), path);
        PatchedValueLists(fs[i].kind, m[seg], rest, v, keys);
      }
      assert ValueLists(fs[i].kind, Prop(out, fs[i].name), Distinct(keys)) <==> PatchSafe(fs, m, path, v, keys);
    }
    forall j | 0 <= j < |fs| && j != i ensures ValueLists(fs[j].kind, Prop(out, fs[j].name), Distinct(keys)) {
      assert ValueLists(fs[j].kind, Prop(m, fs[j].name), Distinct(keys));
    }
  }

  lemma PatchableChild(t: Tree, path: Path)
    requires Patchable(t, path) && |path| > 1
    ensures HasChild(t, path[0]) && Patchable(Child(t, path[0]), path[1..]) && !Child(t, path[0]).Leaf?
  {
    GetUndef(path[1..]);
    var c := Child(t, path[0]);
    if c.Leaf? { GetLeaf(c.p, path[1..]); }
  }

  lemma {:induction false} PatchedValueLists(k: Kind, x: Tree, path: Path, v: Prim, keys: iset<string>)
    requires KindOk(k) && ValueLists(k, x, Distinct(keys)) && PatchValue(v) && Patchable(x, path)
    ensures ValueLists(k, Put(x, path, Leaf(v)), Distinct(keys)) <==> ValueSafe(k, x, path, v, keys)
    decreases |path|, 1
  {
    var seg, rest := path[0], path[1..];
    GetUndef(rest);
    if k.Group? && x.Obj? {
      PatchKeepsKeysIff(k.sub, x.fields, path, v, keys);
    } else if k.RowList() && x.Arr? {
      var r := Index(seg).value;
      var row := x.items[r];
      assert RowLists(k, row, Distinct(keys));
      assert Get(x, path) == Get(row, rest);
      assert rest != [];
      PatchableChild(x, path);
      PatchedRows(k, x.items, r, rest, v, keys);
    }
  }

  lemma {:induction false} PatchedRows(k: Kind, rows: seq<Tree>, r: nat, path: Path, v: Prim, keys: iset<string>)
    requires k.RowList() && KindOk(k) && r < |rows| && ValueLists(k, Arr(rows), Distinct(keys)) && rows[r].Obj?
    requires PatchValue(v) && Patchable(rows[r], path)
    ensures ValueLists(k, Arr(rows[r := Put(rows[r], path, Leaf(v))]), Distinct(keys)) <==> RowSafe(k, rows, r, path, v, keys)
    decreases |path|, 1
  {
    var row := rows[r].fields;
    var seg, rest := path[0], path[1..];
    GetUndef(rest);
    var out := Put(rows[r], path, Leaf(v));
    assert out == Obj(row[seg := Put(row[seg], rest, Leaf(v))]);
    var next := rows[r := out];
    assert RowLists(k, rows[r], Distinct(keys));
    if seg == KEY {
      assert GoodKey(rows[r], keys);
      if rest != [] { GetLeaf(row[KEY].p, rest); }
      assert path == [KEY];
      PatchedKey(k, rows, r, v, keys);
    } else {
      OnlyRowChanged(k, rows, r, out, keys);
      if path == [TYPE] {
        assert rest == [] && out == Obj(row[TYPE := Leaf(v)]);
        if k.Array? {
          assert SchemaOk(k.sub) && RowFields(k, row) == RowFields(k, out.fields) == Some(k.sub);
          assert forall i | 0 <= i < |k.sub| :: Prop(out.fields, k.sub[i].name) == Prop(row, k.sub[i].name);
          SameProps(k.sub, row, out.fields, Distinct(keys));
        }
      } else {
        if seg == TYPE {
          PatchableChild(rows[r], path);
          NoBlockForContainer(k, row, out.fields);
        }
        var sub := RowFields(k, row);
        assert RowFields(k, out.fields) == sub;
        if sub.Some? {
          PatchKeepsKeysIff(sub.value, row, path, v, keys);
          assert Patch(rows[r], path, v) == out;
        }
      }
    }
  }

  lemma SameProps(fs: seq<Field>, m: map<string, Tree>, out: map<string, Tree>, d: Demand)
    requires AllLists(fs, m, d) && forall i | 0 <= i < |fs| :: Prop(out, fs[i].name) == Prop(m, fs[i].name)
    ensures AllLists(fs, out, d)
  {
    assert forall i | 0 <= i < |fs| :: ValueLists(fs[i].kind, Prop(m, fs[i].name), d);
  }

  /** A `blockType` that is not even a leaf names no block definition. */
  lemma NoBlockForContainer(k: Kind, row: map<string, Tree>, out: map<string, Tree>)
    requires k.RowList() && !Prop(row, TYPE).Leaf? && !Prop(out, TYPE).Leaf?
    ensures RowFields(k, row) == RowFields(k, out)
  {
  }

  lemma PatchedKey(k: Kind, rows: seq<Tree>, r: nat, v: Prim, keys: iset<string>)
    requires k.RowList() && KindOk(k) && r < |rows| && ValueLists(k, Arr(rows), Distinct(keys)) && rows[r].Obj?
    ensures ValueLists(k, Arr(rows[r := Obj(rows[r].fields[KEY := Leaf(v)])]), Distinct(keys))
       <==> RowSafe(k, rows, r, [KEY], v, keys)
  {
    var row := rows[r].fields;
    var out := Obj(row[KEY := Leaf(v)]);
    var next := rows[r := out];
    assert KeyOf(out) == Leaf(v) && next[r] == out;
    SameRowLists(k, row, out.fields, Distinct(keys));
    if ListOk(next, Distinct(keys)) {
      assert GoodKey(next[r], keys);
      forall j | 0 <= j < |rows| && j != r ensures KeyOf(rows[j]) != Leaf(v) {
        assert KeyOf(next[j]) != KeyOf(next[r]);
      }
    }
  }

  /** Every patch that ends in neither `_key` nor `blockType` is safe. */
  lemma {:induction false} OrdinaryPatchSafe(fs: seq<Field>, m: map<string, Tree>, path: Path, v: Prim, keys: iset<string>)
    requires path != [] && path[|path| - 1] != KEY && path[|path| - 1] != TYPE
    ensures PatchSafe(fs, m, path, v, keys)
    decreases |path|
  {
    var i := FieldIndex(fs, path[0]);
    if i < |fs| && |path| > 1 {
      var k, x, rest := fs[i].kind, Prop(m, path[0]), path[1..];
      if k.Group? && x.Obj? {
        OrdinaryPatchSafe(k.sub, x.fields, rest, v, keys);
      } else if k.RowList() && x.Arr? && HasChild(x, rest[0]) && Child(x, rest[0]).Obj? && |rest| > 1 {
        var row := Child(x, rest[0]).fields;
        var sub := RowFields(k, row);
        if sub.Some? { OrdinaryPatchSafe(sub.value, row, rest[1..], v, keys); }
      }
    }
  }
}
