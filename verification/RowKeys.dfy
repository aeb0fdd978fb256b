/** Client-only row keys: `withRowKeys` adds a `_key` to every array/blocks row
    the schema reaches, `stripRowKeys` removes every `_key` again. */
module RowKeys {
  import opened Forms
  import opened Schema

  /** A result together with the next unused index of the key generator;
      `Throws` is the TypeError of reading `blockType` off null or undefined. */
  datatype Keyed<+T> = Keyed(v: T, next: nat) | Throws

  type KeyGen = nat -> string

  function KeyRecord(fs: seq<Field>, m: map<string, Tree>, gen: KeyGen, n: nat): (r: Keyed<map<string, Tree>>)
    ensures r.Keyed? ==> r.next >= n
    decreases fs, 0, 0
  {
    if fs == [] then Keyed(m, n)
    else
      var f := fs[0];
      if f.name !in m then KeyRecord(fs[1..], m, gen, n)
      else
        var r := KeyValue(f.kind, m[f.name], gen, n);
        if r.Throws? then Throws else KeyRecord(fs[1..], m[f.name := r.v], gen, r.next)
  }

  function KeyValue(k: Kind, v: Tree, gen: KeyGen, n: nat): (r: Keyed<Tree>)
    ensures r.Keyed? ==> r.next >= n
    decreases k, 1, 0
  {
    if k.Group? && v.Obj? then
      var r := KeyRecord(k.sub, v.fields, gen, n);
      if r.Throws? then Throws else Keyed(Obj(r.v), r.next)
    else if k.RowList() && v.Arr? then
      var r := KeyRows(k, v.items, gen, n);
      if r.Throws? then Throws else Keyed(Arr(r.v), r.next)
    else Keyed(v, n)
  }

  /** Each row becomes `{ _key: genKey(), ...keyed row }`: a `_key` the row
      already carries overrides the generated one. */
  function KeyRows(k: Kind, rows: seq<Tree>, gen: KeyGen, n: nat): (r: Keyed<seq<Tree>>)
    requires k.RowList()
    ensures r.Keyed? ==> r.next >= n
    decreases k, 0, |rows|
  {
    if rows == [] then Keyed([], n)
    else
      var first := KeyRow(k, rows[0], gen, n);
      if first.Throws? then Throws
      else
        var rest := KeyRows(k, rows[1..], gen, first.next);
        if rest.Throws? then Throws else Keyed([Obj(first.v)] + rest.v, rest.next)
  }

  function KeyRow(k: Kind, row: Tree, gen: KeyGen, n: nat): (r: Keyed<map<string, Tree>>)
    requires k.RowList()
    ensures r.Keyed? ==> r.next > n
    decreases k, 0, 0
  {
    if k.Blocks? && Nullish(row) then Throws
    else
      var o := Spread(row);
      var fields := RowFields(k, o);
      var inner := if fields.Some? then KeyRecord(fields.value, o, gen, n + 1) else Keyed(o, n + 1);
      if inner.Throws? then Throws else Keyed(map[KEY := Leaf(Str(gen(n)))] + inner.v, inner.next)
  }

  function Strip(v: Tree): Tree {
    match v
    case Leaf(_) => v
    case Arr(xs) => Arr(seq(|xs|, i requires 0 <= i < |xs| => Strip(xs[i])))
    case Obj(m) => Obj(map k | k in m && k != KEY :: Strip(m[k]))
  }

  function StripMap(m: map<string, Tree>): map<string, Tree> { Strip(Obj(m)).fields }

  function StripSeq(xs: seq<Tree>): seq<Tree> { Strip(Arr(xs)).items }

  // --- What can be demanded of every row list the schema reaches -----------------

  datatype Demand =
    | Records                            // rows are records, nothing more
    | Present                            // ... each with some `_key`
    | Supplied(keys: iset<string>)      // the keys present are distinct strings from a set
    | Distinct(keys: iset<string>)      // every row has one, distinct strings from a set

  function KeyOf(row: Tree): Tree { if row.Obj? then Prop(row.fields, KEY) else UNDEF }

  predicate HasKey(row: Tree) { row.Obj? && KEY in row.fields }

  ghost predicate GoodKey(row: Tree, keys: iset<string>) {
    KeyOf(row).Leaf? && KeyOf(row).p.Str? && KeyOf(row).p.s in keys
  }

  ghost predicate ListOk(rows: seq<Tree>, d: Demand) {
    match d
    case Records => true
    case Present => forall i | 0 <= i < |rows| :: HasKey(rows[i])
    case Supplied(keys) =>
      && (forall i | 0 <= i < |rows| :: HasKey(rows[i]) ==> GoodKey(rows[i], keys))
      && (forall i, j | 0 <= i < j < |rows| :: HasKey(rows[i]) && HasKey(rows[j]) ==> KeyOf(rows[i]) != KeyOf(rows[j]))
    case Distinct(keys) =>
      && (forall i | 0 <= i < |rows| :: HasKey(rows[i]) && GoodKey(rows[i], keys))
      && (forall i, j | 0 <= i < j < |rows| :: KeyOf(rows[i]) != KeyOf(rows[j]))
  }

  /** Every row list reached from a record through the schema meets the demand. */
  ghost predicate AllLists(fs: seq<Field>, m: map<string, Tree>, d: Demand)
    decreases fs, 0
  {
    forall i | 0 <= i < |fs| :: ValueLists(fs[i].kind, Prop(m, fs[i].name), d)
  }

  ghost predicate ValueLists(k: Kind, v: Tree, d: Demand)
    decreases k, 1
  {
    && (k.Group? && v.Obj? ==> AllLists(k.sub, v.fields, d))
    && (k.RowList() && v.Arr? ==>
          ListOk(v.items, d) && forall i | 0 <= i < |v.items| :: RowLists(k, v.items[i], d))
  }

  ghost predicate RowLists(k: Kind, row: Tree, d: Demand)
    requires k.RowList()
    decreases k, 0
  {
    row.Obj? && var fields := RowFields(k, row.fields); fields.Some? ==> AllLists(fields.value, row.fields, d)
  }

  ghost predicate Weaker(d: Demand, e: Demand) {
    || e.Records?
    || (e.Present? && (d.Present? || d.Distinct?))
    || (e.Supplied? && (d.Supplied? || d.Distinct?) && d.keys <= e.keys)
    || (e.Distinct? && d.Distinct? && d.keys <= e.keys)
  }

  lemma {:induction false} Weaken(fs: seq<Field>, m: map<string, Tree>, d: Demand, e: Demand)
    requires AllLists(fs, m, d) && Weaker(d, e)
    ensures AllLists(fs, m, e)
    decreases fs, 0
  {
    forall i | 0 <= i < |fs| ensures ValueLists(fs[i].kind, Prop(m, fs[i].name), e) {
      WeakenValue(fs[i].kind, Prop(m, fs[i].name), d, e);
    }
  }

  lemma {:induction false} WeakenValue(k: Kind, v: Tree, d: Demand, e: Demand)
    requires ValueLists(k, v, d) && Weaker(d, e)
    ensures ValueLists(k, v, e)
    decreases k, 1
  {
    if k.Group? && v.Obj? {
      Weaken(k.sub, v.fields, d, e);
    } else if k.RowList() && v.Arr? {
      forall i | 0 <= i < |v.items| ensures RowLists(k, v.items[i], e) {
        WeakenRow(k, v.items[i], d, e);
      }
    }
  }

  lemma {:induction false} WeakenRow(k: Kind, row: Tree, d: Demand, e: Demand)
    requires k.RowList() && RowLists(k, row, d) && Weaker(d, e)
    ensures RowLists(k, row, e)
    decreases k, 0
  {
    var fields := RowFields(k, row.fields);
    if fields.Some? { Weaken(fields.value, row.fields, d, e); }
  }

  // --- Keying: what `withRowKeys` achieves ---------------------------------------

  ghost predicate Injective(gen: KeyGen) {
    forall i: nat, j: nat | i != j :: gen(i) != gen(j)
  }

  /** The strings the generator will not produce from index `n` on. */
  ghost function Used(gen: KeyGen, n: nat): iset<string> {
    iset k: string | !Upcoming(gen, n, k)
  }

  ghost predicate Upcoming(gen: KeyGen, n: nat, k: string) { exists i: nat | n <= i :: gen(i) == k }

  lemma UsedGrows(gen: KeyGen, n: nat, next: nat)
    requires Injective(gen) && n <= next
    ensures Used(gen, n) <= Used(gen, next)
    ensures forall c: nat | c < next :: gen(c) in Used(gen, next)
  {
  }

  /** Keying a record whose rows are records and whose supplied keys are distinct
      strings: it succeeds, keys every reached row, keeps lists duplicate-free,
      and changes no property outside the schema. */
  lemma {:induction false} KeyRecordGood(fs: seq<Field>, m: map<string, Tree>, gen: KeyGen, n: nat)
    requires SchemaOk(fs) && Injective(gen) && AllLists(fs, m, Supplied(Used(gen, n)))
    ensures var r := KeyRecord(fs, m, gen, n);
      && r.Keyed? && r.v.Keys == m.Keys
      && AllLists(fs, r.v, Distinct(Used(gen, r.next)))
      && forall k | k in m && (forall i | 0 <= i < |fs| :: fs[i].name != k) :: r.v[k] == m[k]
    decreases fs, 0, 0
  {
    if fs != [] {
      var f := fs[0];
      assert ValueLists(f.kind, Prop(m, f.name), Supplied(Used(gen, n)));
      var m1, n1 := m, n;
      if f.name in m {
        KeyValueGood(f.kind, m[f.name], gen, n);
        var r := KeyValue(f.kind, m[f.name], gen, n);
        m1, n1 := m[f.name := r.v], r.next;
      }
      assert AllLists(fs[1..], m, Supplied(Used(gen, n)));
      UsedGrows(gen, n, n1);
      Weaken(fs[1..], m, Supplied(Used(gen, n)), Supplied(Used(gen, n1)));
      assert AllLists(fs[1..], m1, Supplied(Used(gen, n1)));
      KeyRecordGood(fs[1..], m1, gen, n1);
      var r := KeyRecord(fs[1..], m1, gen, n1);
      assert ValueLists(f.kind, Prop(m1, f.name), Distinct(Used(gen, n1)));
      UsedGrows(gen, n1, r.next);
      WeakenValue(f.kind, Prop(m1, f.name), Distinct(Used(gen, n1)), Distinct(Used(gen, r.next)));
      assert Prop(r.v, f.name) == Prop(m1, f.name);
      forall i | 0 <= i < |fs| ensures ValueLists(fs[i].kind, Prop(r.v, fs[i].name), Distinct(Used(gen, r.next))) {
        if i > 0 { assert fs[i] == fs[1..][i - 1]; }
      }
      forall k | k in m && (forall i | 0 <= i < |fs| :: fs[i].name != k) ensures r.v[k] == m[k] {
        assert forall i | 0 <= i < |fs[1..]| :: fs[1..][i].name != k;
      }
    }
  }

  lemma {:induction false} KeyValueGood(k: Kind, v: Tree, gen: KeyGen, n: nat)
    requires KindOk(k) && Injective(gen) && ValueLists(k, v, Supplied(Used(gen, n)))
    ensures var r := KeyValue(k, v, gen, n); r.Keyed? && ValueLists(k, r.v, Distinct(Used(gen, r.next)))
    decreases k, 1, 0
  {
    if k.Group? && v.Obj? {
      KeyRecordGood(k.sub, v.fields, gen, n);
    } else if k.RowList() && v.Arr? {
      KeyRowsGood(k, v.items, gen, n);
    }
  }

  /** A row's final key: its own, or one generated at an index in `[lo, hi)`. */
  ghost predicate KeyFrom(out: Tree, row: Tree, gen: KeyGen, lo: nat, hi: nat) {
    HasKey(out) && (if HasKey(row) then KeyOf(out) == KeyOf(row)
                    else exists c | lo <= c < hi :: KeyOf(out) == Leaf(Str(gen(c))))
  }

  lemma {:induction false} KeyRowsGood(k: Kind, rows: seq<Tree>, gen: KeyGen, n: nat)
    requires k.RowList() && KindOk(k) && Injective(gen) && ListOk(rows, Supplied(Used(gen, n)))
    requires forall i | 0 <= i < |rows| :: RowLists(k, rows[i], Supplied(Used(gen, n)))
    ensures var r := KeyRows(k, rows, gen, n);
      && r.Keyed? && |r.v| == |rows|
      && ListOk(r.v, Distinct(Used(gen, r.next)))
      && (forall i | 0 <= i < |rows| :: RowLists(k, r.v[i], Distinct(Used(gen, r.next))))
      && (forall i | 0 <= i < |rows| :: KeyFrom(r.v[i], rows[i], gen, n, r.next))
    decreases k, 0, |rows|
  {
    if rows != [] {
      var row, tail := rows[0], rows[1..];
      KeyRowGood(k, row, gen, n);
      var first := KeyRow(k, row, gen, n);
      UsedGrows(gen, n, first.next);
      TailSupplied(k, rows, Used(gen, n), Used(gen, first.next));
      KeyRowsGood(k, tail, gen, first.next);
      var rest := KeyRows(k, tail, gen, first.next);
      var r := KeyRows(k, rows, gen, n);
      UsedGrows(gen, first.next, rest.next);
      WeakenRow(k, Obj(first.v), Distinct(Used(gen, first.next)), Distinct(Used(gen, rest.next)));
      assert r.v == [Obj(first.v)] + rest.v && r.v[1..] == rest.v;
      HeadKeyDiffers(rows, r.v, gen, n, first.next, rest.next);
      ConsListOk(Obj(first.v), rest.v, Used(gen, rest.next));
    }
  }

  lemma TailSupplied(k: Kind, rows: seq<Tree>, keys: iset<string>, more: iset<string>)
    requires k.RowList() && rows != [] && keys <= more && ListOk(rows, Supplied(keys))
    requires forall i | 0 <= i < |rows| :: RowLists(k, rows[i], Supplied(keys))
    ensures ListOk(rows[1..], Supplied(more)) && forall i | 0 <= i < |rows[1..]| :: RowLists(k, rows[1..][i], Supplied(more))
  {
    forall i | 0 <= i < |rows[1..]| ensures RowLists(k, rows[1..][i], Supplied(more)) {
      WeakenRow(k, rows[i + 1], Supplied(keys), Supplied(more));
    }
  }

  lemma ConsListOk(head: Tree, tail: seq<Tree>, keys: iset<string>)
    requires ListOk(tail, Distinct(keys)) && HasKey(head) && GoodKey(head, keys)
    requires forall j | 0 < j < |tail| + 1 :: KeyOf(head) != KeyOf(([head] + tail)[j])
    ensures ListOk([head] + tail, Distinct(keys))
  {
    var out := [head] + tail;
    assert forall i | 0 < i < |out| :: out[i] == tail[i - 1];
  }

  lemma HeadKeyDiffers(rows: seq<Tree>, outs: seq<Tree>, gen: KeyGen, n: nat, mid: nat, next: nat)
    requires 0 < |rows| == |outs| && n < mid <= next && Injective(gen) && ListOk(rows, Supplied(Used(gen, n)))
    requires KeyFrom(outs[0], rows[0], gen, n, n + 1)
    requires forall i | 0 <= i < |rows| - 1 :: KeyFrom(outs[1..][i], rows[1..][i], gen, mid, next)
    ensures forall j | 0 < j < |rows| :: KeyOf(outs[0]) != KeyOf(outs[j])
    ensures forall i | 0 <= i < |rows| :: KeyFrom(outs[i], rows[i], gen, n, next) && GoodKey(outs[i], Used(gen, next))
  {
    UsedGrows(gen, n, next);
    forall j | 0 < j < |rows|
      ensures KeyOf(outs[0]) != KeyOf(outs[j]) && KeyFrom(outs[j], rows[j], gen, n, next) && GoodKey(outs[j], Used(gen, next))
    {
      assert outs[j] == outs[1..][j - 1] && rows[j] == rows[1..][j - 1];
      assert KeyFrom(outs[j], rows[j], gen, mid, next);
    }
  }

  lemma {:induction false} KeyRowGood(k: Kind, row: Tree, gen: KeyGen, n: nat)
    requires k.RowList() && KindOk(k) && Injective(gen) && RowLists(k, row, Supplied(Used(gen, n)))
    requires HasKey(row) ==> GoodKey(row, Used(gen, n))
    ensures var r := KeyRow(k, row, gen, n);
      && r.Keyed? && KeyFrom(Obj(r.v), row, gen, n, n + 1) && RowLists(k, Obj(r.v), Distinct(Used(gen, r.next)))
    decreases k, 0, 0
  {
    var o := row.fields;
    var fields := RowFields(k, o);
    var r := KeyRow(k, row, gen, n);
    var key := Leaf(Str(gen(n)));
    assert KeyOf(Obj(map[KEY := key])) == key;
    if fields.Some? {
      UsedGrows(gen, n, n + 1);
      Weaken(fields.value, o, Supplied(Used(gen, n)), Supplied(Used(gen, n + 1)));
      KeyRecordGood(fields.value, o, gen, n + 1);
      var inner := KeyRecord(fields.value, o, gen, n + 1);
      assert forall i | 0 <= i < |fields.value| :: fields.value[i].name != KEY && fields.value[i].name != TYPE;
      assert Prop(r.v, TYPE) == Prop(o, TYPE);
      assert forall i | 0 <= i < |fields.value| :: Prop(r.v, fields.value[i].name) == Prop(inner.v, fields.value[i].name);
    }
  }

  lemma {:induction false} KeyRecordFrame(fs: seq<Field>, m: map<string, Tree>, gen: KeyGen, n: nat)
    requires KeyRecord(fs, m, gen, n).Keyed?
    ensures KeyRecord(fs, m, gen, n).v.Keys == m.Keys
    ensures forall k | k in m && (forall i | 0 <= i < |fs| :: fs[i].name != k) :: KeyRecord(fs, m, gen, n).v[k] == m[k]
    decreases |fs|
  {
    if fs != [] {
      var f := fs[0];
      var m1, n1 := m, n;
      if f.name in m {
        var r := KeyValue(f.kind, m[f.name], gen, n);
        m1, n1 := m[f.name := r.v], r.next;
      }
      KeyRecordFrame(fs[1..], m1, gen, n1);
      forall k | k in m && (forall i | 0 <= i < |fs| :: fs[i].name != k) ensures KeyRecord(fs, m, gen, n).v[k] == m[k] {
        assert fs[0].name != k;
        assert forall i | 0 <= i < |fs[1..]| :: fs[1..][i].name != k;
      }
    }
  }

  // --- Stripping cancels keying, exactly on documents whose rows are records ------

  lemma RecordsSplit(fs: seq<Field>, m: map<string, Tree>)
    requires fs != []
    ensures AllLists(fs, m, Records) <==> ValueLists(fs[0].kind, Prop(m, fs[0].name), Records) && AllLists(fs[1..], m, Records)
  {
    assert forall i | 0 < i < |fs| :: fs[i] == fs[1..][i - 1];
  }

  lemma OtherFieldsSame(fs: seq<Field>, m: map<string, Tree>, name: string, v: Tree)
    requires forall i | 0 <= i < |fs| :: fs[i].name != name
    ensures AllLists(fs, m[name := v], Records) <==> AllLists(fs, m, Records)
  {
    assert forall i | 0 <= i < |fs| :: Prop(m[name := v], fs[i].name) == Prop(m, fs[i].name);
  }

  /** Replacing one property changes the stripped record exactly if it changes the
      stripped property. */
  lemma StripReplaced(m: map<string, Tree>, name: string, v: Tree, out: map<string, Tree>)
    requires name in m && name != KEY && name in out && out[name] == v
    ensures Strip(v) == Strip(m[name]) ==> StripMap(m[name := v]) == StripMap(m)
    ensures Strip(v) != Strip(m[name]) ==> StripMap(out) != StripMap(m)
  {
    if Strip(v) == Strip(m[name]) {
      assert StripMap(m[name := v]).Keys == StripMap(m).Keys;
    } else {
      assert StripMap(out)[name] == Strip(v) && StripMap(m)[name] == Strip(m[name]);
    }
  }

  lemma {:induction false} StripKeyRecord(fs: seq<Field>, m: map<string, Tree>, gen: KeyGen, n: nat)
    requires SchemaOk(fs)
    ensures var r := KeyRecord(fs, m, gen, n);
      r.Keyed? && StripMap(r.v) == StripMap(m) <==> AllLists(fs, m, Records)
    decreases fs, 0, 0
  {
    if fs != [] {
      var f := fs[0];
      RecordsSplit(fs, m);
      if f.name !in m {
        StripKeyRecord(fs[1..], m, gen, n);
      } else {
        StripKeyValue(f.kind, m[f.name], gen, n);
        var r := KeyValue(f.kind, m[f.name], gen, n);
        if r.Keyed? {
          var m1 := m[f.name := r.v];
          StripKeyRecord(fs[1..], m1, gen, r.next);
          OtherFieldsSame(fs[1..], m, f.name, r.v);
          var out := KeyRecord(fs[1..], m1, gen, r.next);
          if out.Keyed? {
            KeyRecordFrame(fs[1..], m1, gen, r.next);
            StripReplaced(m, f.name, r.v, out.v);
          }
        }
      }
    }
  }

  lemma {:induction false} StripKeyValue(k: Kind, v: Tree, gen: KeyGen, n: nat)
    requires KindOk(k)
    ensures var r := KeyValue(k, v, gen, n); r.Keyed? && Strip(r.v) == Strip(v) <==> ValueLists(k, v, Records)
    decreases k, 1, 0
  {
    if k.Group? && v.Obj? {
      StripKeyRecord(k.sub, v.fields, gen, n);
    } else if k.RowList() && v.Arr? {
      StripKeyRows(k, v.items, gen, n);
    }
  }

  lemma RowsSplit(k: Kind, rows: seq<Tree>)
    requires k.RowList() && rows != []
    ensures (forall i | 0 <= i < |rows| :: RowLists(k, rows[i], Records)) <==>
      RowLists(k, rows[0], Records) && forall i | 0 <= i < |rows[1..]| :: RowLists(k, rows[1..][i], Records)
  {
    assert forall i | 0 < i < |rows| :: rows[i] == rows[1..][i - 1];
  }

  lemma {:induction false} StripKeyRows(k: Kind, rows: seq<Tree>, gen: KeyGen, n: nat)
    requires k.RowList() && KindOk(k)
    ensures var r := KeyRows(k, rows, gen, n);
      && (r.Keyed? ==> |r.v| == |rows|)
      && (r.Keyed? && StripSeq(r.v) == StripSeq(rows) <==> forall i | 0 <= i < |rows| :: RowLists(k, rows[i], Records))
    decreases k, 0, |rows|
  {
    if rows != [] {
      StripKeyRow(k, rows[0], gen, n);
      var first := KeyRow(k, rows[0], gen, n);
      if first.Throws? { return; }
      StripKeyRows(k, rows[1..], gen, first.next);
      var rest := KeyRows(k, rows[1..], gen, first.next);
      RowsSplit(k, rows);
      if rest.Keyed? {
        StripSeqCons(Obj(first.v), rest.v);
        StripSeqCons(rows[0], rows[1..]);
        assert [rows[0]] + rows[1..] == rows;
      }
    }
  }

  lemma StripSeqCons(x: Tree, xs: seq<Tree>)
    ensures StripSeq([x] + xs) == [Strip(x)] + StripSeq(xs)
    ensures StripSeq([x] + xs)[0] == Strip(x) && StripSeq([x] + xs)[1..] == StripSeq(xs)
  {
    var out := StripSeq([x] + xs);
    StripSeqAt([x] + xs, 0);
    forall i | 0 <= i < |xs| ensures out[i + 1] == StripSeq(xs)[i] {
      StripSeqAt([x] + xs, i + 1);
      StripSeqAt(xs, i);
    }
  }

  lemma StripSeqAt(xs: seq<Tree>, i: nat)
    requires i < |xs|
    ensures |StripSeq(xs)| == |xs| && StripSeq(xs)[i] == Strip(xs[i])
  {
  }

  lemma StripIgnoresKey(m: map<string, Tree>, key: Tree)
    ensures StripMap(map[KEY := key] + m) == StripMap(m)
    ensures StripMap(m[KEY := key]) == StripMap(m)
  {
    assert StripMap(map[KEY := key] + m).Keys == StripMap(m).Keys;
    assert StripMap(m[KEY := key]).Keys == StripMap(m).Keys;
  }

  lemma {:induction false} StripKeyRow(k: Kind, row: Tree, gen: KeyGen, n: nat)
    requires k.RowList() && KindOk(k)
    ensures var r := KeyRow(k, row, gen, n); r.Keyed? && Strip(Obj(r.v)) == Strip(row) <==> RowLists(k, row, Records)
    decreases k, 0, 0
  {
    if row.Obj? {
      var o := row.fields;
      var fields := RowFields(k, o);
      var r := KeyRow(k, row, gen, n);
      if fields.Some? { StripKeyRecord(fields.value, o, gen, n + 1); }
      if r.Keyed? {
        StripIgnoresKey(if fields.Some? then KeyRecord(fields.value, o, gen, n + 1).v else o, Leaf(Str(gen(n))));
      }
    }
  }

  // --- Idempotence ----------------------------------------------------------------

  /** Keying leaves a document alone once every row carries some key. */
  lemma {:induction false} KeyRecordNoOp(fs: seq<Field>, m: map<string, Tree>, gen: KeyGen, n: nat)
    requires AllLists(fs, m, Present)
    ensures KeyRecord(fs, m, gen, n).Keyed? && KeyRecord(fs, m, gen, n).v == m
    decreases fs, 0, 0
  {
    if fs != [] {
      var f := fs[0];
      assert ValueLists(f.kind, Prop(m, f.name), Present);
      var n1 := n;
      if f.name in m {
        KeyValueNoOp(f.kind, m[f.name], gen, n);
        n1 := KeyValue(f.kind, m[f.name], gen, n).next;
        assert m[f.name := m[f.name]] == m;
      }
      KeyRecordNoOp(fs[1..], m, gen, n1);
    }
  }

  lemma {:induction false} KeyValueNoOp(k: Kind, v: Tree, gen: KeyGen, n: nat)
    requires ValueLists(k, v, Present)
    ensures KeyValue(k, v, gen, n).Keyed? && KeyValue(k, v, gen, n).v == v
    decreases k, 1, 0
  {
    if k.Group? && v.Obj? {
      KeyRecordNoOp(k.sub, v.fields, gen, n);
    } else if k.RowList() && v.Arr? {
      KeyRowsNoOp(k, v.items, gen, n);
    }
  }

  lemma {:induction false} KeyRowsNoOp(k: Kind, rows: seq<Tree>, gen: KeyGen, n: nat)
    requires k.RowList() && forall i | 0 <= i < |rows| :: HasKey(rows[i]) && RowLists(k, rows[i], Present)
    ensures KeyRows(k, rows, gen, n).Keyed? && KeyRows(k, rows, gen, n).v == rows
    decreases k, 0, |rows|
  {
    if rows != [] {
      KeyRowNoOp(k, rows[0], gen, n);
      KeyRowsNoOp(k, rows[1..], gen, KeyRow(k, rows[0], gen, n).next);
    }
  }

  lemma {:induction false} KeyRowNoOp(k: Kind, row: Tree, gen: KeyGen, n: nat)
    requires k.RowList() && HasKey(row) && RowLists(k, row, Present)
    ensures KeyRow(k, row, gen, n).Keyed? && Obj(KeyRow(k, row, gen, n).v) == row
    decreases k, 0, 0
  {
    var o := row.fields;
    var fields := RowFields(k, o);
    if fields.Some? { KeyRecordNoOp(fields.value, o, gen, n + 1); }
    assert map[KEY := Leaf(Str(gen(n)))] + o == o;
  }

  /** Keying gives every reached row a key, whatever the rows were before. */
  lemma {:induction false} KeyRecordPresent(fs: seq<Field>, m: map<string, Tree>, gen: KeyGen, n: nat)
    requires SchemaOk(fs) && KeyRecord(fs, m, gen, n).Keyed?
    ensures AllLists(fs, KeyRecord(fs, m, gen, n).v, Present)
    decreases fs, 0, 0
  {
    if fs != [] {
      var f := fs[0];
      var m1, n1 := m, n;
      if f.name in m {
        KeyValuePresent(f.kind, m[f.name], gen, n);
        var r := KeyValue(f.kind, m[f.name], gen, n);
        m1, n1 := m[f.name := r.v], r.next;
      }
      KeyRecordPresent(fs[1..], m1, gen, n1);
      KeyRecordFrame(fs[1..], m1, gen, n1);
      var out := KeyRecord(fs, m, gen, n).v;
      assert Prop(out, f.name) == Prop(m1, f.name);
      forall i | 0 <= i < |fs| ensures ValueLists(fs[i].kind, Prop(out, fs[i].name), Present) {
        if i > 0 { assert fs[i] == fs[1..][i - 1]; }
      }
    }
  }

  lemma {:induction false} KeyValuePresent(k: Kind, v: Tree, gen: KeyGen, n: nat)
    requires KindOk(k) && KeyValue(k, v, gen, n).Keyed?
    ensures ValueLists(k, KeyValue(k, v, gen, n).v, Present)
    decreases k, 1, 0
  {
    if k.Group? && v.Obj? {
      KeyRecordPresent(k.sub, v.fields, gen, n);
    } else if k.RowList() && v.Arr? {
      KeyRowsPresent(k, v.items, gen, n);
    }
  }

  lemma {:induction false} KeyRowsPresent(k: Kind, rows: seq<Tree>, gen: KeyGen, n: nat)
    requires k.RowList() && KindOk(k) && KeyRows(k, rows, gen, n).Keyed?
    ensures forall i | 0 <= i < |KeyRows(k, rows, gen, n).v| ::
      HasKey(KeyRows(k, rows, gen, n).v[i]) && RowLists(k, KeyRows(k, rows, gen, n).v[i], Present)
    decreases k, 0, |rows|
  {
    if rows != [] {
      var first := KeyRow(k, rows[0], gen, n);
      var o := Spread(rows[0]);
      var fields := RowFields(k, o);
      if fields.Some? {
        KeyRecordPresent(fields.value, o, gen, n + 1);
        KeyRecordFrame(fields.value, o, gen, n + 1);
        var inner := KeyRecord(fields.value, o, gen, n + 1).v;
        assert Prop(first.v, TYPE) == Prop(o, TYPE);
        assert forall i | 0 <= i < |fields.value| :: Prop(first.v, fields.value[i].name) == Prop(inner, fields.value[i].name);
      } else {
        assert Prop(first.v, TYPE) == Prop(o, TYPE);
      }
      assert RowLists(k, Obj(first.v), Present);
      KeyRowsPresent(k, rows[1..], gen, first.next);
    }
  }

  lemma WithRowKeysIdempotent(fs: seq<Field>, m: map<string, Tree>, gen: KeyGen, n: nat, gen': KeyGen, n': nat)
    requires SchemaOk(fs) && KeyRecord(fs, m, gen, n).Keyed?
    ensures KeyRecord(fs, KeyRecord(fs, m, gen, n).v, gen', n').Keyed?
    ensures KeyRecord(fs, KeyRecord(fs, m, gen, n).v, gen', n').v == KeyRecord(fs, m, gen, n).v
  {
    KeyRecordPresent(fs, m, gen, n);
    KeyRecordNoOp(fs, KeyRecord(fs, m, gen, n).v, gen', n');
  }

  /** A row's own `_key` survives; only rows without one get a generated key. */
  lemma KeysAreKept(k: Kind, rows: seq<Tree>, gen: KeyGen, n: nat, i: nat)
    requires k.RowList() && KindOk(k) && Injective(gen) && i < |rows|
    requires ValueLists(k, Arr(rows), Supplied(Used(gen, n)))
    ensures var r := KeyRows(k, rows, gen, n); r.Keyed? && |r.v| == |rows| && KeyFrom(r.v[i], rows[i], gen, n, r.next)
  {
    KeyRowsGood(k, rows, gen, n);
  }

  lemma {:induction false} StripIdempotent(v: Tree)
    ensures Strip(Strip(v)) == Strip(v)
    decreases v
  {
    match v
    case Leaf(_) =>
    case Arr(xs) => forall i | 0 <= i < |xs| ensures Strip(Strip(xs[i])) == Strip(xs[i]) { StripIdempotent(xs[i]); }
    case Obj(m) => forall k | k in m ensures Strip(Strip(m[k])) == Strip(m[k]) { StripIdempotent(m[k]); }
  }

  lemma {:induction false} DefIndexStrip(defs: seq<BlockDef>, slug: Tree)
    ensures DefIndex(defs, Strip(slug)) == DefIndex(defs, slug)
  {
    if defs != [] { DefIndexStrip(defs[1..], slug); }
  }

  /** Stripping a row does not change which fields it is edited with. */
  lemma RowFieldsStrip(k: Kind, row: map<string, Tree>)
    requires k.RowList()
    ensures RowFields(k, StripMap(row)) == RowFields(k, row)
  {
    assert Prop(StripMap(row), TYPE) == Strip(Prop(row, TYPE));
    if k.Blocks? { DefIndexStrip(k.defs, Prop(row, TYPE)); }
  }

  /** A keyed row holds what the row held when spread, under every name its fields do not
      list; and its own `_key`, or the generated one. */
  lemma KeyedRowKeeps(k: Kind, row: Tree, gen: KeyGen, n: nat, name: string)
    requires k.RowList() && KeyRow(k, row, gen, n).Keyed?
    ensures var (was, fields) := (Spread(row), RowFields(k, Spread(row)));
      var now := KeyRow(k, row, gen, n).v;
      && (name != KEY && (fields.Some? ==> forall i | 0 <= i < |fields.value| :: fields.value[i].name != name) ==>
            Prop(now, name) == Prop(was, name))
      && (KEY !in was ==> Prop(now, KEY) == Leaf(Str(gen(n))))
  {
    var fields := RowFields(k, Spread(row));
    if fields.Some? { KeyRecordFrame(fields.value, Spread(row), gen, n + 1); }
  }

  // --- When keying fails -------------------------------------------------------------------

  /** Some block list the schema reaches holds null or undefined for a row. */
  ghost predicate HasNullBlock(fs: seq<Field>, m: map<string, Tree>)
    decreases fs, 0
  {
    exists i | 0 <= i < |fs| :: NullBlockIn(fs[i].kind, Prop(m, fs[i].name))
  }

  ghost predicate NullBlockIn(k: Kind, v: Tree)
    decreases k, 1
  {
    || (k.Group? && v.Obj? && HasNullBlock(k.sub, v.fields))
    || (k.RowList() && v.Arr? && exists i | 0 <= i < |v.items| :: NullBlockAt(k, v.items[i]))
  }

  ghost predicate NullBlockAt(k: Kind, row: Tree)
    requires k.RowList()
    decreases k, 0
  {
    || (k.Blocks? && (row == UNDEF || row == NULL))
    || (RowFields(k, Spread(row)).Some? && HasNullBlock(RowFields(k, Spread(row)).value, Spread(row)))
  }

  lemma NullBlockSplit(fs: seq<Field>, m: map<string, Tree>, v: Tree)
    requires fs != [] && forall i | 0 < i < |fs| :: fs[i].name != fs[0].name
    ensures HasNullBlock(fs, m) <==> NullBlockIn(fs[0].kind, Prop(m, fs[0].name)) || HasNullBlock(fs[1..], m)
    ensures HasNullBlock(fs[1..], m[fs[0].name := v]) <==> HasNullBlock(fs[1..], m)
  {
    assert forall i | 0 < i < |fs| :: fs[i] == fs[1..][i - 1];
    assert forall i | 0 <= i < |fs[1..]| :: Prop(m[fs[0].name := v], fs[1..][i].name) == Prop(m, fs[1..][i].name);
  }

  /** Keying throws exactly when it meets a null block. */
  lemma {:induction false} KeyingThrowsIff(fs: seq<Field>, m: map<string, Tree>, gen: KeyGen, n: nat)
    requires SchemaOk(fs)
    ensures KeyRecord(fs, m, gen, n).Throws? <==> HasNullBlock(fs, m)
    decreases fs, 0, 0
  {
    if fs != [] {
      var f := fs[0];
      NullBlockSplit(fs, m, UNDEF);
      if f.name in m {
        ValueThrowsIff(f.kind, m[f.name], gen, n);
        var r := KeyValue(f.kind, m[f.name], gen, n);
        if r.Keyed? {
          NullBlockSplit(fs, m, r.v);
          KeyingThrowsIff(fs[1..], m[f.name := r.v], gen, r.next);
        }
      } else {
        KeyingThrowsIff(fs[1..], m, gen, n);
      }
    }
  }

  lemma {:induction false} ValueThrowsIff(k: Kind, v: Tree, gen: KeyGen, n: nat)
    requires KindOk(k)
    ensures KeyValue(k, v, gen, n).Throws? <==> NullBlockIn(k, v)
    decreases k, 1, 0
  {
    if k.Group? && v.Obj? {
      KeyingThrowsIff(k.sub, v.fields, gen, n);
    } else if k.RowList() && v.Arr? {
      RowsThrowIff(k, v.items, gen, n);
    }
  }

  lemma {:induction false} RowsThrowIff(k: Kind, rows: seq<Tree>, gen: KeyGen, n: nat)
    requires k.RowList() && KindOk(k)
    ensures KeyRows(k, rows, gen, n).Throws? <==> exists i | 0 <= i < |rows| :: NullBlockAt(k, rows[i])
    decreases k, 0, |rows|
  {
    if rows != [] {
      RowThrowsIff(k, rows[0], gen, n);
      var first := KeyRow(k, rows[0], gen, n);
      if first.Keyed? {
        RowsThrowIff(k, rows[1..], gen, first.next);
        assert forall i | 0 < i < |rows| :: rows[i] == rows[1..][i - 1];
      }
    }
  }

  lemma {:induction false} RowThrowsIff(k: Kind, row: Tree, gen: KeyGen, n: nat)
    requires k.RowList() && KindOk(k)
    ensures KeyRow(k, row, gen, n).Throws? <==> NullBlockAt(k, row)
    decreases k, 0, 0
  {
    var o := Spread(row);
    if RowFields(k, o).Some? && !(k.Blocks? && Nullish(row)) {
      KeyingThrowsIff(RowFields(k, o).value, o, gen, n + 1);
    }
  }

  // --- Documents without keys of their own -------------------------------------------

  /** A document that stripping leaves alone supplies no keys at all. */
  lemma {:induction false} KeyFreeSupplied(fs: seq<Field>, m: map<string, Tree>, keys: iset<string>)
    requires SchemaOk(fs) && AllLists(fs, m, Records) && StripMap(m) == m
    ensures AllLists(fs, m, Supplied(keys))
    decreases fs, 0
  {
    forall i | 0 <= i < |fs| ensures ValueLists(fs[i].kind, Prop(m, fs[i].name), Supplied(keys)) {
      assert Prop(StripMap(m), fs[i].name) == Strip(Prop(m, fs[i].name));
      KeyFreeValue(fs[i].kind, Prop(m, fs[i].name), keys);
    }
  }

  lemma {:induction false} KeyFreeValue(k: Kind, v: Tree, keys: iset<string>)
    requires KindOk(k) && ValueLists(k, v, Records) && Strip(v) == v
    ensures ValueLists(k, v, Supplied(keys))
    decreases k, 1
  {
    if k.Group? && v.Obj? {
      KeyFreeSupplied(k.sub, v.fields, keys);
    } else if k.RowList() && v.Arr? {
      forall i | 0 <= i < |v.items| ensures !HasKey(v.items[i]) && RowLists(k, v.items[i], Supplied(keys)) {
        StripSeqAt(v.items, i);
        KeyFreeRow(k, v.items[i], keys);
      }
    }
  }

  lemma {:induction false} KeyFreeRow(k: Kind, row: Tree, keys: iset<string>)
    requires k.RowList() && KindOk(k) && RowLists(k, row, Records) && Strip(row) == row
    ensures !HasKey(row) && RowLists(k, row, Supplied(keys))
    decreases k, 0
  {
    assert KEY !in StripMap(row.fields);
    var sub := RowFields(k, row.fields);
    if sub.Some? { KeyFreeSupplied(sub.value, row.fields, keys); }
  }
}
