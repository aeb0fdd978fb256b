/** The keying and stripping loops themselves, filling an `out` record step by
    step, proved against the functions of RowKeys. */
module RowKeyLoops {
  import opened Forms
  import opened Schema
  import opened RowKeys

  /** The generator behind `genKey()`. */
  class KeySource {
    const gen: KeyGen
    var next: nat

    constructor (gen: KeyGen, next: nat)
      ensures this.gen == gen && this.next == next
    {
      this.gen, this.next := gen, next;
    }

    method GenKey() returns (k: string)
      modifies this
      ensures k == gen(old(next)) && next == old(next) + 1
    {
      k := gen(next);
      next := next + 1;
    }
  }

  /** `None` is the TypeError; then how far the generator got does not matter. */
  ghost predicate Agrees<T>(out: Option<T>, next: nat, spec: Keyed<T>) {
    match out
    case None => spec.Throws?
    case Some(v) => spec == Keyed(v, next)
  }

  method WithRowKeys(fields: seq<Field>, value: Tree, keys: KeySource) returns (out: Option<map<string, Tree>>)
    modifies keys
    ensures Agrees(out, keys.next, KeyRecord(fields, Spread(value), keys.gen, old(keys.next)))
    decreases fields, 0
  {
    var rec := Spread(value);
    ghost var spec := KeyRecord(fields, rec, keys.gen, keys.next);
    var i := 0;
    while i < |fields|
      invariant 0 <= i <= |fields|
      invariant spec == KeyRecord(fields[i..], rec, keys.gen, keys.next)
    {
      var f := fields[i];
      assert fields[i..][0] == f && fields[i..][1..] == fields[i + 1..];
      if f.name in rec {
        var v := rec[f.name];
        assert rec[f.name := v] == rec;
        if f.kind.Group? && v.Obj? {
          var sub := WithRowKeys(f.kind.sub, v, keys);
          if sub.None? { return None; }
          rec := rec[f.name := Obj(sub.value)];
        } else if f.kind.RowList() && v.Arr? {
          var rows := KeyEachRow(f.kind, v.items, keys);
          if rows.None? { return None; }
          rec := rec[f.name := Arr(rows.value)];
        }
      }
      i := i + 1;
    }
    return Some(rec);
  }

  function Prepend(done: seq<Tree>, rest: Keyed<seq<Tree>>): Keyed<seq<Tree>> {
    if rest.Throws? then Throws else Keyed(done + rest.v, rest.next)
  }

  lemma PrependMore(done: seq<Tree>, row: Tree, rest: Keyed<seq<Tree>>)
    ensures Prepend(done, Prepend([row], rest)) == Prepend(done + [row], rest)
  {
    if rest.Keyed? { assert done + ([row] + rest.v) == done + [row] + rest.v; }
  }

  method KeyEachRow(kind: Kind, rows: seq<Tree>, keys: KeySource) returns (out: Option<seq<Tree>>)
    requires kind.RowList()
    modifies keys
    ensures Agrees(out, keys.next, KeyRows(kind, rows, keys.gen, old(keys.next)))
    decreases kind, 1
  {
    var done: seq<Tree> := [];
    var i := 0;
    ghost var spec := KeyRows(kind, rows, keys.gen, keys.next);
    assert rows[0..] == rows && (spec.Keyed? ==> [] + spec.v == spec.v);
    while i < |rows|
      invariant 0 <= i <= |rows|
      invariant spec == Prepend(done, KeyRows(kind, rows[i..], keys.gen, keys.next))
    {
      var row := rows[i];
      assert rows[i..][0] == row && rows[i..][1..] == rows[i + 1..];
      if kind.Blocks? && Nullish(row) { return None; }
      var def := RowFields(kind, Spread(row));
      var key := keys.GenKey();
      var inner := Spread(row);
      if def.Some? {
        var keyed := WithRowKeys(def.value, row, keys);
        if keyed.None? { return None; }
        inner := keyed.value;
      }
      var out := Obj(map[KEY := Leaf(Str(key))] + inner);
      PrependMore(done, out, KeyRows(kind, rows[i + 1..], keys.gen, keys.next));
      done := done + [out];
      i := i + 1;
    }
    assert done + [] == done;
    return Some(done);
  }

  method StripRowKeys(value: Tree) returns (r: Tree)
    ensures r == Strip(value)
    decreases value
  {
    match value
    case Leaf(_) => return value;
    case Arr(xs) =>
      var done: seq<Tree> := [];
      for i := 0 to |xs|
        invariant |done| == i && forall j | 0 <= j < i :: done[j] == Strip(xs[j])
      {
        var x := StripRowKeys(xs[i]);
        done := done + [x];
      }
      return Arr(done);
    case Obj(m) =>
      var out: map<string, Tree> := map[];
      var todo := m.Keys;
      while todo != {}
        invariant todo <= m.Keys
        invariant out.Keys == m.Keys - todo - {KEY}
        invariant forall k | k in out :: out[k] == Strip(m[k])
        decreases todo
      {
        var k :| k in todo;
        todo := todo - {k};
        if k == KEY { continue; }
        var v := StripRowKeys(m[k]);
        out := out[k := v];
      }
      return Obj(out);
  }
}
