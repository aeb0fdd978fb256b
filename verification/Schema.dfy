/** Field metadata as the admin app receives it, and the rows it describes. */
module Schema {
  import opened Forms

  datatype Field = Field(name: string, kind: Kind, hidden: bool, hasMany: bool, default: Tree)

  /** `Plain` stands for every type whose value the editor treats as a leaf. */
  datatype Kind =
    | Plain
    | Password
    | Relation
    | Group(sub: seq<Field>)
    | Array(sub: seq<Field>)
    | Blocks(defs: seq<BlockDef>)
  {
    predicate RowList() { Array? || Blocks? }
    predicate Leafy() { Plain? || Password? || Relation? }
  }

  datatype BlockDef = BlockDef(slug: string, fields: seq<Field>)

  const KEY := "_key"
  const TYPE := "blockType"

  /** What configuration validation enforces: names are unique per field list,
      and snake_case, so never `_key` and never `blockType`. */
  predicate SchemaOk(fs: seq<Field>) {
    && (forall i | 0 <= i < |fs| :: fs[i].name != KEY && fs[i].name != TYPE && KindOk(fs[i].kind))
    && (forall i, j | 0 <= i < j < |fs| :: fs[i].name != fs[j].name)
  }

  predicate KindOk(k: Kind) {
    match k
    case Group(sub) => SchemaOk(sub)
    case Array(sub) => SchemaOk(sub)
    case Blocks(defs) => forall i | 0 <= i < |defs| :: SchemaOk(defs[i].fields)
    case _ => true
  }

  /** Object spread `{...v}`: own enumerable properties of any value. */
  function Spread(v: Tree): map<string, Tree> {
    match v
    case Obj(m) => m
    case Arr(xs) => SpreadItems(xs)
    case Leaf(Str(s)) => SpreadItems(seq(|s|, i requires 0 <= i < |s| => Leaf(Str([s[i]]))))
    case Leaf(_) => map[]
  }

  function SpreadItems(xs: seq<Tree>): map<string, Tree> {
    map k | k in (set i | 0 <= i < |xs| :: Decimals.Dec(i)) :: Child(Arr(xs), k)
  }

  predicate Nullish(v: Tree) { v == UNDEF || v == NULL }

  /** Index of the first block definition with this slug, or `|defs|`. */
  function DefIndex(defs: seq<BlockDef>, slug: Tree): (i: nat)
    ensures i <= |defs|
    ensures i < |defs| ==> Leaf(Str(defs[i].slug)) == slug
    ensures forall j | 0 <= j < i :: Leaf(Str(defs[j].slug)) != slug
  {
    if defs == [] || Leaf(Str(defs[0].slug)) == slug then 0 else 1 + DefIndex(defs[1..], slug)
  }

  /** The fields a row of this list is edited with; none for an unknown block type. */
  function RowFields(k: Kind, row: map<string, Tree>): (r: Option<seq<Field>>)
    requires k.RowList()
    ensures r.Some? && KindOk(k) ==> SchemaOk(r.value)
    ensures r.Some? ==> (k decreases to r.value)
  {
    match k
    case Array(sub) => Some(sub)
    case Blocks(defs) =>
      var i := DefIndex(defs, Prop(row, TYPE));
      if i < |defs| then assert k decreases to defs[i]; Some(defs[i].fields) else None
  }

  /** An array's rows are edited with its own fields, a block with the fields of the
      first definition that has its `blockType` as slug, and with none if there is none. */
  lemma RowFieldsExact(k: Kind, row: map<string, Tree>, i: nat)
    ensures k.Array? ==> RowFields(k, row) == Some(k.sub)
    ensures k.Blocks? ==>
      var slug := Prop(row, "blockType");
      if forall j | 0 <= j < |k.defs| :: Leaf(Str(k.defs[j].slug)) != slug then RowFields(k, row) == None
      else i < |k.defs| && Leaf(Str(k.defs[i].slug)) == slug && (forall j | 0 <= j < i :: Leaf(Str(k.defs[j].slug)) != slug) ==>
        RowFields(k, row) == Some(k.defs[i].fields)
  {
  }

  lemma SpreadItemsAt(xs: seq<Tree>, i: nat)
    requires i < |xs|
    ensures Prop(SpreadItems(xs), Decimals.Dec(i)) == xs[i]
  {
    IndexOfDec(i);
    var k := Decimals.Dec(i);
    assert k in (set j | 0 <= j < |xs| :: Decimals.Dec(j));
    assert Child(Arr(xs), k) == xs[i];
  }

  /** Spreading a list or a string gives its entries under their indexes, and any other
      primitive gives nothing. */
  lemma SpreadExact(xs: seq<Tree>, s: string, i: nat)
    ensures i < |xs| ==> Prop(Spread(Arr(xs)), Decimals.Dec(i)) == xs[i]
    ensures i < |s| ==> Prop(Spread(Leaf(Str(s))), Decimals.Dec(i)) == Leaf(Str([s[i]]))
    ensures forall p: Prim | !p.Str? :: Spread(Leaf(p)) == map[]
  {
    if i < |xs| { SpreadItemsAt(xs, i); }
    if i < |s| { SpreadItemsAt(seq(|s|, j requires 0 <= j < |s| => Leaf(Str([s[j]]))), i); }
  }

  // --- Row list operations --------------------------------------------------------

  /** `arrayMove`: take the row out at `from`, put it back in at `to`. */
  function ArrayMove(rows: seq<Tree>, from: nat, to: nat): (r: seq<Tree>)
    requires from < |rows| && to < |rows|
    ensures |r| == |rows| && r[to] == rows[from]
  {
    var without := RemoveRow(rows, from);
    without[..to] + [rows[from]] + without[to..]
  }

  function RemoveRow(rows: seq<Tree>, i: nat): seq<Tree>
    requires i < |rows|
  {
    rows[..i] + rows[i + 1..]
  }

  function InsertAfter(rows: seq<Tree>, i: nat, row: Tree): seq<Tree>
    requires i < |rows|
  {
    rows[..i + 1] + [row] + rows[i + 1..]
  }

  /** A copy of row `i` under a new key, right after it. */
  function DuplicateRow(rows: seq<Tree>, i: nat, key: string): seq<Tree>
    requires i < |rows| && rows[i].Obj?
  {
    InsertAfter(rows, i, Obj(rows[i].fields[KEY := Leaf(Str(key))]))
  }
}
