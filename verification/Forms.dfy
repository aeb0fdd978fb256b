/** The editor's form data: JavaScript values as finite trees, dot-paths into
    them, and the guarded leaf write the live preview performs. */
module Forms {
  import opened Decimals

  datatype Option<+T> = None | Some(value: T)

  datatype Prim = Undefined | Null | Bool(b: bool) | Num(n: real) | Str(s: string)

  datatype Tree =
    | Leaf(p: Prim)
    | Obj(fields: map<string, Tree>)
    | Arr(items: seq<Tree>)

  const UNDEF: Tree := Leaf(Undefined)
  const NULL: Tree := Leaf(Null)

  /** A record's property, or `undefined` when it is not an own property. */
  function Prop(m: map<string, Tree>, k: string): Tree { if k in m then m[k] else UNDEF }

  /** The array index a property name denotes, if it is a canonical numeral. */
  function Index(seg: string): Option<nat> {
    if Canonical(seg) then Some(Val(seg)) else None
  }

  predicate HasChild(t: Tree, seg: string) {
    match t
    case Leaf(_) => false
    case Obj(m) => seg in m
    case Arr(xs) => Index(seg).Some? && Index(seg).value < |xs|
  }

  /** `node[seg]` on own properties; a primitive has none. */
  function Child(t: Tree, seg: string): (c: Tree)
    ensures HasChild(t, seg) ==> c < t
  {
    if !HasChild(t, seg) then UNDEF
    else match t
      case Obj(m) => m[seg]
      case Arr(xs) => xs[Index(seg).value]
  }

  /** `copy[seg] = c` on a shallow copy whose own property `seg` exists. */
  function WithChild(t: Tree, seg: string, c: Tree): (r: Tree)
    requires HasChild(t, seg)
  {
    match t
    case Obj(m) => Obj(m[seg := c])
    case Arr(xs) => Arr(xs[Index(seg).value := c])
  }

  type Path = seq<string>

  /** What `getFormPath` reads: `undefined` for any missing hop. */
  function Get(t: Tree, path: Path): Tree
    decreases |path|
  {
    if path == [] then t else Get(Child(t, path[0]), path[1..])
  }

  predicate Resolves(t: Tree, path: Path) { Get(t, path) != UNDEF }

  /** The guard of `applyFormPatch` on path and target. */
  predicate Patchable(t: Tree, path: Path) {
    && path != []
    && (forall i | 0 <= i < |path| :: path[i] != "")
    && Get(t, path).Leaf?
    && Resolves(t, path)
  }

  predicate PatchValue(v: Prim) { v.Str? || v.Num? }

  /** The pure tree update: replace the node at an existing path. */
  function Put(t: Tree, path: Path, leaf: Tree): Tree
    requires Resolves(t, path)
  {
    if path == [] then leaf
    else
      GetUndef(path[1..]);
      WithChild(t, path[0], Put(Child(t, path[0]), path[1..], leaf))
  }

  /** `applyFormPatch` as a function on trees. */
  function Patch(t: Tree, path: Path, v: Prim): Tree {
    if PatchValue(v) && Patchable(t, path) then Put(t, path, Leaf(v)) else t
  }

  lemma {:induction false} GetUndef(path: Path)
    ensures Get(UNDEF, path) == UNDEF
  {
    if path != [] { GetUndef(path[1..]); }
  }

  lemma {:induction false} GetLeaf(p: Prim, path: Path)
    requires path != []
    ensures Get(Leaf(p), path) == UNDEF
  {
    GetUndef(path[1..]);
  }

  lemma IndexOfDec(n: nat)
    ensures Index(Dec(n)) == Some(n)
  {
    DecCanonical(n);
  }

  lemma DecOfIndex(seg: string)
    requires Index(seg).Some?
    ensures Dec(Index(seg).value) == seg
  {
    DecOfVal(seg);
  }

  lemma IndexInjective(a: string, b: string)
    requires Index(a).Some? && Index(a) == Index(b)
    ensures a == b
  {
    DecOfIndex(a);
    DecOfIndex(b);
  }

  lemma ChildOfWithChild(t: Tree, seg: string, c: Tree, other: string)
    requires HasChild(t, seg)
    ensures Child(WithChild(t, seg, c), other) == if other == seg then c else Child(t, other)
    ensures HasChild(WithChild(t, seg, c), other) <==> HasChild(t, other)
  {
    if t.Arr? && Index(other) == Index(seg) { IndexInjective(other, seg); }
  }

  // --- Lens laws --------------------------------------------------------------

  /** Reading any path after a write: a path inside the written leaf's own
      ancestors sees the updated subtree, every other path reads as before. */
  lemma {:induction false} GetPut(t: Tree, path: Path, leaf: Tree, q: Path)
    requires Resolves(t, path) && Get(t, path).Leaf? && leaf.Leaf? && leaf != UNDEF
    ensures q <= path ==> Get(Get(t, q), path[|q|..]) == Get(t, path)
    ensures Get(Put(t, path, leaf), q)
         == if q <= path then Put(Get(t, q), path[|q|..], leaf) else Get(t, q)
    decreases |path|
  {
    if path == [] {
      if q != [] { GetLeaf(t.p, q); GetLeaf(leaf.p, q); }
    } else if q == [] {
    } else {
      GetUndef(path[1..]);
      var c := Child(t, path[0]);
      ChildOfWithChild(t, path[0], Put(c, path[1..], leaf), q[0]);
      if q[0] == path[0] {
        GetPut(c, path[1..], leaf, q[1..]);
        assert q <= path <==> q[1..] <= path[1..];
        if q <= path { assert path[|q|..] == path[1..][|q[1..]|..]; }
      }
    }
  }

  /** The written value is read back. */
  lemma PatchReadsBack(t: Tree, path: Path, v: Prim)
    requires PatchValue(v) && Patchable(t, path)
    ensures Get(Patch(t, path, v), path) == Leaf(v)
  {
    GetPut(t, path, Leaf(v), path);
    assert path[|path|..] == [];
  }

  /** Every path that is not a prefix of the written one reads as before. */
  lemma PatchFrame(t: Tree, path: Path, v: Prim, q: Path)
    requires !(q <= path)
    ensures Get(Patch(t, path, v), q) == Get(t, q)
  {
    if PatchValue(v) && Patchable(t, path) { GetPut(t, path, Leaf(v), q); }
  }

  /** No write creates or removes a path, and none changes which paths are leaves. */
  lemma PatchKeepsShape(t: Tree, path: Path, v: Prim, q: Path)
    ensures Resolves(Patch(t, path, v), q) <==> Resolves(t, q)
    ensures Get(Patch(t, path, v), q).Leaf? <==> Get(t, q).Leaf?
    ensures Patchable(Patch(t, path, v), q) <==> Patchable(t, q)
  {
    if PatchValue(v) && Patchable(t, path) {
      GetPut(t, path, Leaf(v), q);
      if q <= path && q != path {
        var s := path[|q|..];
        assert s != [] && Get(Get(t, q), s) == Get(t, path);
        if Get(t, q).Leaf? { GetLeaf(Get(t, q).p, s); }
      } else if q == path {
        assert path[|q|..] == [];
      }
    }
  }

  /** Which patches take effect: a string or number, at a path without empty segments
      that leads to a leaf; every other patch changes nothing at all. */
  lemma PatchTakesIff(t: Tree, path: Path, v: Prim)
    ensures var takes := (v.Str? || v.Num?) && path != [] && "" !in path && Get(t, path).Leaf? && Get(t, path) != UNDEF;
      if takes then Get(Patch(t, path, v), path) == Leaf(v) else Patch(t, path, v) == t
  {
    assert "" !in path <==> forall i | 0 <= i < |path| :: path[i] != "";
    if PatchValue(v) && Patchable(t, path) { PatchReadsBack(t, path, v); }
  }

  lemma {:induction false} PutPut(t: Tree, path: Path, a: Tree, b: Tree)
    requires Resolves(t, path) && Get(t, path).Leaf? && a.Leaf? && a != UNDEF
    ensures Resolves(Put(t, path, a), path)
    ensures Put(Put(t, path, a), path, b) == Put(t, path, b)
  {
    if path != [] {
      GetUndef(path[1..]);
      var c := Child(t, path[0]);
      PutPut(c, path[1..], a, b);
      ChildOfWithChild(t, path[0], Put(c, path[1..], a), path[0]);
    }
  }

  /** A repeated write to one path is last-wins. */
  lemma PatchTwice(t: Tree, path: Path, v: Prim, w: Prim)
    requires PatchValue(w)
    ensures Patch(Patch(t, path, v), path, w) == Patch(t, path, w)
  {
    PatchKeepsShape(t, path, v, path);
    if PatchValue(v) && Patchable(t, path) { PutPut(t, path, Leaf(v), Leaf(w)); }
  }

  lemma {:induction false} PutPutCommute(t: Tree, p: Path, a: Tree, q: Path, b: Tree)
    requires p != q && a.Leaf? && b.Leaf? && a != UNDEF && b != UNDEF
    requires Resolves(t, p) && Get(t, p).Leaf? && Resolves(t, q) && Get(t, q).Leaf?
    ensures Resolves(Put(t, p, a), q) && Resolves(Put(t, q, b), p)
    ensures Put(Put(t, p, a), q, b) == Put(Put(t, q, b), p, a)
    decreases |p|
  {
    if p == [] {
      GetLeaf(t.p, q);
    } else if q == [] {
      GetLeaf(t.p, p);
    } else {
      GetUndef(p[1..]);
      GetUndef(q[1..]);
      var cp, cq := Child(t, p[0]), Child(t, q[0]);
      ChildOfWithChild(t, p[0], Put(cp, p[1..], a), q[0]);
      ChildOfWithChild(t, q[0], Put(cq, q[1..], b), p[0]);
      if p[0] == q[0] {
        PutPutCommute(cp, p[1..], a, q[1..], b);
        WithChildTwice(t, p[0], Put(cp, p[1..], a), Put(Put(cp, p[1..], a), q[1..], b));
        WithChildTwice(t, p[0], Put(cq, q[1..], b), Put(Put(cq, q[1..], b), p[1..], a));
      } else {
        WithChildrenCommute(t, p[0], Put(cp, p[1..], a), q[0], Put(cq, q[1..], b));
      }
    }
  }

  lemma WithChildTwice(t: Tree, seg: string, c: Tree, d: Tree)
    requires HasChild(t, seg)
    ensures HasChild(WithChild(t, seg, c), seg) && WithChild(WithChild(t, seg, c), seg, d) == WithChild(t, seg, d)
  {
  }

  lemma WithChildrenCommute(t: Tree, p: string, c: Tree, q: string, d: Tree)
    requires p != q && HasChild(t, p) && HasChild(t, q)
    ensures HasChild(WithChild(t, p, c), q) && HasChild(WithChild(t, q, d), p)
    ensures WithChild(WithChild(t, p, c), q, d) == WithChild(WithChild(t, q, d), p, c)
  {
    if t.Arr? && Index(p) == Index(q) { IndexInjective(p, q); }
  }

  /** Writes to two distinct paths commute, whether or not either is accepted. */
  lemma PatchesCommute(t: Tree, p: Path, v: Prim, q: Path, w: Prim)
    requires p != q
    ensures Patch(Patch(t, p, v), q, w) == Patch(Patch(t, q, w), p, v)
  {
    PatchKeepsShape(t, p, v, q);
    PatchKeepsShape(t, q, w, p);
    if PatchValue(v) && PatchValue(w) && Patchable(t, p) && Patchable(t, q) {
      PutPutCommute(t, p, Leaf(v), q, Leaf(w));
    }
  }
}
