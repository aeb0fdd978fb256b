/** The same form data as it lives in memory: records and arrays are mutable
    heap nodes, and nodes may be shared. */
module FormHeap {
  import opened Decimals
  import opened Forms
  import opened DotPath
  import opened Schema

  datatype Ref = Val(p: Prim) | To(node: Node)

  datatype Body = Record(fields: map<string, Ref>) | List(items: seq<Ref>)

  class Node {
    var body: Body

    constructor (body: Body)
      ensures this.body == body
    {
      this.body := body;
    }
  }

  /** `v` denotes the finite tree `t` through nodes of `heap` only. */
  ghost predicate Denotes(v: Ref, t: Tree, heap: set<Node>)
    reads heap
    decreases t
  {
    match v
    case Val(p) => t == Leaf(p)
    case To(n) =>
      n in heap &&
      match (n.body, t)
      case (Record(fs), Obj(m)) => fs.Keys == m.Keys && forall k | k in m :: Denotes(fs[k], m[k], heap)
      case (List(xs), Arr(ys)) => |xs| == |ys| && forall i | 0 <= i < |ys| :: Denotes(xs[i], ys[i], heap)
      case _ => false
  }

  predicate HasSlot(b: Body, seg: string) {
    match b
    case Record(fs) => seg in fs
    case List(xs) => Index(seg).Some? && Index(seg).value < |xs|
  }

  /** `node[seg]`. */
  function Slot(b: Body, seg: string): Ref {
    if !HasSlot(b, seg) then Val(Undefined)
    else match b
      case Record(fs) => fs[seg]
      case List(xs) => xs[Index(seg).value]
  }

  /** `node[seg] = v` where the slot exists. */
  function SetSlot(b: Body, seg: string, v: Ref): Body
    requires HasSlot(b, seg)
  {
    match b
    case Record(fs) => Record(fs[seg := v])
    case List(xs) => List(xs[Index(seg).value := v])
  }

  lemma {:induction false} DenotesMonotone(v: Ref, t: Tree, heap: set<Node>, more: set<Node>)
    requires Denotes(v, t, heap) && heap <= more
    ensures Denotes(v, t, more)
    decreases t
  {
    if v.To? {
      match t
      case Obj(m) =>
        forall k | k in m ensures Denotes(v.node.body.fields[k], m[k], more) {
          DenotesMonotone(v.node.body.fields[k], m[k], heap, more);
        }
      case Arr(ys) =>
        forall i | 0 <= i < |ys| ensures Denotes(v.node.body.items[i], ys[i], more) {
          DenotesMonotone(v.node.body.items[i], ys[i], heap, more);
        }
    }
  }

  lemma DenotesSlot(n: Node, t: Tree, heap: set<Node>, seg: string)
    requires Denotes(To(n), t, heap)
    ensures HasSlot(n.body, seg) <==> HasChild(t, seg)
    ensures Denotes(Slot(n.body, seg), Child(t, seg), heap)
  {
  }

  /** The reference found along a path. */
  ghost function At(v: Ref, path: Path, heap: set<Node>): Ref
    reads heap
    decreases |path|
  {
    if path == [] then v
    else if v.To? && v.node in heap then At(Slot(v.node.body, path[0]), path[1..], heap)
    else Val(Undefined)
  }

  method GetFormPath(form: Ref, segs: Path, ghost t: Tree, ghost heap: set<Node>) returns (r: Ref)
    requires Denotes(form, t, heap)
    ensures Denotes(r, Get(t, segs), heap)
  {
    var node := form;
    ghost var sub := t;
    var i := 0;
    while i < |segs|
      invariant 0 <= i <= |segs|
      invariant Denotes(node, sub, heap)
      invariant Get(sub, segs[i..]) == Get(t, segs)
    {
      if node.Val? {
        assert sub == Leaf(node.p);
        GetLeaf(node.p, segs[i..]);
        return Val(Undefined);
      }
      DenotesSlot(node.node, sub, heap, segs[i]);
      sub := Child(sub, segs[i]);
      assert segs[i..][1..] == segs[i + 1..];
      node := Slot(node.node.body, segs[i]);
      i := i + 1;
    }
    return node;
  }

  /** `orig` are the nodes met along `path`, each linked to the next. */
  ghost predicate Along(orig: seq<Node>, path: Path)
    reads orig
  {
    && |orig| == |path|
    && (forall j | 0 <= j < |path| :: HasSlot(orig[j].body, path[j]))
    && (forall j | 0 <= j < |path| - 1 :: Slot(orig[j].body, path[j]) == To(orig[j + 1]))
  }

  /** Node `copies[j]` is a copy of `orig[j]`, the j-th node along `path`, that
      differs from it only in slot `path[j]`: the next copy, or the new value. */
  ghost predicate SpineCopy(orig: seq<Node>, copies: seq<Node>, path: Path, v: Ref)
    reads orig, copies
  {
    && Along(orig, path)
    && |copies| == |path|
    && (forall j | 0 <= j < |path| - 1 :: copies[j].body == SetSlot(orig[j].body, path[j], To(copies[j + 1])))
    && (path != [] ==> copies[|path| - 1].body == SetSlot(orig[|path| - 1].body, path[|path| - 1], v))
  }

  lemma {:induction false} SpineDenotes(orig: seq<Node>, copies: seq<Node>, path: Path, v: Ref, x: Tree, t: Tree,
                                        heap: set<Node>, more: set<Node>)
    requires path != [] && SpineCopy(orig, copies, path, v) && Resolves(t, path) && Denotes(v, x, more)
    requires Denotes(To(orig[0]), t, heap) && heap <= more && forall c | c in copies :: c in more
    ensures Denotes(To(copies[0]), Put(t, path, x), more)
    decreases |path|
  {
    var seg := path[0];
    var c := Child(t, seg);
    GetUndef(path[1..]);
    DenotesSlot(orig[0], t, heap, seg);
    if |path| > 1 {
      SpineDenotes(orig[1..], copies[1..], path[1..], v, x, c, heap, more);
      assert copies[0].body == SetSlot(orig[0].body, seg, To(copies[1]));
    }
    DenotesMonotone(To(orig[0]), t, heap, more);
    SlotReplaced(orig[0], copies[0], seg, Slot(copies[0].body, seg), t, Put(c, path[1..], x), more);
  }

  lemma SlotReplaced(n: Node, copy: Node, seg: string, v: Ref, t: Tree, x: Tree, heap: set<Node>)
    requires Denotes(To(n), t, heap) && Denotes(v, x, heap) && copy in heap
    requires HasSlot(n.body, seg) && HasChild(t, seg) && copy.body == SetSlot(n.body, seg, v)
    ensures Denotes(To(copy), WithChild(t, seg, x), heap)
  {
  }

  /** The copied spine leads to the value that was written. */
  lemma {:induction false} SpineAt(orig: seq<Node>, copies: seq<Node>, path: Path, v: Ref, heap: set<Node>)
    requires path != [] && SpineCopy(orig, copies, path, v) && forall c | c in copies :: c in heap
    ensures At(To(copies[0]), path, heap) == v
    decreases |path|
  {
    if |path| > 1 {
      SpineAt(orig[1..], copies[1..], path[1..], v, heap);
      assert copies[0].body == SetSlot(orig[0].body, path[0], To(copies[1]));
    } else {
      assert path[1..] == [];
    }
  }

  /** Every path that is not a prefix of a leaf write's path leads to the very same
      reference as before. */
  lemma {:induction false} SpineShares(orig: seq<Node>, copies: seq<Node>, path: Path, p: Prim, q: Path, heap: set<Node>)
    requires path != [] && SpineCopy(orig, copies, path, Val(p)) && !(q <= path)
    requires Slot(orig[|path| - 1].body, path[|path| - 1]).Val?
    requires (forall n | n in orig :: n in heap) && forall c | c in copies :: c in heap
    ensures At(To(copies[0]), q, heap) == At(To(orig[0]), q, heap)
    decreases |path|
  {
    if q[0] != path[0] {
      OffSpineShared(orig, copies, path, Val(p), 0, q[0]);
    } else if |path| > 1 {
      SpineShares(orig[1..], copies[1..], path[1..], p, q[1..], heap);
      assert copies[0].body == SetSlot(orig[0].body, path[0], To(copies[1]));
      assert q <= path <==> q[1..] <= path[1..];
    } else {
      assert copies[0].body == SetSlot(orig[0].body, path[0], Val(p));
      assert q[1..] != [];
    }
  }

  lemma {:induction false} NodesAlong(form: Node, path: Path, t: Tree, heap: set<Node>) returns (orig: seq<Node>)
    requires path != [] && Denotes(To(form), t, heap) && Resolves(t, path)
    ensures Along(orig, path) && orig[0] == form && forall n | n in orig :: n in heap
    ensures Get(t, path).Leaf? ==> Slot(orig[|path| - 1].body, path[|path| - 1]).Val?
    decreases |path|
  {
    GetUndef(path[1..]);
    DenotesSlot(form, t, heap, path[0]);
    orig := [form];
    if |path| > 1 {
      var child := Slot(form.body, path[0]);
      if child.Val? { GetLeaf(child.p, path[1..]); }
      var rest := NodesAlong(child.node, path[1..], Child(t, path[0]), heap);
      orig := orig + rest;
    } else {
      assert Get(t, path) == Get(Child(t, path[0]), []);
    }
  }

  /** The cloning loop: one fresh copy per node along the path, each linked
      into the copy above it, the value written into the last one. */
  method CloneSpine(form: Node, segs: Path, value: Ref, ghost orig: seq<Node>)
    returns (root: Node, ghost copies: seq<Node>)
    requires segs != [] && Along(orig, segs) && orig[0] == form
    ensures SpineCopy(orig, copies, segs, value) && copies[0] == root
    ensures forall c | c in copies :: fresh(c)
    ensures forall i, j | 0 <= i < j < |copies| :: copies[i] != copies[j]
  {
    root := new Node(form.body);
    var node := root;
    copies := [root];
    var i := 0;
    while i < |segs| - 1
      invariant 0 <= i <= |segs| - 1 && |copies| == i + 1
      invariant copies[0] == root && copies[i] == node && node.body == orig[i].body
      invariant forall j | 0 <= j <= i :: fresh(copies[j])
      invariant forall j, k | 0 <= j < k <= i :: copies[j] != copies[k]
      invariant forall j | 0 <= j < i :: copies[j].body == SetSlot(orig[j].body, segs[j], To(copies[j + 1]))
    {
      var child := Slot(node.body, segs[i]);
      assert child == To(orig[i + 1]);
      if child.Val? {
        assert false;  // the guard already found a leaf at the end of the path
      }
      var copy := new Node(child.node.body);
      node.body := SetSlot(node.body, segs[i], To(copy));
      node := copy;
      copies := copies + [copy];
      i := i + 1;
    }
    node.body := SetSlot(node.body, segs[i], value);
  }

  /** The clone-the-spine write. No existing object changes (there is no
      `modifies` clause); exactly one fresh node per path segment is allocated;
      every reference off the spine is shared; the result denotes the pure update. */
  method ApplyFormPatch(form: Node, path: string, value: Prim, ghost t: Tree, ghost heap: set<Node>)
    returns (root: Node, ghost orig: seq<Node>, ghost copies: seq<Node>)
    requires Denotes(To(form), t, heap)
    ensures Denotes(To(root), Patch(t, Split(path), value), heap + set c | c in copies)
    ensures root == form <==> !(PatchValue(value) && Patchable(t, Split(path)))
    ensures root == form ==> copies == []
    ensures root != form ==>
      |copies| == |orig| == |Split(path)| && orig[0] == form && copies[0] == root && SpineCopy(orig, copies, Split(path), Val(value))
    ensures forall c | c in copies :: fresh(c)
    ensures forall i, j | 0 <= i < j < |copies| :: copies[i] != copies[j]
    ensures forall n | n in orig :: n in heap
    ensures var all := heap + set c | c in copies;
      forall q: Path | !(q <= Split(path)) :: At(To(root), q, all) == At(To(form), q, all)
  {
    root, orig, copies := form, [], [];
    assert heap + (set c | c in copies) == heap;
    if !value.Str? && !value.Num? { return; }
    var segs := Split(path);
    if exists i | 0 <= i < |segs| :: |segs[i]| == 0 { return; }
    var target := GetFormPath(To(form), segs, t, heap);
    if target == Val(Undefined) { return; }
    if target.To? { return; }
    orig := NodesAlong(form, segs, t, heap);
    root, copies := CloneSpine(form, segs, Val(value), orig);
    ghost var more := heap + set c | c in copies;
    assert forall c | c in copies :: c in more;
    SpineDenotes(orig, copies, segs, Val(value), Leaf(value), t, heap, more);
    assert root in copies && form in heap;
    forall q: Path | !(q <= segs) ensures At(To(root), q, more) == At(To(form), q, more) {
      SpineShares(orig, copies, segs, value, q, more);
    }
  }

  /** Any slot beside the spine holds the very same reference in copy and original. */
  lemma OffSpineShared(orig: seq<Node>, copies: seq<Node>, path: Path, v: Ref, j: nat, other: string)
    requires SpineCopy(orig, copies, path, v) && j < |path| && other != path[j]
    ensures Slot(copies[j].body, other) == Slot(orig[j].body, other)
  {
    if Index(other).Some? && Index(other) == Index(path[j]) { IndexInjective(other, path[j]); }
    var z := |path| - 1;
    assert j < z ==> copies[j].body == SetSlot(orig[j].body, path[j], To(copies[j + 1]));
    assert j == z ==> copies[j].body == SetSlot(orig[j].body, path[j], v);
  }

  /** The block editor's `duplicate`: a shallow row copy, so the twins share
      every nested node; the list it is spliced into is a copy too. */
  method Duplicate(rows: Node, i: nat, key: string, ghost t: Tree, ghost heap: set<Node>)
    returns (next: Node, copy: Node)
    requires Denotes(To(rows), t, heap) && t.Arr? && i < |t.items| && t.items[i].Obj?
    ensures fresh(next) && fresh(copy) && next != copy
    ensures next.body == List(rows.body.items[..i + 1] + [To(copy)] + rows.body.items[i + 1..])
    ensures rows.body.List? && |rows.body.items| == |t.items| && rows.body.items[i].To?
    ensures forall k | k != KEY :: Slot(copy.body, k) == Slot(rows.body.items[i].node.body, k)
    ensures Denotes(To(next), Arr(DuplicateRow(t.items, i, key)), heap + {next, copy})
  {
    var row := rows.body.items[i].node;
    assert Denotes(To(row), t.items[i], heap);
    copy := new Node(Record(row.body.fields[KEY := Val(Str(key))]));
    next := new Node(rows.body);
    next.body := List(next.body.items[..i + 1] + [To(copy)] + next.body.items[i + 1..]);
    ghost var more := heap + {next, copy};
    forall j | 0 <= j < |t.items| ensures Denotes(rows.body.items[j], t.items[j], more) {
      DenotesMonotone(rows.body.items[j], t.items[j], heap, more);
    }
    var m := t.items[i].fields;
    forall k | k in m ensures Denotes(row.body.fields[k], m[k], more) {
      DenotesMonotone(row.body.fields[k], m[k], heap, more);
    }
    assert Denotes(To(copy), Obj(m[KEY := Leaf(Str(key))]), more);
  }

  /** A new value handed up through the nested inputs, each copying its own record
      or list around it. */
  method HandUp(form: Node, path: Path, value: Node, ghost x: Tree, ghost t: Tree, ghost heap: set<Node>)
    returns (root: Node, ghost more: set<Node>)
    requires Denotes(To(form), t, heap) && Resolves(t, path) && Denotes(To(value), x, heap)
    ensures heap <= more && Denotes(To(root), Put(t, path, x), more) && At(To(root), path, more) == To(value)
  {
    root, more := value, heap;
    if |path| > 0 {
      ghost var orig := NodesAlong(form, path, t, heap);
      ghost var copies;
      root, copies := CloneSpine(form, path, To(value), orig);
      more := heap + set c | c in copies;
      assert forall c | c in copies :: c in more;
      DenotesMonotone(To(value), x, heap, more);
      SpineDenotes(orig, copies, path, To(value), x, t, heap, more);
      SpineAt(orig, copies, path, To(value), more);
    }
  }

  /** The block editor's `duplicate` in a list anywhere in the form. */
  method DuplicateIn(form: Node, list: Path, i: nat, key: string, ghost t: Tree, ghost heap: set<Node>)
    returns (root: Node, next: Node, copy: Node, original: Node, ghost more: set<Node>)
    requires Denotes(To(form), t, heap) && Get(t, list).Arr? && i < |Get(t, list).items| && Get(t, list).items[i].Obj?
    ensures var rows := DuplicateRow(Get(t, list).items, i, key);
      && Denotes(To(root), Put(t, list, Arr(rows)), more) && At(To(root), list, more) == To(next)
      && next in more && next.body.List? && |next.body.items| == |rows| && Denotes(To(next), Arr(rows), more)
    ensures next.body.items[i] == To(original) && next.body.items[i + 1] == To(copy)
    ensures forall k | k != KEY :: Slot(copy.body, k) == Slot(original.body, k)
  {
    var found := GetFormPath(To(form), list, t, heap);
    ghost var rows := DuplicateRow(Get(t, list).items, i, key);
    next, copy := Duplicate(found.node, i, key, Get(t, list), heap);
    original := found.node.body.items[i].node;
    more := heap + {next, copy};
    DenotesMonotone(To(form), t, heap, more);
    ghost var all;
    root, all := HandUp(form, list, next, Arr(rows), t, more);
    DenotesMonotone(To(next), Arr(rows), more, all);
    more := all;
  }

  lemma {:induction false} RowAt(v: Ref, list: Path, next: Node, j: nat, heap: set<Node>)
    requires At(v, list, heap) == To(next) && next in heap && next.body.List? && j < |next.body.items|
    ensures At(v, list + [Dec(j)], heap) == next.body.items[j]
    decreases |list|
  {
    if list == [] {
      IndexOfDec(j);
      assert list + [Dec(j)] == [Dec(j)] && [Dec(j)][1..] == [];
    } else {
      assert (list + [Dec(j)])[0] == list[0] && (list + [Dec(j)])[1..] == list[1..] + [Dec(j)];
      RowAt(Slot(v.node.body, list[0]), list[1..], next, j, heap);
    }
  }

  /** Editing one twin never reaches the other, nor any other row: after a duplicate,
      a patch of any path leaves every row it does not lead into the very same
      reference, denoting the same tree, even though both twins pointed at the same
      nested nodes when the patch began. */
  method PatchInsideTwin(form: Node, list: Path, i: nat, key: string, path: string, v: Prim, ghost t: Tree, ghost heap: set<Node>)
    returns (root: Node, next: Node, ghost more: set<Node>)
    requires Denotes(To(form), t, heap) && Get(t, list).Arr? && i < |Get(t, list).items| && Get(t, list).items[i].Obj?
    ensures var rows := DuplicateRow(Get(t, list).items, i, key);
      && next in more && next.body.List? && |next.body.items| == |rows|
      && Denotes(To(root), Patch(Put(t, list, Arr(rows)), Split(path), v), more)
      && forall j: nat | j < |rows| && !(list + [Dec(j)] <= Split(path)) ::
           At(To(root), list + [Dec(j)], more) == next.body.items[j] && Denotes(next.body.items[j], rows[j], more)
  {
    ghost var rows := DuplicateRow(Get(t, list).items, i, key);
    var dup, copy, original;
    dup, next, copy, original, more := DuplicateIn(form, list, i, key, t, heap);
    ghost var orig, copies;
    root, orig, copies := ApplyFormPatch(dup, path, v, Put(t, list, Arr(rows)), more);
    ghost var all := more + set c | c in copies;
    AtMonotone(To(dup), Put(t, list, Arr(rows)), list, more, all);
    DenotesMonotone(To(next), Arr(rows), more, all);
    forall j: nat | j < |rows| && !(list + [Dec(j)] <= Split(path))
      ensures At(To(root), list + [Dec(j)], all) == next.body.items[j]
    {
      RowAt(To(dup), list, next, j, all);
    }
    more := all;
  }

  lemma {:induction false} AtMonotone(v: Ref, t: Tree, path: Path, heap: set<Node>, more: set<Node>)
    requires Denotes(v, t, heap) && heap <= more
    ensures At(v, path, more) == At(v, path, heap)
    decreases |path|
  {
    if path != [] && v.To? {
      DenotesSlot(v.node, t, heap, path[0]);
      AtMonotone(Slot(v.node.body, path[0]), Child(t, path[0]), path[1..], heap, more);
    }
  }
}
