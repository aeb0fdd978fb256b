/** Seeding a fresh kernel: the `@ref` interpreter, as `runSeed` has it and as the
    generated module inlines it. */
module Seeding {
  import opened Decimals
  import opened Literals
  import opened Forms
  import opened Scaffold

  const REF: Text := Units("_ref")
  const SLUG: Text := Units("slug")
  const GLOBALS: Text := Units("_globals")
  const AT: nat := 64

  datatype Call = Create(collection: Text, data: seq<Entry>) | UpdateGlobal(slug: Text, values: JVal)

  /** The id the kernel answers a create with, given all calls up to and including it. */
  type NewId = seq<Call> -> JVal

  type Refs = map<Text, JVal>

  /** What every plain object inherits. */
  const BUILTINS: seq<string> := [
    "constructor", "hasOwnProperty", "isPrototypeOf", "propertyIsEnumerable", "toLocaleString", "toString", "valueOf",
    "__proto__", "__defineGetter__", "__defineSetter__", "__lookupGetter__", "__lookupSetter__"]

  predicate Inherited(name: Text) { exists i | 0 <= i < |BUILTINS| :: name == Units(BUILTINS[i]) }

  /** A property read off a plain object that has no such property of its own. */
  function Unset(name: Text): JVal { if Inherited(name) then JBuiltin(name) else JUndefined }

  function Deref(v: JVal, refs: Refs): JVal {
    if v.JStr? && v.s != [] && v.s[0] == AT then (if v.s[1..] in refs then refs[v.s[1..]] else Unset(v.s[1..])) else v
  }

  function ResolveValue(v: JVal, refs: Refs): JVal {
    if v.JArr? then JArr(seq(|v.items|, i requires 0 <= i < |v.items| => Deref(v.items[i], refs))) else Deref(v, refs)
  }

  /** `resolveRow`: the row without its `_ref`, placeholders resolved. */
  function ResolveRow(row: seq<Entry>, refs: Refs): seq<Entry> {
    if row == [] then []
    else
      var rest := ResolveRow(row[1..], refs);
      if row[0].key == REF then rest else [Entry(row[0].key, ResolveValue(row[0].value, refs))] + rest
  }

  predicate Nil(v: JVal) { v.JUndefined? || v.JNull? }

  predicate Falsy(v: JVal) { Nil(v) || v == JBool(false) || v == JInt(0) || v == JStr([]) }

  /** A value as a property name: `String(v)`. */
  function NameOf(v: JVal): Text {
    match v
    case JStr(s) => s
    case JInt(i) => IntText(i)
    case JBool(b) => Units(if b then "true" else "false")
    case JNull => Units("null")
    case JUndefined => Units("undefined")
    case JArr(items) => Join(seq(|items|, i requires 0 <= i < |items| => if Nil(items[i]) then [] else NameOf(items[i])), [COMMA])
    case JObj(_) => Units("[object Object]")
    case JArrow => ARROW
    case JBuiltin(name) => name
  }

  /** The name a row registers, if its `_ref` is truthy. Assigning a primitive id to
      `__proto__` registers nothing. */
  function RefName(row: seq<Entry>): Option<Text> {
    match Lookup(row, REF)
    case Some(v) => if Falsy(v) || NameOf(v) == PROTO then None else Some(NameOf(v))
    case None => None
  }

  /** A row to be created, and the name it registers. */
  datatype Listed = Listed(slug: Text, row: seq<Entry>, name: Option<Text>)

  function Enlist(slug: Text, row: seq<Entry>): Listed { Listed(slug, row, RefName(row)) }

  function SlugOf(c: seq<Entry>): Text {
    match Lookup(c, SLUG)
    case Some(JStr(s)) => s
    case _ => []
  }

  function AsRecord(v: JVal): seq<Entry> { if v.JObj? then v.entries else [] }

  // --- Reading the seed ------------------------------------------------------------------------

  /** The two programs that read a seed: `runSeed` falls back with `||`, the code the
      generated module inlines with `??`. They differ in nothing else. */
  datatype Program = Script | Inlined

  /** The program uses the empty fallback instead of this value. */
  predicate FallsBack(p: Program, v: JVal) { if p.Script? then Falsy(v) else Nil(v) }

  /** Own properties in order; `Object.entries` of anything but null and undefined. */
  function OwnEntries(v: JVal): seq<Entry> {
    match v
    case JObj(es) => es
    case JArr(items) => seq(|items|, i requires 0 <= i < |items| => Entry(Units(Dec(i)), items[i]))
    case JStr(s) => seq(|s|, i requires 0 <= i < |s| => Entry(Units(Dec(i)), JStr([s[i]])))
    case _ => []
  }

  /** The code points a string iterates over. */
  function CodePoints(s: Text): seq<JVal> {
    if s == [] then []
    else if |s| > 1 && High(s[0]) && Low(s[1]) then [JStr(s[..2])] + CodePoints(s[2..])
    else [JStr(s[..1])] + CodePoints(s[1..])
  }

  /** What `for (... of v)` goes through; nothing else is iterable. */
  function Elements(v: JVal): Option<seq<JVal>> {
    match v
    case JArr(items) => Some(items)
    case JStr(s) => Some(CodePoints(s))
    case _ => None
  }

  function Entered(seed: seq<Entry>, slug: Text): JVal {
    if Lookup(seed, slug).Some? then Lookup(seed, slug).value else Unset(slug)
  }

  /** The rows a program creates, and whether it then stops with a TypeError. */
  datatype Plan = Plan(rows: seq<Listed>, throws: bool)

  /** Taking the entries of a row that is null or undefined throws. */
  function PlanRows(slug: Text, rows: seq<JVal>): Plan {
    if rows == [] then Plan([], false)
    else if Nil(rows[0]) then Plan([], true)
    else
      var rest := PlanRows(slug, rows[1..]);
      Plan([Enlist(slug, OwnEntries(rows[0]))] + rest.rows, rest.throws)
  }

  /** Iterating what is not iterable throws. */
  function PlanEntry(p: Program, slug: Text, v: JVal): Plan {
    if FallsBack(p, v) then Plan([], false)
    else match Elements(v)
      case Some(rows) => PlanRows(slug, rows)
      case None => Plan([], true)
  }

  function PlanFor(p: Program, slugs: seq<Text>, seed: seq<Entry>): Plan {
    if slugs == [] then Plan([], false)
    else
      var first := PlanEntry(p, slugs[0], Entered(seed, slugs[0]));
      if first.throws then first
      else
        var rest := PlanFor(p, slugs[1..], seed);
        Plan(first.rows + rest.rows, rest.throws)
  }

  datatype SeedState = SeedState(log: seq<Call>, refs: Refs)

  function SeedRow(l: Listed, newId: NewId, s: SeedState): SeedState {
    var log := s.log + [Create(l.slug, ResolveRow(l.row, s.refs))];
    SeedState(log, if l.name.Some? then s.refs[l.name.value := newId(log)] else s.refs)
  }

  /** The state after creating these rows, from a kernel with this call history. */
  function SeedRows(rows: seq<Listed>, newId: NewId, before: seq<Call>): SeedState {
    if rows == [] then SeedState(before, map[])
    else SeedRow(rows[|rows| - 1], newId, SeedRows(rows[..|rows| - 1], newId, before))
  }

  function GlobalsOf(p: Program, seed: seq<Entry>): seq<Entry> {
    match Lookup(seed, GLOBALS)
    case Some(v) => if FallsBack(p, v) then [] else OwnEntries(v)
    case None => []
  }

  function GlobalCalls(globals: seq<Entry>): seq<Call> {
    seq(|globals|, i requires 0 <= i < |globals| => UpdateGlobal(globals[i].key, globals[i].value))
  }

  /** The calls made, and whether the run ended with a TypeError. */
  datatype Outcome = Outcome(log: seq<Call>, threw: bool)

  /** Everything a program does to the kernel. */
  function SeedRun(p: Program, slugs: seq<Text>, seed: seq<Entry>, newId: NewId, before: seq<Call>): Outcome {
    var plan := PlanFor(p, slugs, seed);
    var log := SeedRows(plan.rows, newId, before).log;
    Outcome(if plan.throws then log else log + GlobalCalls(GlobalsOf(p, seed)), plan.throws)
  }

  // --- The loops ------------------------------------------------------------------------------

  class Kernel {
    const newId: NewId
    var log: seq<Call>

    constructor (newId: NewId)
      ensures this.newId == newId && log == []
    {
      this.newId, log := newId, [];
    }

    method CreateDoc(collection: Text, data: seq<Entry>) returns (id: JVal)
      modifies this
      ensures log == old(log) + [Create(collection, data)] && id == newId(log)
    {
      log := log + [Create(collection, data)];
      id := newId(log);
    }

    method SetGlobal(slug: Text, data: JVal)
      modifies this
      ensures log == old(log) + [UpdateGlobal(slug, data)]
    {
      log := log + [UpdateGlobal(slug, data)];
    }
  }

  method ResolveRowLoop(row: seq<Entry>, refs: Refs) returns (out: seq<Entry>)
    ensures out == ResolveRow(row, refs)
  {
    out := [];
    var i := 0;
    while i < |row|
      invariant 0 <= i <= |row|
      invariant out + ResolveRow(row[i..], refs) == ResolveRow(row, refs)
    {
      var e := row[i];
      assert row[i..][0] == e && row[i..][1..] == row[i + 1..];
      if e.key != REF {
        out := out + [Entry(e.key, ResolveValue(e.value, refs))];
      }
      i := i + 1;
    }
  }

  lemma SeedOneMore(prior: seq<Listed>, l: Listed, newId: NewId, before: seq<Call>)
    ensures SeedRows(prior + [l], newId, before) == SeedRow(l, newId, SeedRows(prior, newId, before))
  {
    assert (prior + [l])[..|prior|] == prior;
  }

  lemma PlanRowStep(slug: Text, rows: seq<JVal>, k: nat)
    requires k < |rows|
    ensures Nil(rows[k]) ==> PlanRows(slug, rows[k..]) == Plan([], true)
    ensures !Nil(rows[k]) ==>
      PlanRows(slug, rows[k..]).rows == [Enlist(slug, OwnEntries(rows[k]))] + PlanRows(slug, rows[k + 1..]).rows
      && PlanRows(slug, rows[k..]).throws == PlanRows(slug, rows[k + 1..]).throws
  {
    assert rows[k..][0] == rows[k] && rows[k..][1..] == rows[k + 1..];
  }

  lemma PlanStep(p: Program, slugs: seq<Text>, seed: seq<Entry>, i: nat)
    requires i < |slugs|
    ensures var first, all := PlanEntry(p, slugs[i], Entered(seed, slugs[i])), PlanFor(p, slugs[i..], seed);
      if first.throws then all == first
      else var rest := PlanFor(p, slugs[i + 1..], seed); all == Plan(first.rows + rest.rows, rest.throws)
  {
    assert slugs[i..][0] == slugs[i] && slugs[i..][1..] == slugs[i + 1..];
  }

  lemma Regroup(a: seq<Listed>, b: seq<Listed>, c: seq<Listed>)
    ensures a + (b + c) == (a + b) + c
  {
  }

  /** Collections in order, each with its rows in order, then the globals; the run
      ends early where a program throws. */
  method RunSeed(p: Program, kernel: Kernel, slugs: seq<Text>, seed: seq<Entry>) returns (refs: Refs, threw: bool)
    modifies kernel
    ensures Outcome(kernel.log, threw) == SeedRun(p, slugs, seed, kernel.newId, old(kernel.log))
    ensures refs == SeedRows(PlanFor(p, slugs, seed).rows, kernel.newId, old(kernel.log)).refs
  {
    refs, threw := map[], false;
    ghost var plan := PlanFor(p, slugs, seed);
    ghost var done: seq<Listed> := [];
    assert slugs[0..] == slugs;
    for i := 0 to |slugs|
      invariant SeedState(kernel.log, refs) == SeedRows(done, kernel.newId, old(kernel.log))
      invariant plan.rows == done + PlanFor(p, slugs[i..], seed).rows && plan.throws == PlanFor(p, slugs[i..], seed).throws
    {
      var v := Entered(seed, slugs[i]);
      PlanStep(p, slugs, seed, i);
      Regroup(done, PlanEntry(p, slugs[i], v).rows, PlanFor(p, slugs[i + 1..], seed).rows);
      refs, threw := SeedEntry(p, kernel, slugs[i], v, refs, done, old(kernel.log));
      done := done + PlanEntry(p, slugs[i], v).rows;
      if threw { return; }
    }
    assert plan.rows == done && !plan.throws;
    SetGlobals(kernel, GlobalsOf(p, seed));
  }

  /** One collection's entry, after `prior` rows of earlier ones. */
  method SeedEntry(p: Program, kernel: Kernel, slug: Text, v: JVal, known: Refs, ghost prior: seq<Listed>, ghost before: seq<Call>)
    returns (refs: Refs, threw: bool)
    requires SeedState(kernel.log, known) == SeedRows(prior, kernel.newId, before)
    modifies kernel
    ensures SeedState(kernel.log, refs) == SeedRows(prior + PlanEntry(p, slug, v).rows, kernel.newId, before)
    ensures threw == PlanEntry(p, slug, v).throws
  {
    assert prior + [] == prior;
    refs, threw := known, false;
    if FallsBack(p, v) { return; }
    match Elements(v)
    case Some(rows) => refs, threw := SeedCollection(kernel, slug, rows, known, prior, before);
    case None => threw := true;
  }

  /** The loop over one collection's rows. */
  method SeedCollection(kernel: Kernel, slug: Text, rows: seq<JVal>, known: Refs, ghost prior: seq<Listed>, ghost before: seq<Call>)
    returns (refs: Refs, threw: bool)
    requires SeedState(kernel.log, known) == SeedRows(prior, kernel.newId, before)
    modifies kernel
    ensures SeedState(kernel.log, refs) == SeedRows(prior + PlanRows(slug, rows).rows, kernel.newId, before)
    ensures threw == PlanRows(slug, rows).throws
  {
    refs, threw := known, false;
    ghost var plan := PlanRows(slug, rows);
    ghost var done: seq<Listed> := [];
    assert prior + [] == prior && rows[0..] == rows;
    for k := 0 to |rows|
      invariant SeedState(kernel.log, refs) == SeedRows(prior + done, kernel.newId, before)
      invariant plan.rows == done + PlanRows(slug, rows[k..]).rows && plan.throws == PlanRows(slug, rows[k..]).throws
    {
      PlanRowStep(slug, rows, k);
      if Nil(rows[k]) {
        assert plan.rows == done;
        return refs, true;
      }
      refs := SeedOne(kernel, slug, OwnEntries(rows[k]), refs, prior + done, before);
      Regroup(done, [Enlist(slug, OwnEntries(rows[k]))], PlanRows(slug, rows[k + 1..]).rows);
      Regroup(prior, done, [Enlist(slug, OwnEntries(rows[k]))]);
      done := done + [Enlist(slug, OwnEntries(rows[k]))];
    }
    assert plan.rows == done;
  }

  /** One row: created with its placeholders resolved, its name registered. */
  method SeedOne(kernel: Kernel, slug: Text, row: seq<Entry>, known: Refs, ghost prior: seq<Listed>, ghost before: seq<Call>)
    returns (refs: Refs)
    requires SeedState(kernel.log, known) == SeedRows(prior, kernel.newId, before)
    modifies kernel
    ensures SeedState(kernel.log, refs) == SeedRows(prior + [Enlist(slug, row)], kernel.newId, before)
  {
    SeedOneMore(prior, Enlist(slug, row), kernel.newId, before);
    refs := known;
    var data := ResolveRowLoop(row, refs);
    var id := kernel.CreateDoc(slug, data);
    var name := RefName(row);
    if name.Some? { refs := refs[name.value := id]; }
  }

  method SetGlobals(kernel: Kernel, globals: seq<Entry>)
    modifies kernel
    ensures kernel.log == old(kernel.log) + GlobalCalls(globals)
  {
    for i := 0 to |globals|
      invariant kernel.log == old(kernel.log) + GlobalCalls(globals[..i])
    {
      assert GlobalCalls(globals[..i + 1]) == GlobalCalls(globals[..i]) + [UpdateGlobal(globals[i].key, globals[i].value)];
      kernel.SetGlobal(globals[i].key, globals[i].value);
    }
    assert globals[..|globals|] == globals;
  }

  // --- Seeding is well-founded -----------------------------------------------------------------

  /** The latest row before `i` that registered `name`. */
  function LastReg(rows: seq<Listed>, name: Text, i: nat): (r: Option<nat>)
    requires i <= |rows|
    ensures r.Some? ==> r.value < i && rows[r.value].name == Some(name)
    ensures forall j | (if r.Some? then r.value < j else 0 <= j) && j < i :: rows[j].name != Some(name)
  {
    if i == 0 then None
    else if rows[i - 1].name == Some(name) then Some(i - 1)
    else LastReg(rows, name, i - 1)
  }

  /** After `i` rows a name stands for the document its latest registration
      created, and for nothing if no row registered it. */
  ghost predicate RefIs(rows: seq<Listed>, i: nat, newId: NewId, log: seq<Call>, start: nat, refs: Refs, name: Text)
    requires i <= |rows| && start + i <= |log|
  {
    match LastReg(rows, name, i)
    case None => name !in refs
    case Some(j) => name in refs && refs[name] == newId(log[..start + j + 1])
  }

  ghost predicate RefsAre(rows: seq<Listed>, i: nat, newId: NewId, log: seq<Call>, start: nat, refs: Refs)
    requires i <= |rows| && start + i <= |log|
  {
    forall name :: RefIs(rows, i, newId, log, start, refs, name)
  }

  lemma {:induction false} SeedPrefix(rows: seq<Listed>, newId: NewId, before: seq<Call>, i: nat)
    requires i <= |rows|
    ensures var full := SeedRows(rows, newId, before);
      |full.log| == |before| + |rows| && full.log[..|before| + i] == SeedRows(rows[..i], newId, before).log
    decreases |rows|
  {
    if i < |rows| {
      SeedPrefix(rows[..|rows| - 1], newId, before, i);
      assert rows[..|rows| - 1][..i] == rows[..i];
    } else {
      assert rows[..i] == rows;
      if rows != [] { SeedPrefix(rows[..|rows| - 1], newId, before, |rows| - 1); }
    }
  }

  lemma {:induction false} LastRegPrefix(rows: seq<Listed>, more: seq<Listed>, name: Text, i: nat)
    requires i <= |rows| <= |more| && more[..|rows|] == rows
    ensures LastReg(more, name, i) == LastReg(rows, name, i)
  {
    if i > 0 {
      assert rows[i - 1] == more[..|rows|][i - 1];
      LastRegPrefix(rows, more, name, i - 1);
    }
  }

  /** What the map says about the first rows stays true of a longer log and list. */
  lemma RefsExtend(init: seq<Listed>, rows: seq<Listed>, newId: NewId, log: seq<Call>, more: seq<Call>, start: nat, refs: Refs)
    requires |init| <= |rows| && rows[..|init|] == init && start + |init| == |log| <= |more| && more[..|log|] == log
    requires RefsAre(init, |init|, newId, log, start, refs)
    ensures RefsAre(rows, |init|, newId, more, start, refs)
  {
    forall name ensures RefIs(rows, |init|, newId, more, start, refs, name) {
      assert RefIs(init, |init|, newId, log, start, refs, name);
      LastRegPrefix(init, rows, name, |init|);
      var r := LastReg(init, name, |init|);
      if r.Some? { assert log[..start + r.value + 1] == more[..start + r.value + 1]; }
    }
  }

  lemma RefsRegister(rows: seq<Listed>, n: nat, newId: NewId, log: seq<Call>, start: nat, refs: Refs)
    requires n < |rows| && start + n + 1 == |log| && RefsAre(rows, n, newId, log, start, refs)
    ensures var name := rows[n].name;
      RefsAre(rows, n + 1, newId, log, start, if name.Some? then refs[name.value := newId(log)] else refs)
  {
    assert log[..start + n + 1] == log;
    var here := rows[n].name;
    var next, n1 := if here.Some? then refs[here.value := newId(log)] else refs, n + 1;
    forall name ensures RefIs(rows, n1, newId, log, start, next, name) {
      assert RefIs(rows, n, newId, log, start, refs, name);
      LastRegStep(rows, name, n);
    }
  }

  lemma LastRegStep(rows: seq<Listed>, name: Text, n: nat)
    requires n < |rows|
    ensures LastReg(rows, name, n + 1) == if rows[n].name == Some(name) then Some(n) else LastReg(rows, name, n)
  {
  }

  lemma {:induction false} RefsTrackRegistrations(rows: seq<Listed>, newId: NewId, before: seq<Call>)
    ensures var s := SeedRows(rows, newId, before);
      |s.log| == |before| + |rows| && RefsAre(rows, |rows|, newId, s.log, |before|, s.refs)
  {
    SeedPrefix(rows, newId, before, |rows|);
    if rows != [] {
      var n := |rows| - 1;
      var init := rows[..n];
      RefsTrackRegistrations(init, newId, before);
      var s, t := SeedRows(init, newId, before), SeedRows(rows, newId, before);
      assert t.log[..|s.log|] == s.log;
      RefsExtend(init, rows, newId, s.log, t.log, |before|, s.refs);
      RefsRegister(rows, n, newId, t.log, |before|, s.refs);
    }
  }

  /** Each listed row is created exactly once and in order, with its placeholders
      resolved: the row at position `i` sees just the names registered by earlier
      rows, each as the id of a document created earlier; any other placeholder
      becomes `undefined`. */
  lemma CreatesInOrder(rows: seq<Listed>, newId: NewId, before: seq<Call>, i: nat)
    requires i < |rows|
    ensures var log := SeedRows(rows, newId, before).log;
      var refs := SeedRows(rows[..i], newId, before).refs;
      && |log| == |before| + |rows|
      && log[|before| + i] == Create(rows[i].slug, ResolveRow(rows[i].row, refs))
      && RefsAre(rows, i, newId, log, |before|, refs)
  {
    SeedPrefix(rows, newId, before, i);
    SeedPrefix(rows, newId, before, i + 1);
    RefsTrackRegistrations(rows[..i], newId, before);
    var log := SeedRows(rows, newId, before).log;
    var s := SeedRows(rows[..i], newId, before);
    assert rows[..i + 1][..i] == rows[..i];
    assert log[|before| + i] == log[..|before| + i + 1][|before| + i];
    RefsExtend(rows[..i], rows, newId, s.log, log, |before|, s.refs);
  }

  lemma {:induction false} LookupResolved(row: seq<Entry>, refs: Refs, key: Text)
    ensures Lookup(ResolveRow(row, refs), key)
         == if key == REF || Lookup(row, key).None? then None else Some(ResolveValue(Lookup(row, key).value, refs))
  {
    if row != [] { LookupResolved(row[1..], refs, key); }
  }

  /** A placeholder `@name` at any key of a row resolves to the id of the document the
      last earlier row with that name created; without one it becomes `undefined`, or
      what an empty object inherits under the name. */
  lemma PlaceholderResolves(rows: seq<Listed>, newId: NewId, before: seq<Call>, i: nat, key: Text, name: Text)
    requires i < |rows| && key != REF && Lookup(rows[i].row, key) == Some(JStr([AT] + name))
    ensures var log := SeedRows(rows, newId, before).log;
      && |log| == |before| + |rows| && log[|before| + i].Create?
      && Lookup(log[|before| + i].data, key)
           == match LastReg(rows, name, i)
              case Some(j) => Some(newId(log[..|before| + j + 1]))
              case None => Some(Unset(name))
  {
    CreatesInOrder(rows, newId, before, i);
    var refs := SeedRows(rows[..i], newId, before).refs;
    assert RefIs(rows, i, newId, SeedRows(rows, newId, before).log, |before|, refs, name);
    LookupResolved(rows[i].row, refs, key);
    assert ([AT] + name)[1..] == name;
  }

  /** The same inside a list of values; entries that are no placeholders stay. */
  lemma PlaceholderInListResolves(rows: seq<Listed>, newId: NewId, before: seq<Call>, i: nat, key: Text, items: seq<JVal>, k: nat, name: Text)
    requires i < |rows| && key != REF && Lookup(rows[i].row, key) == Some(JArr(items))
    requires k < |items| && items[k] == JStr([AT] + name)
    ensures var log := SeedRows(rows, newId, before).log;
      && |log| == |before| + |rows| && log[|before| + i].Create?
      && var v := Lookup(log[|before| + i].data, key);
         && v.Some? && v.value.JArr? && |v.value.items| == |items|
         && v.value.items[k] == (match LastReg(rows, name, i)
                                 case Some(j) => newId(log[..|before| + j + 1])
                                 case None => Unset(name))
         && forall h | 0 <= h < |items| && !items[h].JStr? :: v.value.items[h] == items[h]
  {
    CreatesInOrder(rows, newId, before, i);
    var refs := SeedRows(rows[..i], newId, before).refs;
    assert RefIs(rows, i, newId, SeedRows(rows, newId, before).log, |before|, refs, name);
    LookupResolved(rows[i].row, refs, key);
    assert ([AT] + name)[1..] == name;
  }

  /** Everything else about a created row, at any key: only `_ref` is dropped, no key is
      added, and a value that is neither a list nor a text starting with `@` stays. */
  lemma PlainValueKept(rows: seq<Listed>, newId: NewId, before: seq<Call>, i: nat, key: Text)
    requires i < |rows|
    ensures var log := SeedRows(rows, newId, before).log;
      && |log| == |before| + |rows| && log[|before| + i].Create? && log[|before| + i].collection == rows[i].slug
      && var now, was := Lookup(log[|before| + i].data, key), Lookup(rows[i].row, key);
         && (now.None? <==> key == Units("_ref") || was.None?)
         && (now.Some? && !was.value.JArr? && !(was.value.JStr? && was.value.s != [] && was.value.s[0] == '@' as nat) ==> now == was)
  {
    CreatesInOrder(rows, newId, before, i);
    LookupResolved(rows[i].row, SeedRows(rows[..i], newId, before).refs, key);
  }

  /** The same inside lists. */
  lemma PlainItemKept(rows: seq<Listed>, newId: NewId, before: seq<Call>, i: nat, key: Text, items: seq<JVal>, k: nat)
    requires i < |rows| && key != Units("_ref") && Lookup(rows[i].row, key) == Some(JArr(items)) && k < |items|
    requires !(items[k].JStr? && items[k].s != [] && items[k].s[0] == '@' as nat)
    ensures var log := SeedRows(rows, newId, before).log;
      && |log| == |before| + |rows| && log[|before| + i].Create?
      && var now := Lookup(log[|before| + i].data, key);
         now.Some? && now.value.JArr? && |now.value.items| == |items| && now.value.items[k] == items[k]
  {
    CreatesInOrder(rows, newId, before, i);
    LookupResolved(rows[i].row, SeedRows(rows[..i], newId, before).refs, key);
  }

  // --- What a seed lists ------------------------------------------------------------------------

  /** How the entry for one collection is read: nothing or an empty list of rows, a list
      row by row up to the first null, a text code point by code point, and a TypeError
      for what cannot be iterated. */
  lemma EntryReads(p: Program, slug: Text, v: JVal, rest: seq<JVal>)
    ensures v == JUndefined || v == JNull || v == JArr([]) ==> PlanEntry(p, slug, v) == Plan([], false)
    ensures v == JBool(true) || (v.JInt? && v.i != 0) || v.JObj? || v.JArrow? || v.JBuiltin? ==> PlanEntry(p, slug, v) == Plan([], true)
    ensures PlanEntry(p, slug, JArr([JNull] + rest)) == PlanEntry(p, slug, JArr([JUndefined] + rest)) == Plan([], true)
    ensures v.JStr? && v.s != [] ==> PlanEntry(p, slug, v) == PlanRows(slug, CodePoints(v.s))
  {
    assert PlanRows(slug, []) == Plan([], false);
  }

  /** The properties of a row that is a record, and of one that is a list or a text. */
  lemma EntriesOf(v: JVal, i: nat)
    ensures v.JObj? ==> OwnEntries(v) == v.entries
    ensures v.JArr? && i < |v.items| ==> |OwnEntries(v)| == |v.items| && OwnEntries(v)[i] == Entry(Units(Dec(i)), v.items[i])
    ensures v.JStr? && i < |v.s| ==> |OwnEntries(v)| == |v.s| && OwnEntries(v)[i] == Entry(Units(Dec(i)), JStr([v.s[i]]))
    ensures !v.JObj? && !v.JArr? && !v.JStr? ==> OwnEntries(v) == []
  {
  }

  /** The code points of a text make up the text, each a unit or a surrogate pair. */
  lemma {:induction false} CodePointsJoin(s: Text)
    ensures forall i | 0 <= i < |CodePoints(s)| :: IsCodePoint(CodePoints(s)[i])
    ensures Concat(CodePoints(s)) == s
    decreases |s|
  {
    if s != [] {
      var n := if |s| > 1 && High(s[0]) && Low(s[1]) then 2 else 1;
      CodePointsJoin(s[n..]);
      assert CodePoints(s)[1..] == CodePoints(s[n..]);
      assert s[..n] + s[n..] == s;
    }
  }

  predicate IsCodePoint(v: JVal) {
    v.JStr? && (|v.s| == 1 || (|v.s| == 2 && High(v.s[0]) && Low(v.s[1])))
  }

  function Concat(vs: seq<JVal>): Text {
    if vs == [] then [] else (if vs[0].JStr? then vs[0].s else []) + Concat(vs[1..])
  }

  /** Which name a row registers: the text of its `_ref`, unless that is missing, empty,
      zero or false; and `__proto__` never. */
  lemma NameRegistered(slug: Text, row: seq<Entry>, s: Text, i: int)
    ensures Lookup(row, Units("_ref")) == None ==> Enlist(slug, row).name == None
    ensures Lookup(row, Units("_ref")) == Some(JStr(s)) ==>
      Enlist(slug, row).name == if s == [] || s == Units("__proto__") then None else Some(s)
    ensures Lookup(row, Units("_ref")) == Some(JInt(i)) && i != 0 ==> Enlist(slug, row).name == Some(IntText(i))
    ensures Lookup(row, Units("_ref")) == Some(JBool(true)) ==> Enlist(slug, row).name == Some(Units("true"))
    ensures Lookup(row, Units("_ref")) == Some(JObj([])) ==> Enlist(slug, row).name == Some(Units("[object Object]"))
    ensures Lookup(row, Units("_ref")) in {Some(JNull), Some(JBool(false)), Some(JInt(0))} ==> Enlist(slug, row).name == None
  {
    if i != 0 && Lookup(row, Units("_ref")) == Some(JInt(i)) { IntIsNoProto(i); }
    assert |Units("true")| == 4 && |Units("[object Object]")| == 15 && |PROTO| == 9;
  }

  lemma IntIsNoProto(i: int)
    ensures IntText(i) != PROTO
  {
    DecCanonical(if i < 0 then -i else i);
    var d := Dec(if i < 0 then -i else i);
    assert IsDigit(d[0]) && Units(d)[0] == d[0] as nat;
    assert PROTO[0] == 95;
  }

  /** `constructor` and its like are inherited by every object, ordinary names are not. */
  lemma SomeNames()
    ensures Unset(Units("constructor")) == JBuiltin(Units("constructor")) && Unset(Units("author")) == JUndefined
    ensures Unset(Units("toString")) == JBuiltin(Units("toString")) && Unset(Units("valueOf")) == JBuiltin(Units("valueOf"))
  {
    assert BUILTINS[0] == "constructor" && BUILTINS[5] == "toString" && BUILTINS[6] == "valueOf";
    assert forall i | 0 <= i < |BUILTINS| :: |BUILTINS[i]| != 6;
    forall i | 0 <= i < |BUILTINS| ensures Units("author") != Units(BUILTINS[i]) { assert |Units(BUILTINS[i])| == |BUILTINS[i]|; }
  }

  // --- Everything listed is created -------------------------------------------------------------

  lemma {:induction false} PlanSplits(p: Program, slugs: seq<Text>, seed: seq<Entry>, c: nat)
    requires c <= |slugs| && !PlanFor(p, slugs[..c], seed).throws
    ensures PlanFor(p, slugs, seed).rows == PlanFor(p, slugs[..c], seed).rows + PlanFor(p, slugs[c..], seed).rows
  {
    if c > 0 {
      assert slugs[..c][0] == slugs[0] && slugs[..c][1..] == slugs[1..][..c - 1] && slugs[1..][c - 1..] == slugs[c..];
      PlanSplits(p, slugs[1..], seed, c - 1);
    }
  }

  /** A run that throws stops there: nothing of a later collection is created. */
  lemma {:induction false} PlanStops(p: Program, slugs: seq<Text>, seed: seq<Entry>, c: nat)
    requires c < |slugs| && !PlanFor(p, slugs[..c], seed).throws && PlanEntry(p, slugs[c], Entered(seed, slugs[c])).throws
    ensures PlanFor(p, slugs, seed)
         == Plan(PlanFor(p, slugs[..c], seed).rows + PlanEntry(p, slugs[c], Entered(seed, slugs[c])).rows, true)
  {
    if c == 0 {
      assert slugs[..0] == [];
      assert PlanFor(p, slugs[..0], seed).rows == [];
      var e := PlanEntry(p, slugs[0], Entered(seed, slugs[0]));
      assert [] + e.rows == e.rows && Plan(e.rows, true) == e;
    } else {
      assert slugs[..c][0] == slugs[0] && slugs[..c][1..] == slugs[1..][..c - 1];
      PlanStops(p, slugs[1..], seed, c - 1);
      Regroup(PlanEntry(p, slugs[0], Entered(seed, slugs[0])).rows, PlanFor(p, slugs[1..][..c - 1], seed).rows,
        PlanEntry(p, slugs[c], Entered(seed, slugs[c])).rows);
    }
  }

  lemma {:induction false} ListedRow(slug: Text, rows: seq<JVal>, k: nat)
    requires k < |rows| && forall i | 0 <= i <= k :: !Nil(rows[i])
    ensures k < |PlanRows(slug, rows).rows| && PlanRows(slug, rows).rows[k] == Enlist(slug, OwnEntries(rows[k]))
  {
    if k > 0 {
      assert forall i | 0 <= i <= k - 1 :: rows[1..][i] == rows[i + 1];
      ListedRow(slug, rows[1..], k - 1);
    }
  }

  /** The k-th row listed for the c-th collection, if no program has thrown before,
      comes right after the rows of the collections before it. */
  lemma PlannedAt(p: Program, slugs: seq<Text>, seed: seq<Entry>, c: nat, items: seq<JVal>, k: nat)
    requires c < |slugs| && !PlanFor(p, slugs[..c], seed).throws && Lookup(seed, slugs[c]) == Some(JArr(items))
    requires k < |items| && forall i | 0 <= i <= k :: !Nil(items[i])
    ensures var rows, i := PlanFor(p, slugs, seed).rows, |PlanFor(p, slugs[..c], seed).rows| + k;
      && i < |rows| && rows[i] == Enlist(slugs[c], OwnEntries(items[k]))
      && rows[i].slug == slugs[c] && (items[k].JObj? ==> rows[i].row == items[k].entries)
  {
    PlanSplits(p, slugs, seed, c);
    PlanStep(p, slugs, seed, c);
    ListedRow(slugs[c], items, k);
    assert PlanFor(p, slugs[c..], seed).rows[k] == PlanRows(slugs[c], items).rows[k];
  }

  /** Each planned row is created by the call at its place, against the names registered
      by the rows before it. */
  lemma CreatedAt(p: Program, slugs: seq<Text>, seed: seq<Entry>, newId: NewId, before: seq<Call>, i: nat, slug: Text, row: seq<Entry>)
    requires i < |PlanFor(p, slugs, seed).rows| && PlanFor(p, slugs, seed).rows[i] == Enlist(slug, row)
    ensures var rows, log := PlanFor(p, slugs, seed).rows, SeedRun(p, slugs, seed, newId, before).log;
      && |before| + i < |log|
      && log[|before| + i] == Create(slug, ResolveRow(row, SeedRows(rows[..i], newId, before).refs))
  {
    CreatesInOrder(PlanFor(p, slugs, seed).rows, newId, before, i);
  }

  /** After the last row each global is updated once, in order, unless the run threw. */
  lemma GlobalsComeLast(p: Program, slugs: seq<Text>, seed: seq<Entry>, newId: NewId, before: seq<Call>)
    ensures var run, rows := SeedRun(p, slugs, seed, newId, before), PlanFor(p, slugs, seed).rows;
      && |before| + |rows| <= |run.log|
      && run.log[|before| + |rows|..] == if run.threw then [] else GlobalCalls(GlobalsOf(p, seed))
  {
    RefsTrackRegistrations(PlanFor(p, slugs, seed).rows, newId, before);
  }

  /** The globals listed under `_globals`: each is updated with its own values; and without
      an entry there, nothing is. */
  lemma GlobalsListed(p: Program, seed: seq<Entry>, es: seq<Entry>, g: nat)
    ensures Lookup(seed, Units("_globals")) == Some(JObj(es)) ==>
      |GlobalCalls(GlobalsOf(p, seed))| == |es|
      && (g < |es| ==> GlobalCalls(GlobalsOf(p, seed))[g] == UpdateGlobal(es[g].key, es[g].value))
    ensures Lookup(seed, Units("_globals")) in {None, Some(JNull), Some(JUndefined)} ==> GlobalCalls(GlobalsOf(p, seed)) == []
  {
  }

  // --- The two programs compared ----------------------------------------------------------------

  /** The entries `runSeed` skips and the inlined code trips over. */
  predicate Skipped(v: JVal) { v == JBool(false) || v == JInt(0) }

  /** `runSeed` throws before it has created a row. */
  predicate ThrowsAtOnce(slugs: seq<Text>, seed: seq<Entry>) {
    PlanFor(Script, slugs, seed) == Plan([], true)
  }

  /** The first entry that stops a program stops both: none before it is `false` or `0`,
      or `runSeed` throws right after such an entry too. */
  predicate Agree(slugs: seq<Text>, seed: seq<Entry>) {
    slugs != [] ==>
      var v := Entered(seed, slugs[0]);
      if Skipped(v) then ThrowsAtOnce(slugs[1..], seed)
      else PlanEntry(Script, slugs[0], v).throws || Agree(slugs[1..], seed)
  }

  lemma SkippedEntry(slug: Text, v: JVal)
    ensures Skipped(v) ==> PlanEntry(Script, slug, v) == Plan([], false) && PlanEntry(Inlined, slug, v) == Plan([], true)
    ensures !Skipped(v) ==> PlanEntry(Script, slug, v) == PlanEntry(Inlined, slug, v)
  {
  }

  lemma {:induction false} PlansAgreeIff(slugs: seq<Text>, seed: seq<Entry>)
    ensures var a, b := PlanFor(Script, slugs, seed), PlanFor(Inlined, slugs, seed);
      && (a == b <==> Agree(slugs, seed))
      && (a != b ==> b.throws && b.rows <= a.rows)
  {
    if slugs != [] {
      var v := Entered(seed, slugs[0]);
      SkippedEntry(slugs[0], v);
      PlansAgreeIff(slugs[1..], seed);
      var first := PlanEntry(Script, slugs[0], v);
      if !Skipped(v) && !first.throws {
        SamePrefix(first.rows, PlanFor(Script, slugs[1..], seed).rows, PlanFor(Inlined, slugs[1..], seed).rows);
      }
    }
  }

  lemma SamePrefix(a: seq<Listed>, b: seq<Listed>, c: seq<Listed>)
    ensures a + b == a + c <==> b == c
    ensures c <= b ==> a + c <= a + b
  {
    assert (a + b)[|a|..] == b && (a + c)[|a|..] == c;
  }

  lemma SameGlobals(seed: seq<Entry>)
    ensures GlobalsOf(Script, seed) == GlobalsOf(Inlined, seed)
  {
  }

  /** The two programs do the same to every kernel exactly when they agree on every
      entry up to the first that stops one of them. */
  lemma ProgramsAgreeIff(slugs: seq<Text>, seed: seq<Entry>, newId: NewId, before: seq<Call>)
    ensures SeedRun(Script, slugs, seed, newId, before) == SeedRun(Inlined, slugs, seed, newId, before) <==> Agree(slugs, seed)
  {
    PlansAgreeIff(slugs, seed);
    SameGlobals(seed);
    var a, b := PlanFor(Script, slugs, seed), PlanFor(Inlined, slugs, seed);
    RefsTrackRegistrations(a.rows, newId, before);
    RefsTrackRegistrations(b.rows, newId, before);
    if a != b && a.throws { assert |a.rows| != |b.rows|; }
  }

  /** Where `runSeed` finishes, the inlined code does the same exactly when the seed
      has neither `false` nor `0` for any collection. */
  lemma {:induction false} FinishedAgreeIff(slugs: seq<Text>, seed: seq<Entry>)
    requires !PlanFor(Script, slugs, seed).throws
    ensures Agree(slugs, seed) <==> forall c | 0 <= c < |slugs| :: !Skipped(Entered(seed, slugs[c]))
  {
    if slugs != [] {
      SkippedEntry(slugs[0], Entered(seed, slugs[0]));
      if !Skipped(Entered(seed, slugs[0])) {
        FinishedAgreeIff(slugs[1..], seed);
        assert forall c | 0 < c < |slugs| :: slugs[c] == slugs[1..][c - 1];
      }
    }
  }

  /** A seed that says `false` for a collection: `runSeed` skips it, the inlined code throws. */
  lemma FalseEntryThrows(slug: Text, newId: NewId, before: seq<Call>)
    ensures var seed := [Entry(slug, JBool(false))];
      && SeedRun(Script, [slug], seed, newId, before) == Outcome(before, false)
      && SeedRun(Inlined, [slug], seed, newId, before) == Outcome(before, true)
  {
    var seed := [Entry(slug, JBool(false))];
    assert Entered(seed, slug) == JBool(false) && [slug][1..] == [];
    assert PlanFor(Script, [slug][1..], seed) == Plan([], false);
    assert Lookup(seed[1..], GLOBALS) == None;
    assert GlobalsOf(Script, seed) == [];
    assert before + GlobalCalls([]) == before;
  }
}
