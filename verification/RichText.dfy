/** The rich-text field: a ProseMirror document behind a debounced, deduplicated
    emission to the parent, a flush on blur and teardown, and a value sync that
    takes over values which did not come from the field itself. */
module RichText {
  import opened Decimals
  import opened Forms
  import opened Whitespace

  /** The conversions the editor calls, left abstract. */
  datatype Pipeline<!D> = Pipeline(
    sanitize: Tree -> Tree,  // the `.doc` of sanitizeRichText, for the field's schema
    toKernel: D -> Tree,
    toPM: Tree -> D,
    ser: Tree -> string,     // JSON.stringify
    empty: Tree)
  {
    /** The document as it would be emitted now. */
    function Clean(d: D): Tree { sanitize(toKernel(d)) }

    /** What an incoming value amounts to. */
    function Meaning(value: Tree): Tree { sanitize(AsDoc(value, empty)) }

    ghost predicate Lawful() {
      && (forall k :: sanitize(sanitize(k)) == sanitize(k))
      && (forall k :: sanitize(toKernel(toPM(k))) == sanitize(k))
      && (forall k :: IsDoc(sanitize(k)))
    }
  }

  predicate IsDoc(value: Tree) { value.Obj? && Prop(value.fields, "type") == Leaf(Str("doc")) }

  /** `s.trim()` is non-empty. */
  predicate NotBlank(s: string) { exists i | 0 <= i < |s| :: !IsSpace(s[i]) }

  function Text(s: string): Tree {
    Obj(map["v" := Leaf(Num(1.0)), "type" := Leaf(Str("doc")), "children" := Arr([
      Obj(map["type" := Leaf(Str("paragraph")), "children" := Arr([
        Obj(map["type" := Leaf(Str("text")), "text" := Leaf(Str(s))])])])])])
  }

  /** `asDoc`: documents pass, non-blank strings become one paragraph, the rest is empty. */
  function AsDoc(value: Tree, empty: Tree): Tree {
    if IsDoc(value) then value
    else if value.Leaf? && value.p.Str? && NotBlank(value.p.s) then Text(value.p.s)
    else empty
  }

  /** Exactly the documents pass through unchanged, and every value becomes one. */
  lemma AsDocFixedIff(value: Tree, empty: Tree)
    requires IsDoc(empty)
    ensures IsDoc(AsDoc(value, empty))
    ensures value != empty ==> (AsDoc(value, empty) == value <==> IsDoc(value))
    ensures AsDoc(AsDoc(value, empty), empty) == AsDoc(value, empty)
  {
    assert |"type"| != |"children"| && |"type"| != |"v"|;
  }

  /** What a value is shown as: a non-blank string as one paragraph holding that very
      text, a blank string or anything else that is no document as the empty one. */
  lemma AsDocShows(value: Tree, s: string, empty: Tree)
    ensures (exists i | 0 <= i < |s| :: !IsSpace(s[i])) ==>
      var doc := AsDoc(Leaf(Str(s)), empty);
      && Get(doc, ["children", "0", "children", "0", "text"]) == Leaf(Str(s))
      && Get(doc, ["type"]) == Leaf(Str("doc")) && Get(doc, ["children", "0", "type"]) == Leaf(Str("paragraph"))
    ensures (forall i | 0 <= i < |s| :: IsSpace(s[i])) ==> AsDoc(Leaf(Str(s)), empty) == empty
    ensures !IsDoc(value) && !(value.Leaf? && value.p.Str?) ==> AsDoc(value, empty) == empty
  {
    if NotBlank(s) { TextReads(s); }
  }

  lemma TextReads(s: string)
    ensures Get(Text(s), ["children", "0", "children", "0", "text"]) == Leaf(Str(s))
    ensures Get(Text(s), ["type"]) == Leaf(Str("doc")) && Get(Text(s), ["children", "0", "type"]) == Leaf(Str("paragraph"))
  {
    assert Index("0") == Some(0) by { assert Dec(0) == "0"; IndexOfDec(0); }
    assert |"type"| == 4 && |"children"| == 8 && |"v"| == 1 && "text" != "type" by { assert "text"[1] != "type"[1]; }
    var run := Obj(map["type" := Leaf(Str("text")), "text" := Leaf(Str(s))]);
    var par := Obj(map["type" := Leaf(Str("paragraph")), "children" := Arr([run])]);
    var a := ["children", "0", "children", "0", "text"];
    var b := ["children", "0", "type"];
    assert a[1..] == ["0", "children", "0", "text"] && a[2..] == ["children", "0", "text"] && a[3..] == ["0", "text"];
    assert a[1..][1..] == a[2..] && a[2..][1..] == a[3..] && a[3..][1..] == ["text"] && ["text"][1..] == [];
    assert b[1..] == ["0", "type"] && b[1..][1..] == ["type"] && ["type"][1..] == [];
    assert Child(Text(s), "children") == Arr([par]) && Child(par, "children") == Arr([run]) && Child(run, "text") == Leaf(Str(s));
    assert Get(run, ["text"]) == Leaf(Str(s)) && Get(Arr([run]), a[3..]) == Get(run, ["text"]);
    assert Get(par, a[2..]) == Leaf(Str(s));
    assert Get(Arr([par]), a[1..]) == Get(par, a[2..]);
    assert Get(Arr([par]), b[1..]) == Get(par, ["type"]);
  }

  /** Legacy strings keep their text: two non-blank strings become the same document
      only if they are the same string. */
  lemma AsDocKeepsText(a: string, b: string, empty: Tree)
    requires NotBlank(a) && NotBlank(b) && AsDoc(Leaf(Str(a)), empty) == AsDoc(Leaf(Str(b)), empty)
    ensures a == b
  {
    var x, y := Text(a).fields["children"].items[0], Text(b).fields["children"].items[0];
    assert x == y;
    var u, v := x.fields["children"].items[0], y.fields["children"].items[0];
    assert u == v && u.fields["text"] == Leaf(Str(a)) && v.fields["text"] == Leaf(Str(b));
  }

  /** What crossed the boundary: a value taken over from the parent (including the
      one mounted with), or a document given to it through `onChange`. */
  datatype Exchange = Took(value: Tree) | Gave(doc: Tree)

  datatype Rte<D> = Rte(
    doc: D, lastEmitted: string,
    debounce: Option<nat>,  // the ref: may name a timer that has already fired
    live: set<nat>,         // timers still armed
    nextTimer: nat,
    value: Tree, sync: bool, // the rendered value, and whether its effect is queued
    log: seq<Exchange>, mounted: bool)

  datatype Event<D> =
    | Transaction(doc: D)   // a transaction that changes the document
    | Selection             // one that does not
    | Timer(id: nat)
    | Blur
    | Render(value: Tree)   // the parent renders another value
    | RunSync               // the `[value]` effect runs
    | Teardown

  function Mounted<D>(p: Pipeline<D>, value: Tree): Rte<D> {
    var doc := p.toPM(AsDoc(value, p.empty));
    Rte(doc, p.ser(p.Clean(doc)), None, {}, 0, value, true, [Took(value)], true)
  }

  function Emit<D>(p: Pipeline<D>, s: Rte<D>): Rte<D> {
    var doc := p.Clean(s.doc);
    if p.ser(doc) == s.lastEmitted then s
    else s.(lastEmitted := p.ser(doc), log := s.log + [Gave(doc)])
  }

  function Flush<D>(p: Pipeline<D>, s: Rte<D>): Rte<D> {
    if s.debounce.None? then s else Emit(p, s.(live := s.live - {s.debounce.value}, debounce := None))
  }

  function Disarm(live: set<nat>, debounce: Option<nat>): set<nat> {
    if debounce.Some? then live - {debounce.value} else live
  }

  function Step<D>(p: Pipeline<D>, s: Rte<D>, e: Event<D>): Rte<D> {
    if e.Timer? then
      if e.id in s.live then Emit(p, s.(live := s.live - {e.id})) else s
    else if !s.mounted then s
    else
      match e
        case Transaction(doc) =>
          s.(doc := doc, live := Disarm(s.live, s.debounce) + {s.nextTimer}, debounce := Some(s.nextTimer),
             nextTimer := s.nextTimer + 1)
        case Blur => Flush(p, s)
        case Render(value) => s.(value := value, sync := true)
        case RunSync =>
          var incoming := p.ser(p.Meaning(s.value));
          if !s.sync then s
          else if incoming == s.lastEmitted then s.(sync := false)
          else s.(sync := false, lastEmitted := incoming, doc := p.toPM(AsDoc(s.value, p.empty)), log := s.log + [Took(s.value)])
        case Teardown => Flush(p, s).(mounted := false, sync := false)
        case _ => s
  }

  function Run<D>(p: Pipeline<D>, s: Rte<D>, run: seq<Event<D>>): Rte<D>
    decreases |run|
  {
    if run == [] then s else Run(p, Step(p, s, run[0]), run[1..])
  }

  // --- What every event keeps -----------------------------------------------------------

  /** The sanitized document an exchange was about. */
  function Carried<D>(p: Pipeline<D>, x: Exchange): Tree {
    match x
    case Took(value) => p.Meaning(value)
    case Gave(doc) => doc
  }

  ghost predicate Inv<D>(p: Pipeline<D>, s: Rte<D>) {
    && (forall id | id in s.live :: s.debounce == Some(id) && s.mounted)
    && (s.live == {} ==> s.lastEmitted == p.ser(p.Clean(s.doc)))
    && s.log != [] && s.lastEmitted == p.ser(Carried(p, s.log[|s.log| - 1]))
    && (forall i | 0 <= i < |s.log| - 1 :: p.ser(Carried(p, s.log[i])) != p.ser(Carried(p, s.log[i + 1])))
  }

  lemma EmitSettles<D>(p: Pipeline<D>, s: Rte<D>)
    requires s.live == {} && s.log != [] && s.lastEmitted == p.ser(Carried(p, s.log[|s.log| - 1]))
    requires forall i | 0 <= i < |s.log| - 1 :: p.ser(Carried(p, s.log[i])) != p.ser(Carried(p, s.log[i + 1]))
    ensures Inv(p, Emit(p, s)) && Emit(p, s).lastEmitted == p.ser(p.Clean(s.doc)) && Emit(p, s).doc == s.doc
  {
  }

  lemma StepKeepsInv<D>(p: Pipeline<D>, s: Rte<D>, e: Event<D>)
    requires p.Lawful() && Inv(p, s)
    ensures Inv(p, Step(p, s, e))
  {
    match e
    case Timer(id) =>
      if id in s.live {
        assert s.live - {id} == {};
        EmitSettles(p, s.(live := s.live - {id}));
      }
    case Blur => FlushSettles(p, s);
    case Teardown => FlushSettles(p, s);
    case Transaction(doc) =>
      if s.mounted { assert Step(p, s, e).live == {s.nextTimer}; }
    case RunSync =>
    case _ =>
  }

  lemma FlushSettles<D>(p: Pipeline<D>, s: Rte<D>)
    requires Inv(p, s)
    ensures var t := Flush(p, s);
      Inv(p, t) && t.live == {} && t.doc == s.doc && t.lastEmitted == p.ser(p.Clean(s.doc))
  {
    if s.debounce.Some? {
      assert s.live - {s.debounce.value} == {};
      EmitSettles(p, s.(live := s.live - {s.debounce.value}, debounce := None));
    }
  }

  /** The component's refs and the editor view, event by event. */
  class RichTextEditor<D> {
    const p: Pipeline<D>
    var doc: D
    var lastEmitted: string
    var debounce: Option<nat>
    var live: set<nat>
    var nextTimer: nat
    var value: Tree
    var sync: bool
    var log: seq<Exchange>
    var mounted: bool

    constructor (p: Pipeline<D>, value: Tree)
      ensures Valid() && this.p == p && State() == Mounted(p, value)
    {
      this.p, this.value := p, value;
      var start := p.toPM(AsDoc(value, p.empty));
      doc, lastEmitted := start, p.ser(p.sanitize(p.toKernel(start)));
      debounce, live, nextTimer, sync, log, mounted := None, {}, 0, true, [Took(value)], true;
    }

    ghost function State(): Rte<D>
      reads this
    {
      Rte(doc, lastEmitted, debounce, live, nextTimer, value, sync, log, mounted)
    }

    ghost predicate Valid()
      reads this
    {
      p.Lawful() ==> Inv(p, State())
    }

    method EmitNow()
      modifies this`lastEmitted, this`log
      ensures State() == Emit(p, old(State()))
    {
      var out := p.sanitize(p.toKernel(doc));
      var serialized := p.ser(out);
      if serialized == lastEmitted { return; }
      lastEmitted := serialized;
      log := log + [Gave(out)];
    }

    method FlushNow()
      modifies this
      ensures State() == Flush(p, old(State()))
    {
      if debounce == None { return; }
      live := live - {debounce.value};
      debounce := None;
      EmitNow();
    }

    method OnTransaction(next: D, docChanged: bool)
      requires Valid() && mounted && (!docChanged ==> next == doc)
      modifies this
      ensures Valid() && State() == Step(p, old(State()), if docChanged then Transaction(next) else Selection)
    {
      if p.Lawful() { StepKeepsInv(p, State(), if docChanged then Transaction(next) else Selection); }
      doc := next;
      if docChanged {
        if debounce.Some? { live := live - {debounce.value}; }
        live := live + {nextTimer};
        debounce := Some(nextTimer);
        nextTimer := nextTimer + 1;
      }
    }

    method OnTimer(id: nat)
      requires Valid() && id in live
      modifies this
      ensures Valid() && State() == Step(p, old(State()), Timer(id))
    {
      if p.Lawful() { StepKeepsInv(p, State(), Timer(id)); }
      live := live - {id};
      EmitNow();
    }

    method OnBlur()
      requires Valid() && mounted
      modifies this
      ensures Valid() && State() == Step(p, old(State()), Blur)
    {
      if p.Lawful() { StepKeepsInv(p, State(), Blur); }
      FlushNow();
    }

    method OnRender(next: Tree)
      requires Valid() && mounted
      modifies this
      ensures Valid() && State() == Step(p, old(State()), Render(next))
    {
      if p.Lawful() { StepKeepsInv(p, State(), Render(next)); }
      value := next;
      sync := true;
    }

    method OnSync()
      requires Valid() && mounted && sync
      modifies this
      ensures Valid() && State() == Step(p, old(State()), RunSync)
    {
      if p.Lawful() { StepKeepsInv(p, State(), RunSync); }
      sync := false;
      var incoming := p.ser(p.sanitize(AsDoc(value, p.empty)));
      if incoming == lastEmitted { return; }
      lastEmitted := incoming;
      doc := p.toPM(AsDoc(value, p.empty));
      log := log + [Took(value)];
    }

    method OnTeardown()
      requires Valid() && mounted
      modifies this
      ensures Valid() && State() == Step(p, old(State()), Teardown)
    {
      if p.Lawful() { StepKeepsInv(p, State(), Teardown); }
      FlushNow();
      mounted := false;
      sync := false;
    }
  }

  // --- Every run ------------------------------------------------------------------------

  lemma {:induction false} RunKeepsInv<D>(p: Pipeline<D>, s: Rte<D>, run: seq<Event<D>>)
    requires p.Lawful() && Inv(p, s)
    ensures Inv(p, Run(p, s, run))
    decreases |run|
  {
    if run != [] {
      StepKeepsInv(p, s, run[0]);
      RunKeepsInv(p, Step(p, s, run[0]), run[1..]);
    }
  }

  lemma MountedInv<D>(p: Pipeline<D>, value: Tree)
    requires p.Lawful()
    ensures Inv(p, Mounted(p, value))
  {
  }

  /** At every moment either a debounce is armed or the last emission is the
      current document; the last thing exchanged with the parent is always what
      the guard remembers; and the value effect of the mount replaces nothing. */
  lemma PendingOrEmitted<D>(p: Pipeline<D>, value: Tree, run: seq<Event<D>>)
    requires p.Lawful()
    ensures var s := Run(p, Mounted(p, value), run);
      && (s.live != {} || s.lastEmitted == p.ser(p.Clean(s.doc)))
      && s.log != [] && s.lastEmitted == p.ser(Carried(p, s.log[|s.log| - 1]))
    ensures Step(p, Mounted(p, value), RunSync) == Mounted(p, value).(sync := false)
  {
    MountedInv(p, value);
    RunKeepsInv(p, Mounted(p, value), run);
  }

  /** No lost keystrokes: blur and teardown leave the document as it is, and the
      last value exchanged with the parent is that document. */
  lemma NothingLost<D>(p: Pipeline<D>, value: Tree, run: seq<Event<D>>, e: Event<D>)
    requires p.Lawful() && (e.Blur? || e.Teardown?)
    ensures var s := Run(p, Mounted(p, value), run);
      var t := Step(p, s, e);
      && t.doc == s.doc && t.live == {} && t.log != [] && t.mounted == (s.mounted && e.Blur?)
      && p.ser(Carried(p, t.log[|t.log| - 1])) == p.ser(p.Clean(s.doc))
  {
    MountedInv(p, value);
    RunKeepsInv(p, Mounted(p, value), run);
    FlushSettles(p, Run(p, Mounted(p, value), run));
  }

  /** After teardown nothing is emitted any more: no timer survives it. */
  lemma {:induction false} SilentAfterTeardown<D>(p: Pipeline<D>, s: Rte<D>, run: seq<Event<D>>)
    requires Inv(p, s) && !s.mounted
    ensures Run(p, s, run) == s
    decreases |run|
  {
    if run != [] {
      assert s.live == {};
      SilentAfterTeardown(p, s, run[1..]);
    }
  }

  /** Consecutive exchanges carry different documents; so two emissions with no
      value taken over in between always differ. */
  lemma ExchangesDiffer<D>(p: Pipeline<D>, value: Tree, run: seq<Event<D>>, i: nat)
    requires p.Lawful() && i + 1 < |Run(p, Mounted(p, value), run).log|
    ensures var log := Run(p, Mounted(p, value), run).log;
      && p.ser(Carried(p, log[i])) != p.ser(Carried(p, log[i + 1]))
      && (log[i].Gave? && log[i + 1].Gave? ==> p.ser(log[i].doc) != p.ser(log[i + 1].doc))
  {
    MountedInv(p, value);
    RunKeepsInv(p, Mounted(p, value), run);
  }

  // --- Emissions in a row -------------------------------------------------------------------

  /** Documents given are sanitized already. */
  ghost predicate GivenClean<D>(p: Pipeline<D>, log: seq<Exchange>) {
    forall i | 0 <= i < |log| && log[i].Gave? :: p.sanitize(log[i].doc) == log[i].doc && p.Meaning(log[i].doc) == log[i].doc
  }

  lemma StepGivesClean<D>(p: Pipeline<D>, s: Rte<D>, e: Event<D>)
    requires p.Lawful() && GivenClean(p, s.log)
    ensures GivenClean(p, Step(p, s, e).log)
  {
    CleanIsClean(p, s.doc);
  }

  lemma CleanIsClean<D>(p: Pipeline<D>, doc: D)
    requires p.Lawful()
    ensures var k := p.Clean(doc); p.sanitize(k) == k && p.Meaning(k) == k
  {
    assert IsDoc(p.sanitize(p.toKernel(doc)));
  }

  lemma {:induction false} RunGivesClean<D>(p: Pipeline<D>, s: Rte<D>, run: seq<Event<D>>)
    requires p.Lawful() && GivenClean(p, s.log)
    ensures GivenClean(p, Run(p, s, run).log)
    decreases |run|
  {
    if run != [] {
      StepGivesClean(p, s, run[0]);
      RunGivesClean(p, Step(p, s, run[0]), run[1..]);
    }
  }

  /** The document last given to the parent. */
  function LastGiven(log: seq<Exchange>): (r: Option<Tree>)
    ensures r.Some? ==> exists g | 0 <= g < |log| :: log[g] == Gave(r.value) && forall i | g < i < |log| :: log[i].Took?
    ensures r.None? ==> forall i | 0 <= i < |log| :: log[i].Took?
  {
    if log == [] then None
    else
      var last := log[|log| - 1];
      if last.Gave? then Some(last.doc)
      else
        var r := LastGiven(log[..|log| - 1]);
        assert forall i | 0 <= i < |log| - 1 :: log[..|log| - 1][i] == log[i];
        r
  }

  /** What typing `b` and leaving the field gives the parent. */
  function Typing<D>(p: Pipeline<D>, s: Rte<D>, b: D): seq<Exchange> { Run(p, s, [Transaction(b), Blur]).log }

  lemma TypingGives<D>(p: Pipeline<D>, s: Rte<D>, b: D)
    requires s.mounted
    ensures Typing(p, s, b) == if p.ser(p.Clean(b)) == s.lastEmitted then s.log else s.log + [Gave(p.Clean(b))]
  {
    RunOne(p, s, Transaction(b), [Blur]);
    RunOne(p, Step(p, s, Transaction(b)), Blur, []);
  }

  /** Typing `b` cannot repeat the emission of `d`. */
  ghost predicate NoRepeat<D>(p: Pipeline<D>, s: Rte<D>, b: D, d: Tree) {
    Typing(p, s, b) == s.log
    || exists x :: Typing(p, s, b) == s.log + [Gave(x)] && p.ser(x) != p.ser(d)
  }

  /** At every moment: whatever is typed next, the next emission differs from the last
      one, exactly when the value last exchanged, taken over or given, serializes like
      that emission. */
  lemma NextEmissionDiffersIff<D(!new)>(p: Pipeline<D>, value: Tree, run: seq<Event<D>>, d: Tree)
    requires p.Lawful() && Run(p, Mounted(p, value), run).mounted
    requires LastGiven(Run(p, Mounted(p, value), run).log) == Some(d)
    ensures var s := Run(p, Mounted(p, value), run);
      && s.log != []
      && ((forall b: D :: NoRepeat(p, s, b, d)) <==> p.ser(Carried(p, s.log[|s.log| - 1])) == p.ser(d))
  {
    Reachable(p, value, run);
    DiffersAtIff(p, Run(p, Mounted(p, value), run), d);
  }

  lemma Reachable<D>(p: Pipeline<D>, value: Tree, run: seq<Event<D>>)
    requires p.Lawful()
    ensures Inv(p, Run(p, Mounted(p, value), run)) && GivenClean(p, Run(p, Mounted(p, value), run).log)
  {
    MountedInv(p, value);
    RunKeepsInv(p, Mounted(p, value), run);
    RunGivesClean(p, Mounted(p, value), run);
  }

  lemma DiffersAtIff<D(!new)>(p: Pipeline<D>, s: Rte<D>, d: Tree)
    requires p.Lawful() && s.mounted && GivenClean(p, s.log) && LastGiven(s.log) == Some(d)
    ensures (forall b: D :: NoRepeat(p, s, b, d)) <==> s.lastEmitted == p.ser(d)
  {
    if s.lastEmitted == p.ser(d) {
      forall b: D ensures NoRepeat(p, s, b, d) { TypingGives(p, s, b); }
    } else {
      TypingRepeats(p, s, d);
    }
  }

  /** Otherwise typing that very document again repeats it. */
  lemma TypingRepeats<D>(p: Pipeline<D>, s: Rte<D>, d: Tree)
    requires p.Lawful() && s.mounted && GivenClean(p, s.log) && LastGiven(s.log) == Some(d) && s.lastEmitted != p.ser(d)
    ensures Typing(p, s, p.toPM(d)) == s.log + [Gave(d)] && !NoRepeat(p, s, p.toPM(d), d)
  {
    var b := p.toPM(d);
    assert p.Clean(b) == p.sanitize(d) == d;
    TypingGives(p, s, b);
    assert s.log + [Gave(d)] != s.log;
    forall x | Typing(p, s, b) == s.log + [Gave(x)] ensures x == d {
      assert (s.log + [Gave(x)])[|s.log|] == (s.log + [Gave(d)])[|s.log|];
    }
  }

  // --- Echoing parents ----------------------------------------------------------------------

  /** At every moment: rendering back a document given earlier, however long ago, leaves
      the field alone exactly when it serializes like the value last exchanged. */
  lemma EchoHarmlessIff<D>(p: Pipeline<D>, value: Tree, run: seq<Event<D>>, g: nat)
    requires p.Lawful() && Run(p, Mounted(p, value), run).mounted
    requires g < |Run(p, Mounted(p, value), run).log| && Run(p, Mounted(p, value), run).log[g].Gave?
    ensures var s := Run(p, Mounted(p, value), run);
      var d := s.log[g].doc;
      var t := Run(p, s, [Render(d), RunSync]);
      var same := p.ser(d) == p.ser(Carried(p, s.log[|s.log| - 1]));
      && (t.doc == s.doc && t.log == s.log <==> same)
      && (!same ==> t.doc == p.toPM(d) && p.Clean(t.doc) == d && t.log == s.log + [Took(d)])
  {
    Reachable(p, value, run);
    EchoAt(p, Run(p, Mounted(p, value), run), g);
  }

  lemma EchoAt<D>(p: Pipeline<D>, s: Rte<D>, g: nat)
    requires p.Lawful() && s.mounted && GivenClean(p, s.log) && g < |s.log| && s.log[g].Gave?
    ensures var d := s.log[g].doc;
      var t := Run(p, s, [Render(d), RunSync]);
      if p.ser(d) == s.lastEmitted then t.doc == s.doc && t.log == s.log
      else t.doc == p.toPM(d) && p.Clean(t.doc) == d && t.log == s.log + [Took(d)]
  {
    var d := s.log[g].doc;
    RunOne(p, s, Render(d), [RunSync]);
    RunOne(p, Step(p, s, Render(d)), RunSync, []);
    GivenIsDoc(p, d);
    assert p.Clean(p.toPM(d)) == p.sanitize(d) == d;
  }

  /** At every moment: a value from outside replaces the document exactly when it does
      not serialize like the value last exchanged, and then by that very value; nothing
      else about the field changes. */
  lemma TakesOverIff<D>(p: Pipeline<D>, value: Tree, run: seq<Event<D>>, v: Tree)
    requires p.Lawful() && Run(p, Mounted(p, value), run).mounted
    ensures var s := Run(p, Mounted(p, value), run);
      var t := Run(p, s, [Render(v), RunSync]);
      var incoming := p.ser(p.sanitize(AsDoc(v, p.empty)));
      && s.log != []
      && t == if incoming == p.ser(Carried(p, s.log[|s.log| - 1])) then s.(value := v, sync := false)
              else s.(value := v, sync := false, doc := p.toPM(AsDoc(v, p.empty)), lastEmitted := incoming, log := s.log + [Took(v)])
  {
    var s := Run(p, Mounted(p, value), run);
    Reachable(p, value, run);
    RunOne(p, s, Render(v), [RunSync]);
    RunOne(p, Step(p, s, Render(v)), RunSync, []);
  }

  /** At every moment: a debounce that runs out gives the parent the document as it is,
      unless the parent has it; moving the caret changes nothing. */
  lemma TimerGives<D>(p: Pipeline<D>, value: Tree, run: seq<Event<D>>, id: nat)
    requires p.Lawful() && id in Run(p, Mounted(p, value), run).live
    ensures var s := Run(p, Mounted(p, value), run);
      var t := Step(p, s, Timer(id));
      && t.doc == s.doc && t.live == {} && t.mounted
      && t.log == (if p.ser(p.Clean(s.doc)) == s.lastEmitted then s.log else s.log + [Gave(p.Clean(s.doc))])
      && Step(p, s, Selection) == s
  {
    Reachable(p, value, run);
    var s := Run(p, Mounted(p, value), run);
    assert s.live - {id} == {};
  }

  lemma GivenIsDoc<D>(p: Pipeline<D>, d: Tree)
    requires p.Lawful() && p.sanitize(d) == d
    ensures AsDoc(d, p.empty) == d
  {
    assert IsDoc(p.sanitize(d));
  }

  /** The parent renders only the last document it was given, and its effect runs
      before the next emission. */
  predicate Echoes<D>(p: Pipeline<D>, s: Rte<D>, e: Event<D>) {
    match e
    case Render(value) => s.log != [] && s.log[|s.log| - 1] == Gave(value)
    case Transaction(_) => true
    case Selection => true
    case RunSync => true
    case _ => !s.sync
  }

  predicate EchoRun<D>(p: Pipeline<D>, s: Rte<D>, run: seq<Event<D>>)
    decreases |run|
  {
    run != [] ==> Echoes(p, s, run[0]) && EchoRun(p, Step(p, s, run[0]), run[1..])
  }

  /** The document if only the user's own transactions count. */
  function Typed<D>(doc: D, run: seq<Event<D>>, mounted: bool): D
    decreases |run|
  {
    if run == [] || !mounted then doc
    else Typed(if run[0].Transaction? then run[0].doc else doc, run[1..], !run[0].Teardown?)
  }

  /** The value waiting for its effect is the one the guard remembers. */
  predicate NothingNew<D>(p: Pipeline<D>, s: Rte<D>) {
    s.mounted && s.sync ==> p.ser(p.Meaning(s.value)) == s.lastEmitted
  }

  lemma EchoStep<D>(p: Pipeline<D>, s: Rte<D>, e: Event<D>)
    requires p.Lawful() && Inv(p, s) && GivenClean(p, s.log) && NothingNew(p, s) && Echoes(p, s, e)
    ensures NothingNew(p, Step(p, s, e))
    ensures Step(p, s, e).doc == if s.mounted && e.Transaction? then e.doc else s.doc
    ensures Step(p, s, e).mounted == (s.mounted && !e.Teardown?)
  {
  }

  /** A parent that echoes each emission before the next one never causes the
      document to be replaced: it is whatever the user's transactions made it. */
  lemma {:induction false} EchoNeverReplaces<D>(p: Pipeline<D>, s: Rte<D>, run: seq<Event<D>>)
    requires p.Lawful() && Inv(p, s) && GivenClean(p, s.log) && NothingNew(p, s) && EchoRun(p, s, run)
    ensures Run(p, s, run).doc == Typed(s.doc, run, s.mounted)
    decreases |run|
  {
    if run != [] {
      EchoStep(p, s, run[0]);
      StepKeepsInv(p, s, run[0]);
      StepGivesClean(p, s, run[0]);
      EchoNeverReplaces(p, Step(p, s, run[0]), run[1..]);
    }
  }

  lemma EchoFromMount<D>(p: Pipeline<D>, value: Tree, run: seq<Event<D>>)
    requires p.Lawful() && EchoRun(p, Mounted(p, value), run)
    ensures Run(p, Mounted(p, value), run).doc == Typed(p.toPM(AsDoc(value, p.empty)), run, true)
  {
    MountedInv(p, value);
    EchoNeverReplaces(p, Mounted(p, value), run);
  }

  lemma RunOne<D>(p: Pipeline<D>, s: Rte<D>, e: Event<D>, rest: seq<Event<D>>)
    ensures Run(p, s, [e] + rest) == Run(p, Step(p, s, e), rest)
  {
    assert ([e] + rest)[1..] == rest;
  }

  /** An echo that arrives one emission late does replace the document: the parent
      rendered `a`, then `b` is typed and emitted, then the effect for `a` runs. */
  lemma LateEchoReplaces<D>(p: Pipeline<D>, s: Rte<D>, a: Tree, b: D)
    requires p.Lawful() && Inv(p, s) && s.mounted && s.lastEmitted == p.ser(a) && p.Meaning(a) == a
    requires p.ser(p.Clean(b)) != p.ser(a)
    ensures var t := Run(p, s, [Render(a), Transaction(b), Blur, RunSync]);
      t.doc == p.toPM(AsDoc(a, p.empty)) && p.ser(p.Clean(t.doc)) != p.ser(p.Clean(b))
  {
    var s1 := Step(p, s, Render(a));
    var s2 := Step(p, s1, Transaction(b));
    var s3 := Step(p, s2, Blur);
    var s4 := Step(p, s3, RunSync);
    RunOne(p, s, Render(a), [Transaction(b), Blur, RunSync]);
    RunOne(p, s1, Transaction(b), [Blur, RunSync]);
    RunOne(p, s2, Blur, [RunSync]);
    RunOne(p, s3, RunSync, []);
    assert s3.lastEmitted == p.ser(p.Clean(b)) && s3.doc == b;
  }

  /** With a value taken over in between, the same document can be emitted twice
      in a row: `b` is emitted, the parent goes back to `a`, `b` is typed again. */
  lemma SameEmissionTwice<D>(p: Pipeline<D>, a: Tree, b: D)
    requires p.Lawful() && p.ser(p.Meaning(a)) != p.ser(p.Clean(b))
    ensures var t := Run(p, Mounted(p, a), [Transaction(b), Blur, Render(a), RunSync, Transaction(b), Blur]);
      t.log == [Took(a), Gave(p.Clean(b)), Took(a), Gave(p.Clean(b))]
  {
    var s := Mounted(p, a);
    var s1 := Step(p, s, Transaction(b));
    var s2 := Step(p, s1, Blur);
    var s3 := Step(p, s2, Render(a));
    var s4 := Step(p, s3, RunSync);
    var s5 := Step(p, s4, Transaction(b));
    var s6 := Step(p, s5, Blur);
    RunOne(p, s, Transaction(b), [Blur, Render(a), RunSync, Transaction(b), Blur]);
    RunOne(p, s1, Blur, [Render(a), RunSync, Transaction(b), Blur]);
    RunOne(p, s2, Render(a), [RunSync, Transaction(b), Blur]);
    RunOne(p, s3, RunSync, [Transaction(b), Blur]);
    RunOne(p, s4, Transaction(b), [Blur]);
    RunOne(p, s5, Blur, []);
    assert s2.log == [Took(a), Gave(p.Clean(b))];
    assert s4.log == [Took(a), Gave(p.Clean(b)), Took(a)];
  }
}
