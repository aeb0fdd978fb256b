/** The generated config module as one text: reading it back, and what loading it
    gives compared with the model run directly. */
module ConfigModule {
  import opened Literals
  import opened LiteralRoundTrip
  import opened ModuleText
  import opened Forms
  import opened Scaffold
  import opened Seeding

  /** What the generated module computes when loaded. */
  datatype Loaded = Broken | Loaded(collections: seq<JVal>, globals: seq<JVal>, view: JVal, seedData: JVal)

  /** The value after a piece of fixed text. */
  function ReadSlot(s: Text, fixed: Text): Parsed<JVal> {
    if fixed <= s then ParseValue(s[|fixed|..]) else Fail
  }

  /** Everything after the header: four values, each between its own pieces
      of fixed text, then the code. */
  function LoadSlots(s: Text, t: Template): Loaded {
    var c := ReadSlot(s, t.toCollections);
    if c.Fail? || !c.v.JArr? then Broken
    else
      var g := ReadSlot(c.rest, t.toGlobals);
      if g.Fail? || !g.v.JArr? then Broken
      else
        var v := ReadSlot(g.rest, t.toView);
        if v.Fail? then Broken
        else
          var d := ReadSlot(v.rest, t.toSeed);
          if d.Fail? || d.rest != t.code then Broken else Loaded(c.v.items, g.v.items, v.v, d.v)
  }

  /** Reading the whole module: the imports, comments and blanks, the rest. */
  function LoadModule(s: Text, t: Template): Loaded {
    if t.imports <= s then LoadSlots(SkipTrivia(s[|t.imports|..]), t) else Broken
  }

  lemma ReadSlotOk(fixed: Text, x: Text, v: JVal, rest: Text)
    requires ParseValue(x + rest) == Done(v, rest)
    ensures ReadSlot(fixed + (x + rest), fixed) == Done(v, rest)
  {
    assert (fixed + (x + rest))[|fixed|..] == x + rest;
  }

  lemma ListSlot(fixed: Text, cs: seq<seq<Entry>>, rest: Text)
    requires forall i | 0 <= i < |cs| :: ItemOk(cs[i])
    ensures ReadSlot(fixed + (RenderList(cs) + rest), fixed) == Done(JArr(EvaluatedList(cs)), rest)
  {
    ParseList(cs, rest);
    ReadSlotOk(fixed, RenderList(cs), JArr(EvaluatedList(cs)), rest);
  }

  lemma DataSlot(fixed: Text, es: seq<Entry>, rest: Text)
    requires IsData(JObj(es)) && Delimited(rest)
    ensures ReadSlot(fixed + (Lit(JObj(es), TWO) + rest), fixed) == Done(JObj(es), rest)
  {
    Names();
    LitRoundTrip(JObj(es), TWO, rest);
    ReadSlotOk(fixed, Lit(JObj(es), TWO), JObj(es), rest);
  }

  lemma SlotsLoad(m: Model, t: Template)
    requires ModelOk(m) && TemplateOk(t)
    ensures LoadSlots(RenderSlots(m, t), t)
         == Loaded(EvaluatedList(m.collections), EvaluatedList(m.globals), JObj(m.view), JObj(m.seed))
  {
    var t3 := t.toSeed + (Lit(JObj(m.seed), TWO) + t.code);
    var t2 := t.toView + (Lit(JObj(m.view), TWO) + t3);
    var t1 := t.toGlobals + (RenderList(m.globals) + t2);
    ListSlot(t.toCollections, m.collections, t1);
    ListSlot(t.toGlobals, m.globals, t2);
    StillDelimited(t.toSeed, m.seed, t.code);
    DataSlot(t.toView, m.view, t3);
    DataSlot(t.toSeed, m.seed, t.code);
  }

  lemma StillDelimited(fixed: Text, es: seq<Entry>, rest: Text)
    requires fixed != [] && Delimited(fixed) && IsData(JObj(es))
    ensures Delimited(fixed + (Lit(JObj(es), TWO) + rest))
  {
  }

  predicate HeaderIntact(m: Model, name: Text) { !HasClose(m.title) && !HasClose(name) && !HasClose(m.description) }

  /** The module from the header's first character inside the comment on. */
  function FromHeader(m: Model, name: Text, t: Template): Text
    requires ModelOk(m)
  {
    Header(m.title, name, m.description) + (CLOSE + ([NL] + RenderSlots(m, t)))
  }

  /** The header comment ends where it is meant to exactly when neither the label,
      nor the name, nor the description closes a comment. */
  lemma HeaderEndsIff(m: Model, name: Text, t: Template)
    requires ModelOk(m)
    ensures RenderConfigModule(m, name, t) == t.imports + (OPENING + FromHeader(m, name, t))
    ensures AfterComment(FromHeader(m, name, t)) == Done((), [NL] + RenderSlots(m, t)) <==> HeaderIntact(m, name)
  {
    ClosesAfterIff(Header(m.title, name, m.description), [NL] + RenderSlots(m, t));
    HeaderCloses(m.title, name, m.description);
  }

  /** The header as it reads: each of the three values at its own place. */
  lemma HeaderReads(m: Model, name: Text, t: Template)
    requires ModelOk(m)
    ensures FromHeader(m, name, t)
         == Units("*\n * Content model: ") + (m.title + (Units(" (") + (name + (Units(").\n * ")
            + (m.description + (AFTER_DESCRIPTION + (CLOSE + ([NL] + RenderSlots(m, t)))))))))
  {
    HeaderShape(BEFORE_LABEL, m.title, BEFORE_NAME, name, BEFORE_DESCRIPTION, m.description, AFTER_DESCRIPTION,
      CLOSE + ([NL] + RenderSlots(m, t)));
    HeaderTexts();
  }

  lemma HeaderTexts()
    ensures BEFORE_LABEL == Units("*\n * Content model: ")
    ensures BEFORE_NAME == Units(" (") && BEFORE_DESCRIPTION == Units(").\n * ")
  {
  }

  lemma HeaderShape(a: Text, b: Text, c: Text, d: Text, e: Text, f: Text, g: Text, rest: Text)
    ensures (a + (b + (c + (d + (e + (f + g)))))) + rest == a + (b + (c + (d + (e + (f + (g + rest))))))
  {
  }

  /** The slug under which the seed is read is the collection's own. */
  lemma SlugsRead(m: Model, i: nat, s: Text)
    requires i < |m.collections| && Lookup(m.collections[i], Units("slug")) == Some(JStr(s))
    ensures |ModelSlugs(m)| == |m.collections| && ModelSlugs(m)[i] == s
  {
  }

  lemma AfterImports(a: Text, rest: Text)
    ensures a <= a + rest && (a + rest)[|a|..] == rest
  {
  }

  /** Where the comment ends decides what is read. */
  lemma LoadAfter(s: Text, t: Template, inside: Text, rest: Text)
    requires s == t.imports + (OPENING + inside) && AfterComment(inside) == Done((), rest)
    ensures LoadModule(s, t) == LoadSlots(SkipTrivia(rest), t)
  {
    AfterImports(t.imports, OPENING + inside);
    SkipComment(inside, rest);
  }

  lemma SlotsFollow(m: Model, t: Template)
    requires ModelOk(m) && TemplateOk(t)
    ensures SkipTrivia([NL] + RenderSlots(m, t)) == RenderSlots(m, t)
  {
    var r := RenderSlots(m, t);
    assert r[0] == t.toCollections[0] && ([NL] + r)[1..] == r;
    SkipNothing(r);
  }

  /** With the header intact the module reads back whole, every slot at its place. */
  lemma ModuleLoads(m: Model, name: Text, t: Template)
    requires ModelOk(m) && TemplateOk(t) && HeaderIntact(m, name)
    ensures LoadModule(RenderConfigModule(m, name, t), t)
         == Loaded(EvaluatedList(m.collections), EvaluatedList(m.globals), JObj(m.view), JObj(m.seed))
  {
    HeaderEndsIff(m, name, t);
    LoadAfter(RenderConfigModule(m, name, t), t, FromHeader(m, name, t), [NL] + RenderSlots(m, t));
    SlotsFollow(m, t);
    SlotsLoad(m, t);
  }

  // --- The module compared with the model run directly --------------------------------------

  /** Key by key, order of keys aside. */
  ghost predicate SameItem(loaded: JVal, item: seq<Entry>) {
    forall k :: Lookup(AsRecord(loaded), k) == Lookup(RuntimeItem(item), k)
  }

  ghost predicate SameItems(loaded: seq<JVal>, items: seq<seq<Entry>>) {
    |loaded| == |items| && forall i | 0 <= i < |items| :: SameItem(loaded[i], items[i])
  }

  lemma {:induction false} SameEvaluated(cs: seq<seq<Entry>>)
    requires forall i | 0 <= i < |cs| :: ItemOk(cs[i])
    ensures SameItems(EvaluatedList(cs), cs)
  {
    if cs != [] {
      SameEvaluated(cs[1..]);
      EvaluatedIsRuntime(cs[0]);
      SameItemsCons(JObj(Evaluated(cs[0])), EvaluatedList(cs[1..]), cs[0], cs[1..]);
      assert [cs[0]] + cs[1..] == cs;
    }
  }

  lemma SameItemsCons(v: JVal, vs: seq<JVal>, c: seq<Entry>, cs: seq<seq<Entry>>)
    requires SameItem(v, c) && SameItems(vs, cs)
    ensures SameItems([v] + vs, [c] + cs)
  {
  }

  /** Loading the generated module gives, for every model whose header stays intact, the
      collections and globals `buildRuntime` gives, its view and its seed data. */
  lemma ModuleIsRuntime(m: Model, name: Text, t: Template)
    requires ModelOk(m) && TemplateOk(t) && HeaderIntact(m, name)
    ensures var l := LoadModule(RenderConfigModule(m, name, t), t);
      && l.Loaded? && l.view == JObj(m.view) && l.seedData == JObj(m.seed)
      && SameItems(l.collections, m.collections) && SameItems(l.globals, m.globals)
  {
    ModuleLoads(m, name, t);
    SameEvaluated(m.collections);
    SameEvaluated(m.globals);
  }

  function ModelSlugs(m: Model): seq<Text> { seq(|m.collections|, i requires 0 <= i < |m.collections| => SlugOf(m.collections[i])) }

  /** The slugs the inlined `seed` function goes through. */
  function LoadedSlugs(l: Loaded): seq<Text>
    requires l.Loaded?
  {
    seq(|l.collections|, i requires 0 <= i < |l.collections| => SlugOf(AsRecord(l.collections[i])))
  }

  lemma SameSlugs(m: Model, l: Loaded)
    requires l.Loaded? && SameItems(l.collections, m.collections)
    ensures LoadedSlugs(l) == ModelSlugs(m)
  {
    assert SLUG != ACCESS by { assert |SLUG| != |ACCESS|; }
    forall i | 0 <= i < |m.collections| ensures LoadedSlugs(l)[i] == ModelSlugs(m)[i] {
      LookupDefine(m.collections[i], ACCESS, OPEN, SLUG);
      assert SameItem(l.collections[i], m.collections[i]);
      assert Lookup(AsRecord(l.collections[i]), SLUG) == Lookup(RuntimeItem(m.collections[i]), SLUG);
    }
  }

  /** The seed inlined in the generated module does to every kernel what `runSeed` does
      exactly when the two programs agree on the seed's entries; and where `runSeed`
      finishes, exactly when no collection's entry is `false` or `0`. */
  lemma ModuleSeedsAsModelIff(m: Model, name: Text, t: Template, newId: NewId, before: seq<Call>)
    requires ModelOk(m) && TemplateOk(t) && HeaderIntact(m, name)
    ensures var l := LoadModule(RenderConfigModule(m, name, t), t);
      var slugs := ModelSlugs(m);
      var direct := SeedRun(Script, slugs, m.seed, newId, before);
      l.Loaded? &&
      var inlined := SeedRun(Inlined, LoadedSlugs(l), AsRecord(l.seedData), newId, before);
      && (inlined == direct <==> Agree(slugs, m.seed))
      && (!direct.threw ==> (inlined == direct <==> forall c | 0 <= c < |slugs| :: !Skipped(Entered(m.seed, slugs[c]))))
  {
    ModuleIsRuntime(m, name, t);
    SameSlugs(m, LoadModule(RenderConfigModule(m, name, t), t));
    ProgramsAgreeIff(ModelSlugs(m), m.seed, newId, before);
    if !PlanFor(Script, ModelSlugs(m), m.seed).throws { FinishedAgreeIff(ModelSlugs(m), m.seed); }
  }

  // --- A description that closes the comment ------------------------------------------------

  lemma HeaderRegroup(a: Text, b: Text, c: Text, d: Text, e: Text, f: Text, g: Text, h: Text, i: Text, rest: Text)
    ensures (a + (b + (c + (d + (e + ((f + (g + h)) + i)))))) + rest == (a + (b + (c + (d + (e + f))))) + (g + (h + (i + rest)))
  {
  }

  /** Where the comment ends if the description closes it. */
  lemma ClosedEarly(m: Model, name: Text, before: Text, after: Text, t: Template)
    requires ModelOk(m) && !HasClose(m.title) && !HasClose(name) && !HasClose(before)
    requires m.description == before + (CLOSE + after)
    ensures AfterComment(FromHeader(m, name, t))
         == Done((), after + (AFTER_DESCRIPTION + (CLOSE + ([NL] + RenderSlots(m, t)))))
  {
    var rest := CLOSE + ([NL] + RenderSlots(m, t));
    HeaderRegroup(BEFORE_LABEL, m.title, BEFORE_NAME, name, BEFORE_DESCRIPTION, before, CLOSE, after, AFTER_DESCRIPTION, rest);
    ClosesAfterIff(HeaderUpTo(m.title, name, before), after + (AFTER_DESCRIPTION + rest));
    HeaderUpToCloses(m.title, name, before);
  }

  /** A description that closes the comment with anything after it but a blank, another
      comment or a word leaves a module that cannot be read. */
  lemma EarlyCloseBreaks(m: Model, name: Text, before: Text, after: Text, t: Template)
    requires ModelOk(m) && !HasClose(m.title) && !HasClose(name) && !HasClose(before) && TemplateOk(t)
    requires m.description == before + (CLOSE + after)
    requires after != [] && !IsWs(after[0]) && after[0] != SLASH && !IdStart(after[0])
    ensures LoadModule(RenderConfigModule(m, name, t), t) == Broken
  {
    var rest := after + (AFTER_DESCRIPTION + (CLOSE + ([NL] + RenderSlots(m, t))));
    ClosedEarly(m, name, before, after, t);
    LoadAfter(RenderConfigModule(m, name, t), t, FromHeader(m, name, t), rest);
    assert rest[0] == after[0];
    SkipNothing(rest);
    NoSlot(rest, t.toCollections);
  }

  lemma NoSlot(s: Text, fixed: Text)
    requires s != [] && fixed != [] && s[0] != fixed[0]
    ensures ReadSlot(s, fixed) == Fail
  {
  }

  /** A description with a file pattern in it breaks the module. */
  lemma PatternInDescription(title: Text, name: Text, t: Template)
    requires !HasClose(title) && !HasClose(name) && TemplateOk(t)
    ensures var m := Model(title, Units("docs for src/**/*.ts"), [], [], [], []);
      && ModelOk(m) && !HeaderIntact(m, name)
      && LoadModule(RenderConfigModule(m, name, t), t) == Broken
  {
    var m := Model(title, Units("docs for src/**/*.ts"), [], [], [], []);
    var before, after := Units("docs for src/*"), Units("*.ts");
    assert m.description == before + (CLOSE + after);
    assert !HasClose(before) by { assert before[12] == SLASH && before[13] == STAR; }
    assert m.description[14] == STAR && m.description[15] == SLASH;
    EarlyCloseBreaks(m, name, before, after, t);
  }

  /** A description that closes the comment and at once opens another one does no harm. */
  lemma ReopenedLoads(m: Model, name: Text, before: Text, after: Text, t: Template)
    requires ModelOk(m) && !HasClose(m.title) && !HasClose(name) && !HasClose(before) && !HasClose(after) && TemplateOk(t)
    requires m.description == before + (CLOSE + (OPENING + after))
    ensures LoadModule(RenderConfigModule(m, name, t), t)
         == Loaded(EvaluatedList(m.collections), EvaluatedList(m.globals), JObj(m.view), JObj(m.seed))
  {
    var slots := [NL] + RenderSlots(m, t);
    var rest := (OPENING + after) + (AFTER_DESCRIPTION + (CLOSE + slots));
    ClosedEarly(m, name, before, OPENING + after, t);
    LoadAfter(RenderConfigModule(m, name, t), t, FromHeader(m, name, t), rest);
    SecondComment(after, slots);
    SlotsFollow(m, t);
    SlotsLoad(m, t);
  }

  lemma SecondComment(after: Text, slots: Text)
    requires !HasClose(after)
    ensures SkipTrivia((OPENING + after) + (AFTER_DESCRIPTION + (CLOSE + slots))) == SkipTrivia(slots)
  {
    FixedPartsOpen();
    NoCloseWithoutSlash(AFTER_DESCRIPTION);
    HasCloseJoin(after, AFTER_DESCRIPTION);
    var inside := (after + AFTER_DESCRIPTION) + (CLOSE + slots);
    Reopened(OPENING, after, AFTER_DESCRIPTION, CLOSE + slots);
    ClosesAfterIff(after + AFTER_DESCRIPTION, slots);
    SkipComment(inside, slots);
  }

  lemma Reopened(a: Text, b: Text, c: Text, d: Text)
    ensures (a + b) + (c + d) == a + ((b + c) + d)
  {
  }
}
