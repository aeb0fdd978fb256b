/** The scaffolder's config module: rendering a starter model to source, and what
    evaluating that source gives back. */
module Scaffold {
  import opened Literals
  import opened LiteralRoundTrip
  import opened ModuleText
  import opened Forms

  const ACCESS: Text := Units("access")
  const FIELDS: Text := Units("fields")
  const READ: Text := Units("read")
  const SIX: Text := Units("      ")
  const FOUR: Text := Units("    ")
  const TWO: Text := Units("  ")

  /** A collection or global is a record; a model lists them and carries its label
      (`title`), a description, a view descriptor and seed data. */
  datatype Model = Model(
    title: Text, description: Text,
    collections: seq<seq<Entry>>, globals: seq<seq<Entry>>, view: seq<Entry>, seed: seq<Entry>)

  function Lookup(es: seq<Entry>, key: Text): Option<JVal> {
    if es == [] then None else if es[0].key == key then Some(es[0].value) else Lookup(es[1..], key)
  }

  function Delete(es: seq<Entry>, key: Text): seq<Entry> {
    if es == [] then [] else if es[0].key == key then Delete(es[1..], key) else [es[0]] + Delete(es[1..], key)
  }

  predicate ItemOk(c: seq<Entry>) { IsData(JObj(c)) && Lookup(c, FIELDS).Some? }

  predicate ModelOk(m: Model) {
    && (forall i | 0 <= i < |m.collections| :: ItemOk(m.collections[i]))
    && (forall i | 0 <= i < |m.globals| :: ItemOk(m.globals[i]))
    && IsData(JObj(m.view)) && IsData(JObj(m.seed))
  }

  /** The injected rule `{ read: () => true }`. */
  const OPEN: JVal := JObj([Entry(READ, JArrow)])

  /** `buildRuntime` of one item: `{ ...c, access: { ...open } }`. */
  function RuntimeItem(c: seq<Entry>): seq<Entry> { Define(c, ACCESS, OPEN) }

  // --- Rendering ---------------------------------------------------------------------------

  function Line(e: Entry): Text
    requires IsData(e.value)
  {
    SIX + e.key + [COLON, SPACE] + Lit(e.value, SIX) + [COMMA]
  }

  /** The text `{ read: () => true }`. */
  const OPEN_TEXT: Text := [LBRACE] + ([SPACE] + (READ + ([COLON] + ([SPACE] + (ARROW + ([SPACE] + [RBRACE]))))))

  /** The end of an item: the access rule, the fields, the closing brace. */
  function ItemEnd(fields: JVal): Text
    requires IsData(fields)
  {
    [NL] + SIX + (ACCESS + [COLON, SPACE] + OPEN_TEXT + [COMMA])
    + ([NL] + SIX + (FIELDS + [COLON, SPACE] + Lit(fields, SIX) + [COMMA]) + ([NL] + FOUR + [RBRACE]))
  }

  /** `renderCollection` and `renderGlobal`, which are the same text: the item's
      own entries but `fields`, one a line, then the rule and the fields. */
  function RenderItem(c: seq<Entry>): Text
    requires ItemOk(c)
  {
    DeleteData(c, FIELDS);
    LookupData(c, FIELDS);
    var rest := Delete(c, FIELDS);
    var head := Join(seq(|rest|, i requires 0 <= i < |rest| => Line(rest[i])), [NL]);
    FOUR + ([LBRACE] + ([NL] + head + ItemEnd(Lookup(c, FIELDS).value))) + [COMMA]
  }

  /** The list as it stands after `collections:` or `globals:`. */
  function RenderList(cs: seq<seq<Entry>>): Text
    requires forall i | 0 <= i < |cs| :: ItemOk(cs[i])
  {
    [LBRACK, NL] + Join(seq(|cs|, i requires 0 <= i < |cs| => RenderItem(cs[i])), [NL]) + [NL] + TWO + [RBRACK]
  }

  /** The whole module: seven places depend on the model and the name it was chosen
      by, three of them inside the header comment. The fixed text is `ConfigTs`. */
  function RenderConfigModule(m: Model, name: Text, t: Template): Text
    requires ModelOk(m)
  {
    t.imports + (OPENING + (Header(m.title, name, m.description) + (CLOSE + ([NL] + RenderSlots(m, t)))))
  }

  function RenderSlots(m: Model, t: Template): Text
    requires ModelOk(m)
  {
    t.toCollections + (RenderList(m.collections)
    + (t.toGlobals + (RenderList(m.globals)
    + (t.toView + (Lit(JObj(m.view), TWO)
    + (t.toSeed + (Lit(JObj(m.seed), TWO) + t.code)))))))
  }

  // --- Facts about entry lists ---------------------------------------------------------------

  lemma {:induction false} DeleteSubset(c: seq<Entry>, key: Text)
    ensures forall e | e in Delete(c, key) :: e in c && e.key != key
  {
    if c != [] { DeleteSubset(c[1..], key); }
  }

  lemma {:induction false} DeleteLookup(c: seq<Entry>, key: Text, k: Text)
    ensures Lookup(Delete(c, key), k) == if k == key then None else Lookup(c, k)
  {
    if c != [] { DeleteLookup(c[1..], key, k); }
  }

  predicate EntriesOk(c: seq<Entry>) {
    DistinctKeys(c) && forall e | e in c :: Identifier(e.key) && IsData(e.value)
  }

  lemma DataEntries(c: seq<Entry>)
    ensures IsData(JObj(c)) <==> EntriesOk(c)
  {
    if EntriesOk(c) { assert forall i | 0 <= i < |c| :: c[i] in c; }
  }

  lemma {:induction false} DeleteOk(c: seq<Entry>, key: Text)
    requires EntriesOk(c)
    ensures EntriesOk(Delete(c, key))
  {
    if c != [] {
      DeleteOk(c[1..], key);
      DeleteSubset(c[1..], key);
      var d := Delete(c[1..], key);
      forall i | 0 <= i < |d| ensures d[i].key != c[0].key {
        assert d[i] in c[1..];
      }
    }
  }

  lemma DeleteData(c: seq<Entry>, key: Text)
    requires IsData(JObj(c))
    ensures IsData(JObj(Delete(c, key)))
  {
    DataEntries(c);
    DeleteOk(c, key);
    DataEntries(Delete(c, key));
  }

  lemma {:induction false} LookupData(c: seq<Entry>, key: Text)
    requires IsData(JObj(c)) && Lookup(c, key).Some?
    ensures IsData(Lookup(c, key).value) && Identifier(key)
  {
    assert IsData(c[0].value);
    if c[0].key != key {
      assert forall i | 0 <= i < |c[1..]| :: c[1..][i] == c[i + 1];
      LookupData(c[1..], key);
    }
  }

  lemma {:induction false} LookupDefine(es: seq<Entry>, key: Text, value: JVal, k: Text)
    ensures Lookup(Define(es, key, value), k) == if k == key then Some(value) else Lookup(es, k)
  {
    if es != [] { LookupDefine(es[1..], key, value, k); }
  }

  // --- Evaluating what was rendered ----------------------------------------------------------

  /** The object the rendered item evaluates to. */
  function Evaluated(c: seq<Entry>): seq<Entry>
    requires ItemOk(c)
  {
    Define(Define(Delete(c, FIELDS), ACCESS, OPEN), FIELDS, Lookup(c, FIELDS).value)
  }

  /** Key order aside, it is the runtime object: a rule of the model's own under
      `access` is overridden in both. */
  lemma EvaluatedIsRuntime(c: seq<Entry>)
    requires ItemOk(c)
    ensures forall k :: Lookup(Evaluated(c), k) == Lookup(RuntimeItem(c), k)
  {
    assert ACCESS != FIELDS by { assert ACCESS[0] != FIELDS[0]; }
    forall k ensures Lookup(Evaluated(c), k) == Lookup(RuntimeItem(c), k) {
      LookupDefine(Define(Delete(c, FIELDS), ACCESS, OPEN), FIELDS, Lookup(c, FIELDS).value, k);
      LookupDefine(Delete(c, FIELDS), ACCESS, OPEN, k);
      LookupDefine(c, ACCESS, OPEN, k);
      DeleteLookup(c, FIELDS, k);
    }
  }

  /** What the runtime item and the evaluated one hold: the open rule under `access`, and
      under every other name, `fields` included, what the model's own item has there. */
  lemma ItemsHold(c: seq<Entry>, k: Text)
    requires ItemOk(c)
    ensures var rule := JObj([Entry(Units("read"), JArrow)]);
      && Lookup(RuntimeItem(c), k) == (if k == Units("access") then Some(rule) else Lookup(c, k))
      && Lookup(Evaluated(c), k) == (if k == Units("access") then Some(rule) else Lookup(c, k))
      && Lookup(c, Units("fields")).Some?
  {
    EvaluatedIsRuntime(c);
    LookupDefine(c, ACCESS, OPEN, k);
    assert Lookup(Evaluated(c), k) == Lookup(RuntimeItem(c), k);
  }

  lemma ParseOpenRule(rest: Text)
    ensures ParseValue(OPEN_TEXT + rest) == Done(OPEN, rest)
  {
    Names();
    var tail := [SPACE] + ([RBRACE] + rest);
    ParseArrow(tail);
    SkipTo([SPACE], [RBRACE] + rest);
    ParseLastProp([SPACE], READ, ARROW + tail, JArrow, tail, rest, []);
    DefineNew([], READ, JArrow);
    OpenShape([LBRACE], [SPACE], READ, [COLON], ARROW, [RBRACE], rest);
    var inside := [SPACE] + (READ + ([COLON] + ([SPACE] + (ARROW + ([SPACE] + ([RBRACE] + rest))))));
    assert ([LBRACE] + inside)[1..] == inside;
  }

  lemma OpenShape(open: Text, space: Text, key: Text, colon: Text, x: Text, close: Text, rest: Text)
    ensures open + (space + (key + (colon + (space + (x + (space + close)))))) + rest
         == open + (space + (key + (colon + (space + (x + (space + (close + rest)))))))
  {
  }

  lemma ParseArrow(tail: Text)
    ensures ParseValue(ARROW + tail) == Done(JArrow, tail)
    ensures ARROW != [] && !IsWs(ARROW[0])
  {
    var t := ARROW + tail;
    assert t[0] == 40;
    assert NameRun(t) == 0 && t[..0] == [];
    assert |Units("null")| == 4 && |Units("true")| == 4 && |Units("false")| == 5;
    assert t[|ARROW|..] == tail;
  }

  lemma JoinFront(parts: seq<Text>, sep: Text)
    requires |parts| > 1
    ensures sep + Join(parts, sep) == sep + parts[0] + (sep + Join(parts[1..], sep))
  {
  }

  /** Each line of the head with its line break in front. */
  function HeadLines(es: seq<Entry>): Text
    requires forall i | 0 <= i < |es| :: IsData(es[i].value)
  {
    if es == [] then [] else [NL] + Line(es[0]) + HeadLines(es[1..])
  }

  lemma {:induction false} JoinIsHeadLines(es: seq<Entry>)
    requires es != [] && forall i | 0 <= i < |es| :: IsData(es[i].value)
    ensures [NL] + Join(seq(|es|, i requires 0 <= i < |es| => Line(es[i])), [NL]) == HeadLines(es)
  {
    var parts := seq(|es|, i requires 0 <= i < |es| => Line(es[i]));
    if |es| == 1 {
      assert HeadLines(es[1..]) == [];
    } else {
      JoinIsHeadLines(es[1..]);
      assert parts[1..] == seq(|es[1..]|, i requires 0 <= i < |es[1..]| => Line(es[1..][i]));
      JoinFront(parts, [NL]);
    }
  }

  /** One rendered line, wherever it stands, defines its property. */
  lemma ParseLine(gap: Text, key: Text, x: Text, value: JVal, after: Text, done: seq<Entry>)
    requires Identifier(key) && Blank(gap) && x != [] && !IsWs(x[0])
    requires ParseValue(x + ([COMMA] + after)) == Done(value, [COMMA] + after)
    ensures ParseProps(gap + (key + [COLON, SPACE] + x + [COMMA]) + after, done) == ParseProps(after, Define(done, key, value))
  {
    LineShape(gap, key, [COLON], [SPACE], x, [COMMA], after);
    assert [COLON, SPACE] == [COLON] + [SPACE];
    ParsePropStep(gap, key, x + ([COMMA] + after), value, after, done);
  }

  lemma LineShape(gap: Text, key: Text, colon: Text, space: Text, x: Text, comma: Text, after: Text)
    ensures gap + (key + (colon + space) + x + comma) + after == gap + (key + (colon + (space + (x + (comma + after)))))
  {
  }

  lemma ParseHeadLine(e: Entry, more: Text, after: Text, done: seq<Entry>)
    requires IsData(e.value) && Identifier(e.key)
    ensures ParseProps(([NL] + Line(e) + more) + after, done) == ParseProps(more + after, Define(done, e.key, e.value))
  {
    var x := Lit(e.value, SIX);
    Names();
    LitHead(e.value, SIX);
    LitRoundTrip(e.value, SIX, [COMMA] + (more + after));
    ParseLine([NL] + SIX, e.key, x, e.value, more + after, done);
    HeadShape([NL], SIX, e.key, [COLON, SPACE], x, [COMMA], more, after);
  }

  lemma {:induction false} ParseHead(es: seq<Entry>, k: nat, after: Text)
    requires IsData(JObj(es)) && k <= |es|
    ensures ParseProps(HeadLines(es[k..]) + after, es[..k]) == ParseProps(after, es)
    decreases |es| - k
  {
    if k == |es| {
      assert HeadLines(es[k..]) + after == after && es[..k] == es;
    } else {
      var e, more := es[k], HeadLines(es[k + 1..]);
      assert HeadLines(es[k..]) == [NL] + Line(e) + more by {
        assert es[k..][0] == e && es[k..][1..] == es[k + 1..];
      }
      ParseHeadLine(e, more, after, es[..k]);
      DefineNew(es[..k], e.key, e.value);
      assert es[..k] + [Entry(e.key, e.value)] == es[..k + 1];
      ParseHead(es, k + 1, after);
    }
  }

  lemma HeadShape(nl: Text, indent: Text, key: Text, colon: Text, x: Text, comma: Text, more: Text, after: Text)
    ensures (nl + (indent + key + colon + x + comma) + more) + after == (nl + indent) + (key + colon + x + comma) + (more + after)
  {
  }

  lemma Names()
    ensures Identifier(ACCESS) && Identifier(FIELDS) && Identifier(READ)
    ensures Blank(SIX) && Blank(FOUR) && Blank(TWO)
    ensures OPEN_TEXT != [] && !IsWs(OPEN_TEXT[0])
  {
    assert |ACCESS| != |PROTO| && |FIELDS| != |PROTO| && |READ| != |PROTO|;
  }

  /** The fields line and the closing brace. */
  lemma ParseFieldsEnd(x: Text, fields: JVal, done: seq<Entry>, close: Text, rest: Text)
    requires x != [] && !IsWs(x[0]) && ParseValue(x + ([COMMA] + close)) == Done(fields, [COMMA] + close)
    requires close == ([NL] + FOUR) + ([RBRACE] + rest)
    ensures ParseProps([NL] + SIX + (FIELDS + [COLON, SPACE] + x + [COMMA]) + close, done) == Done(Define(done, FIELDS, fields), rest)
  {
    Names();
    ParseLine([NL] + SIX, FIELDS, x, fields, close, done);
    SkipTo([NL] + FOUR, [RBRACE] + rest);
    assert ([RBRACE] + rest)[1..] == rest;
  }

  lemma ParseItemEnd(gap: Text, fields: JVal, done: seq<Entry>, rest: Text)
    requires IsData(fields) && Blank(gap)
    ensures ParseProps(gap + ItemEnd(fields) + rest, done) == Done(Define(Define(done, ACCESS, OPEN), FIELDS, fields), rest)
  {
    Names();
    var close := ([NL] + FOUR) + ([RBRACE] + rest);
    var x := Lit(fields, SIX);
    var second := [NL] + SIX + (FIELDS + [COLON, SPACE] + x + [COMMA]) + close;
    LitHead(fields, SIX);
    LitRoundTrip(fields, SIX, [COMMA] + close);
    ParseFieldsEnd(x, fields, Define(done, ACCESS, OPEN), close, rest);
    ParseOpenRule([COMMA] + second);
    ParseLine(gap + ([NL] + SIX), ACCESS, OPEN_TEXT, OPEN, second, done);
    Associate([NL] + FOUR, [RBRACE], rest);
    EndRegroup(gap, ACCESS + [COLON, SPACE] + OPEN_TEXT + [COMMA], [NL] + SIX,
      FIELDS + [COLON, SPACE] + x + [COMMA], [NL] + FOUR + [RBRACE], rest);
  }

  lemma EndRegroup(gap: Text, a: Text, sep: Text, b: Text, c: Text, rest: Text)
    ensures gap + (sep + a + (sep + b + c)) + rest == (gap + sep) + a + (sep + b + (c + rest))
  {
  }

  /** A rendered item between its indent and its comma. */
  function Body(c: seq<Entry>): Text
    requires ItemOk(c)
  {
    DeleteData(c, FIELDS);
    LookupData(c, FIELDS);
    var rest := Delete(c, FIELDS);
    [LBRACE] + ((if rest == [] then [NL] else HeadLines(rest)) + ItemEnd(Lookup(c, FIELDS).value))
  }

  lemma RenderItemText(c: seq<Entry>)
    requires ItemOk(c)
    ensures RenderItem(c) == FOUR + Body(c) + [COMMA]
  {
    DeleteData(c, FIELDS);
    var rest := Delete(c, FIELDS);
    var head := Join(seq(|rest|, i requires 0 <= i < |rest| => Line(rest[i])), [NL]);
    if rest == [] {
      assert [NL] + head == [NL];
    } else {
      JoinIsHeadLines(rest);
    }
  }

  /** A rendered item evaluates to the model's item with the open rule defined. */
  lemma ParseItem(c: seq<Entry>, rest: Text)
    requires ItemOk(c)
    ensures ParseValue(Body(c) + rest) == Done(JObj(Evaluated(c)), rest)
  {
    DeleteData(c, FIELDS);
    LookupData(c, FIELDS);
    var others, fields := Delete(c, FIELDS), Lookup(c, FIELDS).value;
    var end := ItemEnd(fields);
    if others == [] {
      ParseItemEnd([NL], fields, [], rest);
      Bracketed([LBRACE], [NL] + end, rest);
    } else {
      ParseItemEnd([], fields, others, rest);
      assert [] + end == end;
      assert others[0..] == others && others[..0] == [];
      ParseHead(others, 0, end + rest);
      Associate(HeadLines(others), end, rest);
      Bracketed([LBRACE], HeadLines(others) + end, rest);
    }
  }

  function EvaluatedList(cs: seq<seq<Entry>>): seq<JVal>
    requires forall i | 0 <= i < |cs| :: ItemOk(cs[i])
  {
    if cs == [] then [] else [JObj(Evaluated(cs[0]))] + EvaluatedList(cs[1..])
  }

  function ItemLines(cs: seq<seq<Entry>>): Text
    requires forall i | 0 <= i < |cs| :: ItemOk(cs[i])
  {
    if cs == [] then [] else [NL] + RenderItem(cs[0]) + ItemLines(cs[1..])
  }

  lemma {:induction false} JoinIsItemLines(cs: seq<seq<Entry>>)
    requires cs != [] && forall i | 0 <= i < |cs| :: ItemOk(cs[i])
    ensures [NL] + Join(seq(|cs|, i requires 0 <= i < |cs| => RenderItem(cs[i])), [NL]) == ItemLines(cs)
  {
    var parts := seq(|cs|, i requires 0 <= i < |cs| => RenderItem(cs[i]));
    if |cs| == 1 {
      assert ItemLines(cs[1..]) == [];
    } else {
      JoinIsItemLines(cs[1..]);
      assert parts[1..] == seq(|cs[1..]|, i requires 0 <= i < |cs[1..]| => RenderItem(cs[1..][i]));
      JoinFront(parts, [NL]);
    }
  }

  /** The first item of a list, given that the rest of the list parses. */
  lemma ParseFirstItem(c: seq<Entry>, lines: Text, close: Text, vs: seq<JVal>, rest: Text)
    requires ItemOk(c) && ParseElems(lines + close) == Done(vs, rest)
    ensures ParseElems(([NL] + RenderItem(c) + lines) + close) == Done([JObj(Evaluated(c))] + vs, rest)
  {
    var body := Body(c);
    RenderItemText(c);
    ParseItem(c, [COMMA] + (lines + close));
    Names();
    ParseElemStep([NL] + FOUR, body, JObj(Evaluated(c)), lines + close, vs, rest);
    LineRegroup([NL], FOUR, body, lines, close);
  }

  lemma {:induction false} ParseItemLines(cs: seq<seq<Entry>>, gap: Text, rest: Text)
    requires Blank(gap) && forall i | 0 <= i < |cs| :: ItemOk(cs[i])
    ensures ParseElems(ItemLines(cs) + (gap + ([RBRACK] + rest))) == Done(EvaluatedList(cs), rest)
    decreases |cs|
  {
    var close := gap + ([RBRACK] + rest);
    if cs == [] {
      NoElems(gap, rest);
      assert ItemLines(cs) + close == close;
    } else {
      ParseItemLines(cs[1..], gap, rest);
      ParseFirstItem(cs[0], ItemLines(cs[1..]), close, EvaluatedList(cs[1..]), rest);
    }
  }

  lemma NoElems(gap: Text, rest: Text)
    requires Blank(gap)
    ensures ParseElems(gap + ([RBRACK] + rest)) == Done([], rest)
  {
    SkipTo(gap, [RBRACK] + rest);
    assert ([RBRACK] + rest)[1..] == rest;
  }

  lemma LineRegroup(nl: Text, indent: Text, body: Text, lines: Text, close: Text)
    ensures (nl + (indent + body + [COMMA]) + lines) + close == (nl + indent) + (body + ([COMMA] + (lines + close)))
  {
  }

  lemma ParseInside(cs: seq<seq<Entry>>, rest: Text)
    requires forall i | 0 <= i < |cs| :: ItemOk(cs[i])
    ensures var joined := Join(seq(|cs|, i requires 0 <= i < |cs| => RenderItem(cs[i])), [NL]);
      ParseElems(([NL] + joined) + ([NL] + TWO + ([RBRACK] + rest))) == Done(EvaluatedList(cs), rest)
  {
    Names();
    if cs == [] {
      BlankGap([NL], TWO, [RBRACK] + rest);
      NoElems([NL] + ([NL] + TWO), rest);
    } else {
      JoinIsItemLines(cs);
      ParseItemLines(cs, [NL] + TWO, rest);
    }
  }

  lemma BlankGap(nl: Text, two: Text, tail: Text)
    requires Blank(nl) && Blank(two)
    ensures Blank(nl + (nl + two)) && (nl + []) + (nl + two + tail) == (nl + (nl + two)) + tail
  {
  }

  /** Evaluating a rendered list gives the evaluated items, in order. */
  lemma ParseList(cs: seq<seq<Entry>>, rest: Text)
    requires forall i | 0 <= i < |cs| :: ItemOk(cs[i])
    ensures ParseValue(RenderList(cs) + rest) == Done(JArr(EvaluatedList(cs)), rest)
  {
    var joined := Join(seq(|cs|, i requires 0 <= i < |cs| => RenderItem(cs[i])), [NL]);
    ListRegroup([LBRACK], [NL], joined, TWO, [RBRACK], rest);
    assert [LBRACK, NL] == [LBRACK] + [NL];
    ParseInside(cs, rest);
    Opening([LBRACK], ([NL] + joined) + ([NL] + TWO + ([RBRACK] + rest)));
  }

  lemma Opening(open: Text, inside: Text)
    requires |open| == 1
    ensures (open + inside)[0] == open[0] && (open + inside)[1..] == inside
  {
  }

  lemma ListRegroup(open: Text, nl: Text, joined: Text, two: Text, close: Text, rest: Text)
    ensures (open + nl) + joined + nl + two + close + rest == open + ((nl + joined) + (nl + two + (close + rest)))
  {
  }
}
