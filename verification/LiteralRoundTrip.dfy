/** Printing then parsing: `lit` is inverted by the literal grammar, for all data. */
module LiteralRoundTrip {
  import opened Decimals
  import opened Literals

  /** Array items as they stand in the text: each indented, each with its comma. */
  function Items(vs: seq<JVal>, inner: Text): Text
    requires forall i | 0 <= i < |vs| :: IsData(vs[i])
  {
    if vs == [] then [] else inner + Lit(vs[0], inner) + [COMMA, NL] + Items(vs[1..], inner)
  }

  function Props(es: seq<Entry>, inner: Text): Text
    requires forall i | 0 <= i < |es| :: IsData(es[i].value)
  {
    if es == [] then []
    else inner + es[0].key + [COLON, SPACE] + Lit(es[0].value, inner) + [COMMA, NL] + Props(es[1..], inner)
  }

  lemma JoinStep(parts: seq<Text>, sep: Text)
    requires |parts| > 1
    ensures Join(parts, sep) + sep == parts[0] + sep + (Join(parts[1..], sep) + sep)
  {
  }

  /** Joining with commas and adding the trailing one is: every item has a comma. */
  lemma {:induction false} JoinIsItems(vs: seq<JVal>, inner: Text)
    requires vs != [] && forall i | 0 <= i < |vs| :: IsData(vs[i])
    ensures var parts := seq(|vs|, i requires 0 <= i < |vs| => inner + Lit(vs[i], inner));
      Join(parts, [COMMA, NL]) + [COMMA, NL] == Items(vs, inner)
  {
    var parts := seq(|vs|, i requires 0 <= i < |vs| => inner + Lit(vs[i], inner));
    if |vs| == 1 {
      assert Items(vs[1..], inner) == [];
    } else {
      JoinIsItems(vs[1..], inner);
      assert parts[1..] == seq(|vs[1..]|, i requires 0 <= i < |vs[1..]| => inner + Lit(vs[1..][i], inner));
      JoinStep(parts, [COMMA, NL]);
    }
  }

  lemma {:induction false} JoinIsProps(es: seq<Entry>, inner: Text)
    requires es != [] && forall i | 0 <= i < |es| :: IsData(es[i].value)
    ensures var parts := seq(|es|, i requires 0 <= i < |es| => inner + es[i].key + [COLON, SPACE] + Lit(es[i].value, inner));
      Join(parts, [COMMA, NL]) + [COMMA, NL] == Props(es, inner)
  {
    var parts := seq(|es|, i requires 0 <= i < |es| => inner + es[i].key + [COLON, SPACE] + Lit(es[i].value, inner));
    if |es| == 1 {
      assert Props(es[1..], inner) == [];
    } else {
      JoinIsProps(es[1..], inner);
      assert parts[1..] == seq(|es[1..]|, i requires 0 <= i < |es[1..]| =>
        inner + es[1..][i].key + [COLON, SPACE] + Lit(es[1..][i].value, inner));
      JoinStep(parts, [COMMA, NL]);
    }
  }

  lemma LitArr(items: seq<JVal>, indent: Text)
    requires items != [] && IsData(JArr(items))
    ensures Lit(JArr(items), indent) == [LBRACK] + ([NL] + Items(items, indent + [SPACE, SPACE]) + indent + [RBRACK])
  {
    var inner := indent + [SPACE, SPACE];
    JoinIsItems(items, inner);
    var parts := seq(|items|, i requires 0 <= i < |items| => inner + Lit(items[i], inner));
    assert [LBRACK, NL] == [LBRACK] + [NL];
  }

  lemma LitObj(es: seq<Entry>, indent: Text)
    requires es != [] && IsData(JObj(es))
    ensures Lit(JObj(es), indent) == [LBRACE] + ([NL] + Props(es, indent + [SPACE, SPACE]) + indent + [RBRACE])
  {
    var inner := indent + [SPACE, SPACE];
    JoinIsProps(es, inner);
    var parts := seq(|es|, i requires 0 <= i < |es| => inner + es[i].key + [COLON, SPACE] + Lit(es[i].value, inner));
    assert [LBRACE, NL] == [LBRACE] + [NL];
  }

  lemma LitHead(v: JVal, indent: Text)
    requires IsData(v)
    ensures Lit(v, indent) != [] && !IsWs(Lit(v, indent)[0]) && Lit(v, indent)[0] != RBRACK && Lit(v, indent)[0] != RBRACE
  {
    match v
    case JInt(i) => ParsePrintedNat(if i < 0 then -i else i, []);
    case JNull => ParsePrintedWord(v, []);
    case JBool(_) => ParsePrintedWord(v, []);
    case JArr(items) => if items != [] { LitArr(items, indent); }
    case JObj(es) => if es != [] { LitObj(es, indent); }
    case JStr(_) =>
  }

  lemma WordRoundTrip(v: JVal, indent: Text, rest: Text)
    requires (v.JNull? || v.JBool?) && Delimited(rest)
    ensures ParseValue(Lit(v, indent) + rest) == Done(v, rest)
  {
    ParsePrintedWord(v, rest);
    assert Lit(v, indent) == Lit(v, []);
    var t := Lit(v, []) + rest;
    assert IdStart(t[0]);
    assert ParseValue(t) == ParseWord(t);
  }

  lemma IntRoundTrip(i: int, indent: Text, rest: Text)
    requires Delimited(rest)
    ensures ParseValue(Lit(JInt(i), indent) + rest) == Done(JInt(i), rest)
  {
    if i < 0 { NegRoundTrip(-i, rest); } else { NatRoundTrip(i, rest); }
  }

  lemma NatRoundTrip(n: nat, rest: Text)
    requires Delimited(rest)
    ensures ParseValue(Units(Dec(n)) + rest) == Done(JInt(n), rest)
  {
    ParsePrintedNat(n, rest);
  }

  lemma NegRoundTrip(n: nat, rest: Text)
    requires Delimited(rest)
    ensures ParseValue([MINUS] + Units(Dec(n)) + rest) == Done(JInt(0 - n), rest)
  {
    ParsePrintedNat(n, rest);
    Bracketed([MINUS], Units(Dec(n)), rest);
    ParseNegative([MINUS] + Units(Dec(n)) + rest, n, rest);
  }

  lemma ParseNegative(t: Text, n: nat, rest: Text)
    requires t != [] && t[0] == MINUS && ParseNat(t[1..]) == Done(n, rest)
    ensures ParseValue(t) == Done(JInt(0 - n), rest)
  {
  }

  lemma StrRoundTrip(s: Text, indent: Text, rest: Text)
    ensures ParseValue(Lit(JStr(s), indent) + rest) == Done(JStr(s), rest)
  {
    ParseEscaped(s, rest);
    assert ([QUOTE] + Escape(s) + [QUOTE] + rest)[1..] == Escape(s) + ([QUOTE] + rest);
  }

  /** Parsing what `lit` printed returns the value and leaves any delimited suffix unread. */
  lemma {:induction false} LitRoundTrip(v: JVal, indent: Text, rest: Text)
    requires IsData(v) && Blank(indent) && Delimited(rest)
    ensures ParseValue(Lit(v, indent) + rest) == Done(v, rest)
    decreases v, 1
  {
    if v.JArr? {
      var body := [NL] + Items(v.items, indent + [SPACE, SPACE]) + indent + [RBRACK];
      if v.items == [] {
        EmptyContainer(v, indent, rest);
      } else {
        LitArr(v.items, indent);
        Bracketed([LBRACK], body, rest);
        ElemsRoundTrip(v, 0, indent, rest);
        assert v.items[0..] == v.items;
      }
    } else if v.JObj? {
      var body := [NL] + Props(v.entries, indent + [SPACE, SPACE]) + indent + [RBRACE];
      if v.entries == [] {
        EmptyContainer(v, indent, rest);
      } else {
        LitObj(v.entries, indent);
        Bracketed([LBRACE], body, rest);
        PropsRoundTrip(v, 0, indent, rest);
        assert v.entries[0..] == v.entries && v.entries[..0] == [];
      }
    } else {
      match v
      case JInt(i) => IntRoundTrip(i, indent, rest);
      case JStr(s) => StrRoundTrip(s, indent, rest);
      case JNull => WordRoundTrip(v, indent, rest);
      case JBool(_) => WordRoundTrip(v, indent, rest);
    }
  }

  lemma Bracketed(open: Text, body: Text, rest: Text)
    requires |open| == 1
    ensures (open + body + rest)[0] == open[0] && (open + body + rest)[1..] == body + rest
  {
  }

  lemma EmptyContainer(v: JVal, indent: Text, rest: Text)
    requires v == JArr([]) || v == JObj([])
    ensures ParseValue(Lit(v, indent) + rest) == Done(v, rest)
  {
    var t := Lit(v, indent) + rest;
    assert t[1..][1..] == rest;
    SkipTo([], t[1..]);
  }

  lemma SkipTo(gap: Text, t: Text)
    requires Blank(gap) && t != [] && !IsWs(t[0])
    ensures SkipWs(gap + t) == t && SkipWs(t) == t
  {
    SkipBlank(gap, t);
    SkipBlank([], t);
    assert [] + t == t;
  }

  /** Items from `k` on, as they stand after the opening bracket or a comma. */
  lemma {:induction false} ElemsRoundTrip(v: JVal, k: nat, indent: Text, rest: Text)
    requires v.JArr? && IsData(v) && k <= |v.items| && Blank(indent)
    ensures ParseElems([NL] + Items(v.items[k..], indent + [SPACE, SPACE]) + indent + [RBRACK] + rest) == Done(v.items[k..], rest)
    decreases v, 0, |v.items| - k
  {
    var inner := indent + [SPACE, SPACE];
    var vs := v.items[k..];
    var t := [NL] + Items(vs, inner) + indent + [RBRACK] + rest;
    if vs == [] {
      assert t == ([NL] + indent) + ([RBRACK] + rest);
      SkipTo([NL] + indent, [RBRACK] + rest);
      assert ([RBRACK] + rest)[1..] == rest;
    } else {
      var x := Lit(vs[0], inner);
      var after := [NL] + Items(vs[1..], inner) + indent + [RBRACK] + rest;
      ElemRegroup([NL], inner, x, [COMMA], Items(vs[1..], inner), indent, [RBRACK], rest);
      assert [COMMA, NL] == [COMMA] + [NL];
      LitHead(vs[0], inner);
      LitRoundTrip(vs[0], inner, [COMMA] + after);
      assert vs[1..] == v.items[k + 1..];
      ElemsRoundTrip(v, k + 1, indent, rest);
      ParseElemStep([NL] + inner, x, vs[0], after, vs[1..], rest);
      assert [vs[0]] + vs[1..] == vs;
    }
  }

  lemma ElemRegroup(nl: Text, inner: Text, x: Text, comma: Text, more: Text, indent: Text, close: Text, rest: Text)
    ensures nl + (inner + x + (comma + nl) + more) + indent + close + rest
         == (nl + inner) + (x + (comma + (nl + more + indent + close + rest)))
  {
  }

  /** One item and its comma, given that the rest of the list parses. */
  lemma ParseElemStep(gap: Text, body: Text, value: JVal, more: Text, vs: seq<JVal>, rest: Text)
    requires Blank(gap) && body != [] && !IsWs(body[0]) && body[0] != RBRACK
    requires ParseValue(body + ([COMMA] + more)) == Done(value, [COMMA] + more) && ParseElems(more) == Done(vs, rest)
    ensures ParseElems(gap + (body + ([COMMA] + more))) == Done([value] + vs, rest)
  {
    SkipTo(gap, body + ([COMMA] + more));
    SkipTo([], [COMMA] + more);
    assert ([COMMA] + more)[1..] == more;
  }

  lemma {:induction false} DefineNew(es: seq<Entry>, key: Text, value: JVal)
    requires forall i | 0 <= i < |es| :: es[i].key != key
    ensures Define(es, key, value) == es + [Entry(key, value)]
  {
    if es != [] { DefineNew(es[1..], key, value); }
  }

  lemma NoProps(t: Text, indent: Text, rest: Text, done: seq<Entry>)
    requires Blank(indent) && t == [NL] + [] + indent + [RBRACE] + rest
    ensures ParseProps(t, done) == Done(done, rest)
  {
    assert t == ([NL] + indent) + ([RBRACE] + rest);
    SkipTo([NL] + indent, [RBRACE] + rest);
    assert ([RBRACE] + rest)[1..] == rest;
  }

  /** Properties from `k` on, the earlier ones already defined. */
  lemma {:induction false} PropsRoundTrip(v: JVal, k: nat, indent: Text, rest: Text)
    requires v.JObj? && IsData(v) && k <= |v.entries| && Blank(indent)
    ensures ParseProps([NL] + Props(v.entries[k..], indent + [SPACE, SPACE]) + indent + [RBRACE] + rest, v.entries[..k])
         == Done(v.entries, rest)
    decreases v, 0, |v.entries| - k
  {
    var inner := indent + [SPACE, SPACE];
    var es, done := v.entries[k..], v.entries[..k];
    var t := [NL] + Props(es, inner) + indent + [RBRACE] + rest;
    if es == [] {
      NoProps(t, indent, rest, done);
      assert done == v.entries;
    } else {
      EntriesAt(v.entries, k);
      var after := [NL] + Props(es[1..], inner) + indent + [RBRACE] + rest;
      PropsRoundTrip(v, k + 1, indent, rest);
      LitRoundTrip(es[0].value, inner, [COMMA] + after);
      PropStep(t, es, inner, indent, rest, after, done);
    }
  }

  /** The entries from `k` on, and those before with the next one defined. */
  lemma EntriesAt(es: seq<Entry>, k: nat)
    requires k < |es| && IsData(JObj(es))
    ensures es[k..] != [] && es[k..][0] == es[k] && es[k..][1..] == es[k + 1..]
    ensures Identifier(es[k].key) && forall i | 0 <= i < |es[k..]| :: IsData(es[k..][i].value)
    ensures Define(es[..k], es[k].key, es[k].value) == es[..k + 1]
  {
    DefineNew(es[..k], es[k].key, es[k].value);
    assert es[..k] + [Entry(es[k].key, es[k].value)] == es[..k + 1];
  }

  /** Reading the first of the remaining property lines. */
  lemma PropStep(t: Text, es: seq<Entry>, inner: Text, indent: Text, rest: Text, after: Text, done: seq<Entry>)
    requires es != [] && (forall i | 0 <= i < |es| :: IsData(es[i].value)) && Identifier(es[0].key) && Blank(inner)
    requires t == [NL] + Props(es, inner) + indent + [RBRACE] + rest
    requires after == [NL] + Props(es[1..], inner) + indent + [RBRACE] + rest
    requires ParseValue(Lit(es[0].value, inner) + ([COMMA] + after)) == Done(es[0].value, [COMMA] + after)
    ensures ParseProps(t, done) == ParseProps(after, Define(done, es[0].key, es[0].value))
  {
    PropLine(t, es, inner, indent, rest, after);
    LitHead(es[0].value, inner);
    ParsePropStep([NL] + inner, es[0].key, Lit(es[0].value, inner) + ([COMMA] + after), es[0].value, after, done);
  }

  lemma PropLine(t: Text, es: seq<Entry>, inner: Text, indent: Text, rest: Text, after: Text)
    requires es != [] && forall i | 0 <= i < |es| :: IsData(es[i].value)
    requires t == [NL] + Props(es, inner) + indent + [RBRACE] + rest
    requires after == [NL] + Props(es[1..], inner) + indent + [RBRACE] + rest
    ensures t == ([NL] + inner) + (es[0].key + ([COLON] + ([SPACE] + (Lit(es[0].value, inner) + ([COMMA] + after)))))
  {
    var key, x, more := es[0].key, Lit(es[0].value, inner), Props(es[1..], inner);
    assert [COMMA, NL] == [COMMA] + [NL] && [COLON, SPACE] == [COLON] + [SPACE];
    var line := inner + key + [COLON, SPACE] + x + [COMMA, NL] + more;
    assert Props(es, inner) == line;
    Tail([NL] + line, indent, [RBRACE], rest);
    Tail([NL] + more, indent, [RBRACE], rest);
    Regroup([NL], inner, key, [COLON], [SPACE], x, [COMMA], more, indent + [RBRACE] + rest);
  }

  lemma Tail(a: Text, b: Text, c: Text, d: Text)
    ensures a + b + c + d == a + (b + c + d)
  {
  }

  lemma Regroup(nl: Text, inner: Text, key: Text, colon: Text, space: Text, x: Text, comma: Text, more: Text, close: Text)
    ensures nl + (inner + key + (colon + space) + x + (comma + nl) + more) + close
         == (nl + inner) + (key + (colon + (space + (x + (comma + (nl + more + close))))))
  {
    var a := comma + (nl + more + close);
    assert (comma + nl) + more + close == a;
    var b := x + a;
    assert x + (comma + nl) + more + close == b;
    var c := colon + (space + b);
    assert (colon + space) + x + (comma + nl) + more + close == c;
    assert nl + (inner + key + (colon + space) + x + (comma + nl) + more) + close == (nl + inner) + (key + c);
  }

  /** One property definition, given that its value parses. */
  lemma ParseOneProp(key: Text, v: Text, value: JVal, tail: Text)
    requires Identifier(key) && v != [] && !IsWs(v[0]) && ParseValue(v) == Done(value, tail)
    ensures ParseProp(key + ([COLON] + ([SPACE] + v))) == Done(Entry(key, value), tail)
  {
    var colon := [COLON] + ([SPACE] + v);
    RunOfName(key, colon);
    SkipTo([], colon);
    assert colon[1..] == [SPACE] + v;
    SkipTo([SPACE], v);
  }

  /** One `key: value,` line is read as one property definition. */
  /** Strings print as they are exactly when nothing in them needs an escape. */
  lemma {:induction false} EscapePlainIff(s: Text)
    requires forall i | 0 <= i < |s| :: !High(s[i]) && !Low(s[i])
    ensures Escape(s) == s <==> forall i | 0 <= i < |s| :: s[i] >= 32 && s[i] != QUOTE && s[i] != BACKSLASH
    ensures |Escape(s)| >= |s|
  {
    if s != [] {
      EscapePlainIff(s[1..]);
      var e := EscapeUnit(s[0]);
      assert |e| == 1 <==> s[0] >= 32 && s[0] != QUOTE && s[0] != BACKSLASH;
      assert Escape(s) == e + Escape(s[1..]) && |Escape(s)| == |e| + |Escape(s[1..])|;
      assert forall i | 0 < i < |s| :: s[i] == s[1..][i - 1];
      if |e| == 1 { assert Escape(s)[1..] == Escape(s[1..]); }
    }
  }

  /** Why keys must be names: `lit` prints them unquoted, and a line whose key has a
      hyphen in it cannot be read, whatever follows. */
  lemma HyphenKeyBreaks(indent: Text, name: Text, tail: Text)
    requires Blank(indent) && Identifier(name)
    ensures ParseValue([LBRACE] + ([NL] + indent + (name + ([MINUS] + tail)))) == Fail
  {
    var t := name + ([MINUS] + tail);
    var gap := [NL] + indent;
    RunOfName(name, [MINUS] + tail);
    assert ParseProp(t) == Fail by { assert SkipWs([MINUS] + tail) == [MINUS] + tail; }
    SkipTo(gap, t);
    assert ([LBRACE] + (gap + t))[1..] == gap + t;
  }

  lemma ParsePropStep(gap: Text, key: Text, v: Text, value: JVal, after: Text, done: seq<Entry>)
    requires Identifier(key) && Blank(gap) && v != [] && !IsWs(v[0]) && ParseValue(v) == Done(value, [COMMA] + after)
    ensures ParseProps(gap + (key + ([COLON] + ([SPACE] + v))), done) == ParseProps(after, Define(done, key, value))
  {
    ParseOneProp(key, v, value, [COMMA] + after);
    SkipTo(gap, key + ([COLON] + ([SPACE] + v)));
    SkipTo([], [COMMA] + after);
    assert ([COMMA] + after)[1..] == after;
  }

  /** One property that ends its object literal. */
  lemma ParseLastProp(gap: Text, key: Text, v: Text, value: JVal, tail: Text, rest: Text, done: seq<Entry>)
    requires Identifier(key) && Blank(gap) && v != [] && !IsWs(v[0])
    requires ParseValue(v) == Done(value, tail) && SkipWs(tail) == [RBRACE] + rest
    ensures ParseProps(gap + (key + ([COLON] + ([SPACE] + v))), done) == Done(Define(done, key, value), rest)
  {
    ParseOneProp(key, v, value, tail);
    SkipTo(gap, key + ([COLON] + ([SPACE] + v)));
    assert ([RBRACE] + rest)[1..] == rest;
  }

  /** Two data values with the same text, at any indentations, are equal. */
  lemma LitInjective(v: JVal, w: JVal, i: Text, j: Text)
    requires IsData(v) && IsData(w) && Blank(i) && Blank(j) && Lit(v, i) == Lit(w, j)
    ensures v == w
  {
    LitRoundTrip(v, i, []);
    LitRoundTrip(w, j, []);
  }
}
