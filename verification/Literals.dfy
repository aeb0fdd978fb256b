/** Data printed as TypeScript source: the scaffolder's `lit`, and the part of the
    ECMAScript literal grammar it prints (ECMA-262 sections 13.2.4 and 13.2.5,
    string escapes as in section 7 of RFC 8259). Text is a sequence of UTF-16
    code units, as JavaScript strings are. */
module Literals {
  import opened Decimals

  type Text = seq<nat>

  /** `JArrow` is the one function the emitted config contains, `() => true`;
      `JBuiltin` is what an empty object inherits under a name such as `constructor`. */
  datatype JVal =
    | JUndefined
    | JNull
    | JBool(b: bool)
    | JInt(i: int)
    | JStr(s: Text)
    | JArr(items: seq<JVal>)
    | JObj(entries: seq<Entry>)
    | JArrow
    | JBuiltin(name: Text)

  datatype Entry = Entry(key: Text, value: JVal)

  const NL: nat := 10
  const SPACE: nat := 32
  const QUOTE: nat := 34
  const COMMA: nat := 44
  const MINUS: nat := 45
  const COLON: nat := 58
  const LBRACK: nat := 91
  const BACKSLASH: nat := 92
  const RBRACK: nat := 93
  const LBRACE: nat := 123
  const RBRACE: nat := 125

  function Units(s: string): Text { seq(|s|, i requires 0 <= i < |s| => s[i] as nat) }

  predicate IsWs(u: nat) { u == NL || u == SPACE || u == 9 || u == 13 }
  predicate IsNum(u: nat) { 48 <= u <= 57 }
  predicate IdStart(u: nat) { 65 <= u <= 90 || 97 <= u <= 122 || u == 95 || u == 36 }
  predicate IdPart(u: nat) { IdStart(u) || IsNum(u) }
  predicate Blank(t: Text) { forall i | 0 <= i < |t| :: IsWs(t[i]) }

  const PROTO: Text := Units("__proto__")

  /** A name that prints unquoted as an ordinary property key. */
  predicate Identifier(t: Text) {
    t != [] && IdStart(t[0]) && (forall i | 0 <= i < |t| :: IdPart(t[i])) && t != PROTO
  }

  predicate DistinctKeys(es: seq<Entry>) { forall i, j | 0 <= i < j < |es| :: es[i].key != es[j].key }

  /** Finite data: no functions, no `undefined`, identifier keys, each once. */
  predicate IsData(v: JVal) {
    match v
    case JUndefined => false
    case JArrow => false
    case JBuiltin(_) => false
    case JArr(items) => forall i | 0 <= i < |items| :: IsData(items[i])
    case JObj(es) => DistinctKeys(es) && forall i | 0 <= i < |es| :: Identifier(es[i].key) && IsData(es[i].value)
    case _ => true
  }

  // --- Printing -------------------------------------------------------------------------

  predicate High(u: nat) { 0xD800 <= u <= 0xDBFF }
  predicate Low(u: nat) { 0xDC00 <= u <= 0xDFFF }

  function Hex(d: nat): nat
    requires d < 16
  {
    if d < 10 then 48 + d else 87 + d
  }

  function Hex4(u: nat): Text
    requires u < 0x10000
  {
    [Hex(u / 4096), Hex(u / 256 % 16), Hex(u / 16 % 16), Hex(u % 16)]
  }

  function EscapeUnit(u: nat): Text {
    if u == QUOTE || u == BACKSLASH then [BACKSLASH, u]
    else if u == 8 then [BACKSLASH, 98]
    else if u == 9 then [BACKSLASH, 116]
    else if u == 10 then [BACKSLASH, 110]
    else if u == 12 then [BACKSLASH, 102]
    else if u == 13 then [BACKSLASH, 114]
    else if u < 32 || High(u) || Low(u) then [BACKSLASH, 117] + Hex4(u)
    else [u]
  }

  /** `JSON.stringify` of a string, without its quotes: surrogate pairs stay,
      lone surrogates are escaped. */
  function Escape(s: Text): Text {
    if s == [] then []
    else if |s| > 1 && High(s[0]) && Low(s[1]) then [s[0], s[1]] + Escape(s[2..])
    else EscapeUnit(s[0]) + Escape(s[1..])
  }

  function IntText(i: int): Text { if i < 0 then [MINUS] + Units(Dec(-i)) else Units(Dec(i)) }

  function Join(parts: seq<Text>, sep: Text): Text {
    if parts == [] then [] else if |parts| == 1 then parts[0] else parts[0] + sep + Join(parts[1..], sep)
  }

  /** `lit(value, indent)`. */
  function Lit(v: JVal, indent: Text): Text
    requires IsData(v)
  {
    var inner := indent + [SPACE, SPACE];
    match v
    case JNull => Units("null")
    case JStr(s) => [QUOTE] + Escape(s) + [QUOTE]
    case JInt(i) => IntText(i)
    case JBool(b) => Units(if b then "true" else "false")
    case JArr(items) =>
      if items == [] then [LBRACK, RBRACK]
      else
        var parts := seq(|items|, i requires 0 <= i < |items| => inner + Lit(items[i], inner));
        [LBRACK, NL] + Join(parts, [COMMA, NL]) + [COMMA, NL] + indent + [RBRACK]
    case JObj(es) =>
      if es == [] then [LBRACE, RBRACE]
      else
        var parts := seq(|es|, i requires 0 <= i < |es| => inner + es[i].key + [COLON, SPACE] + Lit(es[i].value, inner));
        [LBRACE, NL] + Join(parts, [COMMA, NL]) + [COMMA, NL] + indent + [RBRACE]
  }

  // --- Parsing --------------------------------------------------------------------------

  datatype Parsed<+T> = Fail | Done(v: T, rest: Text)

  function SkipWs(t: Text): (r: Text)
    ensures |r| <= |t|
  {
    if t != [] && IsWs(t[0]) then SkipWs(t[1..]) else t
  }

  function Unhex(u: nat): int {
    if IsNum(u) then u - 48 else if 97 <= u <= 102 then u - 87 else if 65 <= u <= 70 then u - 55 else -1
  }

  /** The unit a one-character escape stands for. */
  function Unescape(c: nat): int {
    if c == QUOTE || c == BACKSLASH || c == 39 || c == 47 then c
    else if c == 98 then 8 else if c == 116 then 9 else if c == 110 then 10
    else if c == 118 then 11 else if c == 102 then 12 else if c == 114 then 13
    else -1
  }

  /** One source character or escape inside a string literal. */
  function ParseUnit(t: Text): (r: Parsed<nat>)
    ensures r.Done? ==> |r.rest| < |t|
  {
    if t == [] || t[0] == 10 || t[0] == 13 || t[0] == QUOTE then Fail
    else if t[0] != BACKSLASH then Done(t[0], t[1..])
    else if |t| >= 2 && Unescape(t[1]) >= 0 then Done(Unescape(t[1]), t[2..])
    else if |t| >= 6 && t[1] == 117 then
      var a, b, c, d := Unhex(t[2]), Unhex(t[3]), Unhex(t[4]), Unhex(t[5]);
      if a >= 0 && b >= 0 && c >= 0 && d >= 0 then Done(a * 4096 + b * 256 + c * 16 + d, t[6..]) else Fail
    else Fail
  }

  /** The rest of a string literal after its opening quote. */
  function ParseString(t: Text): (r: Parsed<Text>)
    ensures r.Done? ==> |r.rest| < |t|
    decreases |t|
  {
    if t != [] && t[0] == QUOTE then Done([], t[1..])
    else
      var u := ParseUnit(t);
      if u.Fail? then Fail
      else
        var r := ParseString(u.rest);
        if r.Fail? then Fail else Done([u.v] + r.v, r.rest)
  }

  /** Length of the longest prefix of digits, or of identifier characters. */
  function DigitRun(t: Text): (n: nat)
    ensures n <= |t| && forall i | 0 <= i < n :: IsNum(t[i])
    ensures n < |t| ==> !IsNum(t[n])
  {
    if t != [] && IsNum(t[0]) then 1 + DigitRun(t[1..]) else 0
  }

  function NameRun(t: Text): (n: nat)
    ensures n <= |t| && forall i | 0 <= i < n :: IdPart(t[i])
    ensures n < |t| ==> !IdPart(t[n])
  {
    if t != [] && IdPart(t[0]) then 1 + NameRun(t[1..]) else 0
  }

  function Digits(t: Text): (s: string)
    requires forall i | 0 <= i < |t| :: IsNum(t[i])
    ensures |s| == |t| && forall i | 0 <= i < |s| :: IsDigit(s[i]) && s[i] as nat == t[i]
  {
    seq(|t|, i requires 0 <= i < |t| && IsNum(t[i]) => Digit(t[i] - 48))
  }

  /** A decimal integer literal; what follows must not continue a numeric token. */
  function ParseNat(t: Text): (r: Parsed<nat>)
    ensures r.Done? ==> |r.rest| < |t|
  {
    var n := DigitRun(t);
    if n == 0 || !Canonical(Digits(t[..n])) || (n < |t| && (IdPart(t[n]) || t[n] == 46)) then Fail
    else Done(Val(Digits(t[..n])), t[n..])
  }

  const ARROW: Text := Units("() => true")

  function ParseWord(t: Text): (r: Parsed<JVal>)
    ensures r.Done? ==> |r.rest| < |t|
  {
    var n := NameRun(t);
    if t[..n] == Units("null") then Done(JNull, t[n..])
    else if t[..n] == Units("true") then Done(JBool(true), t[n..])
    else if t[..n] == Units("false") then Done(JBool(false), t[n..])
    else if ARROW <= t then Done(JArrow, t[|ARROW|..])
    else Fail
  }

  /** A literal at the start of `t`; what it leaves unread is returned. */
  function ParseValue(t: Text): (r: Parsed<JVal>)
    ensures r.Done? ==> |r.rest| < |t|
    decreases |t|, 0
  {
    if t == [] then Fail
    else if t[0] == QUOTE then
      var r := ParseString(t[1..]);
      if r.Fail? then Fail else Done(JStr(r.v), r.rest)
    else if t[0] == LBRACK then
      var r := ParseElems(t[1..]);
      if r.Fail? then Fail else Done(JArr(r.v), r.rest)
    else if t[0] == LBRACE then
      var r := ParseProps(t[1..], []);
      if r.Fail? then Fail else Done(JObj(r.v), r.rest)
    else if t[0] == MINUS then
      var r := ParseNat(t[1..]);
      if r.Fail? then Fail else Done(JInt(0 - r.v), r.rest)
    else if IsNum(t[0]) then
      var r := ParseNat(t);
      if r.Fail? then Fail else Done(JInt(r.v), r.rest)
    else ParseWord(t)
  }

  /** The rest of an array literal; a trailing comma is allowed. */
  function ParseElems(t: Text): (r: Parsed<seq<JVal>>)
    ensures r.Done? ==> |r.rest| < |t|
    decreases |t|, 1
  {
    var s := SkipWs(t);
    if s != [] && s[0] == RBRACK then Done([], s[1..])
    else
      var x := ParseValue(s);
      if x.Fail? then Fail
      else
        var rest := SkipWs(x.rest);
        if rest != [] && rest[0] == RBRACK then Done([x.v], rest[1..])
        else if rest != [] && rest[0] == COMMA then
          var r := ParseElems(rest[1..]);
          if r.Fail? then Fail else Done([x.v] + r.v, r.rest)
        else Fail
  }

  /** Defining a property: a later definition of the same key wins, in place. */
  function Define(es: seq<Entry>, key: Text, value: JVal): seq<Entry> {
    if es == [] then [Entry(key, value)]
    else if es[0].key == key then [Entry(key, value)] + es[1..]
    else [es[0]] + Define(es[1..], key, value)
  }

  /** One property definition, `key: value`. */
  function ParseProp(t: Text): (r: Parsed<Entry>)
    ensures r.Done? ==> |r.rest| < |t|
    decreases |t|, 1
  {
    var n := NameRun(t);
    var colon := SkipWs(t[n..]);
    if n == 0 || !Identifier(t[..n]) || colon == [] || colon[0] != COLON then Fail
    else
      var x := ParseValue(SkipWs(colon[1..]));
      if x.Fail? then Fail else Done(Entry(t[..n], x.v), x.rest)
  }

  /** The rest of an object literal, its properties defined one after another. */
  function ParseProps(t: Text, done: seq<Entry>): (r: Parsed<seq<Entry>>)
    ensures r.Done? ==> |r.rest| < |t|
    decreases |t|, 2
  {
    var s := SkipWs(t);
    if s != [] && s[0] == RBRACE then Done(done, s[1..])
    else
      var x := ParseProp(s);
      if x.Fail? then Fail
      else
        var rest := SkipWs(x.rest);
        var now := Define(done, x.v.key, x.v.value);
        if rest != [] && rest[0] == RBRACE then Done(now, rest[1..])
        else if rest != [] && rest[0] == COMMA then ParseProps(rest[1..], now)
        else Fail
  }

  // --- Tokens: printing then parsing -------------------------------------------------------

  /** What may follow a literal in the printed text. */
  predicate Delimited(rest: Text) {
    rest != [] ==> IsWs(rest[0]) || rest[0] == COMMA || rest[0] == RBRACK || rest[0] == RBRACE
  }

  lemma {:induction false} SkipBlank(b: Text, t: Text)
    requires Blank(b) && (t != [] ==> !IsWs(t[0]))
    ensures SkipWs(b + t) == t
  {
    if b == [] {
      assert b + t == t;
    } else {
      assert (b + t)[1..] == b[1..] + t;
      SkipBlank(b[1..], t);
    }
  }

  lemma ParseEscapedUnit(u: nat, rest: Text)
    ensures ParseUnit(EscapeUnit(u) + rest) == Done(u, rest)
    ensures EscapeUnit(u)[0] != QUOTE
  {
    var e := EscapeUnit(u);
    if u < 0x10000 && e == [BACKSLASH, 117] + Hex4(u) {
      UnhexHex4(u);
      assert (e + rest)[6..] == rest;
      assert (e + rest)[2..6] == Hex4(u);
    } else if |e| == 2 {
      assert (e + rest)[2..] == rest;
    } else {
      assert (e + rest)[1..] == rest;
    }
  }

  lemma UnhexHex4(u: nat)
    requires u < 0x10000
    ensures var h := Hex4(u);
      && (forall i | 0 <= i < 4 :: Unhex(h[i]) >= 0)
      && Unhex(h[0]) * 4096 + Unhex(h[1]) * 256 + Unhex(h[2]) * 16 + Unhex(h[3]) == u
  {
    assert forall d: nat | d < 16 :: Unhex(Hex(d)) == d;
    var a, b, c := u / 16, u / 256, u / 4096;
    assert b == a / 16 && c == b / 16;
    assert u == a * 16 + u % 16 && a == b * 16 + a % 16 && b == c * 16 + b % 16;
  }

  lemma StringStep(e: Text, u: nat, t: Text, s: Text, rest: Text)
    requires e != [] && e[0] != QUOTE && ParseUnit(e + t) == Done(u, t) && ParseString(t) == Done(s, rest)
    ensures ParseString(e + t) == Done([u] + s, rest)
  {
  }

  lemma PairStep(a: nat, b: nat, t: Text, s: Text, rest: Text)
    requires High(a) && Low(b) && ParseString(t) == Done(s, rest)
    ensures ParseString([a, b] + t) == Done([a, b] + s, rest)
  {
    assert ([b] + t)[1..] == t && ([a] + ([b] + t))[1..] == [b] + t;
    StringStep([b], b, t, s, rest);
    StringStep([a], a, [b] + t, [b] + s, rest);
    assert [a] + ([b] + t) == [a, b] + t && [a] + ([b] + s) == [a, b] + s;
  }

  lemma EscapeStep(u: nat, t: Text, s: Text, rest: Text)
    requires ParseString(t) == Done(s, rest)
    ensures ParseString(EscapeUnit(u) + t) == Done([u] + s, rest)
  {
    ParseEscapedUnit(u, t);
    StringStep(EscapeUnit(u), u, t, s, rest);
  }

  lemma Associate(a: Text, b: Text, c: Text)
    ensures a + b + c == a + (b + c)
  {
  }

  /** Unescaping inverts escaping, and stops at the closing quote. */
  lemma {:induction false} ParseEscaped(s: Text, rest: Text)
    ensures ParseString(Escape(s) + ([QUOTE] + rest)) == Done(s, rest)
    decreases |s|
  {
    var tail := [QUOTE] + rest;
    if s == [] {
      assert Escape(s) + tail == tail;
    } else if |s| > 1 && High(s[0]) && Low(s[1]) {
      var more := Escape(s[2..]);
      ParseEscaped(s[2..], rest);
      PairStep(s[0], s[1], more + tail, s[2..], rest);
      var pair := [s[0], s[1]];
      Associate(pair, more, tail);
      assert pair + s[2..] == s;
    } else {
      var more := Escape(s[1..]);
      ParseEscaped(s[1..], rest);
      EscapeStep(s[0], more + tail, s[1..], rest);
      Associate(EscapeUnit(s[0]), more, tail);
      assert [s[0]] + s[1..] == s;
    }
  }

  lemma {:induction false} RunOfDigits(t: Text, rest: Text)
    requires forall i | 0 <= i < |t| :: IsNum(t[i])
    requires rest != [] ==> !IsNum(rest[0])
    ensures DigitRun(t + rest) == |t|
  {
    if t == [] {
      assert t + rest == rest;
    } else {
      assert (t + rest)[1..] == t[1..] + rest;
      RunOfDigits(t[1..], rest);
    }
  }

  lemma {:induction false} RunOfName(t: Text, rest: Text)
    requires forall i | 0 <= i < |t| :: IdPart(t[i])
    requires rest != [] ==> !IdPart(rest[0])
    ensures NameRun(t + rest) == |t| && (t + rest)[..|t|] == t && (t + rest)[|t|..] == rest
  {
    if t == [] {
      assert t + rest == rest;
    } else {
      assert (t + rest)[1..] == t[1..] + rest;
      RunOfName(t[1..], rest);
    }
  }

  lemma ParsePrintedNat(n: nat, rest: Text)
    requires Delimited(rest)
    ensures ParseNat(Units(Dec(n)) + rest) == Done(n, rest)
    ensures Units(Dec(n)) != [] && IsNum(Units(Dec(n))[0])
  {
    var s := Dec(n);
    DecCanonical(n);
    var t := Units(s);
    assert forall i | 0 <= i < |t| :: IsNum(t[i]) by { assert forall i | 0 <= i < |s| :: IsDigit(s[i]); }
    RunOfDigits(t, rest);
    assert (t + rest)[..|t|] == t && (t + rest)[|t|..] == rest;
    assert Digits(t) == s;
  }

  lemma ParsePrintedWord(v: JVal, rest: Text)
    requires (v.JNull? || v.JBool?) && Delimited(rest)
    ensures ParseWord(Lit(v, []) + rest) == Done(v, rest)
    ensures Lit(v, []) != [] && IdStart(Lit(v, [])[0])
  {
    var t := Lit(v, []);
    RunOfName(t, rest);
    assert |"null"| == 4 && |"true"| == 4 && Units("null")[0] == 110 && Units("true")[0] == 116;
  }
}
