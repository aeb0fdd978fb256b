/** Scaffold names: `toSlug` normalizes any name to snake_case, `toCamel` turns a
    slug into an identifier. */
module Slug {
  import opened Decimals
  import opened Whitespace

  predicate Lower(c: char) { 'a' <= c <= 'z' }
  predicate Upper(c: char) { 'A' <= c <= 'Z' }
  predicate LowNum(c: char) { Lower(c) || IsDigit(c) }
  predicate Alnum(c: char) { LowNum(c) || Upper(c) }

  function ToLower(c: char): char { if Upper(c) then (c as int + 32) as char else c }
  function ToUpper(c: char): char { if Lower(c) then (c as int - 32) as char else c }

  function TrimLeft(s: string): string { if s != "" && IsSpace(s[0]) then TrimLeft(s[1..]) else s }
  function TrimRight(s: string): string { if s != "" && IsSpace(s[|s| - 1]) then TrimRight(s[..|s| - 1]) else s }

  function SkipOther(s: string): (r: string)
    ensures |r| <= |s| && (r != "" ==> Alnum(r[0]))
  {
    if s != "" && !Alnum(s[0]) then SkipOther(s[1..]) else s
  }

  /** `replace(/[^A-Za-z0-9]+/g, '_')`. */
  function Collapse(s: string): string
    decreases |s|
  {
    if s == "" then ""
    else if Alnum(s[0]) then [s[0]] + Collapse(s[1..])
    else "_" + Collapse(SkipOther(s))
  }

  /** `replace(/([a-z0-9])([A-Z])/g, '$1_$2')`: a match consumes both characters. */
  function Boundaries(s: string): string
    decreases |s|
  {
    if |s| >= 2 && LowNum(s[0]) && Upper(s[1]) then [s[0], '_', s[1]] + Boundaries(s[2..])
    else if s == "" then "" else [s[0]] + Boundaries(s[1..])
  }

  function StripLeft(s: string): string { if s != "" && s[0] == '_' then StripLeft(s[1..]) else s }
  function StripRight(s: string): string { if s != "" && s[|s| - 1] == '_' then StripRight(s[..|s| - 1]) else s }

  function LowerAll(s: string): (r: string)
    ensures |r| == |s| && forall i | 0 <= i < |s| :: r[i] == ToLower(s[i])
  {
    if s == "" then "" else [ToLower(s[0])] + LowerAll(s[1..])
  }

  function ToSlug(name: string): string {
    LowerAll(StripRight(StripLeft(Boundaries(Collapse(TrimRight(TrimLeft(name)))))))
  }

  /** `replace(/_([a-z0-9])/g, (_, c) => c.toUpperCase())`. */
  function ToCamel(s: string): string
    decreases |s|
  {
    if |s| >= 2 && s[0] == '_' && LowNum(s[1]) then [ToUpper(s[1])] + ToCamel(s[2..])
    else if s == "" then "" else [s[0]] + ToCamel(s[1..])
  }

  // --- Normal form ------------------------------------------------------------------------

  /** Alphanumerics and single underscores. */
  predicate Joined(s: string) {
    && (forall i | 0 <= i < |s| :: Alnum(s[i]) || s[i] == '_')
    && (forall i | 0 <= i < |s| - 1 :: s[i] != '_' || s[i + 1] != '_')
  }

  predicate NoUpper(s: string) { forall i | 0 <= i < |s| :: !Upper(s[i]) }

  /** Empty, or lowercase alphanumeric segments joined by single underscores. */
  predicate SlugForm(s: string) {
    Joined(s) && NoUpper(s) && (s != "" ==> s[0] != '_' && s[|s| - 1] != '_')
  }

  lemma {:induction false} CollapseJoined(s: string)
    ensures Joined(Collapse(s)) && (s != "" && Alnum(s[0]) ==> Collapse(s)[..1] == s[..1])
    decreases |s|
  {
    if s != "" {
      if Alnum(s[0]) { CollapseJoined(s[1..]); } else { CollapseJoined(SkipOther(s)); }
    }
  }

  lemma {:induction false} BoundariesJoined(s: string)
    requires Joined(s)
    ensures Joined(Boundaries(s)) && (s != "" ==> Boundaries(s) != "" && Boundaries(s)[0] == s[0])
    decreases |s|
  {
    if |s| >= 2 && LowNum(s[0]) && Upper(s[1]) {
      BoundariesJoined(s[2..]);
    } else if s != "" {
      BoundariesJoined(s[1..]);
    }
  }

  lemma {:induction false} StripJoined(s: string)
    requires Joined(s)
    ensures Joined(StripLeft(s)) && (StripLeft(s) != "" ==> StripLeft(s)[0] != '_')
    decreases |s|
  {
    if s != "" && s[0] == '_' { StripJoined(s[1..]); }
  }

  lemma {:induction false} StripRightJoined(s: string)
    requires Joined(s) && (s != "" ==> s[0] != '_')
    ensures var r := StripRight(s); Joined(r) && (r != "" ==> r[0] != '_' && r[|r| - 1] != '_')
    decreases |s|
  {
    if s != "" && s[|s| - 1] == '_' { StripRightJoined(s[..|s| - 1]); }
  }

  /** Every output is in normal form. */
  lemma ToSlugNormal(name: string)
    ensures SlugForm(ToSlug(name))
  {
    var c := Collapse(TrimRight(TrimLeft(name)));
    CollapseJoined(TrimRight(TrimLeft(name)));
    BoundariesJoined(c);
    StripJoined(Boundaries(c));
    StripRightJoined(StripLeft(Boundaries(c)));
    LowerNormal(StripRight(StripLeft(Boundaries(c))));
  }

  lemma LowerNormal(s: string)
    requires Joined(s) && (s != "" ==> s[0] != '_' && s[|s| - 1] != '_')
    ensures SlugForm(LowerAll(s))
  {
    var r := LowerAll(s);
    forall i | 0 <= i < |r| ensures (Alnum(r[i]) || r[i] == '_') && !Upper(r[i]) && (r[i] == '_' <==> s[i] == '_') {
      assert r[i] == ToLower(s[i]);
    }
  }

  lemma {:induction false} CollapseFixed(s: string)
    requires Joined(s)
    ensures Collapse(s) == s
    decreases |s|
  {
    if s != "" {
      CollapseFixed(s[1..]);
      if s[0] == '_' { assert SkipOther(s) == SkipOther(s[1..]) == s[1..]; }
    }
  }

  lemma {:induction false} BoundariesFixed(s: string)
    requires NoUpper(s)
    ensures Boundaries(s) == s
  {
    if s != "" { BoundariesFixed(s[1..]); }
  }

  lemma NoSpace(s: string)
    requires Joined(s)
    ensures TrimRight(TrimLeft(s)) == s
  {
  }

  /** `toSlug` is the identity on exactly the normal forms, so it is idempotent. */
  lemma ToSlugFixedIff(s: string)
    ensures ToSlug(s) == s <==> SlugForm(s)
    ensures ToSlug(ToSlug(s)) == ToSlug(s)
  {
    ToSlugNormal(s);
    if SlugForm(s) { ToSlugFixed(s); }
    ToSlugFixed(ToSlug(s));
  }

  lemma ToSlugFixed(s: string)
    requires SlugForm(s)
    ensures ToSlug(s) == s
  {
    NoSpace(s);
    CollapseFixed(s);
    BoundariesFixed(s);
  }

  lemma LowerAllCons(a: string, b: string)
    ensures LowerAll(a + b) == LowerAll(a) + LowerAll(b)
  {
  }

  // --- Nothing but separators and case is changed ---------------------------------------------

  /** The letters and digits of a string, in order. */
  function Letters(s: string): string {
    if s == "" then "" else (if Alnum(s[0]) then [s[0]] else "") + Letters(s[1..])
  }

  lemma LettersCons(c: char, s: string)
    ensures Letters([c] + s) == (if Alnum(c) then [c] else "") + Letters(s)
  {
    assert ([c] + s)[1..] == s;
  }

  lemma {:induction false} LettersAppend(a: string, b: string)
    ensures Letters(a + b) == Letters(a) + Letters(b)
  {
    if a == "" {
      assert a + b == b;
    } else {
      LettersAppend(a[1..], b);
      LettersCons(a[0], a[1..] + b);
      assert [a[0]] + (a[1..] + b) == a + b;
    }
  }

  lemma {:induction false} TrimLeftKeepsLetters(s: string)
    ensures Letters(TrimLeft(s)) == Letters(s)
  {
    if s != "" && IsSpace(s[0]) {
      TrimLeftKeepsLetters(s[1..]);
      assert !Alnum(s[0]) && Letters(s) == Letters(s[1..]);
    }
  }

  /** A last character that is neither letter nor digit does not matter. */
  lemma LettersButLast(s: string)
    requires s != "" && !Alnum(s[|s| - 1])
    ensures Letters(s[..|s| - 1]) == Letters(s)
  {
    var last := [s[|s| - 1]];
    LettersAppend(s[..|s| - 1], last);
    assert s == s[..|s| - 1] + last;
    assert last[1..] == "" && Letters(last) == "";
  }

  lemma {:induction false} TrimRightKeepsLetters(s: string)
    ensures Letters(TrimRight(s)) == Letters(s)
    decreases |s|
  {
    if s != "" && IsSpace(s[|s| - 1]) {
      TrimRightKeepsLetters(s[..|s| - 1]);
      LettersButLast(s);
    }
  }

  lemma {:induction false} CollapseKeepsLetters(s: string)
    ensures Letters(SkipOther(s)) == Letters(s) && Letters(Collapse(s)) == Letters(s)
    decreases |s|
  {
    if s != "" {
      CollapseKeepsLetters(s[1..]);
      if !Alnum(s[0]) { CollapseKeepsLetters(SkipOther(s)); }
    }
  }

  lemma {:induction false} BoundariesKeepLetters(s: string)
    ensures Letters(Boundaries(s)) == Letters(s)
    decreases |s|
  {
    if |s| >= 2 && LowNum(s[0]) && Upper(s[1]) {
      BoundariesKeepLetters(s[2..]);
      LettersAppend([s[0], '_', s[1]], Boundaries(s[2..]));
      LettersAppend([s[0], s[1]], s[2..]);
      assert s == [s[0], s[1]] + s[2..];
      assert Letters([s[0], '_', s[1]]) == Letters([s[0], s[1]]);
    } else if s != "" {
      BoundariesKeepLetters(s[1..]);
    }
  }

  lemma {:induction false} StripKeepsLetters(s: string)
    ensures Letters(StripLeft(s)) == Letters(s) && Letters(StripRight(s)) == Letters(s)
    decreases |s|
  {
    if s != "" && s[0] == '_' { StripKeepsLetters(s[1..]); }
    if s != "" && s[|s| - 1] == '_' {
      StripKeepsLetters(s[..|s| - 1]);
      LettersButLast(s);
    }
  }

  lemma {:induction false} LowerLetters(s: string)
    ensures Letters(LowerAll(s)) == LowerAll(Letters(s))
  {
    if s != "" {
      LowerLetters(s[1..]);
      LowerAllCons(if Alnum(s[0]) then [s[0]] else "", Letters(s[1..]));
    }
  }

  /** A slug has exactly the letters and digits of the name, lowered, in order. */
  lemma ToSlugKeepsLetters(name: string)
    ensures Letters(ToSlug(name)) == LowerAll(Letters(name))
  {
    var t := TrimRight(TrimLeft(name));
    TrimLeftKeepsLetters(name);
    TrimRightKeepsLetters(TrimLeft(name));
    CollapseKeepsLetters(t);
    BoundariesKeepLetters(Collapse(t));
    StripKeepsLetters(Boundaries(Collapse(t)));
    StripKeepsLetters(StripLeft(Boundaries(Collapse(t))));
    LowerLetters(StripRight(StripLeft(Boundaries(Collapse(t)))));
  }

  // --- Where separators go ------------------------------------------------------------------

  predicate NoAlnum(s: string) { forall i | 0 <= i < |s| :: !Alnum(s[i]) }

  lemma {:induction false} SkipOtherAll(s: string, t: string)
    requires NoAlnum(s) && (t == "" || Alnum(t[0]))
    ensures SkipOther(s + t) == t
  {
    if s == "" {
      assert s + t == t;
    } else {
      assert (s + t)[1..] == s[1..] + t;
      SkipOtherAll(s[1..], t);
    }
  }

  /** Collapsing works segment by segment. */
  lemma {:induction false} CollapseJoin(a: string, sep: string, b: string)
    requires (a == "" || Alnum(a[|a| - 1])) && NoAlnum(sep) && (b == "" || Alnum(b[0]))
    ensures Collapse(a + sep + b) == Collapse(a) + (if sep == "" then "" else "_") + Collapse(b)
    decreases |a|
  {
    if a == "" {
      CollapseLead(sep, b);
      assert a + sep + b == sep + b;
    } else if Alnum(a[0]) {
      CollapseJoin(a[1..], sep, b);
      CollapseKept(a[0], a[1..], sep, b, if sep == "" then "" else "_");
      assert [a[0]] + a[1..] == a;
    } else {
      SkipInside(a, "");
      CollapseJoin(SkipOther(a), sep, b);
      CollapseSkipped(a, sep, b);
    }
  }

  lemma CollapseKept(c: char, a: string, sep: string, b: string, u: string)
    requires Alnum(c) && Collapse(a + sep + b) == Collapse(a) + u + Collapse(b)
    ensures Collapse([c] + a + sep + b) == Collapse([c] + a) + u + Collapse(b)
  {
    var w := a + sep + b;
    CollapseHead(c, w);
    CollapseHead(c, a);
    assert [c] + a + sep + b == [c] + w;
    Glue([c], Collapse(a), u, Collapse(b));
  }

  lemma CollapseSkipped(a: string, sep: string, b: string)
    requires a != "" && !Alnum(a[0]) && Alnum(a[|a| - 1])
    requires Collapse(SkipOther(a) + sep + b) == Collapse(SkipOther(a)) + (if sep == "" then "" else "_") + Collapse(b)
    ensures Collapse(a + sep + b) == Collapse(a) + (if sep == "" then "" else "_") + Collapse(b)
  {
    var rest := SkipOther(a);
    SkipInside(a, sep + b);
    assert a + sep + b == a + (sep + b) && rest + sep + b == rest + (sep + b);
    assert Collapse(a + sep + b) == "_" + Collapse(rest + sep + b);
    Glue("_", Collapse(rest), if sep == "" then "" else "_", Collapse(b));
  }

  lemma Glue(a: string, b: string, c: string, d: string)
    ensures a + (b + c + d) == (a + b) + c + d
  {
  }

  lemma CollapseHead(c: char, s: string)
    requires Alnum(c)
    ensures Collapse([c] + s) == [c] + Collapse(s)
  {
    assert ([c] + s)[1..] == s;
  }

  lemma CollapseLead(sep: string, b: string)
    requires NoAlnum(sep) && (b == "" || Alnum(b[0]))
    ensures Collapse(sep + b) == (if sep == "" then "" else "_") + Collapse(b)
  {
    SkipOtherAll(sep, b);
    if sep == "" { assert sep + b == b; }
  }

  lemma {:induction false} SkipInside(a: string, t: string)
    requires a != "" && Alnum(a[|a| - 1])
    ensures SkipOther(a + t) == SkipOther(a) + t
    ensures SkipOther(a) != "" && Alnum(SkipOther(a)[|SkipOther(a)| - 1])
    ensures !Alnum(a[0]) ==> |SkipOther(a)| < |a|
  {
    if !Alnum(a[0]) {
      assert (a + t)[1..] == a[1..] + t;
      SkipInside(a[1..], t);
    }
  }

  /** So does the search for case boundaries; one more is found where a lowercase letter
      or digit meets an uppercase letter. */
  lemma {:induction false} BoundariesJoin(a: string, b: string)
    requires a != "" && b != ""
    ensures Boundaries(a + b) == Boundaries(a) + (if LowNum(a[|a| - 1]) && Upper(b[0]) then "_" else "") + Boundaries(b)
    decreases |a|
  {
    var u := if LowNum(a[|a| - 1]) && Upper(b[0]) then "_" else "";
    if |a| == 1 {
      BoundaryAt(a[0], b);
      assert [a[0]] == a && Boundaries(a) == a by { assert a[1..] == ""; }
    } else {
      BoundariesJoin(a[1..], b);
      BoundaryAt(a[0], a[1..] + b);
      BoundaryAt(a[0], a[1..]);
      assert [a[0]] + a[1..] == a && [a[0]] + (a[1..] + b) == a + b;
      var v := if LowNum(a[0]) && Upper(a[1]) then "_" else "";
      Glue([a[0]] + v, Boundaries(a[1..]), u, Boundaries(b));
    }
  }

  /** A first character decides only about a boundary right after it. */
  lemma BoundaryAt(c: char, s: string)
    requires s != ""
    ensures Boundaries([c] + s) == ([c] + (if LowNum(c) && Upper(s[0]) then "_" else "")) + Boundaries(s)
  {
    var t := [c] + s;
    assert t[1..] == s;
    if LowNum(c) && Upper(s[0]) {
      assert t[2..] == s[1..];
      assert Boundaries(s) == [s[0]] + Boundaries(s[1..]);
      assert [c, '_', s[0]] + Boundaries(s[1..]) == [c] + "_" + ([s[0]] + Boundaries(s[1..]));
    }
  }

  // What is trimmed and stripped lies outside the first and the last letter or digit.

  lemma {:induction false} TrimLeftInside(a: string, t: string)
    requires a != "" && Alnum(a[|a| - 1])
    ensures var r := TrimLeft(a); TrimLeft(a + t) == r + t && r != "" && r[|r| - 1] == a[|a| - 1]
  {
    if IsSpace(a[0]) {
      assert (a + t)[1..] == a[1..] + t;
      TrimLeftInside(a[1..], t);
    }
  }

  lemma {:induction false} TrimRightInside(t: string, b: string)
    requires b != "" && Alnum(b[0])
    ensures var r := TrimRight(b); TrimRight(t + b) == t + r && r != "" && r[0] == b[0]
    decreases |b|
  {
    if IsSpace(b[|b| - 1]) {
      assert (t + b)[..|t + b| - 1] == t + b[..|b| - 1];
      TrimRightInside(t, b[..|b| - 1]);
    }
  }

  lemma {:induction false} StripLeftInside(a: string, t: string)
    requires a != "" && a[|a| - 1] != '_'
    ensures var r := StripLeft(a); StripLeft(a + t) == r + t && r != "" && r[|r| - 1] == a[|a| - 1]
  {
    if a[0] == '_' {
      assert (a + t)[1..] == a[1..] + t;
      StripLeftInside(a[1..], t);
    }
  }

  lemma {:induction false} StripRightInside(t: string, b: string)
    requires b != "" && b[0] != '_'
    ensures var r := StripRight(b); StripRight(t + b) == t + r && r != "" && r[0] == b[0]
    decreases |b|
  {
    if b[|b| - 1] == '_' {
      assert (t + b)[..|t + b| - 1] == t + b[..|b| - 1];
      StripRightInside(t, b[..|b| - 1]);
    }
  }

  lemma {:induction false} CollapseEnds(s: string)
    requires s != ""
    ensures var c := Collapse(s);
      && c != "" && (Alnum(s[0]) ==> c[0] == s[0]) && (Alnum(s[|s| - 1]) ==> c[|c| - 1] == s[|s| - 1])
    decreases |s|
  {
    if |s| > 1 {
      if Alnum(s[0]) {
        CollapseEnds(s[1..]);
      } else if Alnum(s[|s| - 1]) {
        SkipInside(s, "");
        SkipKeepsEnd(s);
        CollapseEnds(SkipOther(s));
      }
    }
  }

  lemma {:induction false} SkipKeepsEnd(s: string)
    requires s != "" && Alnum(s[|s| - 1])
    ensures SkipOther(s) != "" && SkipOther(s)[|SkipOther(s)| - 1] == s[|s| - 1]
  {
    if !Alnum(s[0]) { SkipKeepsEnd(s[1..]); }
  }

  lemma {:induction false} BoundariesEndsSame(s: string)
    requires s != ""
    ensures var b := Boundaries(s); b != "" && b[0] == s[0] && b[|b| - 1] == s[|s| - 1]
    decreases |s|
  {
    if |s| >= 2 && LowNum(s[0]) && Upper(s[1]) {
      if |s| > 2 { BoundariesEndsSame(s[2..]); }
    } else if |s| > 1 {
      BoundariesEndsSame(s[1..]);
    }
  }

  /** `toSlug` of a name that needs no trimming on one side. */
  function Core(trimmed: string): string { Boundaries(Collapse(trimmed)) }

  lemma CoreEnds(s: string)
    requires s != ""
    ensures Core(s) != "" && (Alnum(s[0]) ==> Core(s)[0] == s[0]) && (Alnum(s[|s| - 1]) ==> Core(s)[|Core(s)| - 1] == s[|s| - 1])
  {
    CollapseEnds(s);
    BoundariesEndsSame(Collapse(s));
  }

  /** `toSlug`, stage by stage. */
  lemma Stages(name: string, trimmed: string, core: string, left: string, right: string)
    requires TrimRight(TrimLeft(name)) == trimmed && Core(trimmed) == core && StripLeft(core) == left && StripRight(left) == right
    ensures ToSlug(name) == LowerAll(right)
  {
  }

  lemma EndKept(s: string)
    requires s != "" && Alnum(s[|s| - 1])
    ensures TrimRight(s) == s && StripRight(s) == s
  {
  }

  lemma StartKept(s: string)
    requires s != "" && Alnum(s[0])
    ensures TrimLeft(s) == s && StripLeft(s) == s
  {
  }

  lemma SlugOfLeft(a: string)
    requires a != "" && Alnum(a[|a| - 1])
    ensures ToSlug(a) == LowerAll(StripLeft(Core(TrimLeft(a))))
  {
    var x := TrimLeft(a);
    assert x != "" && Alnum(x[|x| - 1]) by { TrimLeftInside(a, ""); }
    assert TrimRight(x) == x by { EndKept(x); }
    var core := Core(x);
    assert core != "" && Alnum(core[|core| - 1]) by { CoreEnds(x); }
    LeftStage(a, x, core);
  }

  lemma LeftStage(a: string, x: string, core: string)
    requires TrimRight(TrimLeft(a)) == x && Core(x) == core && core != "" && Alnum(core[|core| - 1])
    ensures ToSlug(a) == LowerAll(StripLeft(core))
  {
    StripLeftInside(core, "");
    EndKept(StripLeft(core));
    Stages(a, x, core, StripLeft(core), StripLeft(core));
  }

  lemma SlugOfRight(b: string)
    requires b != "" && Alnum(b[0])
    ensures ToSlug(b) == LowerAll(StripRight(Core(TrimRight(b))))
  {
    var y := TrimRight(b);
    StartKept(b);
    TrimRightInside("", b);
    CoreEnds(y);
    RightStage(b, y, Core(y));
  }

  lemma RightStage(b: string, y: string, core: string)
    requires TrimRight(TrimLeft(b)) == y && Core(y) == core && core != "" && Alnum(core[0])
    ensures ToSlug(b) == LowerAll(StripRight(core))
  {
    StartKept(core);
    Stages(b, y, core, core, StripRight(core));
  }

  function Between(a: string, sep: string, b: string): string
    requires a != "" && b != ""
  {
    if sep != "" || (LowNum(a[|a| - 1]) && Upper(b[0])) then "_" else ""
  }

  lemma BoundariesApart(x: string, y: string)
    requires x != "" && y != ""
    ensures Boundaries(x + "_" + y) == Boundaries(x) + "_" + Boundaries(y)
  {
    var z := ['_'] + y;
    assert x + "_" + y == x + z;
    BoundariesJoin(x, z);
    BoundaryAt('_', y);
    assert Boundaries(x) + "" + (['_'] + "" + Boundaries(y)) == Boundaries(x) + "_" + Boundaries(y);
  }

  lemma CoreJoin(a: string, sep: string, b: string)
    requires a != "" && Alnum(a[|a| - 1]) && b != "" && Alnum(b[0]) && NoAlnum(sep)
    ensures Core(a + sep + b) == Core(a) + Between(a, sep, b) + Core(b)
  {
    CollapseJoin(a, sep, b);
    CollapseEnds(a);
    CollapseEnds(b);
    CollapsedJoin(Collapse(a), Collapse(b), sep, a, b);
  }

  lemma CollapsedJoin(x: string, y: string, sep: string, a: string, b: string)
    requires x != "" && y != "" && a != "" && b != "" && x[|x| - 1] == a[|a| - 1] && y[0] == b[0]
    ensures Boundaries(x + (if sep == "" then "" else "_") + y) == Boundaries(x) + Between(a, sep, b) + Boundaries(y)
  {
    if sep == "" {
      assert x + "" + y == x + y;
      BoundariesJoin(x, y);
    } else {
      BoundariesApart(x, y);
    }
  }

  lemma TrimJoin(a: string, sep: string, b: string)
    requires a != "" && Alnum(a[|a| - 1]) && b != "" && Alnum(b[0])
    ensures TrimRight(TrimLeft(a + sep + b)) == TrimLeft(a) + sep + TrimRight(b)
  {
    var x := TrimLeft(a);
    assert a + sep + b == a + (sep + b) && x + (sep + b) == (x + sep) + b;
    TrimLeftInside(a, sep + b);
    TrimRightInside(x + sep, b);
  }

  lemma StripJoin(a: string, u: string, b: string)
    requires a != "" && a[|a| - 1] != '_' && b != "" && b[0] != '_'
    ensures StripLeft(a + u + b) == StripLeft(a) + u + b
    ensures StripRight(StripLeft(a) + u + b) == StripLeft(a) + u + StripRight(b)
  {
    var l := StripLeft(a);
    assert a + u + b == a + (u + b) && l + (u + b) == (l + u) + b;
    StripLeftInside(a, u + b);
    StripRightInside(l + u, b);
  }

  /** A run of other characters between two letters or digits becomes one separator, and
      so does the place where a lowercase letter or digit meets an uppercase letter;
      anywhere else a name is put into a slug piece by piece. */
  lemma ToSlugJoin(a: string, sep: string, b: string)
    requires a != "" && Alnum(a[|a| - 1]) && b != "" && Alnum(b[0]) && NoAlnum(sep)
    ensures ToSlug(a + sep + b) == ToSlug(a) + Between(a, sep, b) + ToSlug(b)
  {
    var x, y, u := TrimLeft(a), TrimRight(b), Between(a, sep, b);
    assert x != "" && x[|x| - 1] == a[|a| - 1] by { TrimLeftInside(a, ""); }
    assert y != "" && y[0] == b[0] by { TrimRightInside("", b); }
    TrimJoin(a, sep, b);
    var cx, cy := Core(x), Core(y);
    assert Core(x + sep + y) == cx + u + cy by { CoreJoin(x, sep, y); }
    assert cx != "" && Alnum(cx[|cx| - 1]) by { CoreEnds(x); }
    assert cy != "" && Alnum(cy[0]) by { CoreEnds(y); }
    SlugOfLeft(a);
    SlugOfRight(b);
    JoinStages(a + sep + b, x + sep + y, cx, u, cy);
  }

  lemma JoinStages(name: string, trimmed: string, x: string, u: string, y: string)
    requires TrimRight(TrimLeft(name)) == trimmed && Core(trimmed) == x + u + y
    requires x != "" && x[|x| - 1] != '_' && y != "" && y[0] != '_' && (u == "" || u == "_")
    ensures ToSlug(name) == LowerAll(StripLeft(x)) + u + LowerAll(StripRight(y))
  {
    var l, r := StripLeft(x), StripRight(y);
    StripJoin(x, u, y);
    Stages(name, trimmed, x + u + y, l + u + y, l + u + r);
    LowerAllCons(l + u, r);
    LowerAllCons(l, u);
  }

  /** One letter or digit is its own slug, lowercased; other characters around a name
      leave no trace. */
  lemma ToSlugEdges(c: char, sep: string, a: string)
    requires Alnum(c) && NoAlnum(sep)
    ensures ToSlug([c]) == [ToLower(c)] && ToSlug(sep) == ""
    ensures a != "" && Alnum(a[0]) ==> ToSlug(sep + a) == ToSlug(a)
    ensures a != "" && Alnum(a[|a| - 1]) ==> ToSlug(a + sep) == ToSlug(a)
  {
    SlugOfOne(c);
    SlugOfNone(sep);
    if a != "" && Alnum(a[0]) { SlugOfLead(sep, a); }
    if a != "" && Alnum(a[|a| - 1]) { SlugOfTrail(a, sep); }
  }

  lemma SlugOfOne(c: char)
    requires Alnum(c)
    ensures ToSlug([c]) == [ToLower(c)]
  {
    var s := [c];
    assert s[1..] == "" && s[..0] == "";
    assert TrimLeft(s) == s && TrimRight(s) == s && StripLeft(s) == s && StripRight(s) == s;
    assert Collapse(s) == [s[0]] + Collapse(s[1..]) == s;
    assert Boundaries(s) == [s[0]] + Boundaries(s[1..]) == s;
    Stages(s, s, s, s, s);
    assert LowerAll(s) == [ToLower(c)] + LowerAll(s[1..]);
  }

  lemma {:induction false} TrimmedLead(sep: string, b: string) returns (rest: string)
    requires NoAlnum(sep) && b != "" && Alnum(b[0])
    ensures NoAlnum(rest) && TrimLeft(sep + b) == rest + b
  {
    rest := sep;
    if sep != "" && IsSpace(sep[0]) {
      assert (sep + b)[1..] == sep[1..] + b;
      rest := TrimmedLead(sep[1..], b);
    } else if sep == "" {
      assert sep + b == b;
    }
  }

  lemma SlugOfLead(sep: string, b: string)
    requires NoAlnum(sep) && b != "" && Alnum(b[0])
    ensures ToSlug(sep + b) == ToSlug(b)
  {
    var rest := TrimmedLead(sep, b);
    var y := TrimRight(b);
    TrimRightInside(rest, b);
    CollapseLead(rest, y);
    CoreEnds(y);
    SlugOfRight(b);
    if rest != "" {
      CollapseEnds(y);
      BoundaryAt('_', Collapse(y));
      assert "_" + Collapse(y) == ['_'] + Collapse(y);
      assert Core(rest + y) == "_" + Core(y);
      assert ("_" + Core(y))[1..] == Core(y);
    } else {
      assert rest + y == y;
    }
  }

  lemma {:induction false} TrimmedTrail(a: string, sep: string) returns (rest: string)
    requires a != "" && Alnum(a[|a| - 1]) && NoAlnum(sep)
    ensures NoAlnum(rest) && TrimRight(a + sep) == a + rest
    decreases |sep|
  {
    rest := sep;
    if sep != "" && IsSpace(sep[|sep| - 1]) {
      assert (a + sep)[..|a + sep| - 1] == a + sep[..|sep| - 1];
      rest := TrimmedTrail(a, sep[..|sep| - 1]);
    } else if sep == "" {
      assert a + sep == a;
    }
  }

  lemma SlugOfTrail(a: string, sep: string)
    requires a != "" && Alnum(a[|a| - 1]) && NoAlnum(sep)
    ensures ToSlug(a + sep) == ToSlug(a)
  {
    var x := TrimLeft(a);
    TrimLeftInside(a, sep);
    var rest := TrimmedTrail(x, sep);
    CoreTrail(x, rest);
    CoreEnds(x);
    SlugOfLeft(a);
    TrailStages(a + sep, x + rest, Core(x), if rest == "" then "" else "_");
  }

  lemma CoreTrail(x: string, rest: string)
    requires x != "" && Alnum(x[|x| - 1]) && NoAlnum(rest)
    ensures Core(x + rest) == Core(x) + if rest == "" then "" else "_"
  {
    CollapseJoin(x, rest, "");
    CollapseEnds(x);
    assert x + rest + "" == x + rest;
    var c := Collapse(x);
    if rest == "" {
      assert x + rest == x && Core(x) + "" == Core(x);
    } else {
      assert Collapse(x + rest) == c + "_" by { assert c + "_" + "" == c + "_"; }
      BoundariesJoin(c, "_");
      assert Boundaries("_") == "_" by { assert "_"[1..] == ""; }
      assert Boundaries(c) + "" + "_" == Boundaries(c) + "_";
    }
  }

  lemma TrailStages(name: string, trimmed: string, x: string, u: string)
    requires TrimRight(TrimLeft(name)) == trimmed && Core(trimmed) == x + u
    requires x != "" && Alnum(x[|x| - 1]) && (u == "" || u == "_")
    ensures ToSlug(name) == LowerAll(StripLeft(x))
  {
    var l := StripLeft(x);
    StripLeftInside(x, u);
    EndKept(l);
    assert l + "" == l && (l + "_")[..|l|] == l;
    Stages(name, trimmed, x + u, l + u, l);
  }

  lemma SlugOfNone(sep: string)
    requires NoAlnum(sep)
    ensures ToSlug(sep) == ""
  {
    var t := TrimRight(TrimLeft(sep));
    TrimmedNone(sep);
    if t != "" {
      SkipOtherAll(t, "");
      assert t + "" == t;
      assert Collapse(t) == "_" && "_"[1..] == "";
      assert Boundaries("_") == "_" && StripLeft("_") == "";
    }
  }

  lemma {:induction false} TrimmedNone(s: string)
    requires NoAlnum(s)
    ensures NoAlnum(TrimRight(TrimLeft(s)))
  {
    TrimLeftSub(s);
    TrimRightSub(TrimLeft(s));
  }

  lemma {:induction false} TrimLeftSub(s: string)
    requires NoAlnum(s)
    ensures NoAlnum(TrimLeft(s))
  {
    if s != "" && IsSpace(s[0]) { TrimLeftSub(s[1..]); }
  }

  lemma {:induction false} TrimRightSub(s: string)
    requires NoAlnum(s)
    ensures NoAlnum(TrimRight(s))
    decreases |s|
  {
    if s != "" && IsSpace(s[|s| - 1]) { TrimRightSub(s[..|s| - 1]); }
  }

  // --- What camel case does -----------------------------------------------------------------

  /** Each separator before a lowercase letter or digit goes, and the letter becomes
      uppercase; a name without separators stays. */
  lemma {:induction false} ToCamelJoin(a: string, b: string)
    ensures '_' !in a ==> ToCamel(a) == a
    ensures b != "" && LowNum(b[0]) ==> ToCamel(a + "_" + b) == ToCamel(a) + [ToUpper(b[0])] + ToCamel(b[1..])
    decreases |a|
  {
    var all := a + "_" + b;
    if a == "" {
      if b != "" { assert all == "_" + b && all[2..] == b[1..]; }
    } else if |a| >= 2 && a[0] == '_' && LowNum(a[1]) {
      ToCamelJoin(a[2..], b);
      assert all[2..] == a[2..] + "_" + b;
    } else {
      ToCamelJoin(a[1..], b);
      assert all[1..] == a[1..] + "_" + b;
      assert [a[0]] + a[1..] == a;
    }
  }

  // --- Camel case and back ------------------------------------------------------------------

  /** Each later segment starts with a letter, and no segment between two others is
      a single character. */
  predicate CamelSafe(s: string) {
    && (forall i | 0 <= i < |s| - 1 && s[i] == '_' :: Lower(s[i + 1]))
    && (forall i | 0 <= i < |s| - 2 && s[i] == '_' :: s[i + 2] != '_')
  }

  /** A slug with its beginning cut off. */
  predicate SlugTail(s: string) { Joined(s) && NoUpper(s) && (s != "" ==> s[|s| - 1] != '_') }

  function Back(s: string): string { LowerAll(Boundaries(ToCamel(s))) }

  lemma {:induction false} CamelJoined(s: string)
    requires SlugTail(s)
    ensures forall i | 0 <= i < |ToCamel(s)| :: Alnum(ToCamel(s)[i])
    decreases |s|
  {
    if |s| >= 2 && s[0] == '_' && LowNum(s[1]) { CamelJoined(s[2..]); } else if s != "" { CamelJoined(s[1..]); }
  }

  /** On a slug the other stages of `toSlug` do nothing to the camel form. */
  lemma ToSlugOfCamel(s: string)
    requires SlugForm(s)
    ensures ToSlug(ToCamel(s)) == Back(s)
  {
    CamelJoined(s);
    var c := ToCamel(s);
    NoSpace(c);
    CollapseFixed(c);
    BoundariesEnds(c);
  }

  lemma {:induction false} BoundariesEnds(s: string)
    requires forall i | 0 <= i < |s| :: Alnum(s[i])
    ensures var b := Boundaries(s); (s == "" ==> b == "") && (s != "" ==> b != "" && b[0] != '_' && b[|b| - 1] != '_')
    decreases |s|
  {
    if |s| >= 2 && LowNum(s[0]) && Upper(s[1]) {
      BoundariesEnds(s[2..]);
    } else if s != "" {
      BoundariesEnds(s[1..]);
    }
  }

  /** How `Back` runs along a slug tail. */
  lemma BackStep(s: string)
    requires SlugTail(s) && s != ""
    ensures s[0] == '_' && Lower(s[1]) ==> Back(s) == [s[1]] + Back(s[2..])
    ensures s[0] == '_' && IsDigit(s[1]) ==> Back(s) == Back(s[1..])
    ensures s[0] != '_' && |s| >= 2 && s[1] == '_' && Lower(s[2]) ==> Back(s) == [s[0], '_', s[2]] + Back(s[3..])
    ensures s[0] != '_' && |s| >= 2 && s[1] == '_' && IsDigit(s[2]) ==> Back(s) == [s[0]] + Back(s[1..])
    ensures s[0] != '_' && (|s| == 1 || s[1] != '_') ==> Back(s) == [s[0]] + Back(s[1..])
  {
    if s[0] == '_' {
      var c := ToCamel(s[2..]);
      assert ToCamel(s) == [ToUpper(s[1])] + c;
      if Lower(s[1]) {
        assert Boundaries([ToUpper(s[1])] + c) == [ToUpper(s[1])] + Boundaries(c) by { assert ([ToUpper(s[1])] + c)[1..] == c; }
        LowerAllCons([ToUpper(s[1])], Boundaries(c));
      } else {
        assert s[1..][1..] == s[2..];
        assert ToCamel(s[1..]) == [s[1]] + c;
      }
    } else if |s| >= 2 && s[1] == '_' {
      var u, c := ToUpper(s[2]), ToCamel(s[3..]);
      assert s[1..][2..] == s[3..];
      assert ToCamel(s[1..]) == [u] + c;
      var whole := [s[0]] + ([u] + c);
      assert ToCamel(s) == whole && whole[1..] == [u] + c && whole[2..] == c;
      if Lower(s[2]) {
        assert Boundaries(whole) == [s[0], '_', u] + Boundaries(c);
        LowerAllCons([s[0], '_', u], Boundaries(c));
        assert LowerAll([s[0], '_', u]) == [s[0], '_', s[2]];
      } else {
        assert Boundaries(whole) == [s[0]] + Boundaries([u] + c);
        LowerAllCons([s[0]], Boundaries([u] + c));
      }
    } else {
      var c := ToCamel(s[1..]);
      assert ToCamel(s) == [s[0]] + c;
      if |s| > 1 {
        assert c[0] == s[1];
      }
      assert ([s[0]] + c)[1..] == c;
      assert Boundaries([s[0]] + c) == [s[0]] + Boundaries(c);
      LowerAllCons([s[0]], Boundaries(c));
    }
  }

  /** Back and forth either restores a slug tail or loses characters. */
  lemma {:induction false} BackOrShorter(s: string)
    requires SlugTail(s)
    ensures s != "" && s[0] == '_' ==> |Back(s)| < |s|
    ensures s == "" || s[0] != '_' ==> (if CamelSafe(s) then Back(s) == s else |Back(s)| < |s|)
    decreases |s|
  {
    if s != "" {
      BackStep(s);
      if s[0] == '_' {
        if Lower(s[1]) { BackOrShorter(s[2..]); } else { BackOrShorter(s[1..]); }
      } else if |s| >= 2 && s[1] == '_' {
        if Lower(s[2]) {
          BackOrShorter(s[3..]);
          LetterKept(s, Back(s[3..]));
        } else {
          BackOrShorter(s[1..]);
          DigitLost(s, Back(s[1..]));
        }
      } else {
        BackOrShorter(s[1..]);
        PlainKept(s, Back(s[1..]));
      }
    }
  }

  /** A character with no separator after it stays: only the rest decides. */
  lemma PlainKept(s: string, rest: string)
    requires s != "" && s[0] != '_' && (|s| == 1 || s[1] != '_')
    requires if CamelSafe(s[1..]) then rest == s[1..] else |rest| < |s| - 1
    ensures if CamelSafe(s) then [s[0]] + rest == s else |[s[0]] + rest| < |s|
  {
    SafeTail1(s);
    assert [s[0]] + s[1..] == s;
  }

  /** A separator before a digit is lost. */
  lemma DigitLost(s: string, rest: string)
    requires |s| >= 3 && s[0] != '_' && s[1] == '_' && !Lower(s[2]) && |rest| < |s| - 1
    ensures !CamelSafe(s) && |[s[0]] + rest| < |s|
  {
  }

  /** A separator before a letter is restored: only the rest decides. */
  lemma LetterKept(s: string, rest: string)
    requires |s| >= 3 && s[0] != '_' && s[1] == '_' && Lower(s[2])
    requires |s| > 3 && s[3] == '_' ==> |rest| < |s| - 3
    requires |s| == 3 || s[3] != '_' ==> (if CamelSafe(s[3..]) then rest == s[3..] else |rest| < |s| - 3)
    ensures var back := [s[0], '_', s[2]] + rest; if CamelSafe(s) then back == s else |back| < |s|
  {
    SafeTail(s);
    assert [s[0], '_', s[2]] + s[3..] == s;
  }

  lemma SafeTail1(s: string)
    requires s != "" && s[0] != '_'
    ensures CamelSafe(s) <==> CamelSafe(s[1..])
  {
    var t := s[1..];
    assert forall i | 0 <= i < |t| :: t[i] == s[i + 1];
    assert forall i | 1 <= i < |s| :: s[i] == t[i - 1];
  }

  lemma SafeTail(s: string)
    requires |s| >= 3 && s[0] != '_' && s[1] == '_' && Lower(s[2])
    ensures CamelSafe(s) <==> (|s| == 3 || s[3] != '_') && CamelSafe(s[3..])
  {
    var t := s[3..];
    assert forall i | 0 <= i < |t| :: t[i] == s[i + 3];
    assert forall i | 3 <= i < |s| :: s[i] == t[i - 3];
  }

  /** A slug survives the trip through camel case exactly when each later segment
      starts with a letter and no interior segment is a single character. */
  lemma CamelRoundTripIff(s: string)
    requires SlugForm(s)
    ensures ToSlug(ToCamel(s)) == s <==> CamelSafe(s)
  {
    ToSlugOfCamel(s);
    BackOrShorter(s);
  }
}
