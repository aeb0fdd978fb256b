/** The fixed TypeScript of the generated config module, between the places where
    the model is printed. */
module ModuleText {
  import opened Literals

  function Lines(ls: seq<string>): Text {
    if ls == [] then [] else [NL] + Units(ls[0]) + Lines(ls[1..])
  }

  const STAR: nat := 42
  const SLASH: nat := 47

  // The header comment around its three slots.
  const BEFORE_LABEL: Text := Units("*\n * Content model:") + [SPACE]
  const BEFORE_NAME: Text := [SPACE] + Units("(")
  const BEFORE_DESCRIPTION: Text := Units(").\n *") + [SPACE]
  const FIRST_LINE := " * Generated by create-kernel." + " Edit freely — add a field," + " delete kernelcms.db,"
  const SECOND_LINE := " * restart, and the migration" + " is generated automatically."
  const AFTER_DESCRIPTION: Text := Lines([" *", FIRST_LINE, SECOND_LINE, " "])

  const OPENING: Text := [SLASH, STAR]
  const CLOSE: Text := [STAR, SLASH]

  /** The fixed text outside the header: before it, between the slots, and the code at
      the end. */
  datatype Template = Template(imports: Text, toCollections: Text, toGlobals: Text, toView: Text, toSeed: Text, code: Text)

  /** What follows the header starts with a word; the view and the seed data each end
      where the fixed text after them begins. */
  predicate TemplateOk(t: Template) {
    && t.toCollections != [] && IdStart(t.toCollections[0])
    && t.toSeed != [] && Delimited(t.toSeed) && Delimited(t.code)
  }

  // Long lines are written in parts: the verifier takes short strings more easily.

  function Imports(): Text {
    Units("import { defineConfig }" + " from '@kernel/core'")
    + Lines([
      "import type { Kernel }" + " from '@kernel/core'",
      "import { sqliteAdapter }" + " from '@kernel/db-sqlite'",
      "",
      ""])
  }

  function ToCollections(): Text {
    Units("export const config = " + "defineConfig({")
    + Lines([
      "  secret: " + "process.env.KERNEL_SECRET" + " ?? 'start-dev-secret',",
      "  db: sqliteAdapter({ url: " + "process.env.KERNEL_DB_URL" + " ?? 'file:./kernelcms.db'" + " }),",
      "  collections: "])
  }

  function ToView(): Text {
    Units(",")
    + Lines([
      "})",
      "",
      "/** Drives the generic home" + " + detail routes (which" + " field is the title, etc.). */",
      "export const view = "])
  }

  function ToSeed(): Text {
    [SPACE] + (Units("as const")
    + Lines([
      "",
      "/** Seed rows for first" + " boot. `@ref` values" + " resolve to ids created" + " earlier in the run. */",
      "const seedData:" + " Record<string, any> = "]))
  }

  /** The text of the generated module; `code` holds the functions `resolveRow` and
      `seed`, which `Seeding` interprets. */
  function ConfigTs(code: Text): Template {
    Template(Imports(), ToCollections(), Units(",\n  globals: "), ToView(), ToSeed(), code)
  }

  lemma ConfigTemplateOk(code: Text)
    requires Delimited(code)
    ensures TemplateOk(ConfigTs(code))
  {
    assert ToSeed()[0] == SPACE && ToCollections()[0] == 101;
  }

  // --- The header comment ------------------------------------------------------------------

  /** The rest of the text after a block comment that is open at its start: what
      follows the first star and slash (section 12.4 of ECMA-262). */
  function AfterComment(t: Text): (r: Parsed<()>)
    ensures r.Done? ==> |r.rest| < |t|
  {
    if |t| < 2 then Fail
    else if t[0] == STAR && t[1] == SLASH then Done((), t[2..])
    else AfterComment(t[1..])
  }

  /** The rest of a line. */
  function AfterLine(t: Text): (r: Text)
    ensures |r| <= |t|
  {
    if t == [] || t[0] == NL || t[0] == 13 then t else AfterLine(t[1..])
  }

  /** Whitespace and comments in front of a declaration are skipped. */
  function SkipTrivia(t: Text): Text
    decreases |t|
  {
    if t == [] then t
    else if IsWs(t[0]) then SkipTrivia(t[1..])
    else if OPENING <= t then
      var r := AfterComment(t[2..]);
      if r.Fail? then t else SkipTrivia(r.rest)
    else if [SLASH, SLASH] <= t then SkipTrivia(AfterLine(t[2..]))
    else t
  }

  lemma SkipComment(t: Text, rest: Text)
    requires AfterComment(t) == Done((), rest)
    ensures SkipTrivia(OPENING + t) == SkipTrivia(rest)
  {
    assert (OPENING + t)[2..] == t;
  }

  lemma SkipNothing(t: Text)
    requires t != [] && !IsWs(t[0]) && t[0] != SLASH
    ensures SkipTrivia(t) == t
  {
  }

  predicate HasClose(t: Text) { exists i | 0 <= i < |t| - 1 :: t[i] == STAR && t[i + 1] == SLASH }

  /** A comment ends right after `t` exactly when `t` closes no comment itself. */
  lemma {:induction false} ClosesAfterIff(t: Text, rest: Text)
    ensures AfterComment(t + (CLOSE + rest)) == Done((), rest) <==> !HasClose(t)
    ensures AfterComment(t + (CLOSE + rest)).Done? && |AfterComment(t + (CLOSE + rest)).rest| >= |rest|
  {
    var all := t + (CLOSE + rest);
    if t == [] {
      assert all == CLOSE + rest && all[2..] == rest;
    } else {
      assert all[1..] == t[1..] + (CLOSE + rest);
      ClosesAfterIff(t[1..], rest);
      assert HasClose(t) <==> (|t| > 1 && t[0] == STAR && t[1] == SLASH) || HasClose(t[1..]) by {
        assert forall i | 0 < i < |t| :: t[i] == t[1..][i - 1];
        assert forall i | 0 <= i < |t| - 1 :: t[1..][i] == t[i + 1];
      }
      if |t| > 1 && t[0] == STAR && t[1] == SLASH {
        assert all[0] == STAR && all[1] == SLASH && |all[2..]| == |t| + |rest|;
      }
    }
  }

  lemma HasCloseJoin(a: Text, b: Text)
    requires a != [] && b != [] ==> !(a[|a| - 1] == STAR && b[0] == SLASH)
    ensures HasClose(a + b) <==> HasClose(a) || HasClose(b)
  {
    var t := a + b;
    if HasClose(a) {
      var i :| 0 <= i < |a| - 1 && a[i] == STAR && a[i + 1] == SLASH;
      assert t[i] == STAR && t[i + 1] == SLASH;
    }
    if HasClose(b) {
      var i :| 0 <= i < |b| - 1 && b[i] == STAR && b[i + 1] == SLASH;
      assert t[|a| + i] == STAR && t[|a| + i + 1] == SLASH;
    }
  }

  lemma {:induction false} LinesHave(ls: seq<string>, u: nat)
    requires u != NL && forall l | l in ls :: u !in Units(l)
    ensures u !in Lines(ls)
  {
    if ls != [] { LinesHave(ls[1..], u); }
  }

  lemma NotInUnits(s: string, c: char)
    requires c !in s
    ensures c as nat !in Units(s)
  {
  }

  /** The header as far as a part of the description. */
  function HeaderUpTo(title: Text, name: Text, part: Text): Text {
    BEFORE_LABEL + (title + (BEFORE_NAME + (name + (BEFORE_DESCRIPTION + part))))
  }

  /** The comment between its opening and its close: the model's label, the name it
      was chosen by, its description. */
  function Header(title: Text, name: Text, description: Text): Text {
    HeaderUpTo(title, name, description + AFTER_DESCRIPTION)
  }

  lemma FirstLineOpen()
    ensures '/' !in FIRST_LINE
  {
    assert '/' !in " * Generated by create-kernel.";
    assert '/' !in " Edit freely — add a field,";
    assert '/' !in " delete kernelcms.db,";
  }

  lemma SecondLineOpen()
    ensures '/' !in SECOND_LINE
  {
    assert '/' !in " * restart, and the migration";
    assert '/' !in " is generated automatically.";
  }

  lemma AfterDescriptionOpen(first: string, second: string)
    requires '/' !in first && '/' !in second
    ensures SLASH !in Lines([" *", first, second, " "])
  {
    var ls := [" *", first, second, " "];
    forall l | l in ls ensures SLASH !in Units(l) {
      NotInUnits(l, '/');
    }
    LinesHave(ls, SLASH);
  }

  lemma FixedPartsOpen()
    ensures SLASH !in BEFORE_LABEL && SLASH !in BEFORE_NAME && SLASH !in BEFORE_DESCRIPTION && SLASH !in AFTER_DESCRIPTION
    ensures BEFORE_LABEL != [] && BEFORE_LABEL[|BEFORE_LABEL| - 1] == SPACE
    ensures BEFORE_NAME != [] && BEFORE_NAME[|BEFORE_NAME| - 1] != STAR
    ensures BEFORE_DESCRIPTION != [] && BEFORE_DESCRIPTION[|BEFORE_DESCRIPTION| - 1] == SPACE
  {
    NotInUnits("*\n * Content model:", '/');
    NotInUnits(").\n *", '/');
    NotInUnits("(", '/');
    FirstLineOpen();
    SecondLineOpen();
    AfterDescriptionOpen(FIRST_LINE, SECOND_LINE);
  }

  lemma NoCloseWithoutSlash(t: Text)
    requires SLASH !in t
    ensures !HasClose(t)
  {
  }

  /** The header holds a close exactly when one of its three slots does. */
  lemma HeaderCloses(title: Text, name: Text, description: Text)
    ensures HasClose(Header(title, name, description)) <==> HasClose(title) || HasClose(name) || HasClose(description)
  {
    FixedPartsOpen();
    NoCloseWithoutSlash(AFTER_DESCRIPTION);
    HasCloseJoin(description, AFTER_DESCRIPTION);
    HeaderUpToCloses(title, name, description + AFTER_DESCRIPTION);
  }

  lemma HeaderUpToCloses(title: Text, name: Text, part: Text)
    ensures HasClose(HeaderUpTo(title, name, part)) <==> HasClose(title) || HasClose(name) || HasClose(part)
  {
    FixedPartsOpen();
    assert part + [] == part;
    Around(BEFORE_DESCRIPTION, part, []);
    Around(BEFORE_NAME, name, BEFORE_DESCRIPTION + part);
    Around(BEFORE_LABEL, title, BEFORE_NAME + (name + (BEFORE_DESCRIPTION + part)));
  }

  /** A slot between a piece that ends in no star and a text that starts with no slash. */
  lemma Around(before: Text, slot: Text, after: Text)
    requires SLASH !in before && before != [] && before[|before| - 1] != STAR && (after != [] ==> after[0] != SLASH)
    ensures HasClose(before + (slot + after)) <==> HasClose(slot) || HasClose(after)
  {
    NoCloseWithoutSlash(before);
    HasCloseJoin(slot, after);
    HasCloseJoin(before, slot + after);
  }
}
