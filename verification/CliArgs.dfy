/** The command line: `parseArgs` turns argv into a command, positionals and flags. */
module CliArgs {
  import opened Forms

  datatype FlagValue = On | Given(text: string)

  /** How each stretch of argv is read: a positional, or a flag with or without value. */
  datatype Item = Positional(text: string) | Flag(key: string, value: FlagValue)

  predicate Dashed(s: string) { "--" <= s }

  function Items(argv: seq<string>): seq<Item> {
    if argv == [] then []
    else if !Dashed(argv[0]) then [Positional(argv[0])] + Items(argv[1..])
    else if |argv| > 1 && !Dashed(argv[1]) then [Flag(argv[0][2..], Given(argv[1]))] + Items(argv[2..])
    else [Flag(argv[0][2..], On)] + Items(argv[1..])
  }

  function PrintItem(i: Item): seq<string> {
    match i
    case Positional(text) => [text]
    case Flag(key, On) => ["--" + key]
    case Flag(key, Given(text)) => ["--" + key, text]
  }

  function Print(items: seq<Item>): seq<string> {
    if items == [] then [] else PrintItem(items[0]) + Print(items[1..])
  }

  datatype Parsed = Parsed(command: Option<string>, positionals: seq<string>, flags: map<string, FlagValue>)

  function Texts(items: seq<Item>): seq<string> {
    if items == [] then [] else (if items[0].Positional? then [items[0].text] else []) + Texts(items[1..])
  }

  /** Later flags override earlier ones of the same name. */
  function FlagMap(items: seq<Item>, acc: map<string, FlagValue>): map<string, FlagValue> {
    if items == [] then acc
    else FlagMap(items[1..], if items[0].Flag? then acc[items[0].key := items[0].value] else acc)
  }

  function Collect(items: seq<Item>): Parsed {
    var p := Texts(items);
    Parsed(if p == [] then None else Some(p[0]), if p == [] then [] else p[1..], FlagMap(items, map[]))
  }

  /** The loop has read `positionals` and `flags` and stands before token `i`. */
  ghost predicate ReadSoFar(argv: seq<string>, i: nat, positionals: seq<string>, flags: map<string, FlagValue>) {
    && i <= |argv|
    && positionals + Texts(Items(argv[i..])) == Texts(Items(argv))
    && FlagMap(Items(argv[i..]), flags) == FlagMap(Items(argv), map[])
  }

  lemma Turn(argv: seq<string>, i: nat, positionals: seq<string>, flags: map<string, FlagValue>)
    requires ReadSoFar(argv, i, positionals, flags) && i < |argv|
    ensures
      if !Dashed(argv[i]) then ReadSoFar(argv, i + 1, positionals + [argv[i]], flags)
      else if i + 1 < |argv| && !Dashed(argv[i + 1]) then
        ReadSoFar(argv, i + 2, positionals, flags[argv[i][2..] := Given(argv[i + 1])])
      else ReadSoFar(argv, i + 1, positionals, flags[argv[i][2..] := On])
  {
    ReadAt(argv, i, flags);
    if !Dashed(argv[i]) {
      assert positionals + ([argv[i]] + Texts(Items(argv[i + 1..]))) == positionals + [argv[i]] + Texts(Items(argv[i + 1..]));
    }
  }

  lemma Finished(argv: seq<string>, positionals: seq<string>, flags: map<string, FlagValue>)
    requires ReadSoFar(argv, |argv|, positionals, flags)
    ensures Texts(Items(argv)) == positionals && FlagMap(Items(argv), map[]) == flags
  {
    assert argv[|argv|..] == [];
  }

  method ParseArgs(argv: seq<string>) returns (r: Parsed)
    ensures r == Collect(Items(argv))
  {
    var positionals: seq<string> := [];
    var flags: map<string, FlagValue> := map[];
    var i := 0;
    while i < |argv|
      invariant 0 <= i && ReadSoFar(argv, i, positionals, flags)
    {
      var arg := argv[i];
      Turn(argv, i, positionals, flags);
      if "--" <= arg {
        var key := arg[2..];
        if i + 1 < |argv| && !("--" <= argv[i + 1]) {
          flags := flags[key := Given(argv[i + 1])];
          i := i + 1;
        } else {
          flags := flags[key := On];
        }
      } else {
        positionals := positionals + [arg];
      }
      i := i + 1;
    }
    Finished(argv, positionals, flags);
    if positionals == [] { return Parsed(None, [], flags); }
    r := Parsed(Some(positionals[0]), positionals[1..], flags);
  }

  lemma ItemsAt(argv: seq<string>, i: nat)
    requires i < |argv|
    ensures Items(argv[i..])
      == if !Dashed(argv[i]) then [Positional(argv[i])] + Items(argv[i + 1..])
         else if i + 1 < |argv| && !Dashed(argv[i + 1]) then [Flag(argv[i][2..], Given(argv[i + 1]))] + Items(argv[i + 2..])
         else [Flag(argv[i][2..], On)] + Items(argv[i + 1..])
  {
    var rest := argv[i..];
    assert rest[0] == argv[i] && rest[1..] == argv[i + 1..];
    if |rest| > 1 { assert rest[1] == argv[i + 1] && rest[2..] == argv[i + 2..]; }
  }

  lemma CollectCons(x: Item, rest: seq<Item>, flags: map<string, FlagValue>)
    ensures Texts([x] + rest) == (if x.Positional? then [x.text] else []) + Texts(rest)
    ensures FlagMap([x] + rest, flags) == FlagMap(rest, if x.Flag? then flags[x.key := x.value] else flags)
  {
    assert ([x] + rest)[1..] == rest;
  }

  /** What one turn of the loop takes off the remaining argv. */
  lemma ReadAt(argv: seq<string>, i: nat, flags: map<string, FlagValue>)
    requires i < |argv|
    ensures var now := Items(argv[i..]);
      if !Dashed(argv[i]) then
        && Texts(now) == [argv[i]] + Texts(Items(argv[i + 1..]))
        && FlagMap(now, flags) == FlagMap(Items(argv[i + 1..]), flags)
      else if i + 1 < |argv| && !Dashed(argv[i + 1]) then
        && Texts(now) == Texts(Items(argv[i + 2..]))
        && FlagMap(now, flags) == FlagMap(Items(argv[i + 2..]), flags[argv[i][2..] := Given(argv[i + 1])])
      else
        && Texts(now) == Texts(Items(argv[i + 1..]))
        && FlagMap(now, flags) == FlagMap(Items(argv[i + 1..]), flags[argv[i][2..] := On])
  {
    ItemsAt(argv, i);
    if !Dashed(argv[i]) {
      CollectCons(Positional(argv[i]), Items(argv[i + 1..]), flags);
    } else if i + 1 < |argv| && !Dashed(argv[i + 1]) {
      CollectCons(Flag(argv[i][2..], Given(argv[i + 1])), Items(argv[i + 2..]), flags);
    } else {
      CollectCons(Flag(argv[i][2..], On), Items(argv[i + 1..]), flags);
    }
  }

  /** Every token is consumed exactly once and in order: printing the items the
      parser found gives argv back. */
  lemma {:induction false} TokensConserved(argv: seq<string>)
    ensures Print(Items(argv)) == argv
    decreases |argv|
  {
    if argv != [] {
      var a := argv[0];
      if Dashed(a) { assert "--" + a[2..] == a; }
      if !Dashed(a) || |argv| == 1 || Dashed(argv[1]) {
        TokensConserved(argv[1..]);
        assert [a] + argv[1..] == argv;
      } else {
        TokensConserved(argv[2..]);
        assert [a, argv[1]] + argv[2..] == argv;
      }
    }
  }

  predicate PlainText(x: Item) {
    match x
    case Positional(text) => !Dashed(text)
    case Flag(_, Given(text)) => !Dashed(text)
    case Flag(_, On) => true
  }

  /** Items that can be told apart again: no positional or value looks like a flag,
      and no valueless flag stands right before a positional. */
  predicate Readable(items: seq<Item>) {
    items != [] ==>
      && PlainText(items[0])
      && (items[0].Flag? && items[0].value.On? && |items| > 1 ==> items[1].Flag?)
      && Readable(items[1..])
  }

  /** Parsing inverts printing exactly on readable items. */
  lemma {:induction false} ParsePrintIff(items: seq<Item>)
    ensures Items(Print(items)) == items <==> Readable(items)
    decreases |items|
  {
    if items != [] {
      var x, rest := items[0], items[1..];
      var argv := Print(items);
      if Items(argv) == items {
        ItemsReadable(argv);
      } else {
        ParsePrintIff(rest);
        if x.Flag? { assert argv[0][2..] == x.key; }
        assert argv[|PrintItem(x)|..] == Print(rest);
        if rest != [] { assert Print(rest)[0] == PrintItem(rest[0])[0]; }
      }
    }
  }

  /** Whatever was parsed is readable. */
  lemma {:induction false} ItemsReadable(argv: seq<string>)
    ensures Readable(Items(argv))
    decreases |argv|
  {
    if argv != [] {
      var used := if Dashed(argv[0]) && |argv| > 1 && !Dashed(argv[1]) then 2 else 1;
      ItemsReadable(argv[used..]);
      assert Items(argv)[1..] == Items(argv[used..]);
    }
  }

  lemma {:induction false} ReadableFlags(flags: seq<Item>)
    requires forall i | 0 <= i < |flags| :: flags[i].Flag?
    ensures Readable(flags) <==> forall i | 0 <= i < |flags| :: PlainText(flags[i])
  {
    if flags != [] { ReadableFlags(flags[1..]); }
  }

  lemma {:induction false} ReadableLine(texts: seq<string>, flags: seq<Item>)
    requires (forall i | 0 <= i < |texts| :: !Dashed(texts[i])) && Readable(flags)
    ensures Readable(Positionals(texts) + flags)
  {
    var all := Positionals(texts) + flags;
    if texts == [] {
      assert all == flags;
    } else {
      assert all[1..] == Positionals(texts[1..]) + flags;
      ReadableLine(texts[1..], flags);
    }
  }

  lemma {:induction false} FlagMapLookup(items: seq<Item>, acc: map<string, FlagValue>, i: nat)
    requires i < |items| && items[i].Flag?
    requires forall j | i < j < |items| && items[j].Flag? :: items[j].key != items[i].key
    ensures items[i].key in FlagMap(items, acc) && FlagMap(items, acc)[items[i].key] == items[i].value
    decreases |items|
  {
    var next := if items[0].Flag? then acc[items[0].key := items[0].value] else acc;
    if i == 0 {
      FlagMapKeeps(items[1..], next, items[0].key);
    } else {
      FlagMapLookup(items[1..], next, i - 1);
    }
  }

  lemma {:induction false} FlagMapKeeps(items: seq<Item>, acc: map<string, FlagValue>, key: string)
    requires forall j | 0 <= j < |items| && items[j].Flag? :: items[j].key != key
    ensures key in FlagMap(items, acc) <==> key in acc
    ensures key in acc ==> FlagMap(items, acc)[key] == acc[key]
    decreases |items|
  {
    if items != [] {
      FlagMapKeeps(items[1..], if items[0].Flag? then acc[items[0].key := items[0].value] else acc, key);
    }
  }

  /** What the parser reports, for any argv: a flag has the value of its last
      occurrence, and a name that never occurs is absent. */
  lemma LastFlagWins(argv: seq<string>, key: string)
    ensures var items, flags := Items(argv), Collect(Items(argv)).flags;
      && (key in flags <==> exists i | 0 <= i < |items| :: items[i].Flag? && items[i].key == key)
      && forall i | 0 <= i < |items| && items[i].Flag? && items[i].key == key
                    && (forall j | i < j < |items| && items[j].Flag? :: items[j].key != key) :: flags[key] == items[i].value
  {
    var items := Items(argv);
    if i :| 0 <= i < |items| && items[i].Flag? && items[i].key == key {
      var last := LastOf(items, key, i);
      FlagMapLookup(items, map[], last);
    } else {
      FlagMapKeeps(items, map[], key);
    }
  }

  lemma LastOf(items: seq<Item>, key: string, i: nat) returns (last: nat)
    requires i < |items| && items[i].Flag? && items[i].key == key
    ensures last < |items| && items[last].Flag? && items[last].key == key
    ensures forall j | last < j < |items| && items[j].Flag? :: items[j].key != key
    decreases |items| - i
  {
    if j :| i < j < |items| && items[j].Flag? && items[j].key == key {
      last := LastOf(items, key, j);
    } else {
      last := i;
    }
  }

  /** Positionals are reported in order, the first one as the command. */
  lemma {:induction false} PositionalsInOrder(before: seq<Item>, text: string, after: seq<Item>)
    ensures Texts(before + [Positional(text)] + after) == Texts(before) + [text] + Texts(after)
    ensures forall key, value :: Texts(before + [Flag(key, value)] + after) == Texts(before) + Texts(after)
    ensures Texts(before) == [] ==>
      Collect(before + [Positional(text)] + after).command == Some(text)
      && Collect(before + [Positional(text)] + after).positionals == Texts(after)
  {
    TextsAppend(before, [Positional(text)] + after);
    assert before + [Positional(text)] + after == before + ([Positional(text)] + after);
    assert ([Positional(text)] + after)[1..] == after;
    forall key, value ensures Texts(before + [Flag(key, value)] + after) == Texts(before) + Texts(after) {
      TextsAppend(before, [Flag(key, value)] + after);
      assert before + [Flag(key, value)] + after == before + ([Flag(key, value)] + after);
      assert ([Flag(key, value)] + after)[1..] == after;
    }
  }

  lemma {:induction false} TextsAppend(a: seq<Item>, b: seq<Item>)
    ensures Texts(a + b) == Texts(a) + Texts(b)
  {
    if a == [] {
      assert a + b == b;
    } else {
      assert (a + b)[1..] == a[1..] + b;
      TextsAppend(a[1..], b);
    }
  }

  predicate DistinctFlags(items: seq<Item>) {
    && (forall i | 0 <= i < |items| :: items[i].Flag?)
    && (forall i, j | 0 <= i < j < |items| :: items[i].key != items[j].key)
  }

  /** Distinct flags mean the same in any order. */
  lemma FlagOrderIrrelevant(f: seq<Item>, g: seq<Item>)
    requires DistinctFlags(f) && DistinctFlags(g) && multiset(f) == multiset(g)
    ensures FlagMap(f, map[]) == FlagMap(g, map[])
  {
    forall key ensures (key in FlagMap(f, map[]) <==> key in FlagMap(g, map[]))
        && (key in FlagMap(f, map[]) ==> FlagMap(f, map[])[key] == FlagMap(g, map[])[key])
    {
      SameLookup(f, g, key);
      SameLookup(g, f, key);
    }
  }

  lemma SameLookup(f: seq<Item>, g: seq<Item>, key: string)
    requires DistinctFlags(f) && DistinctFlags(g) && multiset(f) == multiset(g)
    ensures key in FlagMap(f, map[]) ==> key in FlagMap(g, map[]) && FlagMap(f, map[])[key] == FlagMap(g, map[])[key]
  {
    if i :| 0 <= i < |f| && f[i].key == key {
      FlagMapLookup(f, map[], i);
      assert f[i] in multiset(f) && f[i] in g;
      var j :| 0 <= j < |g| && g[j] == f[i];
      FlagMapLookup(g, map[], j);
    } else {
      FlagMapKeeps(f, map[], key);
    }
  }

  function Positionals(texts: seq<string>): seq<Item> {
    seq(|texts|, i requires 0 <= i < |texts| => Positional(texts[i]))
  }

  lemma {:induction false} CollectCanonical(texts: seq<string>, flags: seq<Item>, acc: map<string, FlagValue>)
    requires forall i | 0 <= i < |flags| :: flags[i].Flag?
    ensures Texts(Positionals(texts) + flags) == texts
    ensures FlagMap(Positionals(texts) + flags, acc) == FlagMap(flags, acc)
  {
    var all := Positionals(texts) + flags;
    if texts == [] {
      assert all == flags;
      NoTexts(flags);
    } else {
      assert all[1..] == Positionals(texts[1..]) + flags;
      CollectCanonical(texts[1..], flags, acc);
    }
  }

  lemma {:induction false} NoTexts(flags: seq<Item>)
    requires forall i | 0 <= i < |flags| :: flags[i].Flag?
    ensures Texts(flags) == []
  {
    if flags != [] { NoTexts(flags[1..]); }
  }

  /** Positionals first, then flags, no text but a flag starting with `--`: parsing
      the printed command line returns what was printed, whatever the flag order. */
  lemma CanonicalRoundTrip(texts: seq<string>, flags: seq<Item>, shuffled: seq<Item>)
    requires forall i | 0 <= i < |texts| :: !Dashed(texts[i])
    requires DistinctFlags(flags) && (forall x | x in flags :: PlainText(x))
    requires DistinctFlags(shuffled) && multiset(shuffled) == multiset(flags)
    ensures Collect(Items(Print(Positionals(texts) + shuffled)))
      == if texts == [] then Parsed(None, [], FlagMap(flags, map[])) else Parsed(Some(texts[0]), texts[1..], FlagMap(flags, map[]))
  {
    forall i | 0 <= i < |shuffled| ensures PlainText(shuffled[i]) {
      assert shuffled[i] in multiset(shuffled) && shuffled[i] in flags;
    }
    ReadableFlags(shuffled);
    ReadableLine(texts, shuffled);
    ParsePrintIff(Positionals(texts) + shuffled);
    CollectCanonical(texts, shuffled, map[]);
    FlagOrderIrrelevant(flags, shuffled);
  }
}
