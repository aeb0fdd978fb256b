/** Dot-paths as strings: splitting, joining, and the search for the nearest
    field wrapper that carries a `data-path` stamp. */
module DotPath {
  import opened Forms

  /** `path.split('.')`: never empty. */
  function Split(path: string): (segs: seq<string>)
    ensures |segs| > 0
  {
    if path == "" then [""]
    else
      var rest := Split(path[1..]);
      if path[0] == '.' then [""] + rest else [[path[0]] + rest[0]] + rest[1..]
  }

  /** `segs.join('.')`. */
  function Join(segs: seq<string>): string {
    if segs == [] then "" else if |segs| == 1 then segs[0] else segs[0] + "." + Join(segs[1..])
  }

  lemma {:induction false} JoinCons(c: char, s: string, rest: seq<string>)
    ensures Join([[c] + s] + rest) == [c] + Join([s] + rest)
  {
    assert ([[c] + s] + rest)[1..] == ([s] + rest)[1..] == rest;
    assert rest != [] ==> [c] + s + "." + Join(rest) == [c] + (s + "." + Join(rest));
  }

  lemma {:induction false} JoinSplit(path: string)
    ensures Join(Split(path)) == path
  {
    if path != "" {
      var rest := Split(path[1..]);
      JoinSplit(path[1..]);
      if path[0] == '.' {
        assert Split(path)[1..] == rest;
      } else {
        JoinCons(path[0], rest[0], rest[1..]);
        assert [rest[0]] + rest[1..] == rest;
      }
      assert [path[0]] + path[1..] == path;
    }
  }

  lemma {:induction false} SplitNoDot(s: string)
    requires '.' !in s
    ensures Split(s) == [s]
  {
    if s != "" {
      SplitNoDot(s[1..]);
      assert [s[0]] + s[1..] == s;
    }
  }

  lemma {:induction false} SplitAppend(s: string, tail: string)
    requires '.' !in s
    ensures Split(s + "." + tail) == [s] + Split(tail)
  {
    var whole := s + "." + tail;
    if s == "" {
      assert whole[1..] == tail;
    } else {
      SplitAppend(s[1..], tail);
      assert whole[1..] == s[1..] + "." + tail;
      assert [s[0]] + s[1..] == s;
    }
  }

  /** Splitting undoes joining for segments that carry no dot themselves. */
  lemma {:induction false} SplitJoin(segs: seq<string>)
    requires segs != [] && forall i | 0 <= i < |segs| :: '.' !in segs[i]
    ensures Split(Join(segs)) == segs
  {
    if |segs| == 1 {
      SplitNoDot(segs[0]);
    } else {
      SplitJoin(segs[1..]);
      SplitAppend(segs[0], Join(segs[1..]));
    }
  }

  /** `q` names `path` itself or one of its enclosing wrappers. */
  predicate Encloses(q: string, path: string) { q == path || q + "." <= path }

  /** `q` is one of the joined segment-prefixes of `path`. */
  ghost predicate IsPrefix(q: string, path: string) {
    exists k :: 1 <= k <= |Split(path)| && q == Join(Split(path)[..k])
  }

  lemma PrefixOfPlain(path: string, k: nat)
    requires path != "" && path[0] != '.' && 1 <= k <= |Split(path)|
    ensures Join(Split(path)[..k]) == [path[0]] + Join(Split(path[1..])[..k])
  {
    var rest := Split(path[1..]);
    JoinCons(path[0], rest[0], rest[1..k]);
    assert [[path[0]] + rest[0]] + rest[1..k] == Split(path)[..k];
    assert [rest[0]] + rest[1..k] == rest[..k];
  }

  lemma PrefixOfDot(path: string, k: nat)
    requires path != "" && path[0] == '.' && 1 <= k <= |Split(path)|
    ensures Join(Split(path)[..k]) == if k == 1 then "" else "." + Join(Split(path[1..])[..k - 1])
  {
    var rest := Split(path[1..]);
    var head := Split(path)[..k];
    assert Split(path) == [""] + rest;
    assert head == [""] + rest[..k - 1];
    if k > 1 { assert head[1..] == rest[..k - 1]; }
  }

  lemma PlainPrefixes(q: string, path: string)
    requires path != "" && path[0] != '.'
    ensures IsPrefix(q, path) <==> q != "" && q[0] == path[0] && IsPrefix(q[1..], path[1..])
  {
    var n := |Split(path)|;
    forall k | 1 <= k <= n && q == Join(Split(path)[..k])
      ensures q != "" && q[0] == path[0] && q[1..] == Join(Split(path[1..])[..k])
    {
      PrefixOfPlain(path, k);
    }
    if q != "" && q[0] == path[0] && IsPrefix(q[1..], path[1..]) {
      var k :| 1 <= k <= n && q[1..] == Join(Split(path[1..])[..k]);
      PrefixOfPlain(path, k);
      assert q == [q[0]] + q[1..];
    }
  }

  lemma DotPrefixes(q: string, path: string)
    requires path != "" && path[0] == '.'
    ensures IsPrefix(q, path) <==> q == "" || (q[0] == '.' && IsPrefix(q[1..], path[1..]))
  {
    var n := |Split(path)|;
    PrefixOfDot(path, 1);
    forall k | 2 <= k <= n && q == Join(Split(path)[..k])
      ensures q != "" && q[0] == '.' && q[1..] == Join(Split(path[1..])[..k - 1])
    {
      PrefixOfDot(path, k);
    }
    if q != "" && q[0] == '.' && IsPrefix(q[1..], path[1..]) {
      var k :| 1 <= k < n && q[1..] == Join(Split(path[1..])[..k]);
      PrefixOfDot(path, k + 1);
      assert q == "." + q[1..];
    }
  }

  lemma EnclosesStep(q: string, path: string)
    requires path != ""
    ensures q == "" ==> (Encloses(q, path) <==> path[0] == '.')
    ensures q != "" ==> (Encloses(q, path) <==> q[0] == path[0] && Encloses(q[1..], path[1..]))
  {
    if q != "" { assert (q + ".")[1..] == q[1..] + "."; }
  }

  /** The joined segment-prefixes of a path are exactly its enclosing paths. */
  lemma {:induction false} EnclosingArePrefixes(q: string, path: string)
    ensures Encloses(q, path) <==> IsPrefix(q, path)
  {
    if path == "" {
      assert Split(path)[..1] == [""];
    } else {
      EnclosesStep(q, path);
      if path[0] == '.' { DotPrefixes(q, path); } else { PlainPrefixes(q, path); }
      if q != "" { EnclosingArePrefixes(q[1..], path[1..]); }
    }
  }

  /** Longer segment-prefixes are longer strings. */
  lemma {:induction false} PrefixesGrow(segs: seq<string>, j: nat, k: nat)
    requires 1 <= j < k <= |segs|
    ensures |Join(segs[..j])| < |Join(segs[..k])|
  {
    assert segs[..k][1..] == segs[1..][..k - 1];
    if j > 1 {
      assert segs[..j][1..] == segs[1..][..j - 1];
      PrefixesGrow(segs[1..], j - 1, k - 1);
    }
  }

  method ResolvePathPrefixes(path: string) returns (out: seq<string>)
    ensures |out| == |Split(path)|
    ensures forall i | 0 <= i < |out| :: out[i] == Join(Split(path)[..|out| - i])
  {
    var segs := Split(path);
    out := [];
    var i := |segs|;
    while i > 0
      invariant 0 <= i <= |segs| && |out| == |segs| - i
      invariant forall j | 0 <= j < |out| :: out[j] == Join(segs[..|segs| - j])
    {
      out := out + [Join(segs[..i])];
      i := i - 1;
    }
  }

  /** `prefixes` are the joined segment-prefixes of `path`, longest first. */
  ghost predicate PrefixesOf(prefixes: seq<string>, path: string) {
    && |prefixes| == |Split(path)|
    && forall i | 0 <= i < |prefixes| :: prefixes[i] == Join(Split(path)[..|prefixes| - i])
  }

  /** Where an enclosing path stands among them; those before it are longer. */
  lemma PrefixAt(q: string, path: string, prefixes: seq<string>) returns (j: nat)
    requires PrefixesOf(prefixes, path) && Encloses(q, path)
    ensures j < |prefixes| && prefixes[j] == q
  {
    EnclosingArePrefixes(q, path);
    var k :| 1 <= k <= |prefixes| && q == Join(Split(path)[..k]);
    j := |prefixes| - k;
  }

  lemma LaterIsShorter(path: string, prefixes: seq<string>, i: nat, j: nat)
    requires PrefixesOf(prefixes, path) && i <= j < |prefixes|
    ensures |prefixes[j]| <= |prefixes[i]| && Encloses(prefixes[i], path)
  {
    var n := |prefixes|;
    assert IsPrefix(prefixes[i], path) by { assert prefixes[i] == Join(Split(path)[..n - i]); }
    EnclosingArePrefixes(prefixes[i], path);
    if i < j { PrefixesGrow(Split(path), n - j, n - i); }
  }

  /** The nearest stamped wrapper: the longest stamped path enclosing the
      clicked one, and nothing exactly when none is stamped. */
  method FindFieldNode(path: string, stamped: set<string>) returns (el: Option<string>)
    ensures el.Some? ==> el.value in stamped && Encloses(el.value, path)
    ensures el.Some? ==> forall q | q in stamped && Encloses(q, path) :: |q| <= |el.value|
    ensures el.None? ==> forall q | q in stamped :: !Encloses(q, path)
  {
    var prefixes := ResolvePathPrefixes(path);
    var i := 0;
    while i < |prefixes|
      invariant 0 <= i <= |prefixes|
      invariant forall j | 0 <= j < i :: prefixes[j] !in stamped
    {
      var p := prefixes[i];
      if p in stamped {
        LaterIsShorter(path, prefixes, i, i);
        forall q | q in stamped && Encloses(q, path)
          ensures |q| <= |p|
        {
          var j := PrefixAt(q, path, prefixes);
          LaterIsShorter(path, prefixes, i, j);
        }
        return Some(p);
      }
      i := i + 1;
    }
    forall q | Encloses(q, path)
      ensures q !in stamped
    {
      var _ := PrefixAt(q, path, prefixes);
    }
    return None;
  }
}
