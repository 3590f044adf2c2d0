/** normalizePath, and the watch prefix built from normalized paths. */
module EtcdPath {

  /** Runs of slashes become one slash. */
  function Collapse(s: string): string {
    if |s| < 2 then s
    else if s[0] == '/' && s[1] == '/' then Collapse(s[1..])
    else [s[0]] + Collapse(s[1..])
  }

  predicate HasDouble(s: string) { exists i | 0 <= i < |s| - 1 :: s[i] == '/' && s[i + 1] == '/' }

  /** strings.ReplaceAll(s, "//", "/"): left to right, without overlaps. */
  function ReplaceDoubles(s: string): string {
    if |s| < 2 then s
    else if s[0] == '/' && s[1] == '/' then "/" + ReplaceDoubles(s[2..])
    else [s[0]] + ReplaceDoubles(s[1..])
  }

  lemma {:induction false} ReplaceShortens(s: string)
    ensures |ReplaceDoubles(s)| <= |s|
    ensures HasDouble(s) ==> |ReplaceDoubles(s)| < |s|
  {
    if |s| >= 2 {
      if s[0] == '/' && s[1] == '/' {
        ReplaceShortens(s[2..]);
      } else {
        ReplaceShortens(s[1..]);
        if HasDouble(s) {
          var i :| 0 <= i < |s| - 1 && s[i] == '/' && s[i + 1] == '/';
          assert s[1..][i - 1] == '/' && s[1..][i] == '/';
        }
      }
    }
  }

  lemma {:induction false} CollapseHead(s: string)
    requires s != []
    ensures Collapse(s) != [] && Collapse(s)[0] == s[0]
  {
    if |s| >= 2 && s[0] == '/' && s[1] == '/' {
      CollapseHead(s[1..]);
    }
  }

  lemma {:induction false} ReplaceHead(s: string)
    requires s != []
    ensures ReplaceDoubles(s) != [] && ReplaceDoubles(s)[0] == s[0]
  {
  }

  lemma CollapseCons(c: char, s: string)
    ensures Collapse([c] + s) == if s != [] && c == '/' && s[0] == '/' then Collapse(s) else [c] + Collapse(s)
  {
  }

  /** Halving the runs does not change what they collapse to. */
  lemma {:induction false} ReplaceThenCollapse(s: string)
    ensures Collapse(ReplaceDoubles(s)) == Collapse(s)
  {
    if |s| >= 2 {
      if s[0] == '/' && s[1] == '/' {
        var rest := s[2..];
        ReplaceThenCollapse(rest);
        assert s[1..] == ['/'] + rest;
        CollapseCons('/', rest);
        CollapseCons('/', ReplaceDoubles(rest));
        if rest != [] {
          ReplaceHead(rest);
        }
      } else {
        var rest := s[1..];
        ReplaceThenCollapse(rest);
        ReplaceHead(rest);
        CollapseCons(s[0], ReplaceDoubles(rest));
      }
    }
  }

  lemma {:induction false} CollapseIdle(s: string)
    requires !HasDouble(s)
    ensures Collapse(s) == s
  {
    if |s| >= 2 {
      assert !(s[0] == '/' && s[0 + 1] == '/');
      forall i | 0 <= i < |s[1..]| - 1
        ensures !(s[1..][i] == '/' && s[1..][i + 1] == '/')
      {
        assert s[1..][i] == s[i + 1] && s[1..][i + 1] == s[(i + 1) + 1];
      }
      CollapseIdle(s[1..]);
    }
  }

  /** Collapsing leaves no double slash and keeps the first and the last character. */
  lemma {:induction false} CollapseKeepsEnds(s: string)
    ensures !HasDouble(Collapse(s))
    ensures s == [] <==> Collapse(s) == []
    ensures s != [] ==> Collapse(s)[0] == s[0] && Collapse(s)[|Collapse(s)| - 1] == s[|s| - 1]
  {
    if |s| >= 2 {
      CollapseKeepsEnds(s[1..]);
      CollapseHead(s[1..]);
    }
  }

  /** The word a path begins with, and the non-empty words between the slashes after it. */
  ghost function Words(s: string): (string, seq<string>) {
    if s == [] then ([], [])
    else if s[0] == '/' then ([], Listed(Words(s[1..])))
    else ([s[0]] + Words(s[1..]).0, Words(s[1..]).1)
  }

  ghost function Listed(words: (string, seq<string>)): seq<string> {
    if words.0 == [] then words.1 else [words.0] + words.1
  }

  /** The non-empty words between the slashes, in order. */
  ghost function Parts(s: string): seq<string> { Listed(Words(s)) }

  lemma {:induction false} CollapseKeepsWords(s: string)
    ensures Words(Collapse(s)) == Words(s)
  {
    if |s| >= 2 {
      CollapseKeepsWords(s[1..]);
    }
  }

  lemma {:induction false} TrailingSlash(s: string)
    ensures Words(s + "/") == Words(s)
  {
    if s != [] {
      assert (s + "/")[1..] == s[1..] + "/";
      TrailingSlash(s[1..]);
    }
  }

  /** Nothing but slashes is lost or added: the parts of the path stay. */
  lemma NormalKeepsParts(r: string)
    ensures var t := TrimSlash(r);
            Parts(Collapse(if t != "" && t[0] == '/' then t else "/" + t)) == Parts(r)
  {
    var t := TrimSlash(r);
    CollapseKeepsWords(if t != "" && t[0] == '/' then t else "/" + t);
    assert ("/" + t)[1..] == t;
    TrailingSlash(t);
    assert EndsInSlash(r) ==> r == t + "/";
  }

  predicate EndsInSlash(s: string) { s != [] && s[|s| - 1] == '/' }

  function TrimSlash(r: string): string { if EndsInSlash(r) then r[..|r| - 1] else r }

  /** unicode.IsSpace */
  predicate IsSpace(c: char) {
    || c in {'\t', '\n', '\U{000B}', '\U{000C}', '\r', ' ', '\U{0085}', '\U{00A0}', '\U{1680}'}
    || '\U{2000}' <= c <= '\U{200A}'
    || c in {'\U{2028}', '\U{2029}', '\U{202F}', '\U{205F}', '\U{3000}'}
  }

  predicate AllSpace(s: string) { forall c <- s :: IsSpace(c) }

  predicate Bare(s: string) { s != [] ==> !IsSpace(s[0]) && !IsSpace(s[|s| - 1]) }

  /** strings.TrimSpace: exactly the blanks at both ends go. */
  function TrimSpace(s: string): (r: string)
    ensures Bare(r)
    decreases |s|
  {
    if s == [] then []
    else if IsSpace(s[0]) then TrimSpace(s[1..])
    else if IsSpace(s[|s| - 1]) then TrimSpace(s[..|s| - 1])
    else s
  }

  /** What goes on the left and on the right is blank. */
  lemma {:induction false} TrimTakesOnlyBlanks(s: string) returns (left: string, right: string)
    ensures s == left + TrimSpace(s) + right && AllSpace(left) && AllSpace(right)
    decreases |s|
  {
    if s != [] && IsSpace(s[0]) {
      left, right := TrimTakesOnlyBlanks(s[1..]);
      left := [s[0]] + left;
    } else if s != [] && IsSpace(s[|s| - 1]) {
      left, right := TrimTakesOnlyBlanks(s[..|s| - 1]);
      right := right + [s[|s| - 1]];
      assert s == s[..|s| - 1] + [s[|s| - 1]];
    } else {
      left, right := [], [];
    }
  }

  /** Of the input without surrounding blanks: a leading slash, no double slash, and a trailing slash
      exactly when it is "/" or ends in two slashes, because one is cut before collapsing. */
  method NormalizePath(input: string) returns (path: string)
    ensures AllSpace(input) <==> path == ""
    ensures path != "" ==> path[0] == '/' && !HasDouble(path)
    ensures var r := TrimSpace(input); EndsInSlash(path) <==> r == "/" || (|r| >= 2 && r[|r| - 2..] == "//")
    ensures Parts(path) == Parts(TrimSpace(input))
    ensures path != "" ==>
              var t := TrimSlash(TrimSpace(input));
              path == Collapse(if t != "" && t[0] == '/' then t else "/" + t)
  {
    var r := TrimSpace(input);
    TrimOfBlanks(input);
    if r == "" {
      return "";
    }
    path := if EndsInSlash(r) then r[..|r| - 1] else r;
    if path == "" || path[0] != '/' {
      path := "/" + path;
    }
    ghost var start := path;
    while HasDouble(path)
      invariant Collapse(path) == Collapse(start)
      decreases |path|
    {
      ReplaceShortens(path);
      ReplaceThenCollapse(path);
      path := ReplaceDoubles(path);
    }
    CollapseIdle(path);
    CollapseKeepsEnds(start);
    NormalKeepsParts(r);
  }

  lemma {:induction false} TrimOfBlanks(s: string)
    ensures TrimSpace(s) == [] <==> AllSpace(s)
    decreases |s|
  {
    if s != [] && IsSpace(s[0]) {
      TrimOfBlanks(s[1..]);
      assert s == [s[0]] + s[1..];
    } else if s != [] && IsSpace(s[|s| - 1]) {
      TrimOfBlanks(s[..|s| - 1]);
      assert s == s[..|s| - 1] + [s[|s| - 1]];
    }
  }

  /** Watching below a normalized path stays below the root, so every watched key is the root, a
      slash and a node ID. */
  lemma WatchPrefixBelowRoot(root: string, watchPrefix: string)
    requires watchPrefix == "" || watchPrefix[0] == '/'
    ensures root + "/" <= root + watchPrefix + "/"
  {
  }
}
