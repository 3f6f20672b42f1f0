/**
 * Sources/Globs.swift: turning a shell-style path into either an exact path
 * or the source text of an anchored regular expression, and turning that
 * back into glob text for messages.
 *
 * The file system's "does this path exist" and the regular-expression engine
 * are parameters: `fileExists` and `regexFinds`.
 */
module Globs {
  import opened Wrappers
  import opened Strings

  /** The characters whose presence makes a path a glob. */
  const GlobChars: string := "*?[{"

  /** The characters the compiler escapes with a backslash: `[.+(){\\|]`. */
  const MetaChars: string := ".+(){\\|"

  /** `URL(fileURLWithPath: directory).appendingPathComponent(path).path` */
  function JoinPath(directory: string, path: string): (r: string)
    ensures EndsWith(directory, "/") ==> r == directory + path
    ensures !EndsWith(directory, "/") ==> r == directory + "/" + path
  {
    (if EndsWith(directory, "/") then directory else directory + "/") + path
  }

  /**
   * What `URL.path` makes of a path: a trailing `/` is not part of it,
   * except for the root `/` itself.
   */
  function DropTrailingSlashes(p: string): (r: string)
    ensures StartsWith(p, r) && forall i :: |r| <= i < |p| ==> p[i] == '/'
    ensures |r| <= 1 || r[|r| - 1] != '/'
    ensures p != [] ==> r != []
    decreases |p|
  {
    if |p| > 1 && p[|p| - 1] == '/' then DropTrailingSlashes(p[..|p| - 1]) else p
  }

  /**
   * `expandPath(_:in:).path`: absolute paths stay as they are, paths starting
   * with `~` are left for tilde expansion (not modelled, so unchanged), and
   * anything else is taken relative to `directory`; `URL.path` then drops a
   * trailing `/`.
   */
  function ExpandPath(path: string, directory: string): (r: string)
    ensures StartsWith(path, "/") ==> r == DropTrailingSlashes(path)
    ensures StartsWith(path, "~") ==> r == path
    ensures !StartsWith(path, "/") && !StartsWith(path, "~") ==> r == DropTrailingSlashes(JoinPath(directory, path))
    ensures StartsWith(directory, "/") && !StartsWith(path, "~") ==> StartsWith(r, "/")
    ensures !StartsWith(path, "~") ==> |r| <= 1 || r[|r| - 1] != '/'
  {
    if StartsWith(path, "/") then DropTrailingSlashes(path)
    else if StartsWith(path, "~") then path
    else
      var joined := JoinPath(directory, path);
      var r := DropTrailingSlashes(joined);
      assert StartsWith(directory, "/") ==> joined[0] == '/';
      r
  }

  /** Expanding an expanded path again changes nothing once the directory is absolute. */
  lemma ExpandPathIdempotent(path: string, directory: string)
    requires StartsWith(directory, "/")
    ensures ExpandPath(ExpandPath(path, directory), directory) == ExpandPath(path, directory)
  {
    var r := ExpandPath(path, directory);
    if StartsWith(path, "~") {
      assert StartsWith(r, "~");
    }
  }

  /** `"*?[{".contains(where: { path.contains($0) })`, scanning the glob characters in order. */
  function AnyCharIn(chars: string, path: string): (r: bool)
    ensures r <==> exists i :: 0 <= i < |chars| && chars[i] in path
    decreases |chars|
  {
    if chars == [] then false
    else if chars[0] in path then true
    else
      var r := AnyCharIn(chars[1..], path);
      assert forall i :: 1 <= i < |chars| ==> chars[i] == chars[1..][i - 1];
      r
  }

  /** `pathContainsGlobSyntax(_:)` */
  function PathContainsGlobSyntax(path: string): (r: bool)
    ensures r <==> exists i :: 0 <= i < |path| && path[i] in GlobChars
  {
    var r := AnyCharIn(GlobChars, path);
    assert r <==> ('*' in path || '?' in path || '[' in path || '{' in path);
    r
  }

  /** `enum Glob`: an exact path, or a regular expression kept as its source text. */
  datatype Glob = Path(path: string) | Regex(pattern: string)

  /**
   * `Glob.matches(_:)`. A `.path` glob matches every path it is a prefix of;
   * a `.regex` glob asks the regular-expression engine for a match anywhere
   * in the path.
   */
  function Matches(g: Glob, path: string, regexFinds: (string, string) -> bool): (r: bool)
    ensures g.Path? ==> (r <==> |g.path| <= |path| && forall i :: 0 <= i < |g.path| ==> path[i] == g.path[i])
    ensures g.Regex? ==> r == regexFinds(g.pattern, path)
  {
    match g
    case Path(p) => StartsWith(path, p)
    case Regex(re) => regexFinds(re, path)
  }

  // ---------------------------------------------------------------------------
  // Brace groups and the `(...)` groups of a compiled pattern
  // ---------------------------------------------------------------------------

  /**
   * The regular expression `\<open>[^<close>]+\<close>` matches `s[i..j]`:
   * an opening character, at least one character that is not the closing
   * one, and the closing character.
   */
  predicate GroupAt(s: string, open: char, close: char, i: int, j: int) {
    0 <= i && i + 2 < j <= |s| && s[i] == open && s[j - 1] == close && close !in s[i + 1..j - 1]
  }

  /** The index of the first `c` in `s`. */
  function FindChar(s: string, c: char): (r: Option<nat>)
    ensures r.Some? ==> r.value < |s| && s[r.value] == c && c !in s[..r.value]
    ensures r.None? ==> c !in s
    decreases |s|
  {
    if s == [] then None
    else if s[0] == c then Some(0)
    else match FindChar(s[1..], c)
      case None => None
      case Some(k) =>
        assert s[..k + 1] == [s[0]] + s[1..][..k];
        Some(k + 1)
  }

  /** A group begins at `i` exactly when the first `close` after an `open` at `i` is not adjacent to it. */
  lemma {:induction false} GroupStartsAt(s: string, open: char, close: char, i: nat)
    requires i < |s| && s[i] == open
    ensures FindChar(s[i + 1..], close).Some? && FindChar(s[i + 1..], close).value > 0 ==>
              GroupAt(s, open, close, i, i + 2 + FindChar(s[i + 1..], close).value)
    ensures forall j :: GroupAt(s, open, close, i, j) ==>
              FindChar(s[i + 1..], close).Some? && j == i + 2 + FindChar(s[i + 1..], close).value
  {
    var f := FindChar(s[i + 1..], close);
    if f.Some? && f.value > 0 {
      assert s[i + 1..i + 1 + f.value] == s[i + 1..][..f.value];
    }
    forall j | GroupAt(s, open, close, i, j)
      ensures f.Some? && j == i + 2 + f.value
    {
      var tail, inner := s[i + 1..], s[i + 1..j - 1];
      assert tail[j - 2 - i] == close;
      assert forall m :: 0 <= m < j - 2 - i ==> tail[m] == inner[m];
      var before := tail[..f.value];
      assert forall m :: 0 <= m < f.value ==> tail[m] == before[m];
    }
  }

  /**
   * The leftmost match of `\<open>[^<close>]+\<close>` in `s`, as NSString's
   * `range(of:options: .regularExpression)` reports it: `(start, end)`.
   */
  function FindGroup(s: string, open: char, close: char, from: nat := 0): (r: Option<(nat, nat)>)
    requires from <= |s|
    ensures r.Some? ==> from <= r.value.0 && GroupAt(s, open, close, r.value.0, r.value.1)
    decreases |s| - from
  {
    if from == |s| then None
    else if s[from] == open && FindChar(s[from + 1..], close).Some? && FindChar(s[from + 1..], close).value > 0 then
      GroupStartsAt(s, open, close, from);
      Some((from, from + 2 + FindChar(s[from + 1..], close).value))
    else FindGroup(s, open, close, from + 1)
  }

  /** The group found is the leftmost one, and none is found only when there is none. */
  lemma {:induction false} FindGroupLeftmost(s: string, open: char, close: char, from: nat)
    requires from <= |s|
    ensures FindGroup(s, open, close, from).Some? ==>
      forall i, j :: from <= i < FindGroup(s, open, close, from).value.0 ==> !GroupAt(s, open, close, i, j)
    ensures FindGroup(s, open, close, from).None? ==> forall i, j :: from <= i ==> !GroupAt(s, open, close, i, j)
    decreases |s| - from
  {
    if from < |s| {
      var f := FindChar(s[from + 1..], close);
      if !(s[from] == open && f.Some? && f.value > 0) {
        NoGroupAt(s, open, close, from);
        FindGroupLeftmost(s, open, close, from + 1);
      }
    }
  }

  /** No group starts where the search of `FindGroup` moves on. */
  lemma NoGroupAt(s: string, open: char, close: char, i: nat)
    requires i < |s|
    requires !(s[i] == open && FindChar(s[i + 1..], close).Some? && FindChar(s[i + 1..], close).value > 0)
    ensures forall j :: !GroupAt(s, open, close, i, j)
  {
    if s[i] == open {
      GroupStartsAt(s, open, close, i);
    }
  }


  /** Exactly one closing character is consumed by a group. */
  lemma GroupCloseCount(s: string, open: char, close: char, i: nat, j: nat)
    requires open != close && GroupAt(s, open, close, i, j)
    ensures CountChar(s, close) == CountChar(s[..i], close) + 1 + CountChar(s[j..], close)
  {
    assert s == s[..i] + ([s[i]] + (s[i + 1..j - 1] + ([close] + s[j..])));
    CountCharAppend(s[..i], [s[i]] + (s[i + 1..j - 1] + ([close] + s[j..])), close);
    CountCharAppend([s[i]], s[i + 1..j - 1] + ([close] + s[j..]), close);
    CountCharAppend(s[i + 1..j - 1], [close] + s[j..], close);
    CountCharAppend([close], s[j..], close);
    CountCharAbsent(s[i + 1..j - 1], close);
    CountCharAbsent([s[i]], close);
  }

  /** `replaceSubrange(i..<j, with: middle)` */
  function Spliced(s: string, i: nat, j: nat, middle: string): (r: string)
    requires i <= j <= |s|
    ensures |r| == |s| - (j - i) + |middle|
  {
    s[..i] + middle + s[j..]
  }

  // ---------------------------------------------------------------------------
  // expandGlob
  // ---------------------------------------------------------------------------

  /** `"\\$0"` applied to every match of `[.+(){\\|]`: a backslash before each metacharacter. */
  function EscapeMeta(s: string): string
    decreases |s|
  {
    if s == [] then []
    else (if s[0] in MetaChars then ['\\', s[0]] else [s[0]]) + EscapeMeta(s[1..])
  }

  lemma {:induction false} EscapeMetaAppend(x: string, y: string)
    ensures EscapeMeta(x + y) == EscapeMeta(x) + EscapeMeta(y)
    decreases |x|
  {
    if x == [] {
      assert x + y == y;
    } else {
      assert (x + y)[1..] == x[1..] + y;
      EscapeMetaAppend(x[1..], y);
    }
  }

  lemma {:induction false} EscapeMetaFree(s: string)
    requires forall i :: 0 <= i < |s| ==> s[i] !in MetaChars
    ensures EscapeMeta(s) == s
    decreases |s|
  {
    if s != [] {
      EscapeMetaFree(s[1..]);
    }
  }

  /** Escaping adds only backslashes, so a character other than those it escapes stays absent. */
  lemma {:induction false} EscapeMetaKeepsOut(s: string, c: char)
    requires c !in s && c != '\\'
    ensures c !in EscapeMeta(s)
    decreases |s|
  {
    if s != [] {
      EscapeMetaKeepsOut(s[1..], c);
    }
  }

  /** The placeholder for the `k`-th brace group: `"<<<\(k)>>>"`. */
  function Token(k: nat): string {
    "<<<" + NatToString(k) + ">>>"
  }

  predicate TokenChar(c: char) {
    c == '<' || c == '>' || '0' <= c <= '9'
  }

  /** A character that cannot appear in a placeholder. */
  lemma NotInToken(k: nat, c: char)
    requires !TokenChar(c)
    ensures c !in Token(k)
  {
    var d := NatToString(k);
    assert c !in d;
  }

  /** Different groups get different placeholders. */
  lemma TokenInjective(a: nat, b: nat)
    requires Token(a) == Token(b)
    ensures a == b
  {
    assert NatToString(a) == Token(a)[3..|Token(a)| - 3];
    assert NatToString(b) == Token(b)[3..|Token(b)| - 3];
    NatToStringInjective(a, b);
  }

  /** The stored alternation for the text between the braces of a group. */
  function Fragment(inner: string): (f: string)
    ensures |f| >= 2 && f[0] == '(' && f[|f| - 1] == ')'
  {
    "(" + Join(Split(EscapeMeta(inner), ','), "|") + ")"
  }

  function TokenSet(n: nat): set<string> {
    set k | 0 <= k < n :: Token(k)
  }

  /** The dictionary holds exactly the placeholders `<<<0>>>` ... `<<<n-1>>>`, `n` its size. */
  predicate TokensNumbered(tokens: map<string, string>) {
    tokens.Keys == TokenSet(|tokens|)
  }

  lemma TokenFresh(n: nat)
    ensures Token(n) !in TokenSet(n)
  {
    if Token(n) in TokenSet(n) {
      var k :| 0 <= k < n && Token(k) == Token(n);
      TokenInjective(k, n);
    }
  }

  lemma TokenSetSucc(n: nat)
    ensures TokenSet(n + 1) == TokenSet(n) + {Token(n)}
  {
    forall t | t in TokenSet(n + 1) ensures t in TokenSet(n) + {Token(n)} {
      var k :| 0 <= k < n + 1 && t == Token(k);
      if k < n {
        assert t in TokenSet(n);
      }
    }
  }

  lemma TokensNumberedExtend(tokens: map<string, string>, v: string)
    requires TokensNumbered(tokens)
    ensures Token(|tokens|) !in tokens
    ensures TokensNumbered(tokens[Token(|tokens|) := v]) && |tokens[Token(|tokens|) := v]| == |tokens| + 1
  {
    var n := |tokens|;
    TokenFresh(n);
    var t := tokens[Token(n) := v];
    assert |t| == n + 1;
    assert t.Keys == tokens.Keys + {Token(n)};
    TokenSetSucc(n);
  }

  /**
   * The brace-extraction loop of `expandGlob` (lines 66-73) as a recursive
   * function: while a group `{...}` remains, the leftmost one is replaced by
   * the next placeholder and its alternation is stored under it.
   */
  function ExtractBraces(path: string, tokens: map<string, string>): (r: (string, map<string, string>))
    decreases CountChar(path, '}')
  {
    var found := FindGroup(path, '{', '}');
    if found.None? then (path, tokens)
    else
      var (i, j) := found.value;
      ExtractCount(path, |tokens|, i, j);
      var next := ExtractTurn(path, tokens, i, j);
      ExtractBraces(next.0, next.1)
  }

  function ExtractTurn(path: string, tokens: map<string, string>, i: nat, j: nat): (string, map<string, string>)
    requires GroupAt(path, '{', '}', i, j)
  {
    (Spliced(path, i, j, Token(|tokens|)), tokens[Token(|tokens|) := Fragment(path[i + 1..j - 1])])
  }

  /** The extraction takes its first step on the leftmost group. */
  lemma ExtractUnfold(path: string, tokens: map<string, string>, i: nat, j: nat, path': string, tokens': map<string, string>)
    requires FindGroup(path, '{', '}') == Some((i, j))
    requires (path', tokens') == ExtractTurn(path, tokens, i, j)
    ensures ExtractBraces(path, tokens) == ExtractBraces(path', tokens')
  {
  }

  /** One turn of the extraction loop consumes one `}`. */
  lemma ExtractCount(path: string, n: nat, i: nat, j: nat)
    requires GroupAt(path, '{', '}', i, j)
    ensures CountChar(Spliced(path, i, j, Token(n)), '}') + 1 == CountChar(path, '}')
  {
    var token := Token(n);
    GroupCloseCount(path, '{', '}', i, j);
    CountCharAppend(path[..i] + token, path[j..], '}');
    CountCharAppend(path[..i], token, '}');
    NotInToken(n, '}');
    CountCharAbsent(token, '}');
  }

  /**
   * No brace group is left once the extraction stops. The dictionary it builds holds the placeholders `<<<0>>>`,
   * `<<<1>>>`, ... in the order the groups were met, one per `}` consumed,
   * and never overwrites an entry: each group gets a placeholder of its own.
   */
  lemma {:induction false} ExtractBracesNumbered(path: string, tokens: map<string, string>)
    requires TokensNumbered(tokens)
    ensures FindGroup(ExtractBraces(path, tokens).0, '{', '}').None?
    ensures TokensNumbered(ExtractBraces(path, tokens).1)
    ensures forall t :: t in tokens ==> t in ExtractBraces(path, tokens).1 && ExtractBraces(path, tokens).1[t] == tokens[t]
    ensures CountChar(ExtractBraces(path, tokens).0, '}') + |ExtractBraces(path, tokens).1| == CountChar(path, '}') + |tokens|
    decreases CountChar(path, '}')
  {
    var found := FindGroup(path, '{', '}');
    if found.Some? {
      var (i, j) := found.value;
      var (path', tokens') := ExtractTurn(path, tokens, i, j);
      ExtractCount(path, |tokens|, i, j);
      TokensNumberedExtend(tokens, Fragment(path[i + 1..j - 1]));
      assert |tokens'| == |tokens| + 1;
      assert forall t :: t in tokens ==> t in tokens' && tokens'[t] == tokens[t];
      ExtractUnfold(path, tokens, i, j, path', tokens');
      ExtractBracesNumbered(path', tokens');
    }
  }


  /** The five rewrites of lines 81-85, in their order. */
  function RewriteWildcards(s: string): string {
    var escaped := EscapeMeta(s);
    var single := ReplaceAll(escaped, "?", "[^/]");
    var anyDirs := ReplaceAll(single, "**/", "(.+/)?");
    var anyChars := ReplaceAll(anyDirs, "**", ".+");
    ReplaceAll(anyChars, "*", "([^/]+)?")
  }

  /** Lines 86-88: the placeholders `k`, `k+1`, ... `n-1` replaced by their stored alternations. */
  function SubstituteTokens(regex: string, tokens: map<string, string>, k: nat): string
    requires TokensNumbered(tokens)
    decreases |tokens| - k
  {
    if k >= |tokens| then regex
    else
      assert Token(k) in TokenSet(|tokens|);
      SubstituteTokens(ReplaceAll(regex, Token(k), tokens[Token(k)]), tokens, k + 1)
  }

  /** What `expandGlob(path, in: directory)` returns, given which paths exist. */
  function CompiledGlob(path: string, directory: string, fileExists: string -> bool): Glob {
    if !PathContainsGlobSyntax(path) then Path(ExpandPath(path, directory))
    else
      var (p, tokens) := ExtractBraces(path, map[]);
      ExtractBracesNumbered(path, map[]);
      var resolved := ExpandPath(p, directory);
      if fileExists(resolved) then Path(resolved)
      else Regex(SubstituteTokens(RewriteWildcards("^" + resolved + "$"), tokens, 0))
  }

  /** `expandGlob(_:in:)` */
  method ExpandGlob(path: string, directory: string, fileExists: string -> bool) returns (g: Glob)
    ensures g == CompiledGlob(path, directory, fileExists)
  {
    if !PathContainsGlobSyntax(path) {
      return Path(ExpandPath(path, directory));
    }
    var p, tokens := ReplaceBraceGroups(path);
    ExtractBracesNumbered(path, map[]);
    var resolved := ExpandPath(p, directory);
    if fileExists(resolved) {
      return Path(resolved);
    }
    var regex := RewriteWildcards("^" + resolved + "$");
    regex := ExpandTokens(regex, tokens);
    return Regex(regex);
  }

  /** The first loop of `expandGlob`: brace groups out, placeholders in. */
  method ReplaceBraceGroups(path: string) returns (p: string, tokens: map<string, string>)
    ensures (p, tokens) == ExtractBraces(path, map[])
  {
    p := path;
    tokens := map[];
    while FindGroup(p, '{', '}').Some?
      invariant ExtractBraces(p, tokens) == ExtractBraces(path, map[])
      decreases CountChar(p, '}')
    {
      var (i, j) := FindGroup(p, '{', '}').value;
      var options := Split(EscapeMeta(p[i + 1..j - 1]), ',');
      var token := Token(|tokens|);
      ExtractStep(p, tokens, i, j, options);
      tokens := tokens[token := "(" + Join(options, "|") + ")"];
      p := p[..i] + token + p[j..];
    }
  }

  /** One turn of the loop in `ReplaceBraceGroups`, as the source writes it, is one turn of `ExtractBraces`. */
  lemma ExtractStep(path: string, tokens: map<string, string>, i: nat, j: nat, options: seq<string>)
    requires FindGroup(path, '{', '}') == Some((i, j))
    requires options == Split(EscapeMeta(path[i + 1..j - 1]), ',')
    ensures var path', tokens' := path[..i] + Token(|tokens|) + path[j..],
                                  tokens[Token(|tokens|) := "(" + Join(options, "|") + ")"];
            && ExtractBraces(path', tokens') == ExtractBraces(path, tokens)
            && CountChar(path', '}') < CountChar(path, '}')
  {
    ExtractCount(path, |tokens|, i, j);
    var path', tokens' := path[..i] + Token(|tokens|) + path[j..],
                          tokens[Token(|tokens|) := "(" + Join(options, "|") + ")"];
    ExtractUnfold(path, tokens, i, j, path', tokens');
  }



  /** The second loop of `expandGlob`: every placeholder replaced by its alternation. */
  method ExpandTokens(regex: string, tokens: map<string, string>) returns (r: string)
    requires TokensNumbered(tokens)
    ensures r == SubstituteTokens(regex, tokens, 0)
  {
    r := regex;
    var k := 0;
    while k < |tokens|
      invariant k <= |tokens|
      invariant SubstituteTokens(r, tokens, k) == SubstituteTokens(regex, tokens, 0)
    {
      assert Token(k) in TokenSet(|tokens|);
      r := ReplaceAll(r, Token(k), tokens[Token(k)]);
      k := k + 1;
    }
  }


  /**
   * A path without glob syntax compiles to its expanded self, which is what
   * it describes as and what it matches as a prefix of. A glob whose path,
   * with its brace groups replaced by placeholders, exists on disk compiles
   * to that path, placeholders and all.
   */
  lemma CompiledPath(path: string, directory: string, fileExists: string -> bool,
                     regexFinds: (string, string) -> bool, q: string)
    ensures var g := CompiledGlob(path, directory, fileExists);
            !PathContainsGlobSyntax(path) ==>
              && g == Path(ExpandPath(path, directory))
              && Described(g) == ExpandPath(path, directory)
              && (StartsWith(path, "/") ==> Described(g) == DropTrailingSlashes(path))
              && (Matches(g, q, regexFinds) <==> StartsWith(q, ExpandPath(path, directory)))
    ensures var g, p := CompiledGlob(path, directory, fileExists), ExtractBraces(path, map[]).0;
            PathContainsGlobSyntax(path) && fileExists(ExpandPath(p, directory)) ==>
              && g == Path(ExpandPath(p, directory))
              && FindGroup(p, '{', '}').None?
  {
    ExtractBracesNumbered(path, map[]);
  }

  /** The wildcard rewrites leave no `*`: the last one replaces every `*` left. */
  lemma RewriteLeavesNoStar(s: string)
    ensures '*' !in RewriteWildcards(s)
  {
    var escaped := EscapeMeta(s);
    var single := ReplaceAll(escaped, "?", "[^/]");
    var anyDirs := ReplaceAll(single, "**/", "(.+/)?");
    var anyChars := ReplaceAll(anyDirs, "**", ".+");
    ReplaceAllRemoves(anyChars, '*', "([^/]+)?");
  }

  /** An alternation built from alternatives without `*` has none. */
  lemma FragmentNoStar(inner: string)
    requires '*' !in inner
    ensures '*' !in Fragment(inner)
  {
    var escaped := EscapeMeta(inner);
    EscapeMetaKeepsOut(inner, '*');
    JoinSplit(escaped, ',', '|');
    var mapped := MapChar(escaped, ',', '|');
    assert forall i :: 0 <= i < |mapped| ==> mapped[i] == '|' || mapped[i] == escaped[i];
  }

  /** Substituting placeholders by alternations without `c` brings no `c` in. */
  lemma {:induction false} SubstituteKeepsOut(regex: string, tokens: map<string, string>, k: nat, c: char)
    requires TokensNumbered(tokens) && c !in regex
    requires forall t :: t in tokens ==> c !in tokens[t]
    ensures c !in SubstituteTokens(regex, tokens, k)
    decreases |tokens| - k
  {
    if k < |tokens| {
      assert Token(k) in TokenSet(|tokens|);
      ReplaceAllKeepsOut(regex, Token(k), tokens[Token(k)], c);
      SubstituteKeepsOut(ReplaceAll(regex, Token(k), tokens[Token(k)]), tokens, k + 1, c);
    }
  }

  /**
   * When no stored alternation holds a `*`, the compiled pattern holds none:
   * every `*` of the glob is consumed by the rewrites.
   */
  lemma CompiledNoStar(path: string, directory: string, fileExists: string -> bool)
    requires CompiledGlob(path, directory, fileExists).Regex?
    requires forall t :: t in ExtractBraces(path, map[]).1 ==> '*' !in ExtractBraces(path, map[]).1[t]
    ensures '*' !in CompiledGlob(path, directory, fileExists).pattern
  {
    var (p, tokens) := ExtractBraces(path, map[]);
    ExtractBracesNumbered(path, map[]);
    var resolved := ExpandPath(p, directory);
    RewriteLeavesNoStar("^" + resolved + "$");
    SubstituteKeepsOut(RewriteWildcards("^" + resolved + "$"), tokens, 0, '*');
  }

  // ---------------------------------------------------------------------------
  // Glob.description
  // ---------------------------------------------------------------------------

  /** `dropFirst().dropLast()` */
  function DropEnds(s: string): (r: string)
    ensures |s| >= 2 ==> s == [s[0]] + r + [s[|s| - 1]]
  {
    if |s| >= 2 then s[1..|s| - 1] else []
  }

  /** The four wildcard rewrites undone and the backslashes deleted (lines 44-49). */
  function UnrewriteWildcards(s: string): string {
    var stars := ReplaceAll(s, "([^/]+)?", "*");
    var anyDirs := ReplaceAll(stars, "(.+/)?", "**/");
    var anyChars := ReplaceAll(anyDirs, ".+", "**");
    var single := ReplaceAll(anyChars, "[^/]", "?");
    ReplaceAll(single, "\\", "")
  }

  /** The collapse loop of lines 50-53: each leftmost `(a|b)` becomes `{a,b}` until none is left. */
  function CollapseGroups(s: string): string
    decreases CountChar(s, ')')
  {
    match FindGroup(s, '(', ')')
    case None => s
    case Some((i, j)) =>
      CollapseStep(s, i, j);
      CollapseGroups(Spliced(s, i, j, Braced(s[i + 1..j - 1])))
  }

  lemma CollapseUnfold(s: string, i: nat, j: nat, s': string)
    requires FindGroup(s, '(', ')') == Some((i, j))
    requires s' == Spliced(s, i, j, Braced(s[i + 1..j - 1]))
    ensures CollapseGroups(s) == CollapseGroups(s')
  {
  }

  /** `"{" + options.joined(separator: ",") + "}"` for the options of a `(...)` group. */
  function Braced(inner: string): (b: string)
    ensures ')' !in inner ==> ')' !in b
  {
    JoinSplit(inner, '|', ',');
    "{" + Join(Split(inner, '|'), ",") + "}"
  }

  /** One turn of the collapse loop consumes one `)`. */
  lemma CollapseStep(s: string, i: nat, j: nat)
    requires GroupAt(s, '(', ')', i, j)
    ensures CountChar(Spliced(s, i, j, Braced(s[i + 1..j - 1])), ')') + 1 == CountChar(s, ')')
  {
    var braces := Braced(s[i + 1..j - 1]);
    GroupCloseCount(s, '(', ')', i, j);
    CountCharAbsent(braces, ')');
    CountCharAppend(s[..i] + braces, s[j..], ')');
    CountCharAppend(s[..i], braces, ')');
  }

  /** What `Glob.description` returns. */
  function Described(g: Glob): string {
    match g
    case Path(p) => p
    case Regex(pattern) => CollapseGroups(UnrewriteWildcards(DropEnds(pattern)))
  }

  /** `Glob.description`, with its loop. */
  method Description(g: Glob) returns (d: string)
    ensures d == Described(g)
  {
    match g
    case Path(p) =>
      return p;
    case Regex(pattern) =>
      var result := UnrewriteWildcards(DropEnds(pattern));
      ghost var start := result;
      while FindGroup(result, '(', ')').Some?
        invariant CollapseGroups(result) == CollapseGroups(start)
        decreases CountChar(result, ')')
      {
        var (i, j) := FindGroup(result, '(', ')').value;
        var options := Split(result[i + 1..j - 1], '|');
        CollapseStep(result, i, j);
        CollapseUnfold(result, i, j, Spliced(result, i, j, "{" + Join(options, ",") + "}"));
        result := result[..i] + ("{" + Join(options, ",") + "}") + result[j..];
      }
      return result;
  }
}
