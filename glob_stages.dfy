/**
 * The rest of the round trip of Sources/Globs.swift: every
 * `replacingOccurrences` of `expandGlob` (lines 78-88) and of
 * `Glob.description` (lines 44-49) takes the text of each piece from one
 * level of `Enc` to the next, the placeholders are substituted one after
 * another, and the collapse loop (lines 50-53) puts each alternation back
 * between braces. Put together: an absolute glob built from well-formed
 * pieces that names no existing file describes as itself.
 */
module GlobStages {
  import opened Wrappers
  import opened Strings
  import opened Globs
  import opened GlobRoundTrip

  // ---------------------------------------------------------------------------
  // The rewrites, one level each
  // ---------------------------------------------------------------------------

  /** The levels a `replacingOccurrences(of:with:)` call leaves, to the next level. */
  predicate Rewrite(level: nat) {
    level in {1, 2, 3, 4, 6, 7, 8, 9, 10}
  }

  /** What the call leaving `level` searches for. */
  function Pat(level: nat): string
    requires Rewrite(level)
  {
    match level
    case 1 => "?"
    case 2 => "**/"
    case 3 => "**"
    case 4 => "*"
    case 6 => "([^/]+)?"
    case 7 => "(.+/)?"
    case 8 => ".+"
    case 9 => "[^/]"
    case _ => "\\"
  }

  /** What it puts in its place. */
  function Rep(level: nat): string
    requires Rewrite(level)
  {
    match level
    case 1 => "[^/]"
    case 2 => "(.+/)?"
    case 3 => ".+"
    case 4 => "([^/]+)?"
    case 6 => "*"
    case 7 => "**/"
    case 8 => "**"
    case 9 => "?"
    case _ => ""
  }

  /**
   * Replacing `pat` by `rep` takes every piece from its text at `(from, mf)`
   * to its text at `(to, mt)`, and no occurrence straddles a piece and the
   * pieces after it.
   */
  predicate PieceWise(ps: seq<Piece>, from: nat, mf: nat, to: nat, mt: nat, k: nat, pat: string, rep: string)
    requires pat != []
    decreases |ps|
  {
    ps != [] ==>
      && ReplaceAll(Enc(ps[0], from, k, mf), pat, rep) == Enc(ps[0], to, k, mt)
      && NoStraddle(Enc(ps[0], from, k, mf), EncAll(ps[1..], from, k + Groups(ps[0]), mf), pat)
      && PieceWise(ps[1..], from, mf, to, mt, k + Groups(ps[0]), pat, rep)
  }

  /** A replacement that works piece by piece works on the whole text. */
  lemma {:induction false} PieceWiseAll(ps: seq<Piece>, from: nat, mf: nat, to: nat, mt: nat, k: nat,
                                        pat: string, rep: string)
    requires pat != [] && PieceWise(ps, from, mf, to, mt, k, pat, rep)
    ensures ReplaceAll(EncAll(ps, from, k, mf), pat, rep) == EncAll(ps, to, k, mt)
    decreases |ps|
  {
    if ps != [] {
      var k' := k + Groups(ps[0]);
      ReplaceAllAppend(Enc(ps[0], from, k, mf), EncAll(ps[1..], from, k', mf), pat, rep);
      PieceWiseAll(ps[1..], from, mf, to, mt, k', pat, rep);
    }
  }

  lemma WellFormedTail(ps: seq<Piece>)
    requires WellFormed(ps) && ps != []
    ensures WellFormed(ps[1..])
  {
    assert forall i :: 0 <= i < |ps| - 1 ==> ps[1..][i] == ps[i + 1];
  }

  // ---------------------------------------------------------------------------
  // Characters at the edges of a piece's text
  // ---------------------------------------------------------------------------

  lemma EscapeOne(c: char)
    ensures EscapeMeta([c]) == if c in MetaChars then ['\\', c] else [c]
  {
    assert [c][1..] == [];
  }

  /** A literal piece between levels 1 and 10: its character, escaped when it is a metacharacter. */
  lemma LitText(c: char, level: nat, k: nat, m: nat)
    requires LitChar(c) && 1 <= level <= 10
    ensures Enc(Lit(c), level, k, m) == if c == '.' || c == '+' then ['\\', c] else [c]
  {
    EscapeOne(c);
  }

  /** What may follow a piece `p` between levels 1 and 10. */
  predicate Follows(p: Piece, y: string) {
    y == [] || (y[0] != '^' && y[0] != '+' && (IsStarPiece(p) ==> y[0] != '*') && (p == DoubleStar ==> y[0] != '/'))
  }

  /** The first character of a piece's text between levels 1 and 10. */
  lemma FirstChar(q: Piece, level: nat, k: nat, m: nat)
    requires PieceOk(q) && 1 <= level <= 10
    ensures var x := Enc(q, level, k, m);
            && x != [] && x[0] != '^' && x[0] != '+'
            && (x[0] == '*' ==> IsStarPiece(q)) && (x[0] == '/' ==> q == Lit('/'))
  {
    match q
    case Lit(c) => LitText(c, level, k, m);
    case Alternatives(inner) =>
      if level <= 4 || (level == 5 && k >= m) {
        assert Enc(q, level, k, m) == Token(k);
      }
    case _ =>
  }

  /** In well-formed pieces, the text after the first piece is one that may follow it. */
  lemma NextChar(ps: seq<Piece>, level: nat, k: nat, m: nat)
    requires WellFormed(ps) && ps != [] && 1 <= level <= 10
    ensures Follows(ps[0], EncAll(ps[1..], level, k, m))
  {
    if |ps| > 1 {
      assert PieceOk(ps[1]);
      FirstChar(ps[1], level, k, m);
      EncAllCons(ps[1..], level, k, m);
    }
  }

  /** Escaping and swapping `,` for `|` brings in no character other than `\\` and `|`. */
  lemma MappedLacks(inner: string, c: char)
    requires c !in inner && c != '\\' && c != '|'
    ensures c !in MapChar(EscapeMeta(inner), ',', '|')
  {
    EscapeMetaKeepsOut(inner, c);
  }

  /** An escaped alternation never starts with a bare `.`. */
  lemma MappedFirst(inner: string)
    requires inner != []
    ensures MapChar(EscapeMeta(inner), ',', '|') != [] && MapChar(EscapeMeta(inner), ',', '|')[0] != '.'
  {
    assert EscapeMeta(inner) == (if inner[0] in MetaChars then ['\\', inner[0]] else [inner[0]]) + EscapeMeta(inner[1..]);
  }

  /** The characters an alternative cannot hold. */
  lemma AltLacks(inner: string)
    requires PieceOk(Alternatives(inner))
    ensures inner != []
    ensures '^' !in inner && '+' !in inner && '<' !in inner && '*' !in inner
    ensures '(' !in inner && ')' !in inner && '|' !in inner && '\\' !in inner
  {
    assert forall i :: 0 <= i < |inner| ==> AltChar(inner[i]);
  }

  /** Text between parentheses. */
  lemma Parenthesised(m: string)
    requires m != []
    ensures var f := "(" + m + ")";
            && |f| >= 3 && f[1] == m[0] && f[1..] == m + ")"
            && forall c :: c != '(' && c != ')' && c !in m ==> c !in f
  {
  }

  /** What an alternation is made of. */
  lemma FragmentFacts(inner: string)
    requires PieceOk(Alternatives(inner))
    ensures var f := Fragment(inner);
            && f == "(" + MapChar(EscapeMeta(inner), ',', '|') + ")"
            && |f| >= 3 && f[1] != '.'
            && '^' !in f && '+' !in f && '<' !in f && '*' !in f && '(' !in f[1..]
  {
    var mapped := MapChar(EscapeMeta(inner), ',', '|');
    JoinSplit(EscapeMeta(inner), ',', '|');
    AltLacks(inner);
    MappedLacks(inner, '^');
    MappedLacks(inner, '+');
    MappedLacks(inner, '<');
    MappedLacks(inner, '*');
    MappedLacks(inner, '(');
    MappedFirst(inner);
    Parenthesised(mapped);
  }

  // ---------------------------------------------------------------------------
  // Replacing inside one piece
  // ---------------------------------------------------------------------------

  lemma ReplaceWhole(pat: string, rep: string)
    requires pat != []
    ensures ReplaceAll(pat, pat, rep) == rep
  {
    ReplaceAllHit(pat, [], rep);
    assert pat + [] == pat;
  }

  lemma ReplaceMissing(s: string, pat: string, rep: string, d: nat)
    requires d < |pat| && pat[d] !in s
    ensures ReplaceAll(s, pat, rep) == s
  {
    NotContainsChar(s, pat, d);
    ReplaceAllAbsent(s, pat, rep);
  }

  lemma ReplaceShort(s: string, pat: string, rep: string)
    requires pat != [] && |s| < |pat|
    ensures ReplaceAll(s, pat, rep) == s
  {
    NotContainsShort(s, pat);
    ReplaceAllAbsent(s, pat, rep);
  }

  /** `?` becomes `[^/]`; no other piece holds a `?`. */
  lemma RewriteAnyChar(p: Piece, k: nat)
    requires PieceOk(p)
    ensures ReplaceAll(Enc(p, 1, k, 0), "?", "[^/]") == Enc(p, 2, k, 0)
  {
    match p
    case Lit(c) => LitText(c, 1, k, 0); LitText(c, 2, k, 0); ReplaceMissing(Enc(p, 1, k, 0), "?", "[^/]", 0);
    case AnyChar => ReplaceWhole("?", "[^/]");
    case Alternatives(_) => NotInToken(k, '?'); ReplaceMissing(Token(k), "?", "[^/]", 0);
    case _ => ReplaceMissing(Enc(p, 1, k, 0), "?", "[^/]", 0);
  }

  /** `**` + `/` becomes `(.+/)?`; `*` and `**` are too short to hold it. */
  lemma RewriteAnyDirs(p: Piece, k: nat)
    requires PieceOk(p)
    ensures ReplaceAll(Enc(p, 2, k, 0), "**/", "(.+/)?") == Enc(p, 3, k, 0)
  {
    match p
    case Lit(c) => LitText(c, 2, k, 0); LitText(c, 3, k, 0); ReplaceMissing(Enc(p, 2, k, 0), "**/", "(.+/)?", 0);
    case DoubleStarSlash => ReplaceWhole("**/", "(.+/)?");
    case Star => ReplaceShort("*", "**/", "(.+/)?");
    case DoubleStar => ReplaceShort("**", "**/", "(.+/)?");
    case Alternatives(_) => NotInToken(k, '*'); ReplaceMissing(Token(k), "**/", "(.+/)?", 0);
    case AnyChar => ReplaceMissing("[^/]", "**/", "(.+/)?", 0);
  }

  /** `**` becomes `.+`. */
  lemma RewriteAnyChars(p: Piece, k: nat)
    requires PieceOk(p)
    ensures ReplaceAll(Enc(p, 3, k, 0), "**", ".+") == Enc(p, 4, k, 0)
  {
    match p
    case Lit(c) => LitText(c, 3, k, 0); LitText(c, 4, k, 0); ReplaceMissing(Enc(p, 3, k, 0), "**", ".+", 0);
    case DoubleStar => ReplaceWhole("**", ".+");
    case Star => ReplaceShort("*", "**", ".+");
    case Alternatives(_) => NotInToken(k, '*'); ReplaceMissing(Token(k), "**", ".+", 0);
    case _ => ReplaceMissing(Enc(p, 3, k, 0), "**", ".+", 0);
  }

  /** `*` becomes `([^/]+)?`. */
  lemma RewriteStar(p: Piece, k: nat)
    requires PieceOk(p)
    ensures ReplaceAll(Enc(p, 4, k, 0), "*", "([^/]+)?") == Enc(p, 5, k, 0)
  {
    match p
    case Lit(c) => LitText(c, 4, k, 0); LitText(c, 5, k, 0); ReplaceMissing(Enc(p, 4, k, 0), "*", "([^/]+)?", 0);
    case Star => ReplaceWhole("*", "([^/]+)?");
    case Alternatives(_) => NotInToken(k, '*'); ReplaceMissing(Token(k), "*", "([^/]+)?", 0);
    case _ => ReplaceMissing(Enc(p, 4, k, 0), "*", "([^/]+)?", 0);
  }

  /** The describer: `([^/]+)?` becomes `*` again; an alternation has no `^`. */
  lemma UnrewriteStar(p: Piece, k: nat)
    requires PieceOk(p)
    ensures ReplaceAll(Enc(p, 6, k, 0), "([^/]+)?", "*") == Enc(p, 7, k, 0)
  {
    match p
    case Lit(c) => LitText(c, 6, k, 0); LitText(c, 7, k, 0); ReplaceShort(Enc(p, 6, k, 0), "([^/]+)?", "*");
    case Star => ReplaceWhole("([^/]+)?", "*");
    case Alternatives(inner) => FragmentFacts(inner); ReplaceMissing(Fragment(inner), "([^/]+)?", "*", 2);
    case _ => ReplaceShort(Enc(p, 6, k, 0), "([^/]+)?", "*");
  }

  /** `(.+/)?` becomes `**` + `/` again; in an alternation, `(` is followed by no `.`. */
  lemma UnrewriteAnyDirs(p: Piece, k: nat)
    requires PieceOk(p)
    ensures ReplaceAll(Enc(p, 7, k, 0), "(.+/)?", "**/") == Enc(p, 8, k, 0)
  {
    match p
    case Lit(c) => LitText(c, 7, k, 0); LitText(c, 8, k, 0); ReplaceMissing(Enc(p, 7, k, 0), "(.+/)?", "**/", 0);
    case DoubleStarSlash => ReplaceWhole("(.+/)?", "**/");
    case Alternatives(inner) =>
      var f := Fragment(inner);
      FragmentFacts(inner);
      assert !StartsWith(f, "(.+/)?") by {
        assert f[1] != "(.+/)?"[1];
      }
      NotContainsWhole(f, "(.+/)?");
      ReplaceAllAbsent(f, "(.+/)?", "**/");
    case _ => ReplaceMissing(Enc(p, 7, k, 0), "(.+/)?", "**/", 0);
  }

  /** `.+` becomes `**` again; an escaped `.` is followed by no `+`. */
  lemma UnrewriteAnyChars(p: Piece, k: nat)
    requires PieceOk(p)
    ensures ReplaceAll(Enc(p, 8, k, 0), ".+", "**") == Enc(p, 9, k, 0)
  {
    match p
    case Lit(c) =>
      LitText(c, 8, k, 0); LitText(c, 9, k, 0);
      if c == '.' {
        ReplaceMissing(Enc(p, 8, k, 0), ".+", "**", 1);
      } else {
        ReplaceMissing(Enc(p, 8, k, 0), ".+", "**", 0);
      }
    case DoubleStar => ReplaceWhole(".+", "**");
    case Alternatives(inner) => FragmentFacts(inner); ReplaceMissing(Fragment(inner), ".+", "**", 1);
    case _ => ReplaceMissing(Enc(p, 8, k, 0), ".+", "**", 0);
  }

  /** `[^/]` becomes `?` again. */
  lemma UnrewriteAnyChar(p: Piece, k: nat)
    requires PieceOk(p)
    ensures ReplaceAll(Enc(p, 9, k, 0), "[^/]", "?") == Enc(p, 10, k, 0)
  {
    match p
    case Lit(c) => LitText(c, 9, k, 0); LitText(c, 10, k, 0); ReplaceMissing(Enc(p, 9, k, 0), "[^/]", "?", 1);
    case AnyChar => ReplaceWhole("[^/]", "?");
    case Alternatives(inner) => FragmentFacts(inner); ReplaceMissing(Fragment(inner), "[^/]", "?", 1);
    case _ => ReplaceMissing(Enc(p, 9, k, 0), "[^/]", "?", 1);
  }

  /** Deleting backslashes undoes the escaping, inside alternations too. */
  lemma {:induction false} Unescape(s: string)
    requires '\\' !in s
    ensures ReplaceAll(MapChar(EscapeMeta(s), ',', '|'), "\\", "") == MapChar(s, ',', '|')
    decreases |s|
  {
    if s != [] {
      var e := if s[0] in MetaChars then ['\\', s[0]] else [s[0]];
      assert EscapeMeta(s) == e + EscapeMeta(s[1..]);
      MapCharAppend(e, EscapeMeta(s[1..]), ',', '|');
      ReplaceAllAppendChar(MapChar(e, ',', '|'), MapChar(EscapeMeta(s[1..]), ',', '|'), '\\', "");
      var c := if s[0] == ',' then '|' else s[0];
      if s[0] in MetaChars {
        assert MapChar(e, ',', '|') == "\\" + [c];
        ReplaceAllHit("\\", [c], "");
      } else {
        assert MapChar(e, ',', '|') == [c];
      }
      ReplaceMissing([c], "\\", "", 0);
      Unescape(s[1..]);
      MapCharCons(s, ',', '|');
    }
  }

  lemma UnescapePiece(p: Piece, k: nat)
    requires PieceOk(p)
    ensures ReplaceAll(Enc(p, 10, k, 0), "\\", "") == Enc(p, 11, k, 0)
  {
    match p
    case Lit(c) =>
      LitText(c, 10, k, 0);
      if c == '.' || c == '+' {
        ReplaceAllHit("\\", [c], "");
        assert Enc(p, 10, k, 0) == "\\" + [c];
      }
      ReplaceMissing([c], "\\", "", 0);
    case Alternatives(inner) =>
      var m := MapChar(EscapeMeta(inner), ',', '|');
      FragmentFacts(inner);
      assert '\\' !in inner by {
        assert forall i :: 0 <= i < |inner| ==> AltChar(inner[i]);
      }
      Unescape(inner);
      ReplaceAllAppendChar("(" + m, ")", '\\', "");
      ReplaceAllAppendChar("(", m, '\\', "");
      ReplaceMissing("(", "\\", "", 0);
      ReplaceMissing(")", "\\", "", 0);
    case _ => ReplaceMissing(Enc(p, 10, k, 0), "\\", "", 0);
  }

  /** The call leaving `level` takes each piece to the next level. */
  lemma PieceRewrite(p: Piece, level: nat, k: nat)
    requires Rewrite(level) && PieceOk(p)
    ensures ReplaceAll(Enc(p, level, k, 0), Pat(level), Rep(level)) == Enc(p, level + 1, k, 0)
  {
    if level == 1 { RewriteAnyChar(p, k); }
    else if level == 2 { RewriteAnyDirs(p, k); }
    else if level == 3 { RewriteAnyChars(p, k); }
    else if level == 4 { RewriteStar(p, k); }
    else if level == 6 { UnrewriteStar(p, k); }
    else if level == 7 { UnrewriteAnyDirs(p, k); }
    else if level == 8 { UnrewriteAnyChars(p, k); }
    else if level == 9 { UnrewriteAnyChar(p, k); }
    else { UnescapePiece(p, k); }
  }

  // ---------------------------------------------------------------------------
  // No occurrence straddles two pieces
  // ---------------------------------------------------------------------------

  lemma DoubleStarBeforeDirs(y: string)
    requires y == [] || (y[0] != '*' && y[0] != '/')
    ensures NoStraddle("**", y, "**/")
  {
    forall d | 1 <= d < 3 && d <= 2 && "**"[2 - d..] == "**/"[..d] ensures y == [] || y[0] != "**/"[d] {
      if d == 1 {
        assert "**/"[1] == '*';
      } else {
        assert "**/"[2] == '/';
      }
    }
    NoStraddleBy("**", y, "**/");
  }

  /** Before the wildcard rewrites: no `**` + `/` straddles; `*` and `**` are never followed by a `*`. */
  lemma StraddleAnyDirs(p: Piece, k: nat, y: string)
    requires PieceOk(p) && Follows(p, y)
    ensures NoStraddle(Enc(p, 2, k, 0), y, "**/")
  {
    match p
    case Lit(c) => LitText(c, 2, k, 0); NoStraddleFirst(Enc(p, 2, k, 0), y, "**/");
    case Alternatives(_) => NotInToken(k, '*'); NoStraddleFirst(Token(k), y, "**/");
    case Star => NoStraddleSecond("*", y, "**/");
    case DoubleStar => DoubleStarBeforeDirs(y);
    case DoubleStarSlash => NoStraddleLast("**/", y, "**/");
    case AnyChar => NoStraddleFirst("[^/]", y, "**/");
  }

  lemma StraddleAnyChars(p: Piece, k: nat, y: string)
    requires PieceOk(p) && Follows(p, y)
    ensures NoStraddle(Enc(p, 3, k, 0), y, "**")
  {
    match p
    case Lit(c) => LitText(c, 3, k, 0); NoStraddleFirst(Enc(p, 3, k, 0), y, "**");
    case Alternatives(_) => NotInToken(k, '*'); NoStraddleFirst(Token(k), y, "**");
    case Star => NoStraddlePair("*", y, "**");
    case DoubleStar => NoStraddlePair("**", y, "**");
    case _ => NoStraddleFirst(Enc(p, 3, k, 0), y, "**");
  }

  /**
   * An alternation holds `(` only where it starts, and differs from a
   * pattern that opens with `(` at position `d`: no `^` in it, and no bare
   * `.` after its `(`.
   */
  lemma FragmentNoStraddle(inner: string, y: string, pat: string, d: nat)
    requires PieceOk(Alternatives(inner)) && pat != [] && pat[0] == '('
    requires (d == 1 && |pat| > 1 && pat[1] == '.') || (d == 2 && |pat| > 2 && pat[2] == '^')
    ensures NoStraddle(Fragment(inner), y, pat)
  {
    var f := Fragment(inner);
    FragmentFacts(inner);
    assert f[d] != pat[d];
    NoStraddleWhole(f, y, pat);
  }

  /** In the describer, only a group could end in a prefix of `([^/]+)?`, and it holds no `^`. */
  lemma StraddleUnStar(p: Piece, k: nat, y: string)
    requires PieceOk(p)
    ensures NoStraddle(Enc(p, 6, k, 0), y, "([^/]+)?")
  {
    match p
    case Lit(c) => LitText(c, 6, k, 0); NoStraddleFirst(Enc(p, 6, k, 0), y, "([^/]+)?");
    case Alternatives(inner) => FragmentNoStraddle(inner, y, "([^/]+)?", 2);
    case Star => NoStraddleLast("([^/]+)?", y, "([^/]+)?");
    case DoubleStarSlash => NoStraddleLast("(.+/)?", y, "([^/]+)?");
    case DoubleStar => NoStraddleFirst(".+", y, "([^/]+)?");
    case AnyChar => NoStraddleFirst("[^/]", y, "([^/]+)?");
  }

  lemma StraddleUnAnyDirs(p: Piece, k: nat, y: string)
    requires PieceOk(p)
    ensures NoStraddle(Enc(p, 7, k, 0), y, "(.+/)?")
  {
    match p
    case Lit(c) => LitText(c, 7, k, 0); NoStraddleFirst(Enc(p, 7, k, 0), y, "(.+/)?");
    case Alternatives(inner) => FragmentNoStraddle(inner, y, "(.+/)?", 1);
    case DoubleStarSlash => NoStraddleLast("(.+/)?", y, "(.+/)?");
    case Star => NoStraddleFirst("*", y, "(.+/)?");
    case DoubleStar => NoStraddleFirst(".+", y, "(.+/)?");
    case AnyChar => NoStraddleFirst("[^/]", y, "(.+/)?");
  }

  lemma StraddleUnAnyChar(p: Piece, k: nat, y: string)
    requires PieceOk(p) && Follows(p, y)
    ensures NoStraddle(Enc(p, 9, k, 0), y, "[^/]")
  {
    match p
    case Lit(c) => LitText(c, 9, k, 0); NoStraddleSecond(Enc(p, 9, k, 0), y, "[^/]");
    case Alternatives(inner) => FragmentFacts(inner); NoStraddleSecond(Fragment(inner), y, "[^/]");
    case AnyChar => NoStraddleLast("[^/]", y, "[^/]");
    case _ => NoStraddleSecond(Enc(p, 9, k, 0), y, "[^/]");
  }

  /** No occurrence of the pattern of the call leaving `level` straddles a piece and what follows it. */
  lemma PieceNoStraddle(p: Piece, level: nat, k: nat, y: string)
    requires Rewrite(level) && PieceOk(p) && Follows(p, y)
    ensures NoStraddle(Enc(p, level, k, 0), y, Pat(level))
  {
    if level == 2 { StraddleAnyDirs(p, k, y); }
    else if level == 3 { StraddleAnyChars(p, k, y); }
    else if level == 6 { StraddleUnStar(p, k, y); }
    else if level == 7 { StraddleUnAnyDirs(p, k, y); }
    else if level == 8 { NoStraddlePair(Enc(p, 8, k, 0), y, ".+"); }
    else if level == 9 { StraddleUnAnyChar(p, k, y); }
  }

  /** On well-formed pieces, the call leaving `level` works piece by piece. */
  lemma {:induction false} RewriteStage(ps: seq<Piece>, level: nat, k: nat)
    requires Rewrite(level) && WellFormed(ps)
    ensures PieceWise(ps, level, 0, level + 1, 0, k, Pat(level), Rep(level))
    decreases |ps|
  {
    if ps != [] {
      var k' := k + Groups(ps[0]);
      assert PieceOk(ps[0]);
      PieceRewrite(ps[0], level, k);
      NextChar(ps, level, k', 0);
      PieceNoStraddle(ps[0], level, k, EncAll(ps[1..], level, k', 0));
      WellFormedTail(ps);
      RewriteStage(ps[1..], level, k');
    }
  }

  /** The call leaving `level` takes the text of well-formed pieces to the next level. */
  lemma RewriteText(ps: seq<Piece>, level: nat)
    requires Rewrite(level) && WellFormed(ps)
    ensures ReplaceAll(EncAll(ps, level, 0, 0), Pat(level), Rep(level)) == EncAll(ps, level + 1, 0, 0)
  {
    RewriteStage(ps, level, 0);
    PieceWiseAll(ps, level, 0, level + 1, 0, 0, Pat(level), Rep(level));
  }

  // ---------------------------------------------------------------------------
  // Escaping, and the anchors around the pattern
  // ---------------------------------------------------------------------------

  /** The characters of a placeholder. */
  lemma TokenShape(k: nat)
    ensures var x, a := Token(k), NatToString(k);
            && |x| == |a| + 6 && x[0] == '<' && x[1] == '<' && x[2] == '<'
            && (forall j :: 3 <= j < 3 + |a| ==> x[j] == a[j - 3] && '0' <= x[j] <= '9')
            && (forall j :: 3 + |a| <= j < |x| ==> x[j] == '>')
  {
  }

  /** Escaping a piece's level-0 text gives its level-1 text. */
  lemma EscapePiece(p: Piece, k: nat)
    requires PieceOk(p)
    ensures EscapeMeta(Enc(p, 0, k, 0)) == Enc(p, 1, k, 0)
  {
    match p
    case Lit(c) =>
    case Alternatives(_) =>
      TokenShape(k);
      EscapeMetaFree(Token(k));
    case _ => EscapeMetaFree(Enc(p, 0, k, 0));
  }

  lemma {:induction false} EscapeStage(ps: seq<Piece>, k: nat)
    requires forall i :: 0 <= i < |ps| ==> PieceOk(ps[i])
    ensures EscapeMeta(EncAll(ps, 0, k, 0)) == EncAll(ps, 1, k, 0)
    decreases |ps|
  {
    if ps != [] {
      var k' := k + Groups(ps[0]);
      EscapePiece(ps[0], k);
      EscapeStage(ps[1..], k');
      EscapeMetaAppend(Enc(ps[0], 0, k, 0), EncAll(ps[1..], 0, k', 0));
      EncAllCons(ps, 0, k, 0);
      EncAllCons(ps, 1, k, 0);
    }
  }

  lemma EscapeAnchored(e: string)
    ensures EscapeMeta("^" + e + "$") == "^" + EscapeMeta(e) + "$"
  {
    EscapeMetaAppend("^" + e, "$");
    EscapeMetaAppend("^", e);
    EscapeOne('^');
    EscapeOne('$');
  }

  /** A pattern without `^` and `$` is replaced between the anchors only. */
  lemma Anchored(e: string, pat: string, rep: string)
    requires pat != [] && '^' !in pat && '$' !in pat
    ensures ReplaceAll("^" + e + "$", pat, rep) == "^" + ReplaceAll(e, pat, rep) + "$"
  {
    assert "^" + e + "$" == "^" + (e + "$");
    ReplaceAllSkipFree("^", e + "$", pat, rep);
    forall d | 1 <= d < |pat| ensures pat[d] != '$' {
      assert pat[d] in pat;
    }
    NoStraddleBy(e, "$", pat);
    ReplaceAllAppend(e, "$", pat, rep);
    ReplaceMissing("$", pat, rep, 0);
  }

  /** One wildcard rewrite of the compiler on the anchored text. */
  lemma CompileStep(ps: seq<Piece>, level: nat)
    requires 1 <= level <= 4 && WellFormed(ps)
    ensures ReplaceAll("^" + EncAll(ps, level, 0, 0) + "$", Pat(level), Rep(level)) == "^" + EncAll(ps, level + 1, 0, 0) + "$"
  {
    RewriteText(ps, level);
    Anchored(EncAll(ps, level, 0, 0), Pat(level), Rep(level));
  }

  /** The escaping and the four wildcard rewrites of lines 78-83 take the placeholder text to level 5. */
  lemma Compile(ps: seq<Piece>)
    requires WellFormed(ps)
    ensures RewriteWildcards("^" + EncAll(ps, 0, 0, 0) + "$") == "^" + EncAll(ps, 5, 0, 0) + "$"
  {
    EscapeStage(ps, 0);
    EscapeAnchored(EncAll(ps, 0, 0, 0));
    CompileStep(ps, 1);
    CompileStep(ps, 2);
    CompileStep(ps, 3);
    CompileStep(ps, 4);
  }

  // ---------------------------------------------------------------------------
  // The placeholders, substituted one after another
  // ---------------------------------------------------------------------------

  /** A placeholder is found inside another only where it starts, and only when the two are the same. */
  lemma TokenAt(k: nat, m: nat, y: string, i: int)
    requires 0 <= i < |Token(k)| && OccursAt(Token(k) + y, Token(m), i)
    ensures i == 0 && k == m
  {
    var x, t := Token(k), Token(m);
    var a, b := NatToString(k), NatToString(m);
    var s := (x + y)[i..];
    TokenShape(k);
    TokenShape(m);
    assert s[..|t|] == t;
    if i >= 3 {
      assert false;
    }
    if 1 <= i {
      assert false;
    }
    var n := if |a| < |b| then |a| else |b|;
    assert t[3 + n] == x[3 + n];
    if |a| < |b| {
      assert false;
    }
    if |b| < |a| {
      assert false;
    }
    assert x == t;
    TokenInjective(k, m);
  }

  /** The substitution of placeholder `m` takes each piece from `m` to `m + 1` substituted. */
  lemma SubstitutePiece(p: Piece, k: nat, m: nat, tokens: map<string, string>)
    requires PieceOk(p) && Token(m) in tokens
    requires p.Alternatives? && k == m ==> tokens[Token(m)] == Fragment(p.inner)
    ensures ReplaceAll(Enc(p, 5, k, m), Token(m), tokens[Token(m)]) == Enc(p, 5, k, m + 1)
  {
    var rep := tokens[Token(m)];
    TokenShape(m);
    match p
    case Lit(c) => LitText(c, 5, k, m); LitText(c, 5, k, m + 1); ReplaceMissing(Enc(p, 5, k, m), Token(m), rep, 0);
    case Alternatives(inner) =>
      if k == m {
        ReplaceWhole(Token(m), rep);
      } else if k > m {
        forall i | 0 <= i <= |Token(k)| && OccursAt(Token(k), Token(m), i) ensures false {
          assert Token(k) + [] == Token(k);
          TokenAt(k, m, [], i);
        }
        ReplaceAllAbsent(Token(k), Token(m), rep);
      } else {
        FragmentFacts(inner);
        ReplaceMissing(Fragment(inner), Token(m), rep, 0);
      }
    case _ => ReplaceMissing(Enc(p, 5, k, m), Token(m), rep, 0);
  }

  /** No placeholder straddles a piece and what follows it. */
  lemma SubstituteStraddle(p: Piece, k: nat, m: nat, y: string)
    requires PieceOk(p)
    ensures NoStraddle(Enc(p, 5, k, m), y, Token(m))
  {
    TokenShape(m);
    match p
    case Lit(c) => LitText(c, 5, k, m); NoStraddleFirst(Enc(p, 5, k, m), y, Token(m));
    case Alternatives(inner) =>
      if k >= m {
        forall i | 0 <= i < |Token(k)| < i + |Token(m)| && OccursAt(Token(k) + y, Token(m), i) ensures false {
          TokenAt(k, m, y, i);
        }
      } else {
        FragmentFacts(inner);
        NoStraddleFirst(Fragment(inner), y, Token(m));
      }
    case _ => NoStraddleFirst(Enc(p, 5, k, m), y, Token(m));
  }

  lemma {:induction false} SubstituteStage(ps: seq<Piece>, k: nat, m: nat, tokens: map<string, string>)
    requires forall i :: 0 <= i < |ps| ==> PieceOk(ps[i])
    requires TokensFor(ps, k, tokens) && Token(m) in tokens
    ensures PieceWise(ps, 5, m, 5, m + 1, k, Token(m), tokens[Token(m)])
    decreases |ps|
  {
    if ps != [] {
      var k' := k + Groups(ps[0]);
      SubstitutePiece(ps[0], k, m, tokens);
      SubstituteStraddle(ps[0], k, m, EncAll(ps[1..], 5, k', m));
      SubstituteStage(ps[1..], k', m, tokens);
    }
  }

  /** The loop of lines 86-88 substitutes every stored alternation for its placeholder. */
  lemma {:induction false} SubstituteAll(ps: seq<Piece>, tokens: map<string, string>, m: nat)
    requires forall i :: 0 <= i < |ps| ==> PieceOk(ps[i])
    requires TokensFor(ps, 0, tokens) && TokensNumbered(tokens) && m <= |tokens|
    ensures SubstituteTokens("^" + EncAll(ps, 5, 0, m) + "$", tokens, m) == "^" + EncAll(ps, 5, 0, |tokens|) + "$"
    decreases |tokens| - m
  {
    if m < |tokens| {
      assert Token(m) in TokenSet(|tokens|);
      var rep := tokens[Token(m)];
      SubstituteStage(ps, 0, m, tokens);
      PieceWiseAll(ps, 5, m, 5, m + 1, 0, Token(m), rep);
      NotInToken(m, '^');
      NotInToken(m, '$');
      Anchored(EncAll(ps, 5, 0, m), Token(m), rep);
      SubstituteAll(ps, tokens, m + 1);
    }
  }

  lemma SubstitutedPiece(p: Piece, k: nat, m: nat)
    requires k + Groups(p) <= m
    ensures Enc(p, 5, k, m) == Enc(p, 6, k, 0)
  {
  }

  /** Once every group's placeholder is substituted, the text is that of level 6. */
  lemma {:induction false} AllSubstituted(ps: seq<Piece>, k: nat, m: nat)
    requires k + CountGroups(ps) <= m
    ensures EncAll(ps, 5, k, m) == EncAll(ps, 6, k, 0)
    decreases |ps|
  {
    if ps != [] {
      SubstitutedPiece(ps[0], k, m);
      AllSubstituted(ps[1..], k + Groups(ps[0]), m);
      EncAllCons(ps, 5, k, m);
      EncAllCons(ps, 6, k, 0);
    }
  }

  // ---------------------------------------------------------------------------
  // The describer
  // ---------------------------------------------------------------------------

  /** The four rewrites undone and the backslashes deleted (lines 44-49) take the text to level 11. */
  lemma Describe(ps: seq<Piece>)
    requires WellFormed(ps)
    ensures UnrewriteWildcards(EncAll(ps, 6, 0, 0)) == EncAll(ps, 11, 0, 0)
  {
    RewriteText(ps, 6);
    RewriteText(ps, 7);
    RewriteText(ps, 8);
    RewriteText(ps, 9);
    RewriteText(ps, 10);
  }

  lemma MapCharLacks(s: string, from: char, to: char, c: char)
    requires c !in s && c != to
    ensures c !in MapChar(s, from, to)
  {
  }

  /** Collapsing a written-out alternation puts its alternatives back between braces. */
  lemma BracedAlternation(inner: string)
    requires PieceOk(Alternatives(inner))
    ensures Braced(MapChar(inner, ',', '|')) == "{" + inner + "}"
  {
    AltLacks(inner);
    JoinSplit(MapChar(inner, ',', '|'), '|', ',');
    MapCharBack(inner, ',', '|');
  }

  /** The describer's text and the glob text of pieces that start with a group. */
  lemma GroupTexts(a: string, ps: seq<Piece>, k: nat)
    requires ps != [] && ps[0].Alternatives?
    ensures a + EncAll(ps, 11, k, 0) == a + ['('] + MapChar(ps[0].inner, ',', '|') + [')'] + EncAll(ps[1..], 11, k + 1, 0)
    ensures a + EncAll(ps, 12, k, 0) == (a + ("{" + ps[0].inner + "}")) + EncAll(ps[1..], 12, k + 1, 0)
  {
    EncAllCons(ps, 11, k, 0);
    EncAllCons(ps, 12, k, 0);
  }

  /** One turn of the collapse loop on a `(...)` written out after text without `(`. */
  lemma CollapseAt(a: string, mid: string, rest: string)
    requires '(' !in a && mid != [] && ')' !in mid
    ensures CollapseGroups(a + ['('] + mid + [')'] + rest) == CollapseGroups((a + Braced(mid)) + rest)
  {
    var s := a + ['('] + mid + [')'] + rest;
    var j := |a| + |mid| + 2;
    FindGroupAt(a, mid, rest, '(', ')');
    SplicedGroup(a, '(', mid, ')', rest, Braced(mid));
    assert s[..|a|] == a && s[|a| + 1..j - 1] == mid && s[j..] == rest;
    var s' := Spliced(s, |a|, j, Braced(mid));
    assert s' == (a + Braced(mid)) + rest;
    CollapseUnfold(s, |a|, j, s');
  }

  /** One turn of the collapse loop on the first alternation, after text without `(`. */
  lemma CollapseGroupPiece(a: string, ps: seq<Piece>, k: nat)
    requires '(' !in a && ps != [] && PieceOk(ps[0]) && ps[0].Alternatives?
    ensures '(' !in a + ("{" + ps[0].inner + "}")
    ensures CollapseGroups(a + EncAll(ps, 11, k, 0)) ==
            CollapseGroups((a + ("{" + ps[0].inner + "}")) + EncAll(ps[1..], 11, k + 1, 0))
  {
    var inner := ps[0].inner;
    AltLacks(inner);
    MapCharLacks(inner, ',', '|', ')');
    GroupTexts(a, ps, k);
    CollapseAt(a, MapChar(inner, ',', '|'), EncAll(ps[1..], 11, k + 1, 0));
    BracedAlternation(inner);
  }

  /** A piece that is not a group is left as it is by the collapse loop. */
  lemma CollapsePlainPiece(a: string, ps: seq<Piece>, k: nat)
    requires ps != [] && PieceOk(ps[0]) && !ps[0].Alternatives?
    ensures '(' !in Enc(ps[0], 11, k, 0)
    ensures a + EncAll(ps, 11, k, 0) == (a + Enc(ps[0], 12, k, 0)) + EncAll(ps[1..], 11, k, 0)
    ensures a + EncAll(ps, 12, k, 0) == (a + Enc(ps[0], 12, k, 0)) + EncAll(ps[1..], 12, k, 0)
  {
    PlainPiece(ps[0], k);
    EncAllCons(ps, 11, k, 0);
    EncAllCons(ps, 12, k, 0);
  }

  /**
   * The collapse loop meets the alternations from left to right, each the
   * leftmost `(...)` left, and puts each back between braces: the text of
   * level 12.
   */
  lemma {:induction false} Collapse(a: string, ps: seq<Piece>, k: nat)
    requires '(' !in a && forall i :: 0 <= i < |ps| ==> PieceOk(ps[i])
    ensures CollapseGroups(a + EncAll(ps, 11, k, 0)) == a + EncAll(ps, 12, k, 0)
    decreases |ps|
  {
    if ps == [] {
      assert a + EncAll(ps, 11, k, 0) == a && a + EncAll(ps, 12, k, 0) == a;
      FindGroupNone(a, '(', ')');
    } else if ps[0].Alternatives? {
      CollapseGroupPiece(a, ps, k);
      GroupTexts(a, ps, k);
      Collapse(a + ("{" + ps[0].inner + "}"), ps[1..], k + 1);
    } else {
      CollapsePlainPiece(a, ps, k);
      assert k + Groups(ps[0]) == k;
      Collapse(a + Enc(ps[0], 12, k, 0), ps[1..], k);
    }
  }

  // ---------------------------------------------------------------------------
  // The round trip
  // ---------------------------------------------------------------------------

  /** The text of pieces that start with `/`, at any level, starts with `/`. */
  lemma Absolute(ps: seq<Piece>, level: nat)
    requires ps != [] && ps[0] == Lit('/')
    ensures StartsWith(EncAll(ps, level, 0, 0), "/")
  {
    EncAllCons(ps, level, 0, 0);
    if 1 <= level <= 10 {
      EscapeOne('/');
    }
  }

  /**
   * Pieces that end in neither a `/` after the root nor `**` + `/`: their
   * text, with or without placeholders, keeps its last character under
   * `URL.path`.
   */
  predicate NoTrailingSlash(ps: seq<Piece>) {
    ps != [] && ps[|ps| - 1] != DoubleStarSlash && (|ps| > 1 ==> ps[|ps| - 1] != Lit('/'))
  }

  /** A piece other than `/` and `**` + `/` ends its text in something other than `/`. */
  lemma LastPieceChar(x: Piece, level: nat, k: nat)
    requires x != DoubleStarSlash && x != Lit('/') && (level == 0 || level == 12)
    ensures var e := Enc(x, level, k, 0); e != [] && e[|e| - 1] != '/'
  {
    match x
    case Lit(c) =>
    case AnyChar =>
    case Star =>
    case DoubleStar =>
    case DoubleStarSlash =>
    case Alternatives(inner) =>
      if level == 0 {
        var t := Token(k);
        assert t[|t| - 1] == '>';
      }
  }

  /** Pieces whose last one is neither `/` nor `**` + `/` spell text that ends in something else. */
  lemma {:induction false} EndsInLastPiece(ps: seq<Piece>, level: nat, k: nat)
    requires ps != [] && ps[|ps| - 1] != DoubleStarSlash && ps[|ps| - 1] != Lit('/')
    requires level == 0 || level == 12
    ensures var t := EncAll(ps, level, k, 0); t != [] && t[|t| - 1] != '/'
    decreases |ps|
  {
    EncAllCons(ps, level, k, 0);
    if |ps| == 1 {
      assert ps[1..] == [];
      LastPieceChar(ps[0], level, k);
    } else {
      var k' := k + Groups(ps[0]);
      assert ps[1..][|ps[1..]| - 1] == ps[|ps| - 1];
      EndsInLastPiece(ps[1..], level, k');
      var a, b := Enc(ps[0], level, k, 0), EncAll(ps[1..], level, k', 0);
      assert (a + b)[|a + b| - 1] == b[|b| - 1];
    }
  }

  /** The glob text and the placeholder text of such pieces lose nothing to `URL.path`. */
  lemma KeepsLastChar(ps: seq<Piece>, level: nat, k: nat)
    requires NoTrailingSlash(ps) && (level == 0 || level == 12)
    ensures DropTrailingSlashes(EncAll(ps, level, k, 0)) == EncAll(ps, level, k, 0)
  {
    if |ps| == 1 && ps[0] == Lit('/') {
      EncAllCons(ps, level, k, 0);
      assert ps[1..] == [];
    } else {
      EndsInLastPiece(ps, level, k);
    }
  }

  /** The text of pieces that start with `/` and end in a `/`-free piece, at the extraction. */
  lemma Resolved(ps: seq<Piece>, directory: string)
    requires ps != [] && ps[0] == Lit('/') && NoTrailingSlash(ps)
    ensures ExpandPath(EncAll(ps, 0, 0, 0), directory) == EncAll(ps, 0, 0, 0)
    ensures ExpandPath(EncAll(ps, 0, 0, 0) + "/", directory) == EncAll(ps, 0, 0, 0)
  {
    var p := EncAll(ps, 0, 0, 0);
    Absolute(ps, 0);
    KeepsLastChar(ps, 0, 0);
    var q := p + "/";
    assert StartsWith(q, "/");
    assert q[..|q| - 1] == p;
  }

  /** The stored alternations substituted into the rewritten placeholder text give the level-6 text. */
  lemma Substituted(ps: seq<Piece>, tokens: map<string, string>)
    requires WellFormed(ps) && TokensNumbered(tokens)
    requires TokensFor(ps, 0, tokens) && |tokens| == CountGroups(ps)
    ensures SubstituteTokens(RewriteWildcards("^" + EncAll(ps, 0, 0, 0) + "$"), tokens, 0) == "^" + EncAll(ps, 6, 0, 0) + "$"
  {
    Compile(ps);
    SubstituteAll(ps, tokens, 0);
    AllSubstituted(ps, 0, |tokens|);
  }

  /** The compiled pattern is the level-6 text between the anchors. */
  lemma CompiledPattern(ps: seq<Piece>, directory: string, fileExists: string -> bool)
    requires WellFormed(ps) && NoTrailingSlash(ps) && ps[0] == Lit('/')
    requires PathContainsGlobSyntax(GlobText(ps))
    requires !fileExists(ExtractBraces(GlobText(ps), map[]).0)
    ensures CompiledGlob(GlobText(ps), directory, fileExists) == Regex("^" + EncAll(ps, 6, 0, 0) + "$")
  {
    var path := GlobText(ps);
    assert TokensNumbered(map[]);
    ExtractPieces("", ps, map[]);
    assert "" + path == path;
    var (p, tokens) := ExtractBraces(path, map[]);
    assert p == EncAll(ps, 0, 0, 0) && TokensFor(ps, 0, tokens) && |tokens| == CountGroups(ps);
    ExtractBracesNumbered(path, map[]);
    Resolved(ps, directory);
    Substituted(ps, tokens);
  }

  /** A compiled level-6 pattern describes as the glob text of its pieces. */
  lemma DescribedPattern(ps: seq<Piece>)
    requires WellFormed(ps)
    ensures Described(Regex("^" + EncAll(ps, 6, 0, 0) + "$")) == GlobText(ps)
  {
    var e6 := EncAll(ps, 6, 0, 0);
    assert DropEnds("^" + e6 + "$") == e6;
    Describe(ps);
    Collapse("", ps, 0);
    assert "" + EncAll(ps, 11, 0, 0) == EncAll(ps, 11, 0, 0);
    assert "" + GlobText(ps) == GlobText(ps);
  }

  /**
   * `description(expandGlob(p)) == p`: an absolute glob made of literal
   * characters, `?`, `*`, `**`, `**` + `/` and `{a,b}` groups, not ending
   * in `/`, whose path with placeholders names no existing file, describes
   * as itself.
   */
  lemma DescriptionRoundTrip(ps: seq<Piece>, directory: string, fileExists: string -> bool)
    requires WellFormed(ps) && NoTrailingSlash(ps) && ps[0] == Lit('/')
    requires !fileExists(ExtractBraces(GlobText(ps), map[]).0)
    ensures Described(CompiledGlob(GlobText(ps), directory, fileExists)) == GlobText(ps)
  {
    var path := GlobText(ps);
    if !PathContainsGlobSyntax(path) {
      Absolute(ps, 12);
      KeepsLastChar(ps, 12, 0);
      CompiledPath(path, directory, fileExists, (re, q) => false, "");
    } else {
      CompiledPattern(ps, directory, fileExists);
      DescribedPattern(ps);
    }
  }

  /** A `/` is a well-formed piece. */
  lemma SlashedPiecesOk(ps: seq<Piece>)
    requires WellFormed(ps)
    ensures forall i :: 0 <= i < |ps + [Lit('/')]| ==> PieceOk((ps + [Lit('/')])[i])
  {
    forall i | 0 <= i < |ps + [Lit('/')]| ensures PieceOk((ps + [Lit('/')])[i]) {
      if i < |ps| {
        assert (ps + [Lit('/')])[i] == ps[i];
      }
    }
  }

  /** The extraction of pieces with a `/` appended, as the extraction lemma states it. */
  lemma ExtractSlashedPieces(ps: seq<Piece>)
    requires WellFormed(ps)
    ensures var slashed := ps + [Lit('/')];
            var r := ExtractBraces(GlobText(slashed), map[]);
            && r.0 == EncAll(slashed, 0, 0, 0)
            && TokensFor(slashed, 0, r.1) && |r.1| == CountGroups(slashed)
  {
    var slashed := ps + [Lit('/')];
    assert TokensNumbered(map[]);
    SlashedPiecesOk(ps);
    ExtractPieces("", slashed, map[]);
    assert "" + GlobText(slashed) == GlobText(slashed);
    assert "" + EncAll(slashed, 0, 0, 0) == EncAll(slashed, 0, 0, 0);
  }

  /** The texts of pieces with a `/` appended. */
  lemma SlashedTexts(ps: seq<Piece>)
    ensures GlobText(ps + [Lit('/')]) == GlobText(ps) + "/"
    ensures EncAll(ps + [Lit('/')], 0, 0, 0) == EncAll(ps, 0, 0, 0) + "/"
    ensures CountGroups(ps + [Lit('/')]) == CountGroups(ps)
  {
    CountGroupsSlash(ps);
    EncAllSlash(ps, 12, 0);
    EncAllSlash(ps, 0, 0);
  }

  /** The extraction of a glob with a `/` appended: the placeholder text gains the `/`, the stored alternations are the glob's. */
  lemma ExtractSlashed(ps: seq<Piece>)
    requires WellFormed(ps)
    ensures ExtractBraces(GlobText(ps) + "/", map[]).0 == EncAll(ps, 0, 0, 0) + "/"
    ensures TokensFor(ps, 0, ExtractBraces(GlobText(ps) + "/", map[]).1)
    ensures |ExtractBraces(GlobText(ps) + "/", map[]).1| == CountGroups(ps)
  {
    ExtractSlashedPieces(ps);
    SlashedTexts(ps);
    var r := ExtractBraces(GlobText(ps) + "/", map[]);
    TokensForSnoc(ps, Lit('/'), 0, r.1);
  }

  /** A glob with a `/` appended compiles to the pattern of the glob itself. */
  lemma SlashedPattern(ps: seq<Piece>, directory: string, fileExists: string -> bool)
    requires WellFormed(ps) && NoTrailingSlash(ps) && ps[0] == Lit('/')
    requires PathContainsGlobSyntax(GlobText(ps) + "/")
    requires !fileExists(ExtractBraces(GlobText(ps), map[]).0)
    ensures CompiledGlob(GlobText(ps) + "/", directory, fileExists) == Regex("^" + EncAll(ps, 6, 0, 0) + "$")
  {
    var path := GlobText(ps);
    assert TokensNumbered(map[]);
    ExtractPieces("", ps, map[]);
    assert "" + path == path;
    assert ExtractBraces(path, map[]).0 == EncAll(ps, 0, 0, 0);
    Resolved(ps, directory);
    ExtractSlashed(ps);
    ExtractBracesNumbered(path + "/", map[]);
    var (p, tokens) := ExtractBraces(path + "/", map[]);
    Substituted(ps, tokens);
  }

  /** A `/` adds no glob syntax. */
  lemma SlashNoSyntax(path: string)
    ensures PathContainsGlobSyntax(path + "/") == PathContainsGlobSyntax(path)
  {
    forall c | c in GlobChars ensures c in path + "/" <==> c in path {
      assert c != '/';
    }
  }

  /**
   * The same glob with a `/` appended, such as `/a*` or `/a/` + `**`
   * followed by `/`, describes without it: `URL.path` drops the slash
   * before the pattern is built.
   */
  lemma TrailingSlashDescribed(ps: seq<Piece>, directory: string, fileExists: string -> bool)
    requires WellFormed(ps) && NoTrailingSlash(ps) && ps[0] == Lit('/')
    requires !fileExists(ExtractBraces(GlobText(ps), map[]).0)
    ensures Described(CompiledGlob(GlobText(ps) + "/", directory, fileExists)) == GlobText(ps)
  {
    var path := GlobText(ps);
    SlashNoSyntax(path);
    if !PathContainsGlobSyntax(path) {
      Absolute(ps, 12);
      KeepsLastChar(ps, 12, 0);
      CompiledPath(path + "/", directory, fileExists, (re, q) => false, "");
      assert (path + "/")[..|path|] == path;
    } else {
      SlashedPattern(ps, directory, fileExists);
      DescribedPattern(ps);
    }
  }
}
