/**
 * Glob text as a sequence of pieces, and the first stage of `expandGlob`
 * on it (Sources/Globs.swift:66-73): for glob text built from literal
 * characters, `?`, `*`, `**`, `**` followed by `/` and `{a,b}` groups, the
 * brace-extraction loop replaces the groups, from left to right, by the
 * placeholders `<<<0>>>`, `<<<1>>>`, ... and stores each group's
 * alternation under its placeholder.
 *
 * `Enc` gives the text of a piece at every level of the compiler and of the
 * describer; module GlobStages relates the levels after the extraction.
 */
module GlobRoundTrip {
  import opened Wrappers
  import opened Strings
  import opened Globs

  /** One lexical piece of a glob. */
  datatype Piece =
    | Lit(c: char)                 // a character standing for itself
    | AnyChar                      // `?`
    | Star                         // `*`
    | DoubleStar                   // `**`
    | DoubleStarSlash              // `**/`
    | Alternatives(inner: string)  // `{inner}`, alternatives separated by `,`

  /**
   * Characters a literal piece may be: none of the glob, escape, group or
   * placeholder syntax, and no `[` or `]`, which would reach the regular
   * expression as a character class the compiler does not check.
   */
  predicate LitChar(c: char) {
    c !in "*?{}()|\\^<[]"
  }

  /** Characters an alternative may hold: literal characters other than `+`. */
  predicate AltChar(c: char) {
    LitChar(c) && c != '+'
  }

  predicate IsStarPiece(p: Piece) {
    p == Star || p == DoubleStar || p == DoubleStarSlash
  }

  /** Well-formed pieces: literal characters as above, non-empty groups, and no wildcard run-ons. */
  predicate PieceOk(p: Piece) {
    match p
    case Lit(c) => LitChar(c)
    case Alternatives(inner) => inner != [] && forall i :: 0 <= i < |inner| ==> AltChar(inner[i])
    case _ => true
  }

  predicate WellFormed(ps: seq<Piece>) {
    && (forall i :: 0 <= i < |ps| ==> PieceOk(ps[i]))
    && (forall i :: 0 <= i < |ps| - 1 && IsStarPiece(ps[i]) ==> !IsStarPiece(ps[i + 1]))
    && (forall i :: 0 <= i < |ps| - 1 && ps[i] == DoubleStar ==> ps[i + 1] != Lit('/'))
  }

  /**
   * The text of a piece at each level of the pipeline:
   *   0 braces replaced by placeholders; 1 metacharacters escaped;
   *   2 `?` rewritten; 3 `**` + `/` rewritten; 4 `**` rewritten;
   *   5 `*` rewritten, placeholders below `m` substituted; 6 all substituted;
   *   7-10 the describer's four rewrites undone; 11 backslashes removed;
   *   12 groups collapsed, which is the glob text itself.
   * `k` is the number of the group when the piece is one.
   */
  function Enc(p: Piece, level: nat, k: nat, m: nat): string {
    match p
    case Lit(c) => if 1 <= level <= 10 then EscapeMeta([c]) else [c]
    case AnyChar => if 2 <= level <= 9 then "[^/]" else "?"
    case DoubleStarSlash => if 3 <= level <= 7 then "(.+/)?" else "**/"
    case DoubleStar => if 4 <= level <= 8 then ".+" else "**"
    case Star => if level == 5 || level == 6 then "([^/]+)?" else "*"
    case Alternatives(inner) =>
      if level <= 4 || (level == 5 && k >= m) then Token(k)
      else if level <= 10 then Fragment(inner)
      else if level == 11 then "(" + MapChar(inner, ',', '|') + ")"
      else "{" + inner + "}"
  }

  function Groups(p: Piece): nat {
    if p.Alternatives? then 1 else 0
  }

  /** The text of a piece sequence at a level, its groups numbered from `k`. */
  function EncAll(ps: seq<Piece>, level: nat, k: nat, m: nat): string
    decreases |ps|
  {
    if ps == [] then [] else Enc(ps[0], level, k, m) + EncAll(ps[1..], level, k + Groups(ps[0]), m)
  }

  /** The glob text the pieces spell. */
  function GlobText(ps: seq<Piece>): string {
    EncAll(ps, 12, 0, 0)
  }

  lemma EncAllCons(ps: seq<Piece>, level: nat, k: nat, m: nat)
    requires ps != []
    ensures EncAll(ps, level, k, m) == Enc(ps[0], level, k, m) + EncAll(ps[1..], level, k + Groups(ps[0]), m)
  {
  }

  lemma ConcatAssoc(a: string, b: string, c: string)
    ensures a + (b + c) == (a + b) + c
  {
  }

  function CountGroups(ps: seq<Piece>): nat
    decreases |ps|
  {
    if ps == [] then 0 else Groups(ps[0]) + CountGroups(ps[1..])
  }

  /** Appending a `/` appends it to the glob text and to the placeholder text. */
  lemma {:induction false} EncAllSlash(ps: seq<Piece>, level: nat, k: nat)
    requires level == 0 || level == 12
    ensures EncAll(ps + [Lit('/')], level, k, 0) == EncAll(ps, level, k, 0) + "/"
    decreases |ps|
  {
    var s := ps + [Lit('/')];
    if ps == [] {
      assert s == [Lit('/')] && s[1..] == [];
    } else {
      assert s[0] == ps[0] && s[1..] == ps[1..] + [Lit('/')];
      var k' := k + Groups(ps[0]);
      EncAllSlash(ps[1..], level, k');
      EncAllCons(s, level, k, 0);
      EncAllCons(ps, level, k, 0);
      ConcatAssoc(Enc(ps[0], level, k, 0), EncAll(ps[1..], level, k', 0), "/");
    }
  }

  /** Appending a `/` adds no group. */
  lemma {:induction false} CountGroupsSlash(ps: seq<Piece>)
    ensures CountGroups(ps + [Lit('/')]) == CountGroups(ps)
    decreases |ps|
  {
    var s := ps + [Lit('/')];
    if ps == [] {
      assert s == [Lit('/')] && s[1..] == [];
    } else {
      assert s[0] == ps[0] && s[1..] == ps[1..] + [Lit('/')];
      CountGroupsSlash(ps[1..]);
    }
  }

  /** Stored placeholders for a longer piece sequence are stored for its prefix. */
  lemma {:induction false} TokensForSnoc(ps: seq<Piece>, x: Piece, k: nat, tokens: map<string, string>)
    requires TokensFor(ps + [x], k, tokens)
    ensures TokensFor(ps, k, tokens)
    decreases |ps|
  {
    if ps != [] {
      assert (ps + [x])[0] == ps[0];
      assert (ps + [x])[1..] == ps[1..] + [x];
      TokensForSnoc(ps[1..], x, k + Groups(ps[0]), tokens);
    }
  }

  /** The placeholders `k`, `k+1`, ... of the groups in `ps` are stored with their alternations. */
  predicate TokensFor(ps: seq<Piece>, k: nat, tokens: map<string, string>)
    decreases |ps|
  {
    ps != [] ==>
      && (ps[0].Alternatives? ==> Token(k) in tokens && tokens[Token(k)] == Fragment(ps[0].inner))
      && TokensFor(ps[1..], k + Groups(ps[0]), tokens)
  }

  // ---------------------------------------------------------------------------
  // Brace groups are found where the pieces put them
  // ---------------------------------------------------------------------------

  lemma FindGroupNone(s: string, open: char, close: char)
    requires open !in s
    ensures FindGroup(s, open, close).None?
  {
    assert forall i, j :: !GroupAt(s, open, close, i, j);
  }

  /** With no opening character before it, a group written out is the one found. */
  lemma FindGroupAt(a: string, inner: string, b: string, open: char, close: char)
    requires open != close && open !in a && inner != [] && close !in inner
    ensures FindGroup(a + [open] + inner + [close] + b, open, close) == Some((|a|, |a| + |inner| + 2))
  {
    var s := a + [open] + inner + [close] + b;
    var j := |a| + |inner| + 2;
    assert s[|a| + 1..j - 1] == inner;
    assert GroupAt(s, open, close, |a|, j);
    FindGroupLeftmost(s, open, close, 0);
    var found := FindGroup(s, open, close);
    assert found.Some?;
    var (i, j') := found.value;
    assert i <= |a|;
    assert forall n :: 0 <= n < |a| ==> s[n] == a[n];
    assert s[i] == open;
    GroupStartsAt(s, open, close, |a|);
  }

  /** Outside groups, the glob text and the placeholder text agree and hold no brace. */
  lemma PlainPiece(p: Piece, k: nat)
    requires PieceOk(p) && !p.Alternatives?
    ensures Enc(p, 0, k, 0) == Enc(p, 12, k, 0)
    ensures '{' !in Enc(p, 12, k, 0) && '(' !in Enc(p, 11, k, 0) && ')' !in Enc(p, 11, k, 0)
    ensures Enc(p, 11, k, 0) == Enc(p, 12, k, 0)
  {
  }

  /** Cutting a written-out group out of its text and putting `middle` in its place. */
  lemma SplicedGroup(a: string, open: char, inner: string, close: char, rest: string, middle: string)
    ensures var s := a + [open] + inner + [close] + rest;
            && s[|a| + 1..|a| + |inner| + 1] == inner
            && Spliced(s, |a|, |a| + |inner| + 2, middle) == (a + middle) + rest
  {
    var s := a + [open] + inner + [close] + rest;
    var j := |a| + |inner| + 2;
    assert s[..|a|] == a;
    assert s[j..] == rest;
  }

  lemma GroupText(a: string, inner: string, rest: string)
    ensures a + (("{" + inner + "}") + rest) == a + ['{'] + inner + ['}'] + rest
  {
  }

  /** The first turn of the extraction, written out on the group found. */
  lemma ExtractAtGroup(path: string, tokens: map<string, string>, i: nat, j: nat)
    requires FindGroup(path, '{', '}') == Some((i, j))
    ensures GroupAt(path, '{', '}', i, j)
    ensures ExtractBraces(path, tokens) ==
            ExtractBraces(Spliced(path, i, j, Token(|tokens|)), tokens[Token(|tokens|) := Fragment(path[i + 1..j - 1])])
  {
    ExtractUnfold(path, tokens, i, j, Spliced(path, i, j, Token(|tokens|)),
                  tokens[Token(|tokens|) := Fragment(path[i + 1..j - 1])]);
  }

  /** Extracting a group written out after brace-free text. */
  lemma ExtractGroupStep(a: string, inner: string, rest: string, tokens: map<string, string>)
    requires '{' !in a && inner != [] && '}' !in inner && TokensNumbered(tokens)
    ensures TokensNumbered(tokens[Token(|tokens|) := Fragment(inner)])
    ensures |tokens[Token(|tokens|) := Fragment(inner)]| == |tokens| + 1
    ensures ExtractBraces(a + ['{'] + inner + ['}'] + rest, tokens) ==
            ExtractBraces((a + Token(|tokens|)) + rest, tokens[Token(|tokens|) := Fragment(inner)])
  {
    var j := |a| + |inner| + 2;
    FindGroupAt(a, inner, rest, '{', '}');
    SplicedGroup(a, '{', inner, '}', rest, Token(|tokens|));
    assert (a + ['{'] + inner + ['}'] + rest)[|a| + 1..j - 1] == inner;
    ExtractAtGroup(a + ['{'] + inner + ['}'] + rest, tokens, |a|, j);
    TokensNumberedExtend(tokens, Fragment(inner));
  }

  /** The extraction of `a` followed by the pieces `ps`, their groups numbered from `|tokens|`. */
  predicate ExtractsPieces(a: string, ps: seq<Piece>, tokens: map<string, string>) {
    var r := ExtractBraces(a + EncAll(ps, 12, |tokens|, 0), tokens);
    && r.0 == a + EncAll(ps, 0, |tokens|, 0)
    && TokensFor(ps, |tokens|, r.1)
    && |r.1| == |tokens| + CountGroups(ps)
  }

  /** A piece that is not a group passes through the extraction unchanged. */
  lemma ExtractPlainPiece(a: string, ps: seq<Piece>, tokens: map<string, string>)
    requires ps != [] && PieceOk(ps[0]) && !ps[0].Alternatives?
    requires ExtractsPieces(a + Enc(ps[0], 12, |tokens|, 0), ps[1..], tokens)
    ensures ExtractsPieces(a, ps, tokens)
  {
    var k := |tokens|;
    var x := Enc(ps[0], 12, k, 0);
    PlainPiece(ps[0], k);
    assert k + Groups(ps[0]) == k;
    EncAllCons(ps, 12, k, 0);
    EncAllCons(ps, 0, k, 0);
    ConcatAssoc(a, x, EncAll(ps[1..], 12, k, 0));
    ConcatAssoc(a, x, EncAll(ps[1..], 0, k, 0));
    assert a + EncAll(ps, 12, k, 0) == (a + x) + EncAll(ps[1..], 12, k, 0);
    assert a + EncAll(ps, 0, k, 0) == (a + x) + EncAll(ps[1..], 0, k, 0);
  }

  /** A group is replaced by its placeholder, and its alternation stored under its number. */
  lemma ExtractGroupPiece(a: string, ps: seq<Piece>, tokens: map<string, string>)
    requires '{' !in a && TokensNumbered(tokens)
    requires ps != [] && PieceOk(ps[0]) && ps[0].Alternatives?
    requires ExtractsPieces(a + Token(|tokens|), ps[1..], tokens[Token(|tokens|) := Fragment(ps[0].inner)])
    ensures ExtractsPieces(a, ps, tokens)
  {
    var k := |tokens|;
    var inner := ps[0].inner;
    var tokens' := tokens[Token(k) := Fragment(inner)];
    assert '}' !in inner by {
      assert forall i :: 0 <= i < |inner| ==> AltChar(inner[i]);
    }
    ExtractGroupStep(a, inner, EncAll(ps[1..], 12, k + 1, 0), tokens);
    assert |tokens'| == k + 1 && k + Groups(ps[0]) == k + 1;
    var path' := (a + Token(k)) + EncAll(ps[1..], 12, k + 1, 0);
    ExtractBracesNumbered(path', tokens');
    GroupPieceTexts(a, ps, k);
  }

  /** The glob text and the placeholder text of pieces that start with a group. */
  lemma GroupPieceTexts(a: string, ps: seq<Piece>, k: nat)
    requires ps != [] && ps[0].Alternatives?
    ensures a + EncAll(ps, 12, k, 0) == a + ['{'] + ps[0].inner + ['}'] + EncAll(ps[1..], 12, k + 1, 0)
    ensures a + EncAll(ps, 0, k, 0) == (a + Token(k)) + EncAll(ps[1..], 0, k + 1, 0)
  {
    EncAllCons(ps, 12, k, 0);
    EncAllCons(ps, 0, k, 0);
    GroupText(a, ps[0].inner, EncAll(ps[1..], 12, k + 1, 0));
    ConcatAssoc(a, Token(k), EncAll(ps[1..], 0, k + 1, 0));
  }

  /**
   * The extraction loop meets the groups of the pieces from left to right:
   * it leaves the placeholder text of level 0 and stores each group's
   * alternation under its number.
   */
  lemma {:induction false} ExtractPieces(a: string, ps: seq<Piece>, tokens: map<string, string>)
    requires '{' !in a && TokensNumbered(tokens)
    requires forall i :: 0 <= i < |ps| ==> PieceOk(ps[i])
    ensures ExtractsPieces(a, ps, tokens)
    decreases |ps|
  {
    var k := |tokens|;
    if ps == [] {
      assert a + EncAll(ps, 12, k, 0) == a && a + EncAll(ps, 0, k, 0) == a;
      FindGroupNone(a, '{', '}');
    } else if !ps[0].Alternatives? {
      PlainPiece(ps[0], k);
      ExtractPieces(a + Enc(ps[0], 12, k, 0), ps[1..], tokens);
      ExtractPlainPiece(a, ps, tokens);
    } else {
      var tokens' := tokens[Token(k) := Fragment(ps[0].inner)];
      TokensNumberedExtend(tokens, Fragment(ps[0].inner));
      NotInToken(k, '{');
      ExtractPieces(a + Token(k), ps[1..], tokens');
      ExtractGroupPiece(a, ps, tokens);
    }
  }
}
