/**
 * The command-line support of `Tribute` (Sources/Tribute.swift): the
 * Levenshtein distance behind its suggestions, the suggestions themselves,
 * the parsing of arguments into named lists, the columns of `list` and the
 * filter `export` applies to the libraries it found.
 */
module Tribute {
  import opened Wrappers
  import opened Strings
  import opened Licenses
  import Templates

  // ---------------------------------------------------------------------------
  // Arguments
  // ---------------------------------------------------------------------------

  /** The named arguments; `Anonymous` collects the values before any flag. */
  datatype Argument = Anonymous | Allow | Skip | Exclude | Template | Format | SpmCache

  /** `Argument.allCases`, in declaration order. */
  const AllArguments: seq<Argument> := [Anonymous, Allow, Skip, Exclude, Template, Format, SpmCache]

  /** `Argument.rawValue` */
  function ArgumentName(a: Argument): string {
    match a
    case Anonymous => ""
    case Allow => "allow"
    case Skip => "skip"
    case Exclude => "exclude"
    case Template => "template"
    case Format => "format"
    case SpmCache => "spmcache"
  }

  /** Every argument is one of `allCases`, at the position of its declaration. */
  lemma AllArgumentsListed(a: Argument)
    ensures a in AllArguments
  {
    match a
    case Anonymous => assert AllArguments[0] == a;
    case Allow => assert AllArguments[1] == a;
    case Skip => assert AllArguments[2] == a;
    case Exclude => assert AllArguments[3] == a;
    case Template => assert AllArguments[4] == a;
    case Format => assert AllArguments[5] == a;
    case SpmCache => assert AllArguments[6] == a;
  }

  /** `Argument.allCases.map { $0.rawValue }` */
  function ArgumentNames(): (r: seq<string>)
    ensures |r| == |AllArguments|
    ensures forall i :: 0 <= i < |r| ==> r[i] == ArgumentName(AllArguments[i])
  {
    seq(|AllArguments|, i requires 0 <= i < |AllArguments| => ArgumentName(AllArguments[i]))
  }

  /** The raw values list every argument exactly once, the empty one of `anonymous` first. */
  lemma ArgumentNamesListed()
    ensures var r := ArgumentNames();
            && r != [] && r[0] == ""
            && (forall a :: ArgumentName(a) in r)
            && (forall i, j :: 0 <= i < j < |r| ==> r[i] != r[j])
  {
    var r := ArgumentNames();
    assert r == ["", "allow", "skip", "exclude", "template", "format", "spmcache"];
    forall a ensures ArgumentName(a) in r {
      AllArgumentsListed(a);
    }
  }

  /** `Argument(rawValue:)`: the argument with exactly this name, if any. */
  function ArgumentNamed(key: string): (r: Option<Argument>)
    ensures r.Some? ==> ArgumentName(r.value) == key
    ensures r.None? ==> forall a :: ArgumentName(a) != key
  {
    if key == "" then Some(Anonymous)
    else if key == "allow" then Some(Allow)
    else if key == "skip" then Some(Skip)
    else if key == "exclude" then Some(Exclude)
    else if key == "template" then Some(Template)
    else if key == "format" then Some(Format)
    else if key == "spmcache" then Some(SpmCache)
    else None
  }

  /** Names and arguments correspond one to one. */
  lemma ArgumentNameRoundTrip(a: Argument, key: string)
    ensures ArgumentNamed(ArgumentName(a)) == Some(a)
    ensures ArgumentNamed(key) == Some(a) <==> ArgumentName(a) == key
  {
    match a {
      case Anonymous =>
      case Allow =>
      case Skip =>
      case Exclude =>
      case Template =>
      case Format =>
      case SpmCache =>
    }
  }

  // ---------------------------------------------------------------------------
  // Edit distance
  // ---------------------------------------------------------------------------

  function Min3(a: nat, b: nat, c: nat): (m: nat)
    ensures m <= a && m <= b && m <= c
    ensures m == a || m == b || m == c
  {
    if a <= b && a <= c then a else if b <= c then b else c
  }

  /**
   * The Levenshtein distance of `a` and `b`, by their last characters: the
   * fewest insertions, deletions and substitutions that turn one into the other.
   */
  function Lev(a: string, b: string): nat
    decreases |a| + |b|
  {
    if |a| == 0 then |b|
    else if |b| == 0 then |a|
    else
      var a', b' := a[..|a| - 1], b[..|b| - 1];
      if a[|a| - 1] == b[|b| - 1] then Lev(a', b')
      else Min3(Lev(a', b) + 1, Lev(a, b') + 1, Lev(a', b') + 1)
  }

  /** The recurrence of the table: one cell from its three neighbours. */
  lemma LevStep(a: string, b: string, i: nat, j: nat)
    requires 1 <= i <= |a| && 1 <= j <= |b|
    ensures Lev(a[..i], b[..j]) ==
            if a[i - 1] == b[j - 1] then Lev(a[..i - 1], b[..j - 1])
            else Min3(Lev(a[..i - 1], b[..j]) + 1, Lev(a[..i], b[..j - 1]) + 1, Lev(a[..i - 1], b[..j - 1]) + 1)
  {
    assert a[..i][..i - 1] == a[..i - 1];
    assert b[..j][..j - 1] == b[..j - 1];
  }

  /** The first column and the first row of the table. */
  lemma LevEdges(a: string, b: string, i: nat, j: nat)
    requires i <= |a| && j <= |b|
    ensures Lev(a[..i], b[..0]) == i && Lev(a[..0], b[..j]) == j
  {
  }

  /** Row `i` of the table holds the distances of `a[..i]` to every prefix of `b` it has reached. */
  predicate RowOf(row: seq<nat>, a: string, b: string, i: nat, n: nat)
    requires i <= |a| && n <= |b| + 1
  {
    |row| == n && forall m :: 0 <= m < n ==> row[m] == Lev(a[..i], b[..m])
  }

  /** The inner loop of `editDistance`: row `i` of the table, from the row above it and its first cell. */
  method NextRow(lhs: string, rhs: string, i: nat, above: seq<nat>, first: seq<nat>) returns (row: seq<nat>)
    requires 1 <= i <= |lhs|
    requires RowOf(above, lhs, rhs, i - 1, |rhs| + 1) && RowOf(first, lhs, rhs, i, 1)
    ensures RowOf(row, lhs, rhs, i, |rhs| + 1)
  {
    var c := lhs[i - 1];
    row := first;
    for j := 1 to |rhs| + 1
      invariant RowOf(row, lhs, rhs, i, j)
    {
      var v: nat;
      if c == rhs[j - 1] {
        v := above[j - 1];
      } else {
        v := Min3(above[j] + 1, row[j - 1] + 1, above[j - 1] + 1);
      }
      LevStep(lhs, rhs, i, j);
      RowAppend(row, lhs, rhs, i, j, v);
      row := row + [v];
    }
  }

  lemma RowAppend(row: seq<nat>, a: string, b: string, i: nat, j: nat, v: nat)
    requires i <= |a| && j <= |b| && RowOf(row, a, b, i, j) && v == Lev(a[..i], b[..j])
    ensures RowOf(row + [v], a, b, i, j + 1)
  {
  }

  /**
   * `editDistance(_:_:)`, filling the table row by row. The loops run over
   * half-open ranges, so an empty string is handled (see the findings).
   */
  method EditDistance(lhs: string, rhs: string) returns (d: nat)
    ensures d == Lev(lhs, rhs)
  {
    var dist: seq<seq<nat>> := [];
    for i := 0 to |lhs| + 1
      invariant |dist| == i
      invariant forall k :: 0 <= k < i ==> dist[k] == [k]
    {
      dist := dist + [[i]];
    }
    for j := 1 to |rhs| + 1
      invariant |dist| == |lhs| + 1
      invariant |dist[0]| == j && forall m :: 0 <= m < j ==> dist[0][m] == m
      invariant forall k :: 1 <= k <= |lhs| ==> dist[k] == [k]
    {
      dist := dist[0 := dist[0] + [j]];
    }
    forall m | 0 <= m <= |rhs| ensures dist[0][m] == Lev(lhs[..0], rhs[..m]) {
      LevEdges(lhs, rhs, 0, m);
    }
    for i := 1 to |lhs| + 1
      invariant |dist| == |lhs| + 1
      invariant forall k :: 0 <= k < i ==> RowOf(dist[k], lhs, rhs, k, |rhs| + 1)
      invariant forall k :: i <= k <= |lhs| ==> dist[k] == [k]
    {
      LevEdges(lhs, rhs, i, 0);
      var row := NextRow(lhs, rhs, i, dist[i - 1], dist[i]);
      dist := dist[i := row];
    }
    assert lhs[..|lhs|] == lhs && rhs[..|rhs|] == rhs;
    d := dist[|lhs|][|rhs|];
  }

  function Max(a: nat, b: nat): nat {
    if a >= b then a else b
  }

  /** A string is at distance 0 from itself. */
  lemma {:induction false} LevSelf(a: string)
    ensures Lev(a, a) == 0
    decreases |a|
  {
    if |a| > 0 {
      LevSelf(a[..|a| - 1]);
    }
  }

  /** Only equal strings are at distance 0. */
  lemma {:induction false} LevZero(a: string, b: string)
    requires Lev(a, b) == 0
    ensures a == b
    decreases |a| + |b|
  {
    if |a| > 0 && |b| > 0 {
      var a', b' := a[..|a| - 1], b[..|b| - 1];
      assert a[|a| - 1] == b[|b| - 1];
      LevZero(a', b');
      assert a == a' + [a[|a| - 1]] && b == b' + [b[|b| - 1]];
    }
  }

  /** The distance does not depend on the order of the two strings. */
  lemma {:induction false} LevSymmetric(a: string, b: string)
    ensures Lev(a, b) == Lev(b, a)
    decreases |a| + |b|
  {
    if |a| > 0 && |b| > 0 {
      var a', b' := a[..|a| - 1], b[..|b| - 1];
      LevSymmetric(a', b');
      if a[|a| - 1] != b[|b| - 1] {
        LevSymmetric(a', b);
        LevSymmetric(a, b');
      }
    }
  }

  /** No more edits are needed than the longer string has characters. */
  lemma {:induction false} LevBound(a: string, b: string)
    ensures Lev(a, b) <= Max(|a|, |b|)
    decreases |a| + |b|
  {
    if |a| > 0 && |b| > 0 {
      LevBound(a[..|a| - 1], b[..|b| - 1]);
    }
  }

  /**
   * `editDistance` as written: its closed ranges `1 ... rhs.count` and
   * `1 ... lhs.count` trap when either string is empty, and otherwise it
   * computes the distance.
   */
  function EditDistanceAsWritten(lhs: string, rhs: string): (r: Option<nat>)
    ensures r.None? <==> lhs == [] || rhs == []
    ensures r.Some? ==> r.value == Lev(lhs, rhs)
  {
    if |rhs| < 1 then None          // for j in 1 ... rhs.count
    else if |lhs| < 1 then None     // for i in 1 ... lhs.count
    else Some(Lev(lhs, rhs))
  }

  /**
   * With the source as written, every unknown `--key` traps: `bestMatches`
   * measures the key against every argument name, and the first name is the
   * empty raw value of `anonymous`.
   */
  lemma UnknownOptionTraps(key: string)
    requires ArgumentNamed(key).None?
    ensures ArgumentNames()[0] == [] && EditDistanceAsWritten(Lower(ArgumentNames()[0]), Lower(key)).None?
  {
  }

  /**
   * The same trap is reached from `export --allow ""` or `--skip ""` when
   * no library is nameless: the empty name is unknown, and `bestMatches`
   * measures every library name against it.
   */
  lemma UnknownEmptyNameTraps(libs: seq<Library>, i: nat)
    requires i < |libs| && forall j :: 0 <= j < |libs| ==> libs[j].name != []
    ensures [] !in LibraryNames(libs)
    ensures EditDistanceAsWritten(LibraryNames(libs)[i], Lower([])).None?
  {
  }

  /** The corrected `editDistance` measures an empty string by the other's length. */
  lemma LevEmpty(s: string)
    ensures Lev([], s) == |s| && Lev(s, []) == |s|
  {
  }

  // ---------------------------------------------------------------------------
  // Suggestions
  // ---------------------------------------------------------------------------

  /** The distance `bestMatches` ranks an option by: between the lowercased option and query. */
  function Distance(option: string, query: string): nat {
    Lev(Lower(option), Lower(query))
  }

  /** `!a.commonPrefix(with: b).isEmpty` */
  predicate SharesPrefix(a: string, b: string) {
    a != [] && b != [] && a[0] == b[0]
  }

  /** An option is suggested when it is within half the query's length of it, or starts like it. */
  predicate Suggested(option: string, query: string) {
    Distance(option, query) <= |Lower(query)| / 2 || SharesPrefix(Lower(option), Lower(query))
  }

  /** The options `compactMap` keeps, in their order. */
  function Suggestions(query: string, options: seq<string>): (r: seq<string>)
    ensures forall x :: x in r <==> x in options && Suggested(x, query)
    decreases |options|
  {
    if options == [] then []
    else
      var rest := Suggestions(query, options[1..]);
      if Suggested(options[0], query) then [options[0]] + rest else rest
  }

  predicate Ranked(xs: seq<string>, query: string) {
    forall i, j :: 0 <= i < j < |xs| ==> Distance(xs[i], query) <= Distance(xs[j], query)
  }

  /** Inserting after every option that is no farther, which keeps equally distant options in order. */
  function InsertByDistance(x: string, xs: seq<string>, query: string): (r: seq<string>)
    requires Ranked(xs, query)
    ensures Ranked(r, query) && multiset(r) == multiset(xs) + multiset{x}
    decreases |xs|
  {
    if xs == [] then [x]
    else if Distance(x, query) < Distance(xs[0], query) then [x] + xs
    else
      var rest := InsertByDistance(x, xs[1..], query);
      assert xs == [xs[0]] + xs[1..];
      InsertBehindHead(xs, x, rest, query);
      [xs[0]] + rest
  }

  /**
   * What is inserted after the head of a ranked sequence is no nearer than
   * the head, so the head followed by the insertion is still ranked.
   */
  lemma InsertBehindHead(xs: seq<string>, x: string, rest: seq<string>, query: string)
    requires xs != [] && Ranked(xs, query) && Distance(xs[0], query) <= Distance(x, query)
    requires Ranked(rest, query) && multiset(rest) == multiset(xs[1..]) + multiset{x}
    ensures Ranked([xs[0]] + rest, query)
  {
    var r := [xs[0]] + rest;
    forall k | 0 <= k < |rest|
      ensures Distance(xs[0], query) <= Distance(rest[k], query)
    {
      assert rest[k] in multiset(rest);
      if rest[k] != x {
        assert rest[k] in multiset(xs[1..]);
        var j :| 0 <= j < |xs[1..]| && xs[1..][j] == rest[k];
        assert xs[j + 1] == rest[k];
      }
    }
    forall i, j | 0 <= i < j < |r|
      ensures Distance(r[i], query) <= Distance(r[j], query)
    {
      assert r[j] == rest[j - 1];
      if i > 0 {
        assert r[i] == rest[i - 1];
      }
    }
  }

  /** `sorted { $0.1 < $1.1 }` on the distances, as a stable insertion sort. */
  function SortByDistance(xs: seq<string>, query: string): (r: seq<string>)
    ensures Ranked(r, query) && multiset(r) == multiset(xs)
    decreases |xs|
  {
    if xs == [] then []
    else
      assert xs == xs[..|xs| - 1] + [xs[|xs| - 1]];
      InsertByDistance(xs[|xs| - 1], SortByDistance(xs[..|xs| - 1], query), query)
  }

  /** `bestMatches(for:in:)` */
  function BestMatches(query: string, options: seq<string>): seq<string> {
    SortByDistance(Suggestions(query, options), query)
  }

  /**
   * The suggestions are exactly the options near the query or sharing its
   * first character, each as often as it is offered, nearest first.
   */
  lemma BestMatchesSpec(query: string, options: seq<string>)
    ensures var r := BestMatches(query, options);
            && (forall x :: x in r <==> x in options && Suggested(x, query))
            && multiset(r) == multiset(Suggestions(query, options))
            && Ranked(r, query)
  {
    var r := BestMatches(query, options);
    forall x ensures x in r <==> x in Suggestions(query, options) {
      assert x in r <==> x in multiset(r);
    }
  }

  /** The empty name of `anonymous` is never suggested for a non-empty query. */
  lemma NeverSuggestsEmpty(query: string)
    requires query != []
    ensures !Suggested([], query)
  {
    assert Lower([]) == [];
    LevEmpty(Lower(query));
  }

  // ---------------------------------------------------------------------------
  // Parsing arguments
  // ---------------------------------------------------------------------------

  /** The errors `preprocessArguments` throws. */
  datatype ArgumentError =
    | UnknownOption(key: string, suggestion: Option<string>)
    | UnknownFlag(flag: string)

  function ArgumentErrorMessage(e: ArgumentError): string {
    match e
    case UnknownOption(key, None) => "Unknown option --" + key + "."
    case UnknownOption(key, Some(m)) => "Unknown option --" + key + ". Did you mean --" + m + "?"
    case UnknownFlag(flag) => "Unknown flag -" + flag + "."
  }

  /** The position of the first argument in `args` whose name starts with `flag`, or `|args|`. */
  function FirstWithPrefix(args: seq<Argument>, flag: string): (n: nat)
    ensures n <= |args|
    ensures forall j :: 0 <= j < n ==> !StartsWith(ArgumentName(args[j]), flag)
    ensures n < |args| ==> StartsWith(ArgumentName(args[n]), flag)
    decreases |args|
  {
    if args == [] then 0
    else if StartsWith(ArgumentName(args[0]), flag) then 0
    else 1 + FirstWithPrefix(args[1..], flag)
  }

  /** `-f`: the first argument, in declaration order, whose name starts with `f`. */
  function ShortFlag(flag: string): Option<Argument> {
    var n := FirstWithPrefix(AllArguments, flag);
    if n < |AllArguments| then Some(AllArguments[n]) else None
  }

  /** A value loses one trailing comma, unless it is a lone comma. */
  function StripComma(arg: string): string {
    if EndsWith(arg, ",") && arg != "," then arg[..|arg| - 1] else arg
  }

  lemma StripCommaSpec(x: string)
    ensures x != [] ==> StripComma(x + ",") == x
    ensures StripComma(",") == ","
    ensures !EndsWith(x, ",") ==> StripComma(x) == x
  {
    if x != [] {
      assert (x + ",")[|x + ","| - 1..] == ",";
      assert (x + ",")[..|x|] == x;
    }
  }

  /** What parsing has built so far: the lists by argument, and the argument values go to. */
  datatype Parsed = Parsed(named: map<Argument, seq<string>>, current: Option<Argument>)

  function ListOf(named: map<Argument, seq<string>>, a: Argument): seq<string> {
    if a in named then named[a] else []
  }

  /** The argument a value goes to: the last flag's, or `anonymous` before any. */
  function Target(current: Option<Argument>): Argument {
    match current
    case Some(a) => a
    case None => Anonymous
  }

  /** The first suggestion for an unknown key, if any. */
  function FirstSuggestion(key: string): Option<string> {
    var matches := BestMatches(key, ArgumentNames());
    if matches == [] then None else Some(matches[0])
  }

  /** One turn of the loop of `preprocessArguments`. */
  function Step(p: Parsed, arg: string): Result<Parsed, ArgumentError> {
    if StartsWith(arg, "--") then
      var key := arg[2..];
      match ArgumentNamed(key)
      case None => Err(UnknownOption(key, FirstSuggestion(key)))
      case Some(a) => Ok(Parsed(p.named[a := ListOf(p.named, a)], Some(a)))
    else if StartsWith(arg, "-") then
      var flag := arg[1..];
      match ShortFlag(flag)
      case None => Err(UnknownFlag(flag))
      case Some(a) => Ok(Parsed(p.named[a := ListOf(p.named, a)], Some(a)))
    else
      var a := Target(p.current);
      Ok(Parsed(p.named[a := ListOf(p.named, a) + [StripComma(arg)]], p.current))
  }

  /** The arguments parsed from left to right, stopping at the first error. */
  function Preprocess(args: seq<string>): Result<Parsed, ArgumentError>
    decreases |args|
  {
    if args == [] then Ok(Parsed(map[], None))
    else
      match Preprocess(args[..|args| - 1])
      case Err(e) => Err(e)
      case Ok(p) => Step(p, args[|args| - 1])
  }

  /** `preprocessArguments(_:)` */
  method PreprocessArguments(args: seq<string>) returns (r: Result<map<Argument, seq<string>>, ArgumentError>)
    ensures match Preprocess(args)
            case Ok(p) => r == Ok(p.named)
            case Err(e) => r == Err(e)
  {
    var namedArgs: map<Argument, seq<string>> := map[];
    var name: Option<Argument> := None;
    for k := 0 to |args|
      invariant Preprocess(args[..k]) == Ok(Parsed(namedArgs, name))
    {
      var arg := args[k];
      PreprocessNext(args, k, Parsed(namedArgs, name));
      if StartsWith(arg, "--") {
        var key := arg[2..];
        var argument := ArgumentNamed(key);
        if argument.None? {
          var matches := BestMatches(key, ArgumentNames());
          r := Err(UnknownOption(key, if matches == [] then None else Some(matches[0])));
          PreprocessStops(args, k + 1);
          return;
        }
        name := argument;
        namedArgs := namedArgs[argument.value := ListOf(namedArgs, argument.value)];
      } else if StartsWith(arg, "-") {
        var flag := arg[1..];
        var match_ := ShortFlag(flag);
        if match_.None? {
          r := Err(UnknownFlag(flag));
          PreprocessStops(args, k + 1);
          return;
        }
        name := match_;
        namedArgs := namedArgs[match_.value := ListOf(namedArgs, match_.value)];
      } else {
        var value := StripComma(arg);
        var target := Target(name);
        namedArgs := namedArgs[target := ListOf(namedArgs, target) + [value]];
      }
    }
    assert args[..|args|] == args;
    r := Ok(namedArgs);
  }

  /** Once an argument fails, so does every longer run of arguments. */
  lemma {:induction false} PreprocessStops(args: seq<string>, k: nat)
    requires k <= |args| && Preprocess(args[..k]).Err?
    ensures Preprocess(args) == Preprocess(args[..k])
    decreases |args| - k
  {
    if k < |args| {
      PreprocessErrNext(args, k);
      PreprocessStops(args, k + 1);
    } else {
      assert args[..k] == args;
    }
  }

  /** A failed run of arguments still fails, with the same error, one argument later. */
  lemma PreprocessErrNext(args: seq<string>, k: nat)
    requires k < |args| && Preprocess(args[..k]).Err?
    ensures Preprocess(args[..k + 1]) == Preprocess(args[..k])
  {
    assert args[..k + 1][..k] == args[..k];
  }

  /** The loop of `preprocessArguments` takes its next step from where it is. */
  lemma PreprocessNext(args: seq<string>, k: nat, p: Parsed)
    requires k < |args| && Preprocess(args[..k]) == Ok(p)
    ensures Preprocess(args[..k + 1]) == Step(p, args[k])
  {
    assert args[..k + 1][..k] == args[..k];
  }

  /** Parsing one more argument is one more step. */
  lemma PreprocessAppend(xs: seq<string>, x: string)
    ensures Preprocess(xs + [x]) ==
            match Preprocess(xs)
            case Err(e) => Err(e)
            case Ok(p) => Step(p, x)
  {
    assert (xs + [x])[..|xs|] == xs;
  }

  /**
   * `--key` for a known key makes it the argument values go to and gives it
   * a list, keeping what it already holds; `--` alone selects `anonymous`.
   */
  lemma PreprocessLongKnown(xs: seq<string>, a: Argument)
    requires Preprocess(xs).Ok?
    ensures var p := Preprocess(xs).value;
            Preprocess(xs + ["--" + ArgumentName(a)]) == Ok(Parsed(p.named[a := ListOf(p.named, a)], Some(a)))
  {
    var arg := "--" + ArgumentName(a);
    PreprocessAppend(xs, arg);
    assert StartsWith(arg, "--") && arg[2..] == ArgumentName(a);
    ArgumentNameRoundTrip(a, arg[2..]);
  }

  /** `--key` for an unknown key fails, whatever follows it. */
  lemma PreprocessLongUnknown(xs: seq<string>, arg: string, ys: seq<string>)
    requires Preprocess(xs).Ok? && StartsWith(arg, "--") && ArgumentNamed(arg[2..]).None?
    ensures Preprocess(xs + [arg] + ys) == Err(UnknownOption(arg[2..], FirstSuggestion(arg[2..])))
  {
    var all := xs + [arg] + ys;
    assert all[..|xs| + 1] == xs + [arg];
    PreprocessAppend(xs, arg);
    PreprocessStops(all, |xs| + 1);
  }

  /**
   * `-f` selects the first argument in declaration order whose name starts
   * with `f`, giving it a list, and fails when there is none.
   */
  lemma PreprocessShort(xs: seq<string>, flag: string)
    requires Preprocess(xs).Ok? && !StartsWith(flag, "-")
    ensures var p, r := Preprocess(xs).value, Preprocess(xs + ["-" + flag]);
            match ShortFlag(flag)
            case None => r == Err(UnknownFlag(flag))
            case Some(a) => r == Ok(Parsed(p.named[a := ListOf(p.named, a)], Some(a)))
  {
    PreprocessAppend(xs, "-" + flag);
    StepShort(Preprocess(xs).value, flag);
  }

  lemma StepShort(p: Parsed, flag: string)
    requires !StartsWith(flag, "-")
    ensures Step(p, "-" + flag) ==
            match ShortFlag(flag)
            case None => Err(UnknownFlag(flag))
            case Some(a) => Ok(Parsed(p.named[a := ListOf(p.named, a)], Some(a)))
  {
    var arg := "-" + flag;
    assert arg[1..] == flag;
    assert StartsWith(arg, "-") && !StartsWith(arg, "--");
  }

  /** The values as they are stored. */
  function StripCommas(values: seq<string>): (r: seq<string>)
    ensures |r| == |values|
    decreases |values|
  {
    if values == [] then [] else StripCommas(values[..|values| - 1]) + [StripComma(values[|values| - 1])]
  }

  predicate NoFlags(values: seq<string>) {
    forall i :: 0 <= i < |values| ==> !StartsWith(values[i], "-")
  }

  /** A value goes to the list of the argument named last. */
  lemma StepValue(p: Parsed, v: string)
    requires !StartsWith(v, "-")
    ensures var a := Target(p.current);
            Step(p, v) == Ok(Parsed(p.named[a := ListOf(p.named, a) + [StripComma(v)]], p.current))
  {
    assert !StartsWith(v, "--") by {
      if |v| >= 2 {
        assert v[..2][..1] == v[..1];
      }
    }
  }

  /**
   * Values are appended, in order and with a trailing comma stripped, to the
   * list of the argument named last; nothing else changes.
   */
  lemma {:induction false} PreprocessValues(xs: seq<string>, values: seq<string>)
    requires Preprocess(xs).Ok? && values != [] && NoFlags(values)
    ensures var p := Preprocess(xs).value;
            var a := Target(p.current);
            Preprocess(xs + values) == Ok(Parsed(p.named[a := ListOf(p.named, a) + StripCommas(values)], p.current))
    decreases |values|
  {
    var p := Preprocess(xs).value;
    var a := Target(p.current);
    var last := values[|values| - 1];
    var front := values[..|values| - 1];
    assert xs + values == (xs + front) + [last];
    NoFlagsFront(values);
    if front == [] {
      assert xs + front == xs;
      PreprocessSnoc(xs, last, p);
      assert StripCommas(values) == [StripComma(last)];
    } else {
      PreprocessValues(xs, front);
      ValueAfterValues(xs + front, last, p.named, p.current, ListOf(p.named, a), StripCommas(front));
      assert StripCommas(values) == StripCommas(front) + [StripComma(last)];
    }
  }

  /** One more value after values already gathered behind the same argument. */
  lemma ValueAfterValues(ys: seq<string>, v: string, named: map<Argument, seq<string>>, current: Option<Argument>,
                         base: seq<string>, gathered: seq<string>)
    requires Preprocess(ys) == Ok(Parsed(named[Target(current) := base + gathered], current))
    requires !StartsWith(v, "-")
    ensures Preprocess(ys + [v]) ==
            Ok(Parsed(named[Target(current) := base + (gathered + [StripComma(v)])], current))
  {
    var a := Target(current);
    var q := Parsed(named[a := base + gathered], current);
    PreprocessSnoc(ys, v, q);
    assert (base + gathered) + [StripComma(v)] == base + (gathered + [StripComma(v)]);
    assert q.named[a := (base + gathered) + [StripComma(v)]] == named[a := base + (gathered + [StripComma(v)])];
  }

  lemma NoFlagsFront(values: seq<string>)
    requires values != [] && NoFlags(values)
    ensures NoFlags(values[..|values| - 1]) && !StartsWith(values[|values| - 1], "-")
  {
    var front := values[..|values| - 1];
    forall i | 0 <= i < |front| ensures !StartsWith(front[i], "-") {
      assert front[i] == values[i];
    }
  }

  /** One more value after a run that parsed. */
  lemma PreprocessSnoc(ys: seq<string>, v: string, q: Parsed)
    requires Preprocess(ys) == Ok(q) && !StartsWith(v, "-")
    ensures var a := Target(q.current);
            Preprocess(ys + [v]) == Ok(Parsed(q.named[a := ListOf(q.named, a) + [StripComma(v)]], q.current))
  {
    PreprocessAppend(ys, v);
    StepValue(q, v);
  }

  /** Without any flag, every value goes to `anonymous`, in order. */
  lemma PreprocessAnonymous(values: seq<string>)
    requires values != [] && NoFlags(values)
    ensures Preprocess(values) == Ok(Parsed(map[Anonymous := StripCommas(values)], None))
  {
    assert Preprocess([]) == Ok(Parsed(map[], None));
    PreprocessValues([], values);
    assert [] + values == values;
    assert ListOf(map[], Anonymous) + StripCommas(values) == StripCommas(values);
  }

  // ---------------------------------------------------------------------------
  // Listing libraries
  // ---------------------------------------------------------------------------

  function Spaces(n: nat): (r: string)
    ensures |r| == n && forall i :: 0 <= i < n ==> r[i] == ' '
  {
    seq(n, _ => ' ')
  }

  /**
   * `addingTrailingSpace(toWidth:)`, and the padding `list` writes out the
   * same way: `s` followed by spaces up to `width` characters. A width
   * below the length of `s` is a negative repeat count, which traps.
   */
  function AddingTrailingSpace(s: string, width: int): (r: string)
    requires |s| <= width
    ensures |r| == width && r[..|s|] == s
    ensures forall i :: |s| <= i < width ==> r[i] == ' '
  {
    s + Spaces(width - |s|)
  }

  /** The first column of `list`: the name, and the version in parentheses when there is one. */
  function NameColumn(lib: Library): string {
    lib.name + (match lib.version case Some(v) => " (" + v + ")" case None => "")
  }

  /** The width `list` counts for a name: the name, plus three for the version's `" ("` and `")"`. */
  function NameWidth(lib: Library): (n: nat)
    ensures n == |NameColumn(lib)|
  {
    |lib.name| + (match lib.version case Some(v) => |v| + 3 case None => 0)
  }

  /** The second column of `list`: the license type, or `Unknown`. */
  function TypeColumn(lib: Library): string {
    Templates.LicenseTypeName(lib.licenseType)
  }

  /** `.max() ?? 0` */
  function MaxOf(xs: seq<nat>): (m: nat)
    ensures forall i :: 0 <= i < |xs| ==> xs[i] <= m
    ensures xs == [] ==> m == 0
    ensures xs != [] ==> exists i :: 0 <= i < |xs| && xs[i] == m
    decreases |xs|
  {
    if xs == [] then 0
    else
      var m := MaxOf(xs[1..]);
      if xs[0] >= m then xs[0]
      else
        assert xs[1..] != [];
        m
  }

  function NameWidths(libs: seq<Library>): seq<nat> {
    seq(|libs|, i requires 0 <= i < |libs| => NameWidth(libs[i]))
  }

  function TypeWidths(libs: seq<Library>): seq<nat> {
    seq(|libs|, i requires 0 <= i < |libs| => |TypeColumn(libs[i])|)
  }

  /** One line of `list`: both columns padded to their widths, two spaces apart, then the license path. */
  function ListLine(lib: Library, nameWidth: nat, typeWidth: nat): string
    requires |NameColumn(lib)| <= nameWidth && |TypeColumn(lib)| <= typeWidth
  {
    AddingTrailingSpace(NameColumn(lib), nameWidth) + "  " +
    AddingTrailingSpace(TypeColumn(lib), typeWidth) + "  " + lib.licensePath
  }

  function ListLines(libs: seq<Library>): (lines: seq<string>)
    ensures |lines| == |libs|
  {
    var nameWidth := MaxOf(NameWidths(libs));
    var typeWidth := MaxOf(TypeWidths(libs));
    seq(|libs|, i requires 0 <= i < |libs| =>
      assert NameWidths(libs)[i] == |NameColumn(libs[i])|;
      assert TypeWidths(libs)[i] == |TypeColumn(libs[i])|;
      ListLine(libs[i], nameWidth, typeWidth))
  }

  /** The output of `list` for the libraries found. */
  function ListLibraries(libs: seq<Library>): string {
    Join(ListLines(libs), "\n")
  }

  /** With no newline in the names, versions and paths, the output of `list` splits back into its lines. */
  lemma ListLinesBack(libs: seq<Library>)
    requires libs != []
    requires forall i :: 0 <= i < |libs| ==>
               '\n' !in NameColumn(libs[i]) && '\n' !in libs[i].licensePath
    ensures Split(ListLibraries(libs), '\n') == ListLines(libs)
  {
    var lines := ListLines(libs);
    forall k | 0 <= k < |lines| ensures '\n' !in lines[k] {
      ListLineColumns(libs, k);
      LineOneLine(libs[k], MaxOf(NameWidths(libs)), MaxOf(TypeWidths(libs)));
    }
    SplitJoin(lines, '\n');
  }

  lemma LineOneLine(lib: Library, nw: nat, tw: nat)
    requires |NameColumn(lib)| <= nw && |TypeColumn(lib)| <= tw
    requires '\n' !in NameColumn(lib) && '\n' !in lib.licensePath
    ensures '\n' !in ListLine(lib, nw, tw)
  {
    var name := AddingTrailingSpace(NameColumn(lib), nw);
    var kind := AddingTrailingSpace(TypeColumn(lib), tw);
    assert '\n' !in Templates.LicenseTypeName(lib.licenseType);
    assert '\n' !in Spaces(nw - |NameColumn(lib)|) && '\n' !in Spaces(tw - |TypeColumn(lib)|);
    assert '\n' !in name && '\n' !in kind;
  }

  /**
   * `line` shows `name` padded to `nw` columns, two spaces, `kind` padded
   * to `tw` columns, two spaces and `path`.
   */
  predicate LaidOut(line: string, name: string, kind: string, path: string, nw: nat, tw: nat) {
    && |name| <= nw && |kind| <= tw
    && |line| == nw + tw + 4 + |path|
    && line[..|name|] == name
    && (forall k :: |name| <= k < nw ==> line[k] == ' ')
    && line[nw..nw + 2] == "  "
    && line[nw + 2..nw + 2 + |kind|] == kind
    && (forall k :: nw + 2 + |kind| <= k < nw + 2 + tw ==> line[k] == ' ')
    && line[nw + 2 + tw..nw + tw + 4] == "  "
    && line[nw + tw + 4..] == path
  }

  /** Where the parts of one line sit, for column widths `nw` and `tw`. */
  lemma LineColumns(lib: Library, nw: nat, tw: nat)
    requires |NameColumn(lib)| <= nw && |TypeColumn(lib)| <= tw
    ensures LaidOut(ListLine(lib, nw, tw), NameColumn(lib), TypeColumn(lib), lib.licensePath, nw, tw)
  {
    var name := AddingTrailingSpace(NameColumn(lib), nw);
    var kind := AddingTrailingSpace(TypeColumn(lib), tw);
    PaddedColumns(name, kind, lib.licensePath, NameColumn(lib), TypeColumn(lib), nw, tw);
  }

  /** Two padded columns and a path, separated by two spaces each, are laid out as `LaidOut` says. */
  lemma PaddedColumns(a: string, b: string, path: string, name: string, kind: string, nw: nat, tw: nat)
    requires |a| == nw && |name| <= nw && a[..|name|] == name
    requires forall k :: |name| <= k < nw ==> a[k] == ' '
    requires |b| == tw && |kind| <= tw && b[..|kind|] == kind
    requires forall k :: |kind| <= k < tw ==> b[k] == ' '
    ensures LaidOut(a + "  " + b + "  " + path, name, kind, path, nw, tw)
  {
    var line := a + "  " + b + "  " + path;
    assert line[..nw] == a;
    assert line[nw + 2..nw + 2 + tw] == b;
  }

  /**
   * Line `i` of `list`: whatever the line, its name column is padded to the
   * widest name's width and its type column to the widest type's width, so
   * the type and the path start at the same offset on every line.
   */
  lemma ListLineColumns(libs: seq<Library>, i: nat)
    requires i < |libs|
    ensures LaidOut(ListLines(libs)[i], NameColumn(libs[i]), TypeColumn(libs[i]), libs[i].licensePath,
                    MaxOf(NameWidths(libs)), MaxOf(TypeWidths(libs)))
  {
    var nw := MaxOf(NameWidths(libs));
    var tw := MaxOf(TypeWidths(libs));
    assert NameWidths(libs)[i] == |NameColumn(libs[i])|;
    assert TypeWidths(libs)[i] == |TypeColumn(libs[i])|;
    assert ListLines(libs)[i] == ListLine(libs[i], nw, tw);
    LineColumns(libs[i], nw, tw);
  }

  /** The columns are no wider than they must be: some library fills each. */
  lemma ListWidthsTight(libs: seq<Library>)
    requires libs != []
    ensures exists i :: 0 <= i < |libs| && |NameColumn(libs[i])| == MaxOf(NameWidths(libs))
    ensures exists i :: 0 <= i < |libs| && |TypeColumn(libs[i])| == MaxOf(TypeWidths(libs))
  {
    var i :| 0 <= i < |libs| && NameWidths(libs)[i] == MaxOf(NameWidths(libs));
    var j :| 0 <= j < |libs| && TypeWidths(libs)[j] == MaxOf(TypeWidths(libs));
    assert NameWidths(libs)[i] == |NameColumn(libs[i])|;
    assert TypeWidths(libs)[j] == |TypeColumn(libs[j])|;
  }

  // ---------------------------------------------------------------------------
  // The libraries `export` keeps
  // ---------------------------------------------------------------------------

  /** The errors the filter of `export` throws. */
  datatype ExportError =
    | UnknownLibrary(name: string, suggestion: Option<string>)
    | UnrecognizedLicense(licensePath: string, escapedName: string)

  function ExportErrorMessage(e: ExportError): string {
    match e
    case UnknownLibrary(name, None) => "Unknown library '" + name + "'."
    case UnknownLibrary(name, Some(m)) => "Unknown library '" + name + "'. Did you mean '" + m + "'?"
    case UnrecognizedLicense(path, name) =>
      "Unrecognized license at " + path + ". Use '--allow " + name + "' or '--skip " + name + "' to bypass."
  }

  /** The given names, lowercased one by one. */
  function LowerAll(xs: seq<string>): (r: seq<string>)
    ensures |r| == |xs| && forall i :: 0 <= i < |xs| ==> r[i] == Lower(xs[i])
  {
    seq(|xs|, i requires 0 <= i < |xs| => Lower(xs[i]))
  }

  /** A name is among the lowercased names exactly when it lowercases one of the given names. */
  lemma LowerAllMembers(xs: seq<string>, x: string)
    ensures x in LowerAll(xs) <==> exists y :: y in xs && Lower(y) == x
  {
    var r := LowerAll(xs);
    if x in r {
      var i :| 0 <= i < |r| && r[i] == x;
      assert xs[i] in xs;
    }
  }

  /** The libraries' names, lowercased, in their order. */
  function LibraryNames(libs: seq<Library>): (r: seq<string>)
    ensures |r| == |libs| && forall i :: 0 <= i < |libs| ==> r[i] == Lower(libs[i].name)
  {
    seq(|libs|, i requires 0 <= i < |libs| => Lower(libs[i].name))
  }

  /** A name is among the library names exactly when it is some library's lowercased name. */
  lemma LibraryNamesMembers(libs: seq<Library>, n: string)
    ensures n in LibraryNames(libs) <==> exists lib :: lib in libs && Lower(lib.name) == n
  {
    var r := LibraryNames(libs);
    if n in r {
      var i :| 0 <= i < |r| && r[i] == n;
      assert libs[i] in libs;
    }
  }

  /** The name a bypass hint shows: lowercased, and quoted when it holds a space. */
  function EscapedName(name: string): string {
    Lower(if ' ' in name then Templates.Quoted(name) else name)
  }

  /** The position of the first of `names` that is not in `known`, or `|names|`. */
  function FirstUnknown(names: seq<string>, known: seq<string>): (n: nat)
    ensures n <= |names|
    ensures forall j :: 0 <= j < n ==> names[j] in known
    ensures n < |names| ==> names[n] !in known
    decreases |names|
  {
    if names == [] then 0
    else if names[0] !in known then 0
    else 1 + FirstUnknown(names[1..], known)
  }

  /** A library may be exported when it is allowed by name or its license was recognised. */
  predicate Admitted(lib: Library, allow: seq<string>) {
    Lower(lib.name) in allow || lib.licenseType.Some?
  }

  /** A library the filter throws on: neither skipped nor admitted. */
  predicate Rejected(lib: Library, allow: seq<string>, skip: seq<string>) {
    Lower(lib.name) !in skip && !Admitted(lib, allow)
  }

  /** `libraries.filter { ... }` with the throwing closure, from the first library on. */
  function FilterLibraries(libs: seq<Library>, allow: seq<string>, skip: seq<string>): Result<seq<Library>, ExportError>
    decreases |libs|
  {
    if libs == [] then Ok([])
    else
      var lib := libs[0];
      if Lower(lib.name) in skip then FilterLibraries(libs[1..], allow, skip)
      else if !Admitted(lib, allow) then Err(UnrecognizedLicense(lib.licensePath, EscapedName(lib.name)))
      else
        match FilterLibraries(libs[1..], allow, skip)
        case Err(e) => Err(e)
        case Ok(rest) => Ok([lib] + rest)
  }

  /** The libraries whose lowercased name is not skipped, in their order. */
  function Unskipped(libs: seq<Library>, skip: seq<string>): (r: seq<Library>)
    ensures forall lib :: lib in r <==> lib in libs && Lower(lib.name) !in skip
    decreases |libs|
  {
    if libs == [] then []
    else if Lower(libs[0].name) in skip then Unskipped(libs[1..], skip)
    else [libs[0]] + Unskipped(libs[1..], skip)
  }

  /** The filter succeeds exactly when no library is rejected, and then keeps the unskipped libraries in order. */
  lemma {:induction false} FilterLibrariesOk(libs: seq<Library>, allow: seq<string>, skip: seq<string>)
    ensures var r := FilterLibraries(libs, allow, skip);
            && (r.Ok? <==> forall i :: 0 <= i < |libs| ==> !Rejected(libs[i], allow, skip))
            && (r.Ok? ==> r.value == Unskipped(libs, skip))
    decreases |libs|
  {
    if libs != [] {
      FilterLibrariesOk(libs[1..], allow, skip);
      assert forall i :: 1 <= i < |libs| ==> libs[i] == libs[1..][i - 1];
    }
  }

  /** When the filter fails, it names the first rejected library's license path and escaped name. */
  lemma {:induction false} FilterLibrariesErr(libs: seq<Library>, allow: seq<string>, skip: seq<string>)
    requires FilterLibraries(libs, allow, skip).Err?
    ensures exists i :: 0 <= i < |libs| && Rejected(libs[i], allow, skip)
              && (forall j :: 0 <= j < i ==> !Rejected(libs[j], allow, skip))
              && FilterLibraries(libs, allow, skip).error ==
                 UnrecognizedLicense(libs[i].licensePath, EscapedName(libs[i].name))
    decreases |libs|
  {
    var tail := libs[1..];
    if Rejected(libs[0], allow, skip) {
      assert FilterLibraries(libs, allow, skip).error ==
             UnrecognizedLicense(libs[0].licensePath, EscapedName(libs[0].name));
    } else {
      assert FilterLibraries(tail, allow, skip).Err?;
      assert FilterLibraries(libs, allow, skip).error == FilterLibraries(tail, allow, skip).error;
      FilterLibrariesErr(tail, allow, skip);
      var i :| 0 <= i < |tail| && Rejected(tail[i], allow, skip)
               && (forall j :: 0 <= j < i ==> !Rejected(tail[j], allow, skip))
               && FilterLibraries(tail, allow, skip).error ==
                  UnrecognizedLicense(tail[i].licensePath, EscapedName(tail[i].name));
      assert libs[i + 1] == tail[i];
      assert forall j :: 1 <= j < i + 1 ==> libs[j] == tail[j - 1];
    }
  }

  /**
   * The allow/skip filter of `export`: every lowercased name given to
   * `--allow` or `--skip` must be the lowercased name of a library found,
   * and the first that is not is reported with the nearest library name;
   * then `FilterLibraries` runs.
   */
  function ExportFilter(libs: seq<Library>, allowArgs: seq<string>, skipArgs: seq<string>): Result<seq<Library>, ExportError> {
    var allow := LowerAll(allowArgs);
    var skip := LowerAll(skipArgs);
    var names := LibraryNames(libs);
    var given := allow + skip;
    var n := FirstUnknown(given, names);
    if n < |given| then
      var matches := BestMatches(Lower(given[n]), names);
      Err(UnknownLibrary(given[n], if matches == [] then None else Some(matches[0])))
    else
      FilterLibraries(libs, allow, skip)
  }

  /** Some name given to `--allow` or `--skip` names no library found. */
  predicate UnknownGiven(libs: seq<Library>, allowArgs: seq<string>, skipArgs: seq<string>) {
    exists x :: x in LowerAll(allowArgs) + LowerAll(skipArgs) && x !in LibraryNames(libs)
  }

  /**
   * `export` fails on an unknown name exactly when some name given to
   * `--allow` or `--skip` names no library, and then reports the first.
   */
  lemma ExportFilterUnknown(libs: seq<Library>, allowArgs: seq<string>, skipArgs: seq<string>)
    ensures var r := ExportFilter(libs, allowArgs, skipArgs);
            var given := LowerAll(allowArgs) + LowerAll(skipArgs);
            && ((r.Err? && r.error.UnknownLibrary?) <==> UnknownGiven(libs, allowArgs, skipArgs))
            && (r.Err? && r.error.UnknownLibrary? ==>
                  r.error.name == given[FirstUnknown(given, LibraryNames(libs))])
  {
    var allow := LowerAll(allowArgs);
    var skip := LowerAll(skipArgs);
    var given := allow + skip;
    var names := LibraryNames(libs);
    var n := FirstUnknown(given, names);
    if n < |given| {
      assert given[n] in given && given[n] !in names;
    } else {
      assert forall x :: x in given ==> x in names;
      if FilterLibraries(libs, allow, skip).Err? {
        FilterLibrariesErr(libs, allow, skip);
      }
    }
  }

  /**
   * `export` succeeds exactly when every name given is known and every
   * library that is not skipped is allowed or has a recognised license;
   * it then exports the libraries that are not skipped, in their order.
   */
  lemma ExportFilterOk(libs: seq<Library>, allowArgs: seq<string>, skipArgs: seq<string>)
    ensures var r := ExportFilter(libs, allowArgs, skipArgs);
            && (r.Ok? <==> !UnknownGiven(libs, allowArgs, skipArgs) && forall i :: 0 <= i < |libs| ==>
                             !Rejected(libs[i], LowerAll(allowArgs), LowerAll(skipArgs)))
            && (r.Ok? ==> r.value == Unskipped(libs, LowerAll(skipArgs))
                          && forall lib :: lib in r.value ==> Admitted(lib, LowerAll(allowArgs)))
  {
    var allow := LowerAll(allowArgs);
    var skip := LowerAll(skipArgs);
    var given := allow + skip;
    var names := LibraryNames(libs);
    var n := FirstUnknown(given, names);
    if n < |given| {
      assert given[n] in given && given[n] !in names;
    } else {
      assert forall x :: x in given ==> x in names;
      FilterLibrariesOk(libs, allow, skip);
      var r := FilterLibraries(libs, allow, skip);
      if r.Ok? {
        forall lib | lib in r.value ensures Admitted(lib, allow) {
          var i :| 0 <= i < |libs| && libs[i] == lib;
        }
      }
    }
  }
}
