/**
 * License recognition (Sources/Tribute.swift:47-121): a license text is
 * normalised (lowercased, newlines and runs of whitespace made single
 * spaces) and its type is the first `LicenseType`, in declaration order,
 * one of whose phrases the normalised text contains, ignoring case.
 */
module Licenses {
  import opened Wrappers
  import opened Strings

  datatype LicenseType = BSD | MIT | ISC | Zlib | Apache

  /** `LicenseType.allCases`, in declaration order. */
  const AllLicenseTypes: seq<LicenseType> := [BSD, MIT, ISC, Zlib, Apache]

  /** The raw value, which `list` and the templates print. */
  function RawValue(t: LicenseType): string {
    match t
    case BSD => "BSD"
    case MIT => "MIT"
    case ISC => "ISC"
    case Zlib => "Zlib"
    case Apache => "Apache"
  }

  /** The phrases that identify each type. */
  function MatchStrings(t: LicenseType): seq<string> {
    match t
    case BSD => [
      "BSD License",
      "Redistribution and use in source and binary forms, with or without modification",
      "THIS SOFTWARE IS PROVIDED BY THE COPYRIGHT HOLDERS AND CONTRIBUTORS \"AS IS\" AND ANY EXPRESS OR"
    ]
    case MIT => [
      "The MIT License",
      "Permission is hereby granted, free of charge, to any person",
      "THE SOFTWARE IS PROVIDED \"AS IS\", WITHOUT WARRANTY OF ANY KIND, EXPRESS OR"
    ]
    case ISC => ["Permission to use, copy, modify, and/or distribute this software for any"]
    case Zlib => ["Altered source versions must be plainly marked as such, and must not be"]
    case Apache => ["Apache License"]
  }

  /** A library found in the project, with its license. */
  datatype Library = Library(
    name: string,
    version: Option<string>,
    licensePath: string,
    licenseType: Option<LicenseType>,
    licenseText: string)

  // ---------------------------------------------------------------------------
  // Normalisation
  // ---------------------------------------------------------------------------

  /** The regular-expression replacement of `\s+` by one space: each maximal whitespace run becomes `" "`. */
  function CollapseSpaces(s: string): string
    decreases |s|
  {
    if s == [] then []
    else if IsSpace(s[0]) then " " + CollapseSpaces(s[SkipSpaces(s, 1)..])
    else [s[0]] + CollapseSpaces(s[1..])
  }

  /** The characters of `s` that are no whitespace, in order. */
  function NonSpaces(s: string): string
    decreases |s|
  {
    if s == [] then [] else (if IsSpace(s[0]) then [] else [s[0]]) + NonSpaces(s[1..])
  }

  /** No two neighbouring characters are both whitespace. */
  predicate NoDoubleSpace(s: string) {
    forall i :: 0 <= i < |s| - 1 ==> !(IsSpace(s[i]) && IsSpace(s[i + 1]))
  }

  /**
   * The collapsed text has single spaces for whitespace, never two whitespace
   * characters in a row, and otherwise only characters of `s`.
   */
  lemma {:induction false} CollapseSpacesShape(s: string)
    ensures var r := CollapseSpaces(s);
            && (r == [] <==> s == [])
            && (r != [] ==> (IsSpace(r[0]) <==> IsSpace(s[0])))
            && (forall i :: 0 <= i < |r| ==> r[i] == ' ' || (!IsSpace(r[i]) && r[i] in s))
            && NoDoubleSpace(r)
    decreases |s|
  {
    if s != [] {
      var r := CollapseSpaces(s);
      if IsSpace(s[0]) {
        var k := SkipSpaces(s, 1);
        var rest := s[k..];
        CollapseSpacesShape(rest);
        var r' := CollapseSpaces(rest);
        assert r == " " + r';
        assert rest != [] ==> !IsSpace(rest[0]);
        assert forall i :: 0 <= i < |rest| ==> rest[i] == s[k + i];
        assert forall i :: 1 <= i < |r| ==> r[i] == r'[i - 1];
      } else {
        CollapseSpacesShape(s[1..]);
        var r' := CollapseSpaces(s[1..]);
        assert r == [s[0]] + r';
        assert forall i :: 1 <= i < |r| ==> r[i] == r'[i - 1];
      }
    }
  }

  lemma {:induction false} NonSpacesOfSpaces(s: string, i: nat, k: nat)
    requires i <= k <= |s|
    requires forall n :: i <= n < k ==> IsSpace(s[n])
    ensures NonSpaces(s[i..]) == NonSpaces(s[k..])
    decreases k - i
  {
    if i < k {
      assert s[i..][1..] == s[i + 1..];
      NonSpacesOfSpaces(s, i + 1, k);
    }
  }

  /** Collapsing whitespace keeps every other character, in order. */
  lemma {:induction false} CollapseSpacesKeepsText(s: string)
    ensures NonSpaces(CollapseSpaces(s)) == NonSpaces(s)
    decreases |s|
  {
    if s != [] {
      if IsSpace(s[0]) {
        var k := SkipSpaces(s, 1);
        CollapseSpacesKeepsText(s[k..]);
        var r' := CollapseSpaces(s[k..]);
        assert (" " + r')[1..] == r';
        NonSpacesOfSpaces(s, 1, k);
        assert s[1..][..] == s[1..];
      } else {
        var r' := CollapseSpaces(s[1..]);
        CollapseSpacesKeepsText(s[1..]);
        assert ([s[0]] + r')[1..] == r';
      }
    }
  }

  /** Text whose whitespace is already single spaces is left as it is. */
  lemma {:induction false} CollapseSpacesFixed(s: string)
    requires NoDoubleSpace(s) && forall i :: 0 <= i < |s| && IsSpace(s[i]) ==> s[i] == ' '
    ensures CollapseSpaces(s) == s
    decreases |s|
  {
    if s != [] {
      var tail := s[1..];
      assert NoDoubleSpace(tail) by {
        forall i | 0 <= i < |tail| - 1 ensures !(IsSpace(tail[i]) && IsSpace(tail[i + 1])) {
          assert tail[i] == s[i + 1] && tail[i + 1] == s[i + 2];
        }
      }
      assert forall i :: 0 <= i < |tail| && IsSpace(tail[i]) ==> tail[i] == ' ' by {
        forall i | 0 <= i < |tail| && IsSpace(tail[i]) ensures tail[i] == ' ' {
          assert tail[i] == s[i + 1];
        }
      }
      CollapseSpacesFixed(tail);
      if IsSpace(s[0]) {
        assert tail != [] ==> !IsSpace(s[1]);
        assert SkipSpaces(s, 1) == 1;
        assert s == " " + tail;
      } else {
        assert s == [s[0]] + tail;
      }
    }
  }

  /** Collapsing twice is collapsing once. */
  lemma CollapseSpacesIdempotent(s: string)
    ensures CollapseSpaces(CollapseSpaces(s)) == CollapseSpaces(s)
  {
    CollapseSpacesShape(s);
    CollapseSpacesFixed(CollapseSpaces(s));
  }

  /** `LicenseType.preprocess`: lowercase, newlines to spaces, whitespace runs to one space. */
  function Preprocess(licenseText: string): string {
    CollapseSpaces(ReplaceAll(Lower(licenseText), "\n", " "))
  }

  /** The normalised text is lowercase, has no newline and no two whitespace characters in a row. */
  lemma PreprocessShape(licenseText: string)
    ensures var r := Preprocess(licenseText);
            && (forall i :: 0 <= i < |r| ==> !IsUpper(r[i]))
            && '\n' !in r
            && NoDoubleSpace(r)
  {
    var lowered := ReplaceAll(Lower(licenseText), "\n", " ");
    forall c | IsUpper(c) ensures c !in lowered {
      ReplaceAllKeepsOut(Lower(licenseText), "\n", " ", c);
    }
    CollapseSpacesShape(lowered);
  }

  /** Normalising keeps the text apart from its whitespace, lowercased. */
  lemma PreprocessKeepsText(licenseText: string)
    ensures NonSpaces(Preprocess(licenseText)) == NonSpaces(ReplaceAll(Lower(licenseText), "\n", " "))
  {
    CollapseSpacesKeepsText(ReplaceAll(Lower(licenseText), "\n", " "));
  }

  // ---------------------------------------------------------------------------
  // Matching
  // ---------------------------------------------------------------------------

  /** `p` occurs in `s` at `i` when case is ignored. */
  predicate OccursAtIgnoringCase(s: string, p: string, i: int) {
    0 <= i && i + |p| <= |s| && forall m :: 0 <= m < |p| ==> LowerChar(s[i + m]) == LowerChar(p[m])
  }

  /** `s.range(of: p, options: .caseInsensitive) != nil` */
  predicate ContainsIgnoringCase(s: string, p: string) {
    exists i | 0 <= i <= |s| :: OccursAtIgnoringCase(s, p, i)
  }

  /** Searching without regard to case is searching the lowercased texts. */
  lemma ContainsIgnoringCaseLower(s: string, p: string)
    ensures ContainsIgnoringCase(s, p) <==> Contains(Lower(s), Lower(p))
  {
    forall i | 0 <= i <= |s| ensures OccursAtIgnoringCase(s, p, i) <==> OccursAt(Lower(s), Lower(p), i) {
      if i + |p| <= |s| {
        var w := Lower(s)[i..][..|p|];
        assert forall m :: 0 <= m < |p| ==> w[m] == LowerChar(s[i + m]);
      }
    }
  }

  /** One of the phrases occurs in the text, ignoring case. */
  predicate ContainsPhrase(text: string, phrases: seq<string>) {
    exists k :: 0 <= k < |phrases| && ContainsIgnoringCase(text, phrases[k])
  }

  /** `matches(preprocessedText:)` */
  predicate MatchesPreprocessed(t: LicenseType, text: string) {
    ContainsPhrase(text, MatchStrings(t))
  }

  /** `matches(_:)` */
  predicate Matches(t: LicenseType, licenseText: string) {
    MatchesPreprocessed(t, Preprocess(licenseText))
  }

  /** The index of the first of `types` that satisfies `matches`, or `|types|`. */
  function FirstMatch(types: seq<LicenseType>, matches: LicenseType -> bool): (n: nat)
    ensures n <= |types|
    ensures forall j :: 0 <= j < n ==> !matches(types[j])
    ensures n < |types| ==> matches(types[n])
    decreases |types|
  {
    if types == [] || matches(types[0]) then 0
    else
      var n := FirstMatch(types[1..], matches);
      assert forall j :: 1 <= j <= n ==> types[j] == types[1..][j - 1];
      n + 1
  }

  /** `first(where:)` over a list of types. */
  function FirstOf(types: seq<LicenseType>, matches: LicenseType -> bool): Option<LicenseType> {
    var n := FirstMatch(types, matches);
    if n < |types| then Some(types[n]) else None
  }

  /** The closure `init?(licenseText:)` hands to `first(where:)`. */
  function MatcherFor(preprocessedText: string): LicenseType -> bool {
    t => MatchesPreprocessed(t, preprocessedText)
  }

  /** `LicenseType(licenseText:)`, which is `nil` when no type matches. */
  function Classify(licenseText: string): Option<LicenseType> {
    FirstOf(AllLicenseTypes, MatcherFor(Preprocess(licenseText)))
  }

  /** `first(where:)` finds the earliest matching type, and nothing exactly when none matches. */
  lemma FirstOfIsFirst(types: seq<LicenseType>, matches: LicenseType -> bool)
    ensures var r := FirstOf(types, matches);
            && (r.None? <==> forall n :: 0 <= n < |types| ==> !matches(types[n]))
            && (r.Some? ==>
                  exists n :: (0 <= n < |types| && types[n] == r.value && matches(r.value) &&
                               forall j :: 0 <= j < n ==> !matches(types[j])))
  {
  }

  /** No type is found exactly when no type matches the text. */
  lemma ClassifyNone(licenseText: string)
    ensures Classify(licenseText).None? <==>
            forall n :: 0 <= n < |AllLicenseTypes| ==> !Matches(AllLicenseTypes[n], licenseText)
  {
    var m := MatcherFor(Preprocess(licenseText));
    FirstOfIsFirst(AllLicenseTypes, m);
    assert forall n :: 0 <= n < |AllLicenseTypes| ==> m(AllLicenseTypes[n]) == Matches(AllLicenseTypes[n], licenseText);
  }

  /** The type found is the first type in declaration order that matches the text. */
  lemma ClassifyFirst(licenseText: string)
    ensures var r := Classify(licenseText);
            r.Some? ==>
              exists n :: (0 <= n < |AllLicenseTypes| && AllLicenseTypes[n] == r.value &&
                           Matches(r.value, licenseText) &&
                           forall j :: 0 <= j < n ==> !Matches(AllLicenseTypes[j], licenseText))
  {
    var m := MatcherFor(Preprocess(licenseText));
    FirstOfIsFirst(AllLicenseTypes, m);
    assert forall n :: 0 <= n < |AllLicenseTypes| ==> m(AllLicenseTypes[n]) == Matches(AllLicenseTypes[n], licenseText);
  }
}
