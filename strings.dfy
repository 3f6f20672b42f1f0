/**
 * The Foundation string operations the core relies on, as functions over
 * `seq<char>`: prefix and substring search (`hasPrefix`, `range(of:)`,
 * `contains`), `replacingOccurrences(of:with:)`, `components(separatedBy:)`,
 * `joined(separator:)`, ASCII `lowercased()` and decimal formatting of a count.
 */
module Strings {
  import opened Wrappers

  /** `s.hasPrefix(p)` */
  predicate StartsWith(s: string, p: string) {
    |p| <= |s| && s[..|p|] == p
  }

  /** `s.hasSuffix(p)` */
  predicate EndsWith(s: string, p: string) {
    |p| <= |s| && s[|s| - |p|..] == p
  }

  /** `p` occurs in `s` at index `i`. */
  predicate OccursAt(s: string, p: string, i: int) {
    0 <= i <= |s| && StartsWith(s[i..], p)
  }

  /** `s.contains(p)` */
  predicate Contains(s: string, p: string) {
    exists i | 0 <= i <= |s| :: OccursAt(s, p, i)
  }

  lemma {:induction false} OccursShift(s: string, p: string, k: nat, i: int)
    requires k <= |s|
    ensures OccursAt(s[k..], p, i) <==> (0 <= i && OccursAt(s, p, k + i))
  {
    if 0 <= i <= |s| - k {
      assert s[k..][i..] == s[k + i..];
    }
  }

  /** The index of the first occurrence of `p` in `s`, as `s.range(of: p)?.lowerBound`. */
  function Find(s: string, p: string): (r: Option<nat>)
    ensures r.Some? ==> OccursAt(s, p, r.value)
    ensures r.Some? ==> forall j :: 0 <= j < r.value ==> !OccursAt(s, p, j)
    ensures r.None? <==> !Contains(s, p)
    decreases |s|
  {
    if StartsWith(s, p) then
      assert s[0..] == s && OccursAt(s, p, 0);
      Some(0)
    else if s == [] then None
    else
      match Find(s[1..], p)
      case None =>
        FindMiss(s, p);
        None
      case Some(k) =>
        FindShift(s, p, k);
        Some(k + 1)
  }

  /** No occurrence in the tail and none at the front: none at all. */
  lemma FindMiss(s: string, p: string)
    requires s != [] && !StartsWith(s, p) && !Contains(s[1..], p)
    ensures !Contains(s, p)
  {
    forall i | OccursAt(s, p, i) ensures false {
      OccursShift(s, p, 1, i - 1);
    }
  }

  /** The first occurrence in the tail, shifted by one, is the first in `s` when none is at the front. */
  lemma FindShift(s: string, p: string, k: nat)
    requires s != [] && !StartsWith(s, p) && OccursAt(s[1..], p, k)
    requires forall j :: 0 <= j < k ==> !OccursAt(s[1..], p, j)
    ensures OccursAt(s, p, k + 1) && forall j :: 0 <= j < k + 1 ==> !OccursAt(s, p, j)
  {
    OccursShift(s, p, 1, k);
    assert s[0..] == s;
    forall j | 0 < j < k + 1 ensures !OccursAt(s, p, j) {
      OccursShift(s, p, 1, j - 1);
    }
  }

  /** A pattern holding a character that `s` lacks does not occur in `s`. */
  lemma NotContainsChar(s: string, p: string, d: nat)
    requires d < |p| && p[d] !in s
    ensures !Contains(s, p)
  {
    forall i | 0 <= i && i + |p| <= |s| ensures s[i..][..|p|][d] != p[d] {
      assert s[i..][..|p|][d] == s[i + d];
    }
  }

  /** A text without `q` holds no pattern that starts with `q`. */
  lemma NotContainsPrefix(s: string, p: string, q: string)
    requires StartsWith(p, q) && !Contains(s, q)
    ensures !Contains(s, p)
  {
    forall i | 0 <= i <= |s| && OccursAt(s, p, i) ensures OccursAt(s, q, i) {
      assert s[i..][..|q|] == s[i..][..|p|][..|q|];
    }
  }

  /** A text without `q` holds no pattern that ends with `q`. */
  lemma NotContainsSuffix(s: string, p: string, q: string)
    requires EndsWith(p, q) && !Contains(s, q)
    ensures !Contains(s, p)
  {
    forall i | 0 <= i <= |s| && OccursAt(s, p, i) ensures OccursAt(s, q, i + |p| - |q|) {
      assert s[i + |p| - |q|..][..|q|] == s[i..][..|p|][|p| - |q|..];
    }
  }

  /**
   * `p` is found where `y` starts, after `a`, when the character `p[d]`
   * appears neither in `a` nor earlier in `p`.
   */
  lemma FindFirstAt(a: string, y: string, p: string, d: nat)
    requires StartsWith(y, p) && d < |p| && p[d] !in a && p[d] !in p[..d]
    ensures Find(a + y, p) == Some(|a|)
  {
    var s := a + y;
    assert s[|a|..] == y;
    assert OccursAt(s, p, |a|);
    var front := a + p[..d];
    assert p[d] !in front;
    assert forall n :: 0 <= n < |a| + d ==> s[n] == front[n] by {
      forall n | 0 <= n < |a| + d ensures s[n] == front[n] {
        if n >= |a| {
          assert y[..|p|][n - |a|] == p[n - |a|];
        }
      }
    }
    forall j | 0 <= j < |a| && j + |p| <= |s| ensures s[j..][..|p|][d] != p[d] {
      assert s[j..][..|p|][d] == s[j + d] == front[j + d];
    }
    assert forall j :: 0 <= j < |a| ==> !OccursAt(s, p, j);
  }

  /** The two-character pattern `[a, b]` does not occur in `x` when `x` lacks `a` or `b`. */
  lemma PairFree(x: string, a: char, b: char)
    requires a !in x || b !in x
    ensures !Contains(x, [a, b])
  {
    if a !in x {
      NotContainsChar(x, [a, b], 0);
    } else {
      NotContainsChar(x, [a, b], 1);
    }
  }

  /** `[a, b]` does not occur across the seam of `x + y` when `x` does not end in `a` or `y` does not start with `b`. */
  lemma PairFreeAppend(x: string, y: string, a: char, b: char)
    requires !Contains(x, [a, b]) && !Contains(y, [a, b])
    requires x == [] || y == [] || x[|x| - 1] != a || y[0] != b
    ensures !Contains(x + y, [a, b])
  {
    var s := x + y;
    forall i | 0 <= i && i + 2 <= |s| ensures s[i..][..2] != [a, b] {
      PairAt(s, i);
      if i + 1 < |x| {
        PairAt(x, i);
        assert !OccursAt(x, [a, b], i);
        assert s[i] == x[i] && s[i + 1] == x[i + 1];
      } else if i >= |x| {
        var k := i - |x|;
        PairAt(y, k);
        assert !OccursAt(y, [a, b], k);
        assert s[i] == y[k] && s[i + 1] == y[k + 1];
      } else {
        assert s[i] == x[|x| - 1] && s[i + 1] == y[0];
      }
    }
  }

  /** The two characters of `s` from position `i`. */
  lemma PairAt(s: string, i: nat)
    requires i + 2 <= |s|
    ensures s[i..][..2] == [s[i], s[i + 1]]
  {
  }

  /**
   * `s.replacingOccurrences(of: pat, with: rep)`: scanning from the left,
   * every occurrence of `pat` that does not overlap an earlier replaced one
   * is replaced by `rep`.
   */
  function ReplaceAll(s: string, pat: string, rep: string): string
    requires pat != []
    decreases |s|
  {
    if s == [] then []
    else if StartsWith(s, pat) then rep + ReplaceAll(s[|pat|..], pat, rep)
    else [s[0]] + ReplaceAll(s[1..], pat, rep)
  }

  /** An occurrence of `pat` in `x + y` that begins inside `x` and ends inside `y`. */
  predicate NoStraddle(x: string, y: string, pat: string) {
    forall i :: 0 <= i < |x| < i + |pat| ==> !OccursAt(x + y, pat, i)
  }

  /** Replacing in a string with no occurrence changes nothing. */
  lemma {:induction false} ReplaceAllAbsent(s: string, pat: string, rep: string)
    requires pat != []
    requires !Contains(s, pat)
    ensures ReplaceAll(s, pat, rep) == s
    decreases |s|
  {
    if s != [] {
      assert !OccursAt(s, pat, 0);
      forall i | OccursAt(s[1..], pat, i) ensures false {
        OccursShift(s, pat, 1, i);
      }
      ReplaceAllAbsent(s[1..], pat, rep);
    }
  }

  /** An occurrence at the front is replaced and scanning resumes after it. */
  lemma ReplaceAllHit(pat: string, y: string, rep: string)
    requires pat != []
    ensures ReplaceAll(pat + y, pat, rep) == rep + ReplaceAll(y, pat, rep)
  {
    assert (pat + y)[..|pat|] == pat;
    assert (pat + y)[|pat|..] == y;
  }

  /** A prefix `x` at none of whose positions `pat` starts is copied unchanged. */
  lemma {:induction false} ReplaceAllSkip(x: string, y: string, pat: string, rep: string)
    requires pat != []
    requires forall i :: 0 <= i < |x| ==> !OccursAt(x + y, pat, i)
    ensures ReplaceAll(x + y, pat, rep) == x + ReplaceAll(y, pat, rep)
    decreases |x|
  {
    if x != [] {
      var s := x + y;
      assert !OccursAt(s, pat, 0);
      assert s[0..] == s;
      assert !StartsWith(s, pat);
      assert s[1..] == x[1..] + y;
      forall i | 0 <= i < |x[1..]| ensures !OccursAt(x[1..] + y, pat, i) {
        OccursShift(s, pat, 1, i);
      }
      ReplaceAllSkip(x[1..], y, pat, rep);
      assert ReplaceAll(s, pat, rep) == [s[0]] + ReplaceAll(s[1..], pat, rep);
      assert s[0] == x[0];
      assert [x[0]] + x[1..] == x;
    } else {
      assert x + y == y;
    }
  }

  /** A prefix free of the pattern's first character is copied unchanged. */
  lemma ReplaceAllSkipFree(x: string, y: string, pat: string, rep: string)
    requires pat != [] && pat[0] !in x
    ensures ReplaceAll(x + y, pat, rep) == x + ReplaceAll(y, pat, rep)
  {
    forall i | 0 <= i < |x| ensures !OccursAt(x + y, pat, i) {
      assert (x + y)[i..][0] == x[i];
    }
    ReplaceAllSkip(x, y, pat, rep);
  }

  /** Replacement distributes over a concatenation that no occurrence straddles. */
  lemma {:induction false} ReplaceAllAppend(x: string, y: string, pat: string, rep: string)
    requires pat != []
    requires NoStraddle(x, y, pat)
    ensures ReplaceAll(x + y, pat, rep) == ReplaceAll(x, pat, rep) + ReplaceAll(y, pat, rep)
    decreases |x|
  {
    if x == [] {
      assert x + y == y;
    } else if StartsWith(x + y, pat) {
      HitInside(x, y, pat);
      NoStraddleDrop(x, y, pat, |pat|);
      ReplaceAllAppend(x[|pat|..], y, pat, rep);
    } else {
      MissInside(x, y, pat);
      NoStraddleDrop(x, y, pat, 1);
      assert (x + y)[0] == x[0];
      ReplaceAllAppend(x[1..], y, pat, rep);
    }
  }

  /** An occurrence at the start of `x + y` that does not straddle lies inside `x`. */
  lemma HitInside(x: string, y: string, pat: string)
    requires pat != [] && x != [] && NoStraddle(x, y, pat) && StartsWith(x + y, pat)
    ensures |pat| <= |x| && StartsWith(x, pat)
  {
    assert OccursAt(x + y, pat, 0);
    assert (x + y)[..|pat|] == x[..|pat|];
  }

  /** No occurrence at the start of `x + y` means none at the start of `x`. */
  lemma MissInside(x: string, y: string, pat: string)
    requires !StartsWith(x + y, pat)
    ensures !StartsWith(x, pat)
  {
    assert |pat| <= |x| ==> (x + y)[..|pat|] == x[..|pat|];
  }

  /** Dropping a prefix of `x` keeps the concatenation free of straddling occurrences. */
  lemma NoStraddleDrop(x: string, y: string, pat: string, k: nat)
    requires k <= |x| && NoStraddle(x, y, pat)
    ensures (x + y)[k..] == x[k..] + y
    ensures NoStraddle(x[k..], y, pat)
  {
    assert (x + y)[k..] == x[k..] + y;
    forall i | 0 <= i < |x[k..]| < i + |pat| ensures !OccursAt(x[k..] + y, pat, i) {
      OccursShift(x + y, pat, k, i);
    }
  }

  /** An occurrence that straddles `x` and `y` puts a proper prefix of `pat` at the end of `x`. */
  lemma StraddleParts(x: string, y: string, pat: string, i: int)
    requires 0 <= i < |x| < i + |pat| && OccursAt(x + y, pat, i)
    ensures x[i..] == pat[..|x| - i] && y != [] && y[0] == pat[|x| - i]
  {
    var s := (x + y)[i..];
    assert s[..|pat|] == pat;
    forall t | 0 <= t < |x| - i ensures x[i..][t] == pat[..|x| - i][t] {
      assert s[t] == x[i + t];
    }
    assert s[|x| - i] == (x + y)[|x|];
  }

  /**
   * No occurrence straddles `x` and `y` when `y` never goes on with the rest
   * of the pattern after a suffix of `x` that begins it.
   */
  lemma NoStraddleBy(x: string, y: string, pat: string)
    requires forall d :: 1 <= d < |pat| && d <= |x| && x[|x| - d..] == pat[..d] ==> y == [] || y[0] != pat[d]
    ensures NoStraddle(x, y, pat)
  {
    forall i | 0 <= i < |x| < i + |pat| && OccursAt(x + y, pat, i) ensures false {
      StraddleParts(x, y, pat, i);
    }
  }

  /** `x` without the first character of the pattern leaves nothing to straddle. */
  lemma NoStraddleFirst(x: string, y: string, pat: string)
    requires pat != [] && pat[0] !in x
    ensures NoStraddle(x, y, pat)
  {
    forall d | 1 <= d < |pat| && d <= |x| && x[|x| - d..] == pat[..d] ensures false {
    }
    NoStraddleBy(x, y, pat);
  }

  /** The last character of `x` appears in the pattern only at its end. */
  lemma NoStraddleLast(x: string, y: string, pat: string)
    requires x != [] && pat != [] && x[|x| - 1] !in pat[..|pat| - 1]
    ensures NoStraddle(x, y, pat)
  {
    forall d | 1 <= d < |pat| && d <= |x| && x[|x| - d..] == pat[..d] ensures false {
    }
    NoStraddleBy(x, y, pat);
  }

  /**
   * `x` holds the second character of the pattern at most at its start, and
   * `y` does not begin with it.
   */
  lemma NoStraddleSecond(x: string, y: string, pat: string)
    requires |pat| >= 2 && x != [] && pat[1] !in x[1..] && (y == [] || y[0] != pat[1])
    ensures NoStraddle(x, y, pat)
  {
    forall d | 2 <= d < |pat| && d <= |x| && x[|x| - d..] == pat[..d] ensures false {
    }
    NoStraddleBy(x, y, pat);
  }

  /** A two-character pattern straddles only where `y` begins with its second character. */
  lemma NoStraddlePair(x: string, y: string, pat: string)
    requires |pat| == 2 && (y == [] || y[0] != pat[1])
    ensures NoStraddle(x, y, pat)
  {
    NoStraddleBy(x, y, pat);
  }

  /**
   * `x` holds the first character of the pattern at most at its start, and
   * is not itself a proper prefix of the pattern.
   */
  lemma NoStraddleWhole(x: string, y: string, pat: string)
    requires pat != [] && x != [] && pat[0] !in x[1..] && !(|x| < |pat| && x == pat[..|x|])
    ensures NoStraddle(x, y, pat)
  {
    forall d | 1 <= d < |pat| && d <= |x| && x[|x| - d..] == pat[..d] ensures false {
    }
    NoStraddleBy(x, y, pat);
  }

  /** A text that holds the first character of `pat` only at its start, and does not start with `pat`, lacks it. */
  lemma NotContainsWhole(s: string, pat: string)
    requires pat != [] && s != [] && pat[0] !in s[1..] && !StartsWith(s, pat)
    ensures !Contains(s, pat)
  {
    forall i | 0 <= i <= |s| && OccursAt(s, pat, i) ensures false {
    }
  }

  /** A text shorter than the pattern does not hold it. */
  lemma NotContainsShort(s: string, pat: string)
    requires |s| < |pat|
    ensures !Contains(s, pat)
  {
  }

  /** Neither part holds the pattern and no occurrence straddles them: the whole lacks it. */
  lemma NotContainsAppend(x: string, y: string, pat: string)
    requires !Contains(x, pat) && !Contains(y, pat) && NoStraddle(x, y, pat)
    ensures !Contains(x + y, pat)
  {
    forall i | 0 <= i <= |x + y| ensures !OccursAt(x + y, pat, i) {
      if i + |pat| <= |x| {
        assert (x + y)[i..][..|pat|] == x[i..][..|pat|];
        assert !OccursAt(x, pat, i);
      } else if |x| <= i {
        assert (x + y)[i..] == y[i - |x|..];
        assert !OccursAt(y, pat, i - |x|);
      }
    }
  }

  /**
   * A pattern whose first character does not recur in it cannot straddle
   * into text that starts with that character.
   */
  lemma LeadNoStraddle(x: string, y: string, pat: string)
    requires pat != [] && y != [] && y[0] == pat[0] && pat[0] !in pat[1..]
    ensures NoStraddle(x, y, pat)
  {
    forall d | 1 <= d < |pat| ensures pat[d] != y[0] {
      assert pat[1..][d - 1] == pat[d];
    }
    NoStraddleBy(x, y, pat);
  }

  /** The pattern is found where `y` starts when `x` lacks it and nothing straddles. */
  lemma FindAfter(x: string, y: string, pat: string)
    requires StartsWith(y, pat) && !Contains(x, pat) && NoStraddle(x, y, pat)
    ensures Find(x + y, pat) == Some(|x|)
  {
    var s := x + y;
    assert s[|x|..] == y;
    assert OccursAt(s, pat, |x|);
    forall i | 0 <= i < |x| ensures !OccursAt(s, pat, i) {
      if i + |pat| <= |x| {
        assert s[i..][..|pat|] == x[i..][..|pat|];
        assert !OccursAt(x, pat, i);
      }
    }
    var r := Find(s, pat);
    assert r.Some?;
    assert r.value == |x|;
  }

  /** A pattern whose first character does not recur in it is found where it starts `y`, after text that lacks it. */
  lemma FindAfterLead(x: string, pat: string, y: string)
    requires pat != [] && pat[0] !in pat[1..] && !Contains(x, pat) && StartsWith(y, pat)
    ensures Find(x + y, pat) == Some(|x|)
  {
    assert y[0] == y[..|pat|][0] == pat[0];
    LeadNoStraddle(x, y, pat);
    FindAfter(x, y, pat);
  }


  /** A one-character pattern cannot straddle, so its replacement always distributes. */
  lemma ReplaceAllAppendChar(x: string, y: string, c: char, rep: string)
    ensures ReplaceAll(x + y, [c], rep) == ReplaceAll(x, [c], rep) + ReplaceAll(y, [c], rep)
  {
    ReplaceAllAppend(x, y, [c], rep);
  }

  /** A character that is neither in the input nor in the replacement is not in the output. */
  lemma {:induction false} ReplaceAllKeepsOut(s: string, pat: string, rep: string, c: char)
    requires pat != [] && c !in s && c !in rep
    ensures c !in ReplaceAll(s, pat, rep)
    decreases |s|
  {
    if s != [] {
      if StartsWith(s, pat) {
        ReplaceAllKeepsOut(s[|pat|..], pat, rep, c);
      } else {
        ReplaceAllKeepsOut(s[1..], pat, rep, c);
      }
    }
  }

  /** Replacing a single character by text without it removes every occurrence of it. */
  lemma {:induction false} ReplaceAllRemoves(s: string, c: char, rep: string)
    requires c !in rep
    ensures c !in ReplaceAll(s, [c], rep)
    decreases |s|
  {
    if s != [] {
      if StartsWith(s, [c]) {
        ReplaceAllRemoves(s[1..], c, rep);
      } else {
        assert s[0] != c;
        ReplaceAllRemoves(s[1..], c, rep);
      }
    }
  }

  /** The last character survives replacement of a pattern that does not contain it. */
  lemma {:induction false} ReplaceAllKeepsLast(s: string, pat: string, rep: string)
    requires pat != [] && s != [] && s[|s| - 1] !in pat
    ensures ReplaceAll(s, pat, rep) != [] && ReplaceAll(s, pat, rep)[|ReplaceAll(s, pat, rep)| - 1] == s[|s| - 1]
    decreases |s|
  {
    if StartsWith(s, pat) {
      assert forall i :: 0 <= i < |pat| ==> s[i] == pat[i] && pat[i] in pat;
      assert |pat| < |s|;
      assert s[|pat|..][|s[|pat|..]| - 1] == s[|s| - 1];
      ReplaceAllKeepsLast(s[|pat|..], pat, rep);
    } else if |s| > 1 {
      assert s[1..][|s[1..]| - 1] == s[|s| - 1];
      ReplaceAllKeepsLast(s[1..], pat, rep);
    }
  }

  /** The first character survives replacement of a pattern that does not start with it. */
  lemma ReplaceAllKeepsFirst(s: string, pat: string, rep: string)
    requires pat != [] && s != [] && s[0] != pat[0]
    ensures ReplaceAll(s, pat, rep) == [s[0]] + ReplaceAll(s[1..], pat, rep)
  {
  }

  /** The strings of `parts` one after another. */
  function Concat(parts: seq<string>): string
    decreases |parts|
  {
    if parts == [] then [] else parts[0] + Concat(parts[1..])
  }

  /** A character in none of the parts is not in their concatenation. */
  lemma {:induction false} ConcatLacks(parts: seq<string>, c: char)
    requires forall i :: 0 <= i < |parts| ==> c !in parts[i]
    ensures c !in Concat(parts)
    decreases |parts|
  {
    if parts != [] {
      ConcatLacks(parts[1..], c);
    }
  }

  /** A concatenation ends with the last character of its last part. */
  lemma {:induction false} ConcatLast(parts: seq<string>)
    requires parts != [] && parts[|parts| - 1] != []
    ensures var c := Concat(parts); c != [] && c[|c| - 1] == parts[|parts| - 1][|parts[|parts| - 1]| - 1]
    decreases |parts|
  {
    if |parts| > 1 {
      assert parts[1..][|parts[1..]| - 1] == parts[|parts| - 1];
      ConcatLast(parts[1..]);
    }
  }

  /**
   * `[a, b]` does not occur in a concatenation of non-empty parts each of
   * which lacks `a` or `b`, when no part ending in `a` is followed by one
   * starting with `b`.
   */
  lemma {:induction false} ConcatPairFree(parts: seq<string>, a: char, b: char)
    requires forall i :: 0 <= i < |parts| ==> parts[i] != [] && (a !in parts[i] || b !in parts[i])
    requires forall i :: 0 < i < |parts| ==> parts[i - 1][|parts[i - 1]| - 1] != a || parts[i][0] != b
    ensures !Contains(Concat(parts), [a, b])
    decreases |parts|
  {
    if parts == [] {
      PairFree([], a, b);
    } else {
      ConcatPairFree(parts[1..], a, b);
      PairFree(parts[0], a, b);
      if |parts| > 1 {
        assert Concat(parts[1..])[0] == parts[1][0];
      }
      PairFreeAppend(parts[0], Concat(parts[1..]), a, b);
    }
  }

  /** `parts.joined(separator: sep)` */
  function Join(parts: seq<string>, sep: string): string
    decreases |parts|
  {
    if |parts| == 0 then []
    else if |parts| == 1 then parts[0]
    else parts[0] + sep + Join(parts[1..], sep)
  }

  /** Joining one more part adds the separator and the part. */
  lemma {:induction false} JoinAppend(parts: seq<string>, x: string, sep: string)
    requires parts != []
    ensures Join(parts + [x], sep) == Join(parts, sep) + sep + x
    decreases |parts|
  {
    if |parts| == 1 {
      assert (parts + [x])[1..] == [x];
    } else {
      assert (parts + [x])[1..] == parts[1..] + [x];
      JoinAppend(parts[1..], x, sep);
    }
  }

  /** Joining with an empty separator concatenates. */
  lemma {:induction false} JoinNoSeparator(parts: seq<string>)
    ensures Join(parts, []) == Concat(parts)
    decreases |parts|
  {
    if |parts| == 1 {
      assert Concat(parts[1..]) == [];
    } else if |parts| > 1 {
      JoinNoSeparator(parts[1..]);
    }
  }

  /** `s.components(separatedBy: [sep])`: the maximal separator-free pieces, empty ones included. */
  function Split(s: string, sep: char): (parts: seq<string>)
    ensures |parts| >= 1
    ensures forall k :: 0 <= k < |parts| ==> sep !in parts[k]
    ensures Join(parts, [sep]) == s
    decreases |s|
  {
    if s == [] then [[]]
    else
      var rest := Split(s[1..], sep);
      if s[0] == sep then
        assert Join([[]] + rest, [sep]) == [] + [sep] + Join(rest, [sep]);
        [[]] + rest
      else
        var parts := [[s[0]] + rest[0]] + rest[1..];
        assert parts[1..] == rest[1..];
        assert Join(parts, [sep]) == [s[0]] + Join(rest, [sep]);
        parts
  }

  /** Text without the separator is one piece. */
  lemma {:induction false} SplitNone(a: string, sep: char)
    requires sep !in a
    ensures Split(a, sep) == [a]
    decreases |a|
  {
    if a != [] {
      SplitNone(a[1..], sep);
      assert [a[0]] + a[1..] == a;
    }
  }

  /** Separator-free text and a separator come off the front as one piece. */
  lemma {:induction false} SplitCons(a: string, rest: string, sep: char)
    requires sep !in a
    ensures Split(a + [sep] + rest, sep) == [a] + Split(rest, sep)
    decreases |a|
  {
    var s := a + [sep] + rest;
    if a == [] {
      assert s[1..] == rest;
    } else {
      assert s[1..] == a[1..] + [sep] + rest;
      SplitCons(a[1..], rest, sep);
      assert [a[0]] + a[1..] == a;
    }
  }

  /** Splitting undoes joining, when no part holds the separator. */
  lemma {:induction false} SplitJoin(parts: seq<string>, sep: char)
    requires parts != [] && forall k :: 0 <= k < |parts| ==> sep !in parts[k]
    ensures Split(Join(parts, [sep]), sep) == parts
    decreases |parts|
  {
    if |parts| == 1 {
      SplitNone(parts[0], sep);
    } else {
      SplitJoin(parts[1..], sep);
      SplitCons(parts[0], Join(parts[1..], [sep]), sep);
      assert [parts[0]] + parts[1..] == parts;
    }
  }

  /** Every `from` in `s` replaced by `to`. */
  function MapChar(s: string, from: char, to: char): string {
    seq(|s|, i requires 0 <= i < |s| => if s[i] == from then to else s[i])
  }

  /** Splitting at one character and joining with another swaps the characters. */
  lemma {:induction false} JoinSplit(s: string, sep: char, glue: char)
    ensures Join(Split(s, sep), [glue]) == MapChar(s, sep, glue)
    decreases |s|
  {
    if s != [] {
      JoinSplit(s[1..], sep, glue);
      var rest := Split(s[1..], sep);
      MapCharCons(s, sep, glue);
      if s[0] != sep {
        JoinPrependFirst(s[0], rest, glue);
      } else {
        JoinPrependEmpty(rest, glue);
      }
    }
  }

  lemma MapCharCons(s: string, from: char, to: char)
    requires s != []
    ensures MapChar(s, from, to) == [if s[0] == from then to else s[0]] + MapChar(s[1..], from, to)
  {
  }

  lemma JoinPrependFirst(c: char, rest: seq<string>, glue: char)
    requires rest != []
    ensures Join([[c] + rest[0]] + rest[1..], [glue]) == [c] + Join(rest, [glue])
  {
    var parts := [[c] + rest[0]] + rest[1..];
    assert parts[1..] == rest[1..];
  }

  lemma JoinPrependEmpty(rest: seq<string>, glue: char)
    requires rest != []
    ensures Join([[]] + rest, [glue]) == [glue] + Join(rest, [glue])
  {
    assert ([[]] + rest)[1..] == rest;
  }

  lemma MapCharAppend(x: string, y: string, from: char, to: char)
    ensures MapChar(x + y, from, to) == MapChar(x, from, to) + MapChar(y, from, to)
  {
  }

  /** Mapping a character away and back is the identity when the target was absent. */
  lemma MapCharBack(s: string, a: char, b: char)
    requires b !in s
    ensures MapChar(MapChar(s, a, b), b, a) == s
  {
  }

  predicate IsUpper(c: char) { 'A' <= c <= 'Z' }

  /** ASCII `Character.lowercased()` */
  function LowerChar(c: char): (r: char)
    ensures !IsUpper(r)
    ensures !IsUpper(c) ==> r == c
  {
    if IsUpper(c) then (c as int - 'A' as int + 'a' as int) as char else c
  }

  /** ASCII `String.lowercased()` */
  function Lower(s: string): (r: string)
    ensures |r| == |s|
    ensures forall i :: 0 <= i < |s| ==> r[i] == LowerChar(s[i])
    ensures forall i :: 0 <= i < |r| ==> !IsUpper(r[i])
    ensures (forall i :: 0 <= i < |s| ==> !IsUpper(s[i])) ==> r == s
  {
    seq(|s|, i requires 0 <= i < |s| => LowerChar(s[i]))
  }

  /** Lowercasing twice is lowercasing once. */
  lemma LowerIdempotent(s: string)
    ensures Lower(Lower(s)) == Lower(s)
  {
    var r := Lower(s);
    assert forall i :: 0 <= i < |r| ==> !IsUpper(r[i]);
  }

  lemma LowerAppend(x: string, y: string)
    ensures Lower(x + y) == Lower(x) + Lower(y)
  {
  }

  function Digit(d: nat): (c: char)
    requires d < 10
    ensures '0' <= c <= '9'
  {
    ('0' as int + d) as char
  }

  predicate AllDigits(s: string) {
    forall i :: 0 <= i < |s| ==> '0' <= s[i] <= '9'
  }

  /** `"\(n)"`: the decimal digits of `n`, without leading zeros. */
  function NatToString(n: nat): (r: string)
    ensures r != [] && AllDigits(r)
    decreases n
  {
    if n < 10 then [Digit(n)] else NatToString(n / 10) + [Digit(n % 10)]
  }

  /** The value of a string of decimal digits. */
  function DigitsValue(s: string): nat
    requires AllDigits(s)
    decreases |s|
  {
    if s == [] then 0 else DigitsValue(s[..|s| - 1]) * 10 + (s[|s| - 1] as int - '0' as int)
  }

  lemma {:induction false} NatToStringInverse(n: nat)
    ensures DigitsValue(NatToString(n)) == n
    decreases n
  {
    if n >= 10 {
      NatToStringInverse(n / 10);
      var s := NatToString(n);
      assert s[..|s| - 1] == NatToString(n / 10);
    }
  }

  /** Distinct numbers are written differently. */
  lemma NatToStringInjective(a: nat, b: nat)
    requires NatToString(a) == NatToString(b)
    ensures a == b
  {
    NatToStringInverse(a);
    NatToStringInverse(b);
  }

  /** What follows the last `c` in `s`, or `None` when `s` has no `c`. */
  function AfterLast(s: string, c: char): (r: Option<string>)
    ensures r.Some? ==> c !in r.value && EndsWith(s, [c] + r.value)
    ensures r.None? <==> c !in s
    decreases |s|
  {
    if s == [] then None
    else if s[|s| - 1] == c then
      assert EndsWith(s, [c]);
      Some([])
    else
      var front := s[..|s| - 1];
      assert s == front + [s[|s| - 1]];
      match AfterLast(front, c)
      case None => None
      case Some(t) =>
        assert s[|s| - |t| - 2..] == front[|front| - |t| - 1..] + [s[|s| - 1]];
        Some(t + [s[|s| - 1]])
  }

  /** One character that is not `c`, appended, extends what follows the last `c`. */
  lemma AfterLastSnoc(x: string, d: char, c: char)
    requires d != c
    ensures AfterLast(x + [d], c) == match AfterLast(x, c) case None => None case Some(t) => Some(t + [d])
  {
    var s := x + [d];
    assert s[..|s| - 1] == x && s[|s| - 1] == d;
  }

  lemma AppendDropLast(x: string, y: string)
    requires y != []
    ensures x + y[..|y| - 1] + [y[|y| - 1]] == x + y
  {
    assert y == y[..|y| - 1] + [y[|y| - 1]];
  }

  /** Appending text without `c` extends what follows the last `c`. */
  lemma {:induction false} AfterLastTail(x: string, y: string, c: char)
    requires c !in y
    ensures AfterLast(x + y, c) == match AfterLast(x, c) case None => None case Some(t) => Some(t + y)
    decreases |y|
  {
    if y != [] {
      var y' := y[..|y| - 1];
      var last := y[|y| - 1];
      AppendDropLast(x, y);
      AfterLastTail(x, y', c);
      AfterLastSnoc(x + y', last, c);
      match AfterLast(x, c)
      case None =>
      case Some(t) =>
        AppendDropLast(t, y);
    } else {
      assert x + y == x;
      match AfterLast(x, c)
      case None =>
      case Some(t) =>
        assert t + y == t;
    }
  }

  /** What follows the last `c` of `x + [c] + y`, when `y` has no `c`, is `y`. */
  lemma AfterLastAppend(x: string, y: string, c: char)
    requires c !in y
    ensures AfterLast(x + [c] + y, c) == Some(y)
  {
    assert (x + [c])[|x + [c]| - 1] == c;
    assert AfterLast(x + [c], c) == Some([]);
    AfterLastTail(x + [c], y, c);
    assert [] + y == y;
  }

  /** The ASCII members of `CharacterSet.whitespacesAndNewlines` (the model keeps to ASCII). */
  predicate IsSpace(c: char) {
    c == ' ' || c == '\t' || c == '\n' || c == '\r' || c == '\U{0B}' || c == '\U{0C}'
  }

  /** The first index at or after `i` that holds no whitespace, or `|s|`. */
  function SkipSpaces(s: string, i: nat): (k: nat)
    requires i <= |s|
    ensures i <= k <= |s|
    ensures forall n :: i <= n < k ==> IsSpace(s[n])
    ensures k < |s| ==> !IsSpace(s[k])
    decreases |s| - i
  {
    if i < |s| && IsSpace(s[i]) then SkipSpaces(s, i + 1) else i
  }

  /** The index just past the last character of `s[i..j]` that is no whitespace, or `i`. */
  function BackSpaces(s: string, i: nat, j: nat): (k: nat)
    requires i <= j <= |s|
    ensures i <= k <= j
    ensures forall n :: k <= n < j ==> IsSpace(s[n])
    ensures k > i ==> !IsSpace(s[k - 1])
    decreases j
  {
    if j > i && IsSpace(s[j - 1]) then BackSpaces(s, i, j - 1) else j
  }

  /** `s.trimmingCharacters(in: .whitespacesAndNewlines)` */
  function Trim(s: string): (r: string)
    ensures r == [] || (!IsSpace(r[0]) && !IsSpace(r[|r| - 1]))
    ensures exists i, j :: 0 <= i <= j <= |s| && r == s[i..j] &&
              (forall n :: 0 <= n < i ==> IsSpace(s[n])) && (forall n :: j <= n < |s| ==> IsSpace(s[n]))
  {
    var i := SkipSpaces(s, 0);
    s[i..BackSpaces(s, i, |s|)]
  }

  /** Trimming keeps every occurrence of a pattern that neither starts nor ends with whitespace. */
  lemma TrimContains(s: string, p: string)
    requires p != [] && !IsSpace(p[0]) && !IsSpace(p[|p| - 1])
    ensures Contains(Trim(s), p) <==> Contains(s, p)
  {
    var i := SkipSpaces(s, 0);
    var j := BackSpaces(s, i, |s|);
    assert Trim(s) == s[i..j];
    if Contains(s[i..j], p) {
      var n :| 0 <= n <= |s[i..j]| && OccursAt(s[i..j], p, n);
      SliceOccurs(s, i, j, p, n);
    }
    if Contains(s, p) {
      var n :| 0 <= n <= |s| && OccursAt(s, p, n);
      OccursInside(s, i, j, p, n);
    }
  }

  /** An occurrence in a slice is one in the whole text, shifted by where the slice starts. */
  lemma SliceOccurs(s: string, i: nat, j: nat, p: string, n: int)
    requires i <= j <= |s| && OccursAt(s[i..j], p, n)
    ensures OccursAt(s, p, i + n)
  {
    var t := s[i..j];
    assert t[n..][..|p|] == p;
    assert s[i + n..][..|p|] == t[n..][..|p|];
  }

  /**
   * An occurrence of a pattern that neither starts nor ends with whitespace
   * lies inside the part of the text between leading and trailing whitespace.
   */
  lemma OccursInside(s: string, i: nat, j: nat, p: string, n: int)
    requires p != [] && !IsSpace(p[0]) && !IsSpace(p[|p| - 1])
    requires i <= j <= |s| && OccursAt(s, p, n)
    requires forall m :: 0 <= m < i ==> IsSpace(s[m])
    requires forall m :: j <= m < |s| ==> IsSpace(s[m])
    ensures OccursAt(s[i..j], p, n - i)
  {
    assert s[n..][..|p|] == p;
    assert s[n] == p[0];
    assert s[n + |p| - 1] == p[|p| - 1];
    assert i <= n && n + |p| <= j;
    var u, v := s[i..j][n - i..], s[n..];
    assert forall m :: 0 <= m < |p| ==> u[m] == v[m];
    assert u[..|p|] == v[..|p|];
  }

  /** The first character of the trimmed text is the first character of `s` that is no whitespace. */
  lemma TrimFirst(s: string)
    ensures var k := SkipSpaces(s, 0);
            (Trim(s) == [] <==> k == |s|) && (k < |s| ==> Trim(s)[0] == s[k])
  {
  }

  /** The number of occurrences of `c` in `s`. */
  function CountChar(s: string, c: char): nat
    decreases |s|
  {
    if s == [] then 0 else (if s[0] == c then 1 else 0) + CountChar(s[1..], c)
  }

  lemma {:induction false} CountCharAppend(x: string, y: string, c: char)
    ensures CountChar(x + y, c) == CountChar(x, c) + CountChar(y, c)
    decreases |x|
  {
    if x == [] {
      assert x + y == y;
    } else {
      assert (x + y)[1..] == x[1..] + y;
      CountCharAppend(x[1..], y, c);
    }
  }

  lemma {:induction false} CountCharAbsent(s: string, c: char)
    requires c !in s
    ensures CountChar(s, c) == 0
    decreases |s|
  {
    if s != [] {
      CountCharAbsent(s[1..], c);
    }
  }
}
